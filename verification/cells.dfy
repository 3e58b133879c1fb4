/**
 The shared atomic storage behind every instrument handle. Each Rust
 `Arc<AtomicUsize>` / `Arc<AtomicU64>` is one cell of a heap; cloning a handle
 copies the cell's address, never its value. Each atomic operation is a single
 sequential step from one heap to the next.
 */
module Cells {
  import opened Words

  type Heap = seq<U64>

  /** The value an operation returns together with the heap it leaves behind. */
  datatype Step<+T> = Step(value: T, heap: Heap)

  /** Atomic `swap`: stores `v` and returns what the cell held. */
  function Swap(h: Heap, a: nat, v: U64): (r: Step<U64>)
    requires a < |h|
    ensures r.value == h[a]
    ensures |r.heap| == |h| && r.heap[a] == v
    ensures forall b :: 0 <= b < |h| && b != a ==> r.heap[b] == h[b]
  {
    Step(h[a], h[a := v])
  }

  /** Atomic `fetch_add`: adds `n` with wrap-around and returns what the cell held. */
  function FetchAdd(h: Heap, a: nat, n: U64): (r: Step<U64>)
    requires a < |h|
    ensures r.value == h[a]
    ensures |r.heap| == |h| && r.heap[a] == WrappingAdd(h[a], n)
    ensures forall b :: 0 <= b < |h| && b != a ==> r.heap[b] == h[b]
  {
    Step(h[a], h[a := WrappingAdd(h[a], n)])
  }

  /** `n` freshly allocated cells holding 0, placed after every existing cell. */
  function Alloc(h: Heap, n: nat): (r: Heap)
    ensures |r| == |h| + n
    ensures forall a :: 0 <= a < |h| ==> r[a] == h[a]
    ensures forall a :: |h| <= a < |r| ==> r[a] == 0
  {
    h + seq(n, _ => 0)
  }
}

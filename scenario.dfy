/**
  A min-heap of integers driven through peek and pushPop. Every assertion
  below follows from the contracts of `BinaryHeap` alone.
*/
module Scenarios {
  import opened Comparators
  import opened BinaryHeaps

  /** An element no other element outranks under `Ascending` is the least one. */
  lemma LeastIs(s: seq<int>, m: multiset<int>, v: int, least: int)
    requires multiset(s) == m && v in s && least in m
    requires forall x | x in m :: least <= x
    requires forall x | x in s :: Ascending(v, x) <= 0
    ensures v == least
  {
    assert least in multiset(s);
    assert least in s && v in multiset(s);
    assert Ascending(v, least) <= 0;
  }

  /**
    From the contents 3, 5, 8: pushPop(2) evicts the root 3 and leaves 2 at
    the root; pushPop(10) then returns 10 and changes nothing.
  */
  method EvictionScenario() {
    AscendingIsTotalPreorder();
    var h := new BinaryHeap<int>(Ascending, Some([3, 5, 8]));
    var top := h.Peek();
    LeastIs(h.data, multiset{3, 5, 8}, top.value, 3);
    assert h.data[0] == 3;

    var out := h.PushPop(2);
    assert out == 3;
    assert h.data[0] == 2;

    ghost var before := h.data;
    out := h.PushPop(10);
    assert out == 10 && h.data == before;
  }
}

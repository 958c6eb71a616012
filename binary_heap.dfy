/**
  A generic binary heap over a growable array, ordered by a comparator the
  caller supplies: `cmp(a, b) < 0` puts `a` nearer the root. The array is
  the sequence field `data`, which every mutating method reassigns cell by
  cell or by appending and removing at its end.
*/
module BinaryHeaps {
  import opened Comparators
  import opened HeapOrder

  /** `T | undefined`: the result of `peek`, `pop` and `replaceTop`. */
  datatype Option<T> = None | Some(value: T)

  class BinaryHeap<T(!new)> {
    var data: seq<T>
    const cmp: (T, T) -> int

    /** The object invariant: a lawful comparator, and no child outranks its parent. */
    ghost predicate Valid()
      reads this
    {
      TotalPreorder(cmp) && IsHeap(data, cmp)
    }

    /**
      `new BinaryHeap(comparator, initial?)`: an absent collection leaves the
      heap empty; a present one is copied in order and heapified.
    */
    constructor (comparator: (T, T) -> int, initial: Option<seq<T>>)
      requires TotalPreorder(comparator)
      ensures Valid() && cmp == comparator
      ensures initial.None? ==> data == []
      ensures initial.Some? ==> |data| == |initial.value| && multiset(data) == multiset(initial.value)
    {
      cmp := comparator;
      data := if initial.Some? then initial.value else [];
      new;
      if initial.Some? {
        Heapify();
      }
    }

    /** The number of elements. */
    function Size(): (n: nat)
      reads this
      ensures n == |multiset(data)|
    {
      |data|
    }

    /** True exactly when the heap holds no element. */
    function IsEmpty(): (b: bool)
      reads this
      ensures b <==> multiset(data) == multiset{}
    {
      |data| == 0
    }

    /**
      The root, or `None` on an empty heap. No element of the heap strictly
      outranks it.
    */
    function Peek(): (r: Option<T>)
      reads this
      requires Valid()
      ensures r.None? <==> |data| == 0
      ensures r.Some? ==> r.value in data && r.value == data[0]
      ensures r.Some? ==> forall x | x in data :: cmp(r.value, x) <= 0
    {
      if |data| == 0 then None else RootOutranksAll(data, cmp); Some(data[0])
    }

    /** Empties the heap; the comparator is kept. */
    method Clear()
      requires Valid()
      modifies this
      ensures Valid() && data == []
    {
      data := [];
    }

    /** Appends `value` and sifts it up. */
    method Push(value: T)
      requires Valid()
      modifies this
      ensures Valid()
      ensures |data| == |old(data)| + 1
      ensures multiset(data) == multiset(old(data)) + multiset{value}
    {
      AppendExceptUp(data, cmp, value);
      data := data + [value];
      SiftUp(|data| - 1);
    }

    /**
      Removes and returns the root. The last element takes its place and
      sifts down. The result ranks at least as high as every element left.
    */
    method Pop() returns (r: Option<T>)
      requires Valid()
      modifies this
      ensures Valid()
      ensures old(|data|) == 0 ==> r == None && data == old(data)
      ensures old(|data|) > 0 ==> && r == Some(old(data)[0])
                                  && |data| == old(|data|) - 1
                                  && multiset(data) == multiset(old(data)) - multiset{old(data)[0]}
      ensures r.Some? ==> forall x | x in data :: cmp(r.value, x) <= 0
    {
      var n := |data|;
      if n == 0 {
        return None;
      }
      RootOutranksAll(data, cmp);
      if n == 1 {
        r := Some(data[n - 1]);
        data := data[..n - 1];
        return;
      }
      var top := data[0];
      ghost var before := data;
      MoveLastToRoot(data, cmp);
      var last := data[n - 1];
      data := data[..n - 1];
      data := data[0 := last];
      SiftDown(0);
      r := Some(top);
      forall x | x in data
        ensures cmp(top, x) <= 0
      {
        assert x in multiset(data);
        assert x in before;
      }
    }

    /**
      Puts `value` at the root in place of the old root, sifts it down and
      returns the old root; on an empty heap appends it and returns `None`.
    */
    method ReplaceTop(value: T) returns (r: Option<T>)
      requires Valid()
      modifies this
      ensures Valid()
      ensures old(|data|) == 0 ==> r == None && data == [value]
      ensures old(|data|) > 0 ==> && r == Some(old(data)[0])
                                  && |data| == old(|data|)
                                  && multiset(data) == multiset(old(data)) - multiset{old(data)[0]} + multiset{value}
    {
      if |data| == 0 {
        data := data + [value];
        return None;
      }
      var top := data[0];
      ReplaceRoot(value);
      r := Some(top);
    }

    /**
      The top-K eviction primitive. On an empty heap `value` is appended and
      returned. Otherwise, when `value` strictly outranks the root it takes
      the root's place and the old root is returned; when it does not, the
      heap is left exactly as it was and `value` itself is returned. On a
      non-empty heap it gains `value` and loses the result.
    */
    method PushPop(value: T) returns (r: T)
      requires Valid()
      modifies this
      ensures Valid()
      ensures old(|data|) == 0 ==> r == value && data == [value]
      ensures old(|data|) > 0 ==> multiset(data) + multiset{r} == multiset(old(data)) + multiset{value}
      ensures old(|data|) > 0 && cmp(value, old(data)[0]) >= 0 ==> r == value && data == old(data)
      ensures old(|data|) > 0 && cmp(value, old(data)[0]) < 0 ==> r == old(data)[0] && |data| == old(|data|)
      ensures old(|data|) > 0 && cmp(value, old(data)[0]) < 0 ==>
                multiset(data) == multiset(old(data)) - multiset{old(data)[0]} + multiset{value}
      ensures old(|data|) > 0 && cmp(value, old(data)[0]) < 0 ==> data == old(data)[0 := value]
    {
      if |data| == 0 {
        data := data + [value];
        return value;
      }
      if cmp(value, data[0]) < 0 {
        var top := data[0];
        NewRootKeepsHeap(data, cmp, value);
        ReplaceRoot(value);
        return top;
      }
      return value;
    }

    /** A copy of the storage in heap-array order; a value, so it cannot alias the heap. */
    function ToArray(): (r: seq<T>)
      reads this
      ensures |r| == |data| && forall k :: 0 <= k < |r| ==> r[k] == data[k]
    {
      data[..]
    }

    /** `data[0] = value; siftDown(0)` on a non-empty heap. */
    method ReplaceRoot(value: T)
      requires Valid() && 0 < |data|
      modifies this
      ensures Valid()
      ensures |data| == old(|data|)
      ensures multiset(data) == multiset(old(data)) - multiset{old(data)[0]} + multiset{value}
      ensures old(IsHeap(data[0 := value], cmp)) ==> data == old(data)[0 := value]
    {
      WriteRootExceptDown(data, cmp, value);
      data := data[0 := value];
      SiftDown(0);
    }

    /** Sifts down every non-leaf, from the last one to the root. */
    method Heapify()
      requires TotalPreorder(cmp)
      modifies this
      ensures Valid()
      ensures |data| == old(|data|) && multiset(data) == multiset(old(data))
    {
      var n := |data|;
      for i := n / 2 downto 0
        invariant |data| == n
        invariant HeapFrom(data, cmp, i)
        invariant multiset(data) == multiset(old(data))
      {
        SiftDown(i);
      }
    }

    /** Moves the element at `i` toward the root while it outranks its parent. */
    method SiftUp(i: nat)
      requires TotalPreorder(cmp) && HeapExceptUp(data, cmp, i)
      modifies this
      ensures Valid()
      ensures |data| == old(|data|) && multiset(data) == multiset(old(data))
    {
      var j: nat := i;
      while 0 < j
        invariant |data| == old(|data|)
        invariant HeapExceptUp(data, cmp, j)
        invariant multiset(data) == multiset(old(data))
      {
        var p := (j - 1) / 2;
        if cmp(data[j], data[p]) >= 0 {
          break;
        }
        SiftUpStep(data, cmp, j);
        data := Swap(data, j, p);
        j := p;
      }
      SiftUpDone(data, cmp, j);
    }

    /**
      Moves the element at `lo` toward the leaves, each time swapping it with
      its better child (the left one unless the right one strictly outranks
      it) while that child strictly outranks it.
    */
    method SiftDown(lo: nat)
      requires TotalPreorder(cmp) && HeapExceptDown(data, cmp, lo, lo)
      modifies this
      ensures HeapFrom(data, cmp, lo)
      ensures |data| == old(|data|) && multiset(data) == multiset(old(data))
      ensures old(HeapFrom(data, cmp, lo)) ==> data == old(data)
    {
      var n := |data|;
      var i := lo;
      ghost var wasHeap := HeapFrom(data, cmp, lo);
      while true
        invariant |data| == n
        invariant HeapExceptDown(data, cmp, lo, i)
        invariant multiset(data) == multiset(old(data))
        invariant wasHeap ==> data == old(data) && i == lo
        decreases n - i
      {
        var l := i * 2 + 1;
        if l >= n {
          SiftDownDone(data, cmp, lo, i);
          break;
        }
        var best := BestChild(data, cmp, i);
        if wasHeap {
          HeapHasNoSwap(data, cmp, lo);
        }
        if cmp(data[best], data[i]) >= 0 {
          SiftDownDone(data, cmp, lo, i);
          break;
        }
        SiftDownStep(data, cmp, lo, i);
        data := Swap(data, i, best);
        i := best;
      }
    }
  }
}

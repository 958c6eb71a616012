/**
  The array-as-tree view of a sequence and the heap invariant, with the
  facts that the sift loops of the heap rely on. Node `i` has children
  `2i+1` and `2i+2`; every node but the root has parent `(i-1) / 2`.
*/
module HeapOrder {
  import opened Comparators

  function Left(i: nat): nat {
    2 * i + 1
  }

  function Right(i: nat): nat {
    2 * i + 2
  }

  /** `(i - 1) >> 1` on a non-root index: the node whose child `i` is. */
  function Parent(i: nat): (p: nat)
    requires 0 < i
    ensures p < i
    ensures i == Left(p) || i == Right(p)
  {
    (i - 1) / 2
  }

  /** Swaps the cells at `i` and `j`, as the destructuring assignment does. */
  function Swap<T>(s: seq<T>, i: nat, j: nat): (r: seq<T>)
    requires i < |s| && j < |s|
    ensures |r| == |s| && r[i] == s[j] && r[j] == s[i]
    ensures forall k :: 0 <= k < |s| && k != i && k != j ==> r[k] == s[k]
    ensures multiset(r) == multiset(s)
  {
    s[i := s[j]][j := s[i]]
  }

  /** No child outranks its parent. */
  ghost predicate IsHeap<T(!new)>(s: seq<T>, cmp: (T, T) -> int) {
    forall k :: 0 < k < |s| ==> cmp(s[k], s[Parent(k)]) >= 0
  }

  /** The heap invariant on every edge whose parent index is at least `lo`. */
  ghost predicate HeapFrom<T(!new)>(s: seq<T>, cmp: (T, T) -> int, lo: nat) {
    forall k :: 0 < k < |s| && lo <= Parent(k) ==> cmp(s[k], s[Parent(k)]) >= 0
  }

  /**
    What `siftUp` keeps while it moves the element at `i` toward the root:
    every edge holds except the one from `i` to its parent, and the
    children of `i` do not outrank the parent of `i`.
  */
  ghost predicate HeapExceptUp<T(!new)>(s: seq<T>, cmp: (T, T) -> int, i: nat) {
    && i < |s|
    && (forall k :: 0 < k < |s| && k != i ==> cmp(s[k], s[Parent(k)]) >= 0)
    && (0 < i ==> forall c :: 0 < c < |s| && Parent(c) == i ==> cmp(s[c], s[Parent(i)]) >= 0)
  }

  /**
    What `siftDown`, started at `lo`, keeps while it moves the element at
    `i` toward the leaves: every edge whose parent lies in `lo..` holds
    except the edges from `i` to its children, and below `lo` the children
    of `i` do not outrank the parent of `i`.
  */
  ghost predicate HeapExceptDown<T(!new)>(s: seq<T>, cmp: (T, T) -> int, lo: nat, i: nat) {
    && lo <= i < |s|
    && (i == lo || lo <= Parent(i))
    && (forall k :: 0 < k < |s| && lo <= Parent(k) && Parent(k) != i ==> cmp(s[k], s[Parent(k)]) >= 0)
    && (lo < i ==> forall c :: 0 < c < |s| && Parent(c) == i ==> cmp(s[c], s[Parent(i)]) >= 0)
  }

  /** In a heap the root ranks at least as high as every element. */
  lemma {:induction false} RootOutranks<T(!new)>(s: seq<T>, cmp: (T, T) -> int, k: nat)
    requires TotalPreorder(cmp) && IsHeap(s, cmp) && k < |s|
    ensures cmp(s[0], s[k]) <= 0
  {
    if k == 0 {
      PreorderReflexiveTotal(cmp, s[0], s[0]);
    } else {
      var p := Parent(k);
      RootOutranks(s, cmp, p);
      assert cmp(s[k], s[p]) >= 0;
      assert cmp(s[p], s[k]) <= 0;
    }
  }

  /** The same, for every element at once. */
  lemma RootOutranksAll<T(!new)>(s: seq<T>, cmp: (T, T) -> int)
    requires TotalPreorder(cmp) && IsHeap(s, cmp) && 0 < |s|
    ensures forall x | x in s :: cmp(s[0], x) <= 0
  {
    forall x | x in s
      ensures cmp(s[0], x) <= 0
    {
      var k :| 0 <= k < |s| && s[k] == x;
      RootOutranks(s, cmp, k);
    }
  }

  /** Appending to a heap leaves it a heap except at the new last cell. */
  lemma AppendExceptUp<T(!new)>(s: seq<T>, cmp: (T, T) -> int, v: T)
    requires IsHeap(s, cmp)
    ensures HeapExceptUp(s + [v], cmp, |s|)
  {
  }

  /** Overwriting the root of a heap leaves it a heap except below the root. */
  lemma WriteRootExceptDown<T(!new)>(s: seq<T>, cmp: (T, T) -> int, v: T)
    requires IsHeap(s, cmp) && 0 < |s|
    ensures HeapExceptDown(s[0 := v], cmp, 0, 0)
  {
  }

  /**
    What `pop` does before it sifts: the last element is removed and written
    over the root. The root alone is lost, and only the edges below the
    root may be broken.
  */
  lemma MoveLastToRoot<T(!new)>(s: seq<T>, cmp: (T, T) -> int)
    requires IsHeap(s, cmp) && 1 < |s|
    ensures HeapExceptDown(s[..|s| - 1][0 := s[|s| - 1]], cmp, 0, 0)
    ensures multiset(s[..|s| - 1][0 := s[|s| - 1]]) == multiset(s) - multiset{s[0]}
  {
    var n := |s|;
    var u := s[..n - 1];
    assert s == u + [s[n - 1]];
    assert IsHeap(u, cmp) by {
      forall k | 0 < k < |u|
        ensures cmp(u[k], u[Parent(k)]) >= 0
      {
        assert u[k] == s[k] && u[Parent(k)] == s[Parent(k)];
      }
    }
    WriteRootExceptDown(u, cmp, s[n - 1]);
  }

  /** One swap of `siftUp`: the element at `i` outranks its parent and moves up. */
  lemma SiftUpStep<T(!new)>(s: seq<T>, cmp: (T, T) -> int, i: nat)
    requires TotalPreorder(cmp) && HeapExceptUp(s, cmp, i)
    requires 0 < i && cmp(s[i], s[Parent(i)]) < 0
    ensures HeapExceptUp(Swap(s, i, Parent(i)), cmp, Parent(i))
  {
    var p := Parent(i);
    var t := Swap(s, i, p);
    assert cmp(s[p], s[i]) > 0;
    forall k | 0 < k < |t| && k != p
      ensures cmp(t[k], t[Parent(k)]) >= 0
    {
      if k == i {
      } else if Parent(k) == i {
        assert t[k] == s[k];
      } else if Parent(k) == p {
        assert t[k] == s[k] && cmp(s[k], s[p]) >= 0;
        StrictThenWeak(cmp, s[i], s[p], s[k]);
      } else {
        assert t[k] == s[k] && t[Parent(k)] == s[Parent(k)];
      }
    }
    if 0 < p {
      forall c | 0 < c < |t| && Parent(c) == p
        ensures cmp(t[c], t[Parent(p)]) >= 0
      {
        assert t[Parent(p)] == s[Parent(p)];
        assert cmp(s[p], s[Parent(p)]) >= 0;
        if c != i {
          assert t[c] == s[c] && cmp(s[c], s[p]) >= 0;
        }
      }
    }
  }

  /** `siftUp` stops at the root or below a parent it does not outrank. */
  lemma SiftUpDone<T(!new)>(s: seq<T>, cmp: (T, T) -> int, i: nat)
    requires HeapExceptUp(s, cmp, i)
    requires i == 0 || cmp(s[i], s[Parent(i)]) >= 0
    ensures IsHeap(s, cmp)
  {
  }

  /**
    The child `siftDown` picks: the left one, unless the right one exists
    and strictly outranks it.
  */
  function BestChild<T(!new)>(s: seq<T>, cmp: (T, T) -> int, i: nat): (b: nat)
    requires Left(i) < |s|
    ensures 0 < b < |s| && Parent(b) == i
    ensures b == Left(i) || b == Right(i)
    ensures b == Right(i) <==> Right(i) < |s| && cmp(s[Right(i)], s[Left(i)]) < 0
  {
    if Right(i) < |s| && cmp(s[Right(i)], s[Left(i)]) < 0 then Right(i) else Left(i)
  }

  /** The chosen child ranks at least as high as every child of `i`. */
  lemma BestChildOutranks<T(!new)>(s: seq<T>, cmp: (T, T) -> int, i: nat, c: nat)
    requires TotalPreorder(cmp) && Left(i) < |s|
    requires 0 < c < |s| && Parent(c) == i
    ensures cmp(s[BestChild(s, cmp, i)], s[c]) <= 0
  {
  }

  /** One swap of `siftDown`: the best child outranks `i` and moves up. */
  lemma SiftDownStep<T(!new)>(s: seq<T>, cmp: (T, T) -> int, lo: nat, i: nat)
    requires TotalPreorder(cmp) && HeapExceptDown(s, cmp, lo, i)
    requires Left(i) < |s| && cmp(s[BestChild(s, cmp, i)], s[i]) < 0
    ensures HeapExceptDown(Swap(s, i, BestChild(s, cmp, i)), cmp, lo, BestChild(s, cmp, i))
  {
    var b := BestChild(s, cmp, i);
    var t := Swap(s, i, b);
    assert cmp(s[i], s[b]) > 0;
    forall k | 0 < k < |t| && lo <= Parent(k) && Parent(k) != b
      ensures cmp(t[k], t[Parent(k)]) >= 0
    {
      if k == b {
      } else if Parent(k) == i {
        assert t[k] == s[k];
        BestChildOutranks(s, cmp, i, k);
      } else if k == i {
        assert lo < i;
        assert t[Parent(k)] == s[Parent(k)];
        assert cmp(s[b], s[Parent(i)]) >= 0;
      } else {
        assert t[k] == s[k] && t[Parent(k)] == s[Parent(k)];
      }
    }
    forall c | 0 < c < |t| && Parent(c) == b
      ensures cmp(t[c], t[Parent(b)]) >= 0
    {
      assert t[c] == s[c] && t[i] == s[b];
    }
  }

  /** On a heap, `siftDown` stops at its first comparison. */
  lemma HeapHasNoSwap<T(!new)>(s: seq<T>, cmp: (T, T) -> int, lo: nat)
    requires HeapFrom(s, cmp, lo) && Left(lo) < |s|
    ensures cmp(s[BestChild(s, cmp, lo)], s[lo]) >= 0
  {
  }

  /** `siftDown` stops at a leaf or above children that do not outrank `i`. */
  lemma SiftDownDone<T(!new)>(s: seq<T>, cmp: (T, T) -> int, lo: nat, i: nat)
    requires TotalPreorder(cmp) && HeapExceptDown(s, cmp, lo, i)
    requires Left(i) >= |s| || cmp(s[BestChild(s, cmp, i)], s[i]) >= 0
    ensures HeapFrom(s, cmp, lo)
  {
  }

  /**
    Writing an element that outranks the old root into the root of a heap
    gives a heap again.
  */
  lemma NewRootKeepsHeap<T(!new)>(s: seq<T>, cmp: (T, T) -> int, v: T)
    requires TotalPreorder(cmp) && IsHeap(s, cmp) && 0 < |s|
    requires cmp(v, s[0]) < 0
    ensures IsHeap(s[0 := v], cmp)
  {
  }
}

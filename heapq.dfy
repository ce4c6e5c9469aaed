/**
 * The binary-heap priority queue the pathfinders keep their open lists in:
 * the standard-library heapq algorithm (heappush = append + _siftdown,
 * heappop = pop last + move to the root + _siftup) on a list of entries.
 * Items are compared with `<` only; every key here is a triple compared
 * lexicographically, which covers both a Node (compared on f alone, key
 * (f, 0, 0)) and a (priority, (x, y)) tuple (key (priority, x, y)).
 */
module Heapq {

  type Key = (int, int, int)

  datatype Entry<T> = Entry(key: Key, item: T)

  /** Python's tuple `<` on keys. */
  predicate Less(a: Key, b: Key) {
    a.0 < b.0 || (a.0 == b.0 && (a.1 < b.1 || (a.1 == b.1 && a.2 < b.2)))
  }

  /** Entry i (if it is not the root) is no smaller than its parent (i - 1) / 2. */
  ghost predicate ParentOk<T>(h: seq<Entry<T>>, i: int) {
    0 < i < |h| ==> !Less(h[i].key, h[(i - 1) / 2].key)
  }

  /** Entry i is no smaller than the parent of pos. */
  ghost predicate AboveGrandparent<T>(h: seq<Entry<T>>, i: int, pos: int) {
    0 < pos < |h| && 0 <= i < |h| ==> !Less(h[i].key, h[(pos - 1) / 2].key)
  }

  ghost predicate IsHeap<T>(h: seq<Entry<T>>) {
    forall i :: ParentOk(h, i)
  }

  /**
   * The heap order holds everywhere except between pos and its parent, and
   * pos's children are no smaller than pos's parent.
   */
  ghost predicate HeapExceptAt<T>(h: seq<Entry<T>>, pos: int) {
    (forall i :: i != pos ==> ParentOk(h, i)) &&
    (forall i :: 0 < i && (i - 1) / 2 == pos ==> AboveGrandparent(h, i, pos))
  }

  /**
   * The heap order holds between every entry and its parent when neither is
   * the hole at pos, and pos's children are no smaller than pos's parent.
   */
  ghost predicate HeapAroundHole<T>(h: seq<Entry<T>>, pos: int) {
    (forall i :: i != pos && (i - 1) / 2 != pos ==> ParentOk(h, i)) &&
    (forall i :: 0 < i && (i - 1) / 2 == pos ==> AboveGrandparent(h, i, pos))
  }

  lemma SwapPreservesMultiset<T>(s: seq<T>, i: nat, j: nat)
    requires i < |s| && j < |s|
    ensures multiset(s[i := s[j]][j := s[i]]) == multiset(s)
  {
  }

  /** Moving entry j into the hole at pos and the held entry x into j keeps the multiset of h with x in the hole. */
  lemma MoveIntoHole<T>(h: seq<T>, pos: nat, j: nat, x: T)
    requires pos < |h| && j < |h| && pos != j
    ensures multiset(h[pos := h[j]][j := x]) == multiset(h[pos := x])
  {
    var a := h[pos := x];
    SwapPreservesMultiset(a, pos, j);
    assert a[pos := a[j]][j := a[pos]] == h[pos := h[j]][j := x];
  }

  /** In a heap the root is a smallest entry. */
  lemma {:induction false} HeapRootIsMin<T>(h: seq<Entry<T>>, i: nat)
    requires IsHeap(h) && i < |h|
    ensures !Less(h[i].key, h[0].key)
  {
    if i > 0 {
      assert ParentOk(h, i);
      HeapRootIsMin(h, (i - 1) / 2);
    }
  }

  /** One step of _siftdown: swapping a smaller entry with its parent moves the defect up. */
  lemma SiftDownStep<T>(a: seq<Entry<T>>, pos: nat)
    requires 0 < pos < |a| && HeapExceptAt(a, pos)
    requires Less(a[pos].key, a[(pos - 1) / 2].key)
    ensures HeapExceptAt(a[pos := a[(pos - 1) / 2]][(pos - 1) / 2 := a[pos]], (pos - 1) / 2)
  {
    var pp := (pos - 1) / 2;
    var b := a[pos := a[pp]][pp := a[pos]];
    forall i | i != pp ensures ParentOk(b, i) {
      if 0 < i < |b| {
        var p := (i - 1) / 2;
        if i == pos {
        } else if p == pp {
          assert ParentOk(a, i);
        } else if p == pos {
          assert AboveGrandparent(a, i, pos);
        } else {
          assert ParentOk(a, i);
        }
      }
    }
    forall i | 0 < i && (i - 1) / 2 == pp ensures AboveGrandparent(b, i, pp) {
      if 0 < pp && i < |b| {
        assert ParentOk(a, pp);
        if i != pos {
          assert ParentOk(a, i);
        }
      }
    }
  }

  /** One descent step of _siftup: moving the smaller child into the hole moves the hole down. */
  lemma SiftUpStep<T>(h: seq<Entry<T>>, pos: nat, c: nat)
    requires pos < |h| && HeapAroundHole(h, pos)
    requires c < |h| && (c == 2 * pos + 1 || c == 2 * pos + 2)
    requires c == 2 * pos + 1 && c + 1 < |h| ==> Less(h[c].key, h[c + 1].key)
    requires c == 2 * pos + 2 ==> !Less(h[c - 1].key, h[c].key)
    ensures HeapAroundHole(h[pos := h[c]], c)
  {
    var b := h[pos := h[c]];
    forall i | i != c && (i - 1) / 2 != c ensures ParentOk(b, i) {
      if 0 < i < |b| {
        var p := (i - 1) / 2;
        if i == pos {
          assert AboveGrandparent(h, c, pos);
        } else if p == pos {
        } else {
          assert ParentOk(h, i);
        }
      }
    }
    forall i | 0 < i && (i - 1) / 2 == c ensures AboveGrandparent(b, i, c) {
      if i < |b| {
        assert ParentOk(h, i);
      }
    }
  }

  /** Filling a hole that has no children leaves at most that entry out of order. */
  lemma FillLeafHole<T>(h: seq<Entry<T>>, leaf: nat, x: Entry<T>)
    requires leaf < |h| && 2 * leaf + 1 >= |h| && HeapAroundHole(h, leaf)
    ensures HeapExceptAt(h[leaf := x], leaf)
  {
    var b := h[leaf := x];
    forall i | i != leaf ensures ParentOk(b, i) {
      if 0 < i < |b| {
        assert ParentOk(h, i);
      }
    }
  }

  /**
   * _siftdown(heap, 0, pos): move the entry at pos towards the root while it
   * is smaller than its parent.
   */
  method SiftDown<T>(heap: seq<Entry<T>>, pos0: nat) returns (h: seq<Entry<T>>)
    requires pos0 < |heap|
    ensures |h| == |heap| && multiset(h) == multiset(heap)
    ensures HeapExceptAt(heap, pos0) ==> IsHeap(h)
  {
    ghost var ordered := HeapExceptAt(heap, pos0);
    h := heap;
    var pos := pos0;
    var newitem := h[pos];
    assert h[pos := newitem] == heap;
    while pos > 0
      invariant pos < |h| == |heap|
      invariant multiset(h[pos := newitem]) == multiset(heap)
      invariant ordered ==> HeapExceptAt(h[pos := newitem], pos)
    {
      var parentpos := (pos - 1) / 2;
      var parent := h[parentpos];
      if Less(newitem.key, parent.key) {
        ghost var a := h[pos := newitem];
        MoveIntoHole(h, pos, parentpos, newitem);
        if ordered {
          SiftDownStep(a, pos);
          assert a[pos := a[parentpos]][parentpos := a[pos]] == h[pos := parent][parentpos := newitem];
        }
        h := h[pos := parent];
        pos := parentpos;
      } else {
        ghost var a := h[pos := newitem];
        if ordered {
          assert forall i :: ParentOk(a, i) by {
            forall i ensures ParentOk(a, i) {
              if i != pos {
                assert ParentOk(a, i);
              }
            }
          }
        }
        break;
      }
    }
    ghost var a := h[pos := newitem];
    if ordered && pos == 0 {
      forall i ensures ParentOk(a, i) {
        if i != 0 {
          assert ParentOk(a, i);
        }
      }
    }
    h := h[pos := newitem];
  }

  /**
   * _siftup(heap, 0): move the smaller child up into the hole until the hole
   * is a leaf, put the former last entry there, and sift it back down.
   */
  method SiftUp<T>(heap: seq<Entry<T>>) returns (h: seq<Entry<T>>)
    requires |heap| > 0
    ensures |h| == |heap| && multiset(h) == multiset(heap)
    ensures HeapAroundHole(heap, 0) ==> IsHeap(h)
  {
    ghost var ordered := HeapAroundHole(heap, 0);
    h := heap;
    var endpos := |h|;
    var pos := 0;
    var newitem := h[pos];
    var childpos := 2 * pos + 1;
    while childpos < endpos
      invariant pos < |h| == |heap| == endpos
      invariant childpos == 2 * pos + 1
      invariant multiset(h[pos := newitem]) == multiset(heap)
      invariant ordered ==> HeapAroundHole(h, pos)
      decreases endpos - pos
    {
      var rightpos := childpos + 1;
      if rightpos < endpos && !Less(h[childpos].key, h[rightpos].key) {
        childpos := rightpos;
      }
      MoveIntoHole(h, pos, childpos, newitem);
      if ordered {
        SiftUpStep(h, pos, childpos);
      }
      h := h[pos := h[childpos]];
      pos := childpos;
      childpos := 2 * pos + 1;
    }
    if ordered {
      FillLeafHole(h, pos, newitem);
    }
    h := h[pos := newitem];
    h := SiftDown(h, pos);
  }

  /** heapq.heappush: the new heap holds the old entries and x, and stays a heap. */
  method HeapPush<T>(heap: seq<Entry<T>>, x: Entry<T>) returns (h: seq<Entry<T>>)
    ensures |h| == |heap| + 1
    ensures multiset(h) == multiset(heap) + multiset{x}
    ensures IsHeap(heap) ==> IsHeap(h)
  {
    h := heap + [x];
    if IsHeap(heap) {
      forall i | i != |h| - 1 ensures ParentOk(h, i) {
        assert ParentOk(heap, i);
      }
    }
    h := SiftDown(h, |h| - 1);
  }

  /** In a heap no entry is smaller than the root. */
  lemma RootBelowAll<T>(heap: seq<Entry<T>>)
    requires |heap| > 0 && IsHeap(heap)
    ensures forall e :: e in heap ==> !Less(e.key, heap[0].key)
  {
    forall e | e in heap ensures !Less(e.key, heap[0].key) {
      var i :| 0 <= i < |heap| && heap[i] == e;
      HeapRootIsMin(heap, i);
    }
  }

  /** Putting the last entry at the root of the shortened list loses exactly the old root. */
  lemma LastToRootMultiset<T>(heap: seq<Entry<T>>)
    requires |heap| > 1
    ensures multiset(heap[..|heap| - 1][0 := heap[|heap| - 1]]) + multiset{heap[0]} == multiset(heap)
  {
    var before := heap[..|heap| - 1];
    var lastelt := heap[|heap| - 1];
    assert heap == before + [lastelt];
    SwapPreservesMultiset(heap, 0, |before|);
    assert heap[0 := lastelt][|before| := heap[0]] == before[0 := lastelt] + [heap[0]];
  }

  /** Putting the last entry at the root leaves a hole-shaped heap around the root. */
  lemma LastToRootHole<T>(heap: seq<Entry<T>>)
    requires |heap| > 1 && IsHeap(heap)
    ensures HeapAroundHole(heap[..|heap| - 1][0 := heap[|heap| - 1]], 0)
  {
    var h := heap[..|heap| - 1][0 := heap[|heap| - 1]];
    forall i | i != 0 && (i - 1) / 2 != 0 ensures ParentOk(h, i) {
      assert ParentOk(heap, i);
    }
  }

  /**
   * heapq.heappop: returns the root and the heap of the remaining entries;
   * on a heap the returned entry is a smallest one.
   */
  method HeapPop<T>(heap: seq<Entry<T>>) returns (top: Entry<T>, h: seq<Entry<T>>)
    requires |heap| > 0
    ensures |h| == |heap| - 1
    ensures multiset(h) + multiset{top} == multiset(heap)
    ensures IsHeap(heap) ==> IsHeap(h) && forall e :: e in heap ==> !Less(e.key, top.key)
  {
    var lastelt := heap[|heap| - 1];
    h := heap[..|heap| - 1];
    if |h| > 0 {
      top := h[0];
      h := h[0 := lastelt];
      LastToRootMultiset(heap);
      if IsHeap(heap) {
        RootBelowAll(heap);
        LastToRootHole(heap);
      }
      h := SiftUp(h);
    } else {
      top := lastelt;
      assert heap == [lastelt];
    }
  }

  /** What heappop leaves: the popped entry came from the list, and everything else stays. */
  lemma PopMembers<T>(before: seq<Entry<T>>, top: Entry<T>, rest: seq<Entry<T>>)
    requires multiset(rest) + multiset{top} == multiset(before)
    ensures top in before
    ensures forall e :: e in before ==> e == top || e in rest
    ensures forall e :: e in rest ==> e in before
  {
    assert top in multiset(before);
    forall e | e in before ensures e == top || e in rest {
      assert e in multiset(before);
    }
    forall e | e in rest ensures e in before {
      assert multiset(before)[e] == multiset(rest)[e] + multiset{top}[e];
    }
  }

  /** What heappush leaves: the old entries and the new one, nothing else. */
  lemma PushMembers<T>(before: seq<Entry<T>>, x: Entry<T>, after: seq<Entry<T>>)
    requires multiset(after) == multiset(before) + multiset{x}
    ensures x in after
    ensures forall e :: e in after ==> e == x || e in before
    ensures forall e :: e in before ==> e in after
  {
    assert x in multiset(after);
    forall e | e in after ensures e == x || e in before {
      assert e in multiset(after);
    }
    forall e | e in before ensures e in after {
      assert multiset(after)[e] == multiset(before)[e] + multiset{x}[e];
    }
  }
}

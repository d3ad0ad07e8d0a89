/**
 The bounded binary heap behind `$maxN` and `$minN`: an array whose top is the value to give up
 first. For maxN the comparator makes it a min-heap, for minN a max-heap.

 The array operations are specified by functions of the sequence of nodes; what those compute is
 proved about the functions.
 */
module BinaryHeap {
  import opened Bson

  /** The heap is a min-heap on this key whichever way it sorts. */
  function Key(isMaxN: bool, v: Ranked): real {
    if isMaxN then v.rank else -v.rank
  }

  /** heapComparator: HeapSortComparatorMaxN or HeapSortComparatorMinN. */
  predicate Before(isMaxN: bool, a: Ranked, b: Ranked) {
    if isMaxN then a.rank < b.rank else a.rank > b.rank
  }

  function Parent(i: nat): (p: nat)
    requires i > 0
    ensures p < i
  {
    (i - 1) / 2
  }

  ghost predicate IsHeap(m: bool, s: seq<Ranked>) {
    forall i :: 0 < i < |s| ==> Key(m, s[Parent(i)]) <= Key(m, s[i])
  }

  function Swap(s: seq<Ranked>, i: nat, j: nat): (t: seq<Ranked>)
    requires i < |s| && j < |s|
    ensures |t| == |s|
  {
    s[i := s[j]][j := s[i]]
  }

  lemma SwapKeeps(s: seq<Ranked>, i: nat, j: nat)
    requires i < |s| && j < |s|
    ensures multiset(Swap(s, i, j)) == multiset(s)
  {}

  /* ---------- the top is least ---------- */

  lemma {:induction false} TopIsLeast(m: bool, s: seq<Ranked>, i: nat)
    requires IsHeap(m, s) && i < |s|
    ensures Key(m, s[0]) <= Key(m, s[i])
  {
    if i > 0 { TopIsLeast(m, s, Parent(i)); }
  }

  /* ---------- sifting up ---------- */

  /** The loop of PushToHeap, from the node at i on. */
  function SiftUp(m: bool, s: seq<Ranked>, i: nat): (t: seq<Ranked>)
    requires i < |s|
    ensures |t| == |s|
    decreases i
  {
    if i != 0 && !Before(m, s[Parent(i)], s[i]) then SiftUp(m, Swap(s, Parent(i), i), Parent(i)) else s
  }

  lemma {:induction false} SiftUpKeeps(m: bool, s: seq<Ranked>, i: nat)
    requires i < |s|
    ensures multiset(SiftUp(m, s, i)) == multiset(s)
    decreases i
  {
    if i != 0 && !Before(m, s[Parent(i)], s[i]) {
      SwapKeeps(s, Parent(i), i);
      SiftUpKeeps(m, Swap(s, Parent(i), i), Parent(i));
    }
  }

  /** The heap order holds except between i and its parent; i's children are above its parent. */
  ghost predicate HeapButAbove(m: bool, s: seq<Ranked>, i: nat)
    requires i < |s|
  {
    && (forall j :: 0 < j < |s| && j != i ==> Key(m, s[Parent(j)]) <= Key(m, s[j]))
    && (forall j :: 0 < j < |s| && Parent(j) == i && i > 0 ==> Key(m, s[Parent(i)]) <= Key(m, s[j]))
  }

  lemma {:induction false} SiftUpMakesHeap(m: bool, s: seq<Ranked>, i: nat)
    requires i < |s| && HeapButAbove(m, s, i)
    ensures IsHeap(m, SiftUp(m, s, i))
    decreases i
  {
    if i != 0 && !Before(m, s[Parent(i)], s[i]) {
      SwapUp(m, s, i);
      SiftUpMakesHeap(m, Swap(s, Parent(i), i), Parent(i));
    }
  }

  lemma SwapUp(m: bool, s: seq<Ranked>, i: nat)
    requires 0 < i < |s| && HeapButAbove(m, s, i) && !Before(m, s[Parent(i)], s[i])
    ensures HeapButAbove(m, Swap(s, Parent(i), i), Parent(i))
  {
    var p := Parent(i);
    var t := Swap(s, p, i);
    forall j | 0 < j < |t| && j != p ensures Key(m, t[Parent(j)]) <= Key(m, t[j]) {
      if Parent(j) == p && j != i { assert Key(m, s[p]) <= Key(m, s[j]); }
    }
    forall j | 0 < j < |t| && Parent(j) == p && p > 0 ensures Key(m, t[Parent(p)]) <= Key(m, t[j]) {
      assert Key(m, s[Parent(p)]) <= Key(m, s[p]);
      if j != i { assert Key(m, s[p]) <= Key(m, s[j]); }
    }
  }

  /* ---------- sifting down ---------- */

  /** The child Heapify compares with last, or i itself: the least of the three. */
  function Least(m: bool, s: seq<Ranked>, i: nat): (l: nat)
    requires i < |s|
    ensures l == i || (i < l < |s| && Parent(l) == i)
    ensures Key(m, s[l]) <= Key(m, s[i])
    ensures l != i ==> Key(m, s[l]) < Key(m, s[i])
    ensures forall j :: 0 < j < |s| && Parent(j) == i ==> Key(m, s[l]) <= Key(m, s[j])
  {
    var l := if 2 * i + 1 < |s| && Before(m, s[2 * i + 1], s[i]) then 2 * i + 1 else i;
    if 2 * i + 2 < |s| && Before(m, s[2 * i + 2], s[l]) then 2 * i + 2 else l
  }

  function Heapify(m: bool, s: seq<Ranked>, i: nat): (t: seq<Ranked>)
    requires i < |s|
    ensures |t| == |s|
    decreases |s| - i
  {
    var l := Least(m, s, i);
    if l != i then Heapify(m, Swap(s, i, l), l) else s
  }

  lemma {:induction false} HeapifyKeeps(m: bool, s: seq<Ranked>, i: nat)
    requires i < |s|
    ensures multiset(Heapify(m, s, i)) == multiset(s)
    decreases |s| - i
  {
    var l := Least(m, s, i);
    if l != i {
      SwapKeeps(s, i, l);
      HeapifyKeeps(m, Swap(s, i, l), l);
    }
  }

  /** The heap order holds except between i and its children, which are above i's parent. */
  ghost predicate HeapButBelow(m: bool, s: seq<Ranked>, i: nat)
    requires i < |s|
  {
    && (forall j :: 0 < j < |s| && Parent(j) != i ==> Key(m, s[Parent(j)]) <= Key(m, s[j]))
    && (forall j :: 0 < j < |s| && Parent(j) == i && i > 0 ==> Key(m, s[Parent(i)]) <= Key(m, s[j]))
  }

  lemma {:induction false} HeapifyMakesHeap(m: bool, s: seq<Ranked>, i: nat)
    requires i < |s| && HeapButBelow(m, s, i)
    ensures IsHeap(m, Heapify(m, s, i))
    decreases |s| - i
  {
    var l := Least(m, s, i);
    if l != i {
      SwapDown(m, s, i);
      HeapifyMakesHeap(m, Swap(s, i, l), l);
    }
  }

  lemma SwapDown(m: bool, s: seq<Ranked>, i: nat)
    requires i < |s| && HeapButBelow(m, s, i) && Least(m, s, i) != i
    ensures HeapButBelow(m, Swap(s, i, Least(m, s, i)), Least(m, s, i))
  {
    var l := Least(m, s, i);
    var t := Swap(s, i, l);
    forall j | 0 < j < |t| && Parent(j) != l ensures Key(m, t[Parent(j)]) <= Key(m, t[j]) {
      if j == i { assert Key(m, s[Parent(i)]) <= Key(m, s[l]); }
    }
    forall j | 0 < j < |t| && Parent(j) == l ensures Key(m, t[Parent(l)]) <= Key(m, t[j]) {
      assert Key(m, s[Parent(j)]) <= Key(m, s[j]);
    }
  }

  /* ---------- push and pop ---------- */

  function Pushed(m: bool, s: seq<Ranked>, v: Ranked): (t: seq<Ranked>)
    ensures |t| == |s| + 1
  {
    SiftUp(m, s + [v], |s|)
  }

  lemma PushedAdds(m: bool, s: seq<Ranked>, v: Ranked)
    ensures multiset(Pushed(m, s, v)) == multiset(s) + multiset{v}
  {
    SiftUpKeeps(m, s + [v], |s|);
  }

  lemma PushedIsHeap(m: bool, s: seq<Ranked>, v: Ranked)
    requires IsHeap(m, s)
    ensures IsHeap(m, Pushed(m, s, v))
  {
    var t := s + [v];
    forall j | 0 < j < |t| && j != |s| ensures Key(m, t[Parent(j)]) <= Key(m, t[j]) {
      assert Key(m, s[Parent(j)]) <= Key(m, s[j]);
    }
    SiftUpMakesHeap(m, t, |s|);
  }

  function Popped(m: bool, s: seq<Ranked>): (t: seq<Ranked>)
    requires s != []
    ensures |t| == |s| - 1
  {
    if |s| == 1 then [] else Heapify(m, s[..|s| - 1][0 := s[|s| - 1]], 0)
  }

  lemma PoppedRemoves(m: bool, s: seq<Ranked>)
    requires s != []
    ensures multiset(s) == multiset(Popped(m, s)) + multiset{s[0]}
  {
    if |s| == 1 {
      assert s == [s[0]];
    } else {
      HeapifyKeeps(m, s[..|s| - 1][0 := s[|s| - 1]], 0);
      MoveLast(s, s[1..|s| - 1]);
    }
  }

  lemma MoveLast(s: seq<Ranked>, middle: seq<Ranked>)
    requires |s| > 1 && middle == s[1..|s| - 1]
    ensures multiset(s) == multiset(s[..|s| - 1][0 := s[|s| - 1]]) + multiset{s[0]}
  {
    var last := s[|s| - 1];
    assert s[..|s| - 1][0 := last] == [last] + middle;
    assert s == [s[0]] + middle + [last];
  }

  lemma PoppedIsHeap(m: bool, s: seq<Ranked>)
    requires s != [] && IsHeap(m, s)
    ensures IsHeap(m, Popped(m, s))
  {
    if |s| > 1 {
      var moved := s[..|s| - 1][0 := s[|s| - 1]];
      forall j | 0 < j < |moved| && Parent(j) != 0 ensures Key(m, moved[Parent(j)]) <= Key(m, moved[j]) {
        assert Key(m, s[Parent(j)]) <= Key(m, s[j]);
      }
      HeapifyMakesHeap(m, moved, 0);
    }
  }

  /* ---------- the array ---------- */

  class Heap {
    const heapNodes: array<Ranked>
    var heapSize: nat
    const heapSpace: nat
    const isMaxN: bool

    ghost predicate Valid()
      reads this, heapNodes
    {
      && heapNodes.Length == heapSpace
      && heapSize <= heapSpace
      && IsHeap(isMaxN, Nodes())
    }

    ghost function Nodes(): seq<Ranked>
      reads this, heapNodes
      requires heapSize <= heapNodes.Length
    {
      heapNodes[..heapSize]
    }

    /** AllocateHeap. */
    constructor (capacity: nat, isMaxN: bool)
      ensures Valid() && Nodes() == [] && heapSpace == capacity && this.isMaxN == isMaxN
      ensures fresh(heapNodes)
    {
      heapNodes := new Ranked[capacity];
      heapSize := 0;
      heapSpace := capacity;
      this.isMaxN := isMaxN;
    }

    /** The static Swap. */
    method SwapNodes(i: nat, j: nat)
      requires i < j < heapSize <= heapNodes.Length
      modifies heapNodes
      ensures Nodes() == Swap(old(Nodes()), i, j)
    {
      var temp := heapNodes[i];
      heapNodes[i] := heapNodes[j];
      heapNodes[j] := temp;
    }

    /** PushToHeap. */
    method Push(value: Ranked)
      requires Valid() && heapSize < heapSpace
      modifies this`heapSize, heapNodes
      ensures Valid() && Nodes() == Pushed(isMaxN, old(Nodes()), value)
    {
      ghost var was := Nodes();
      ghost var goal := Pushed(isMaxN, was, value);
      var index := heapSize;
      heapSize := heapSize + 1;
      heapNodes[index] := value;
      assert Nodes() == was + [value];
      while index != 0 && !Before(isMaxN, heapNodes[(index - 1) / 2], heapNodes[index])
        invariant 0 <= index < heapSize <= heapNodes.Length && heapSize == |was| + 1
        invariant SiftUp(isMaxN, Nodes(), index) == goal
      {
        SwapNodes((index - 1) / 2, index);
        index := (index - 1) / 2;
      }
      assert Nodes() == goal;
      PushedIsHeap(isMaxN, was, value);
    }

    /** TopHeap. */
    method Top() returns (value: Ranked)
      requires Valid() && heapSize > 0
      ensures value == Nodes()[0]
    {
      value := heapNodes[0];
    }

    /** PopFromHeap. */
    method Pop() returns (result: Ranked)
      requires Valid() && heapSize > 0
      modifies this`heapSize, heapNodes
      ensures result == old(Nodes())[0]
      ensures Valid() && Nodes() == Popped(isMaxN, old(Nodes()))
    {
      ghost var was := Nodes();
      PoppedIsHeap(isMaxN, was);
      result := heapNodes[0];
      if heapSize == 1 {
        heapSize := heapSize - 1;
        return;
      }
      heapSize := heapSize - 1;
      heapNodes[0] := heapNodes[heapSize];
      assert Nodes() == was[..|was| - 1][0 := was[|was| - 1]];
      HeapifyAt(0);
    }

    /** The static Heapify, on the first heapSize nodes. */
    method HeapifyAt(index: nat)
      requires index < heapSize <= heapNodes.Length
      modifies heapNodes
      ensures Nodes() == Heapify(isMaxN, old(Nodes()), index)
      decreases heapSize - index
    {
      var limit := index;
      var leftIndex, rightIndex := 2 * index + 1, 2 * index + 2;
      if leftIndex < heapSize && Before(isMaxN, heapNodes[leftIndex], heapNodes[limit]) {
        limit := leftIndex;
      }
      if rightIndex < heapSize && Before(isMaxN, heapNodes[rightIndex], heapNodes[limit]) {
        limit := rightIndex;
      }
      assert limit == Least(isMaxN, Nodes(), index);
      if limit != index {
        SwapNodes(index, limit);
        HeapifyAt(limit);
      }
    }
  }
}

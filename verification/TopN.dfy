/**
 `$maxN` and `$minN` as Postgres runs them: a transition per row, states of separate row sets
 combined in any order, and a final array. Whatever the split, the result is the best n inputs.
 */
module TopN {
  import opened Options
  import opened Bson
  import opened BinaryHeap

  /** kept is a choice of the best min(n, |input|) of the inputs: nothing left out beats
      anything kept. (A larger key is better: the heap's top is the one to give up.) */
  ghost predicate IsTopN(m: bool, n: nat, input: multiset<Ranked>, kept: multiset<Ranked>) {
    && kept <= input
    && |kept| == (if |input| < n then |input| else n)
    && forall x, y :: kept[x] < input[x] && y in kept ==> Key(m, x) <= Key(m, y)
  }

  /* ---------- one value ---------- */

  /** What a row does to the heap: pushed while there is room, otherwise it replaces the top
      unless it sorts before it. */
  function Inserted(m: bool, n: nat, s: seq<Ranked>, v: Ranked): (t: seq<Ranked>)
    requires n >= 1 && |s| <= n
    ensures |t| <= n
  {
    if |s| < n then Pushed(m, s, v)
    else if !Before(m, v, s[0]) then Pushed(m, Popped(m, s), v)
    else s
  }

  lemma InsertedIsHeap(m: bool, n: nat, s: seq<Ranked>, v: Ranked)
    requires n >= 1 && |s| <= n && IsHeap(m, s)
    ensures IsHeap(m, Inserted(m, n, s, v))
  {
    if |s| < n {
      PushedIsHeap(m, s, v);
    } else {
      PoppedIsHeap(m, s);
      PushedIsHeap(m, Popped(m, s), v);
    }
  }

  lemma KeptAll(m: bool, n: nat, input: multiset<Ranked>, kept: multiset<Ranked>)
    requires IsTopN(m, n, input, kept) && |kept| < n
    ensures kept == input
  {
    assert input == kept + (input - kept);
    assert |input - kept| == 0;
  }

  lemma InsertedIsTopN(m: bool, n: nat, input: multiset<Ranked>, s: seq<Ranked>, v: Ranked)
    requires n >= 1 && |s| <= n && IsHeap(m, s) && IsTopN(m, n, input, multiset(s))
    ensures IsTopN(m, n, input + multiset{v}, multiset(Inserted(m, n, s, v)))
  {
    if |s| < n {
      PushedAdds(m, s, v);
      KeptAll(m, n, input, multiset(s));
    } else {
      InsertedInFull(m, n, input, s, v);
    }
  }

  lemma InsertedInFull(m: bool, n: nat, input: multiset<Ranked>, s: seq<Ranked>, v: Ranked)
    requires n >= 1 && |s| == n && IsHeap(m, s) && IsTopN(m, n, input, multiset(s))
    ensures IsTopN(m, n, input + multiset{v}, multiset(Inserted(m, n, s, v)))
  {
    var kept, top := multiset(s), s[0];
    forall y | y in kept ensures Key(m, top) <= Key(m, y) {
      TopIsLeastOf(m, s, y);
    }
    if !Before(m, v, top) {
      PoppedRemoves(m, s);
      PushedAdds(m, Popped(m, s), v);
      assert multiset(Popped(m, s)) == kept - multiset{top};
      ReplaceTop(m, n, input, kept, top, v);
    } else {
      LeaveOut(m, n, input, kept, top, v);
    }
  }

  lemma ReplaceTop(m: bool, n: nat, input: multiset<Ranked>, kept: multiset<Ranked>, top: Ranked, v: Ranked)
    requires IsTopN(m, n, input, kept) && |kept| == n && top in kept
    requires forall y :: y in kept ==> Key(m, top) <= Key(m, y)
    requires Key(m, top) <= Key(m, v)
    ensures IsTopN(m, n, input + multiset{v}, kept - multiset{top} + multiset{v})
  {
    var kept' := kept - multiset{top} + multiset{v};
    forall x, y | kept'[x] < (input + multiset{v})[x] && y in kept' ensures Key(m, x) <= Key(m, y) {
      assert kept[x] < input[x] || x == top;
      assert y in kept || y == v;
    }
  }

  lemma LeaveOut(m: bool, n: nat, input: multiset<Ranked>, kept: multiset<Ranked>, top: Ranked, v: Ranked)
    requires IsTopN(m, n, input, kept) && |kept| == n
    requires forall y :: y in kept ==> Key(m, top) <= Key(m, y)
    requires Key(m, v) < Key(m, top)
    ensures IsTopN(m, n, input + multiset{v}, kept)
  {
    forall x, y | kept[x] < (input + multiset{v})[x] && y in kept ensures Key(m, x) <= Key(m, y) {
      assert kept[x] < input[x] || x == v;
    }
  }

  /* ---------- two states ---------- */

  /** bson_maxminn_combine: the left heap is emptied into the right one, top first. */
  function Combined(m: bool, n: nat, left: seq<Ranked>, right: seq<Ranked>): (t: seq<Ranked>)
    requires n >= 1 && |right| <= n
    ensures |t| <= n
    decreases |left|
  {
    if left == [] then right else Combined(m, n, Popped(m, left), Inserted(m, n, right, left[0]))
  }

  lemma {:induction false} CombinedTakesAll(m: bool, n: nat, input: multiset<Ranked>, left: seq<Ranked>,
                                            right: seq<Ranked>)
    requires n >= 1 && |right| <= n && IsHeap(m, right) && IsTopN(m, n, input, multiset(right))
    ensures IsHeap(m, Combined(m, n, left, right))
    ensures IsTopN(m, n, input + multiset(left), multiset(Combined(m, n, left, right)))
    decreases |left|
  {
    if left != [] {
      InsertedIsHeap(m, n, right, left[0]);
      InsertedIsTopN(m, n, input, right, left[0]);
      PoppedRemoves(m, left);
      CombinedTakesAll(m, n, input + multiset{left[0]}, Popped(m, left), Inserted(m, n, right, left[0]));
      assert input + multiset{left[0]} + multiset(Popped(m, left)) == input + multiset(left);
    }
  }

  /** The best n of one part and the best n of another part's best n are the best n of both. */
  lemma BestOfBest(m: bool, n: nat, a: multiset<Ranked>, best: multiset<Ranked>, b: multiset<Ranked>,
                   kept: multiset<Ranked>)
    requires n >= 1 && IsTopN(m, n, a, best) && IsTopN(m, n, b + best, kept)
    ensures IsTopN(m, n, a + b, kept)
  {
    if |best| < n { KeptAll(m, n, a, best); assert b + best == a + b; }
    else {
      SizeOfPart(best, a);
      SizeOfPart(best, b + best);
      assert |kept| == n;
      forall x, y | kept[x] < (a + b)[x] && y in kept ensures Key(m, x) <= Key(m, y) {
        if (b + best)[x] <= kept[x] {
          assert best[x] < a[x];
          if Key(m, y) < Key(m, x) {
            forall l | l in best ensures best[l] <= kept[l] {
              assert Key(m, x) <= Key(m, l);
              assert (b + best)[l] <= kept[l];
            }
            SameSize(best, kept);
          }
        }
      }
    }
  }

  lemma SizeOfPart(p: multiset<Ranked>, w: multiset<Ranked>)
    requires p <= w
    ensures |p| <= |w|
  {
    assert w == p + (w - p);
  }

  lemma SameSize(p: multiset<Ranked>, w: multiset<Ranked>)
    requires p <= w && |p| == |w|
    ensures p == w
  {
    assert w == p + (w - p);
  }

  lemma CombinedIsTopN(m: bool, n: nat, a: multiset<Ranked>, left: seq<Ranked>, b: multiset<Ranked>, right: seq<Ranked>)
    requires n >= 1 && |right| <= n && IsHeap(m, right)
    requires IsTopN(m, n, a, multiset(left)) && IsTopN(m, n, b, multiset(right))
    ensures IsHeap(m, Combined(m, n, left, right))
    ensures IsTopN(m, n, a + b, multiset(Combined(m, n, left, right)))
  {
    CombinedTakesAll(m, n, b, left, right);
    BestOfBest(m, n, a, multiset(left), b, multiset(Combined(m, n, left, right)));
  }

  /* ---------- the final array ---------- */

  ghost predicate BestFirst(m: bool, s: seq<Ranked>) {
    forall i, j :: 0 <= i < j < |s| ==> Key(m, s[i]) >= Key(m, s[j])
  }

  /** The final array does not depend on which choice was kept, up to values that compare equal:
      place by place it has the ranks of the inputs sorted best first. */
  lemma BestFirstIsUnique(m: bool, n: nat, input: multiset<Ranked>, s: seq<Ranked>, t: seq<Ranked>, i: nat)
    requires IsTopN(m, n, input, multiset(s)) && IsTopN(m, n, input, multiset(t))
    requires BestFirst(m, s) && BestFirst(m, t) && i < |s|
    ensures |s| == |t| && Key(m, s[i]) == Key(m, t[i])
  {
    assert |multiset(s)| == |s| && |multiset(t)| == |t|;
    NoBetter(m, n, input, s, t, i);
    NoBetter(m, n, input, t, s, i);
  }

  lemma NoBetter(m: bool, n: nat, input: multiset<Ranked>, s: seq<Ranked>, t: seq<Ranked>, i: nat)
    requires IsTopN(m, n, input, multiset(s)) && IsTopN(m, n, input, multiset(t))
    requires BestFirst(m, s) && BestFirst(m, t) && i < |s| == |t|
    ensures Key(m, s[i]) <= Key(m, t[i])
  {
    if Key(m, s[i]) > Key(m, t[i]) {
      var front, front' := s[..i + 1], t[..i];
      forall x ensures multiset(front)[x] <= multiset(front')[x] {
        if x in front { FrontFits(m, n, input, s, t, i, x); }
      }
      SizeOfPart(multiset(front), multiset(front'));
    }
  }

  lemma FrontFits(m: bool, n: nat, input: multiset<Ranked>, s: seq<Ranked>, t: seq<Ranked>, i: nat, x: Ranked)
    requires multiset(s)[x] <= input[x] && IsTopN(m, n, input, multiset(t))
    requires BestFirst(m, s) && BestFirst(m, t) && i < |s| == |t|
    requires Key(m, s[i]) > Key(m, t[i]) && x in s[..i + 1]
    ensures multiset(s[..i + 1])[x] <= multiset(t[..i])[x]
  {
    var j :| 0 <= j <= i && s[j] == x;
    KeptInFront(m, n, input, t, i, x);
    SplitCount(s, i + 1, x);
  }

  lemma SplitCount(s: seq<Ranked>, k: nat, x: Ranked)
    requires k <= |s|
    ensures multiset(s)[x] == multiset(s[..k])[x] + multiset(s[k..])[x]
    ensures x !in s[k..] ==> multiset(s[k..])[x] == 0
  {
    assert s == s[..k] + s[k..];
  }

  // An input that beats t[i] occurs among the first i of t as often as it occurs at all.
  lemma KeptInFront(m: bool, n: nat, input: multiset<Ranked>, t: seq<Ranked>, i: nat, x: Ranked)
    requires IsTopN(m, n, input, multiset(t)) && BestFirst(m, t)
    requires i < |t| && Key(m, x) > Key(m, t[i])
    ensures input[x] <= multiset(t[..i])[x]
  {
    assert t[i] in multiset(t);
    assert x !in t[i..];
    SplitCount(t, i, x);
  }

  /* ---------- the aggregate functions ---------- */

  ghost predicate IsState(state: Heap, n: nat, isMaxN: bool)
    reads state, state.heapNodes
  {
    state.Valid() && state.heapSpace == n && state.isMaxN == isMaxN
  }

  /** bson_maxminn_transition. A null or missing input is ignored, but the state is created by it.
      Every row of the group has the same n, as the operator demands. */
  method Transition(state: Heap?, input: Option<Ranked>, n: nat, isMaxN: bool) returns (next: Heap)
    requires n >= 1
    requires state != null ==> IsState(state, n, isMaxN)
    modifies state, if state == null then {} else {state.heapNodes}
    ensures IsState(next, n, isMaxN)
    ensures if state == null then fresh(next) && fresh(next.heapNodes) else next == state
    ensures var s := if state == null then [] else old(state.Nodes());
            next.Nodes() == if input.None? then s else Inserted(isMaxN, n, s, input.value)
  {
    if state == null {
      next := new Heap(n, isMaxN);
    } else {
      next := state;
    }
    if input.Some? {
      Insert(next, input.value, n);
    }
  }

  method Insert(heap: Heap, value: Ranked, n: nat)
    requires n >= 1 && IsState(heap, n, heap.isMaxN)
    modifies heap, heap.heapNodes
    ensures IsState(heap, n, heap.isMaxN)
    ensures heap.Nodes() == Inserted(heap.isMaxN, n, old(heap.Nodes()), value)
  {
    if heap.heapSize < n {
      heap.Push(value);
    } else {
      var top := heap.Top();
      if !Before(heap.isMaxN, value, top) {
        var _ := heap.Pop();
        heap.Push(value);
      }
    }
  }

  /** bson_maxminn_combine. The left heap is used up. */
  method Combine(left: Heap?, right: Heap?, n: nat, isMaxN: bool) returns (both: Heap?)
    requires n >= 1
    requires left != null ==> IsState(left, n, isMaxN)
    requires right != null ==> IsState(right, n, isMaxN)
    requires left != null && right != null ==> left != right && left.heapNodes != right.heapNodes
    modifies left, if left == null then {} else {left.heapNodes}
    modifies right, if right == null then {} else {right.heapNodes}
    ensures both == if right == null then left else right
    ensures both != null ==> IsState(both, n, isMaxN)
    ensures both != null ==> both.Nodes() == if left == null then old(right.Nodes())
                                             else if right == null then old(left.Nodes())
                                             else Combined(isMaxN, n, old(left.Nodes()), old(right.Nodes()))
  {
    if left == null {
      return right;
    }
    if right != null {
      MergeInto(left, right, n);
    }
    both := if right == null then left else right;
  }

  /** Its loop. */
  method MergeInto(left: Heap, right: Heap, n: nat)
    requires n >= 1 && left != right && left.heapNodes != right.heapNodes
    requires left.Valid() && IsState(right, n, left.isMaxN)
    modifies left, left.heapNodes, right, right.heapNodes
    ensures IsState(right, n, left.isMaxN)
    ensures right.Nodes() == Combined(left.isMaxN, n, old(left.Nodes()), old(right.Nodes()))
  {
    ghost var m := left.isMaxN;
    ghost var goal := Combined(m, n, left.Nodes(), right.Nodes());
    while left.heapSize > 0
      invariant left.Valid() && IsState(right, n, m)
      invariant Combined(m, n, left.Nodes(), right.Nodes()) == goal
      decreases left.heapSize
    {
      ghost var l, r := left.Nodes(), right.Nodes();
      assert goal == Combined(m, n, Popped(m, l), Inserted(m, n, r, l[0]));
      var leftValue := left.Top();
      Insert(right, leftValue, n);
      var _ := left.Pop();
    }
    assert left.Nodes() == [];
  }

  /** bson_maxminn_final. */
  method Final(state: Heap?) returns (values: seq<Ranked>)
    requires state != null ==> state.Valid()
    modifies state, if state == null then {} else {state.heapNodes}
    ensures state == null ==> values == []
    ensures state != null ==> multiset(values) == multiset(old(state.Nodes())) && BestFirst(state.isMaxN, values)
  {
    if state == null {
      return [];
    }
    DrainedIsBestFirst(state.isMaxN, state.Nodes());
    values := Drain(state);
  }

  /** Its loop: the array is filled from the back, as the heap gives its values up. */
  method Drain(state: Heap) returns (values: seq<Ranked>)
    requires state.Valid()
    modifies state, state.heapNodes
    ensures values == Drained(state.isMaxN, old(state.Nodes()))
  {
    var numEntries := state.heapSize;
    values := seq(numEntries, _ => Ranked(0.0, ""));
    ghost var goal := Drained(state.isMaxN, state.Nodes());
    while state.heapSize > 0
      invariant state.Valid() && state.heapSize <= numEntries == |values|
      invariant Drained(state.isMaxN, state.Nodes()) == goal[..state.heapSize]
      invariant forall i :: state.heapSize <= i < numEntries ==> values[i] == goal[i]
    {
      var index := state.heapSize - 1;
      var top := TakeTop(state, goal);
      values := values[index := top];
    }
    assert values == goal;
  }

  method TakeTop(state: Heap, ghost goal: seq<Ranked>) returns (top: Ranked)
    requires state.Valid() && 0 < state.heapSize <= |goal|
    requires Drained(state.isMaxN, state.Nodes()) == goal[..state.heapSize]
    modifies state, state.heapNodes
    ensures state.Valid() && state.heapSize == old(state.heapSize) - 1
    ensures top == goal[state.heapSize]
    ensures Drained(state.isMaxN, state.Nodes()) == goal[..state.heapSize]
  {
    DrainStep(state.isMaxN, state.Nodes(), goal);
    top := state.Pop();
  }

  lemma DrainStep(m: bool, nodes: seq<Ranked>, goal: seq<Ranked>)
    requires nodes != [] && |nodes| <= |goal| && Drained(m, nodes) == goal[..|nodes|]
    ensures goal[|nodes| - 1] == nodes[0] && Drained(m, Popped(m, nodes)) == goal[..|nodes| - 1]
  {
    var rest := Drained(m, Popped(m, nodes));
    assert (rest + [nodes[0]])[|nodes| - 1] == nodes[0];
    assert goal[..|nodes|][..|nodes| - 1] == goal[..|nodes| - 1];
  }

  /** The values in the order the heap gives them up, last first. */
  function Drained(m: bool, s: seq<Ranked>): (t: seq<Ranked>)
    ensures |t| == |s|
    decreases |s|
  {
    if s == [] then [] else Drained(m, Popped(m, s)) + [s[0]]
  }

  lemma TopIsLeastOf(m: bool, s: seq<Ranked>, x: Ranked)
    requires IsHeap(m, s) && x in multiset(s)
    ensures Key(m, s[0]) <= Key(m, x)
  {
    var i :| 0 <= i < |s| && s[i] == x;
    TopIsLeast(m, s, i);
  }

  lemma AppendLast(m: bool, s: seq<Ranked>, v: Ranked)
    requires BestFirst(m, s) && forall x :: x in s ==> Key(m, v) <= Key(m, x)
    ensures BestFirst(m, s + [v])
  {}

  lemma {:induction false} DrainedIsBestFirst(m: bool, s: seq<Ranked>)
    requires IsHeap(m, s)
    ensures multiset(Drained(m, s)) == multiset(s)
    ensures BestFirst(m, Drained(m, s))
    decreases |s|
  {
    if s != [] {
      var rest := Popped(m, s);
      PoppedIsHeap(m, s);
      PoppedRemoves(m, s);
      DrainedIsBestFirst(m, rest);
      forall x | x in Drained(m, rest) ensures Key(m, s[0]) <= Key(m, x) {
        assert x in multiset(rest);
        TopIsLeastOf(m, s, x);
      }
      AppendLast(m, Drained(m, rest), s[0]);
    }
  }

  /* ---------- any way of running them ---------- */

  /** How the rows of a group are split into partial aggregates and combined again. */
  datatype Plan = NoRows | Row(before: Plan, input: Option<Ranked>) | Both(left: Plan, right: Plan)

  function Inputs(p: Plan): multiset<Ranked> {
    match p
    case NoRows => multiset{}
    case Row(q, None) => Inputs(q)
    case Row(q, Some(v)) => Inputs(q) + multiset{v}
    case Both(l, r) => Inputs(l) + Inputs(r)
  }

  predicate HasRow(p: Plan) {
    match p
    case NoRows => false
    case Row(_, _) => true
    case Both(l, r) => HasRow(l) || HasRow(r)
  }

  /** The state holds the best n of these inputs; there is no state only if there was no row. */
  ghost predicate Represents(state: Heap?, n: nat, isMaxN: bool, inputs: multiset<Ranked>)
    reads state, if state == null then {} else {state.heapNodes}
  {
    if state == null then inputs == multiset{}
    else IsState(state, n, isMaxN) && IsTopN(isMaxN, n, inputs, multiset(state.Nodes()))
  }

  method RunRow(before: Heap?, input: Option<Ranked>, n: nat, isMaxN: bool, ghost seen: multiset<Ranked>)
    returns (state: Heap)
    requires n >= 1 && Represents(before, n, isMaxN, seen)
    modifies before, if before == null then {} else {before.heapNodes}
    ensures if before == null then fresh(state) && fresh(state.heapNodes) else state == before
    ensures Represents(state, n, isMaxN, if input.None? then seen else seen + multiset{input.value})
  {
    ghost var s := if before == null then [] else before.Nodes();
    assert IsTopN(isMaxN, n, seen, multiset(s));
    if input.Some? { InsertedIsTopN(isMaxN, n, seen, s, input.value); }
    state := Transition(before, input, n, isMaxN);
  }

  method RunBoth(left: Heap?, right: Heap?, n: nat, isMaxN: bool, ghost l: multiset<Ranked>, ghost r: multiset<Ranked>)
    returns (state: Heap?)
    requires n >= 1 && Represents(left, n, isMaxN, l) && Represents(right, n, isMaxN, r)
    requires left != null && right != null ==> left != right && left.heapNodes != right.heapNodes
    modifies left, if left == null then {} else {left.heapNodes}
    modifies right, if right == null then {} else {right.heapNodes}
    ensures state == if right == null then left else right
    ensures Represents(state, n, isMaxN, l + r)
  {
    if left != null && right != null {
      CombinedIsTopN(isMaxN, n, l, left.Nodes(), r, right.Nodes());
    }
    assert multiset{} + r == r && l + multiset{} == l;
    state := Combine(left, right, n, isMaxN);
  }

  method RunPlan(p: Plan, n: nat, isMaxN: bool) returns (state: Heap?)
    requires n >= 1
    ensures state != null <==> HasRow(p)
    ensures state != null ==> fresh(state) && fresh(state.heapNodes)
    ensures Represents(state, n, isMaxN, Inputs(p))
    decreases p, 1
  {
    match p
    case NoRows => state := null;
    case Row(q, input) =>
      var before := RunPlan(q, n, isMaxN);
      state := RunRow(before, input, n, isMaxN, Inputs(q));
    case Both(_, _) => state := RunParts(p, n, isMaxN);
  }

  method RunParts(p: Plan, n: nat, isMaxN: bool) returns (state: Heap?)
    requires n >= 1 && p.Both?
    ensures state != null <==> HasRow(p)
    ensures state != null ==> fresh(state) && fresh(state.heapNodes)
    ensures Represents(state, n, isMaxN, Inputs(p))
    decreases p, 0
  {
    var left := RunPlan(p.left, n, isMaxN);
    var right := RunPlan(p.right, n, isMaxN);
    state := RunBoth(left, right, n, isMaxN, Inputs(p.left), Inputs(p.right));
  }

  /* ---------- in ranks ---------- */

  /** From the greatest rank down for maxN, from the least up for minN. */
  ghost predicate InOrder(isMaxN: bool, s: seq<Ranked>) {
    forall i, j :: 0 <= i < j < |s| ==> if isMaxN then s[i].rank >= s[j].rank else s[i].rank <= s[j].rank
  }

  /** maxN: min(n, count) of the inputs, none of those left out ranks above one kept, and they descend. minN: none
      ranks below, and they ascend. */
  ghost predicate AreBest(isMaxN: bool, n: nat, inputs: multiset<Ranked>, values: seq<Ranked>) {
    && multiset(values) <= inputs && |values| == (if |inputs| < n then |inputs| else n)
    && (forall x, y :: multiset(values)[x] < inputs[x] && y in values ==>
          if isMaxN then x.rank <= y.rank else x.rank >= y.rank)
    && InOrder(isMaxN, values)
  }

  /** Place by place they rank like all the inputs in order. */
  ghost predicate RankLikeInputs(isMaxN: bool, inputs: multiset<Ranked>, values: seq<Ranked>) {
    forall sorted: seq<Ranked>, i :: multiset(sorted) == inputs && InOrder(isMaxN, sorted) && 0 <= i < |values| ==>
      i < |sorted| && values[i].rank == sorted[i].rank
  }

  lemma InRanks(m: bool, n: nat, inputs: multiset<Ranked>, values: seq<Ranked>)
    requires IsTopN(m, n, inputs, multiset(values)) && BestFirst(m, values)
    ensures AreBest(m, n, inputs, values) && RankLikeInputs(m, inputs, values)
  {
    assert |multiset(values)| == |values|;
    forall x, y | multiset(values)[x] < inputs[x] && y in values
      ensures if m then x.rank <= y.rank else x.rank >= y.rank
    {
      assert y in multiset(values) && Key(m, x) <= Key(m, y);
    }
    forall sorted: seq<Ranked>, i | multiset(sorted) == inputs && InOrder(m, sorted) && 0 <= i < |values|
      ensures i < |sorted| && values[i].rank == sorted[i].rank
    {
      RanksLikeSorted(m, n, inputs, values, sorted, i);
    }
  }

  /** The rows of a plan, from left to right. */
  function Rows(p: Plan): seq<Option<Ranked>> {
    match p
    case NoRows => []
    case Row(q, input) => Rows(q) + [input]
    case Both(l, r) => Rows(l) + Rows(r)
  }

  /** The inputs are the values of the rows, each as often as it occurs. */
  lemma {:induction false} InputsAreRows(p: Plan, v: Ranked)
    ensures Inputs(p)[v] == multiset(Rows(p))[Some(v)] && (HasRow(p) <==> Rows(p) != [])
  {
    match p
    case NoRows =>
    case Row(q, input) =>
      InputsAreRows(q, v);
      CountBoth(Rows(q), [input], Some(v));
      CountOne(input, v);
    case Both(l, r) =>
      InputsAreRows(l, v);
      InputsAreRows(r, v);
      CountBoth(Rows(l), Rows(r), Some(v));
  }

  lemma CountBoth<T>(a: seq<T>, b: seq<T>, x: T)
    ensures multiset(a + b)[x] == multiset(a)[x] + multiset(b)[x]
  {
    assert multiset(a + b) == multiset(a) + multiset(b);
  }

  lemma CountOne(input: Option<Ranked>, v: Ranked)
    ensures multiset([input])[Some(v)] == if input == Some(v) then 1 else 0
  {
    assert multiset([input]) == multiset{input};
  }

  /** The operator: for every split of the rows the array holds the best min(n, count) inputs, best
      first; place by place it ranks like any best-first arrangement of all inputs. */
  method MaxMinN(p: Plan, n: nat, isMaxN: bool) returns (values: seq<Ranked>)
    requires n >= 1
    ensures AreBest(isMaxN, n, Inputs(p), values) && RankLikeInputs(isMaxN, Inputs(p), values)
  {
    var state := RunPlan(p, n, isMaxN);
    values := Final(state);
    InRanks(isMaxN, n, Inputs(p), values);
  }

  lemma RanksLikeSorted(m: bool, n: nat, inputs: multiset<Ranked>, values: seq<Ranked>, sorted: seq<Ranked>, i: nat)
    requires IsTopN(m, n, inputs, multiset(values)) && BestFirst(m, values) && i < |values|
    requires multiset(sorted) == inputs && BestFirst(m, sorted)
    ensures i < |sorted| && Key(m, values[i]) == Key(m, sorted[i])
  {
    SortedPrefixIsTopN(m, n, sorted);
    var k := if |sorted| < n then |sorted| else n;
    assert |multiset(values)| == |values| && |multiset(sorted)| == |sorted|;
    BestFirstIsUnique(m, n, inputs, values, sorted[..k], i);
  }

  lemma FrontIsTopN(m: bool, n: nat, front: seq<Ranked>, back: seq<Ranked>)
    requires BestFirst(m, front + back) && |front| <= n && (|front| < n ==> back == [])
    ensures IsTopN(m, n, multiset(front + back), multiset(front)) && BestFirst(m, front)
  {
    assert forall i :: 0 <= i < |front| ==> front[i] == (front + back)[i];
    forall x, y | multiset(front)[x] < multiset(front + back)[x] && y in multiset(front)
      ensures Key(m, x) <= Key(m, y)
    {
      assert x in multiset(back);
      var i :| 0 <= i < |front| && front[i] == y;
      var j :| 0 <= j < |back| && back[j] == x;
      assert (front + back)[|front| + j] == x;
    }
  }

  lemma SortedPrefixIsTopN(m: bool, n: nat, sorted: seq<Ranked>)
    requires BestFirst(m, sorted)
    ensures var k := if |sorted| < n then |sorted| else n;
            IsTopN(m, n, multiset(sorted), multiset(sorted[..k])) && BestFirst(m, sorted[..k])
  {
    var k := if |sorted| < n then |sorted| else n;
    var front, back := sorted[..k], sorted[k..];
    assert front + back == sorted;
    FrontIsTopN(m, n, front, back);
  }
}

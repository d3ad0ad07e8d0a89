/**
 `$sum`, `$avg` and `$push` over a sliding window: rows enter at the tail and leave at the head, and
 an inverse transition undoes what the row leaving once did, instead of starting over. Also the
 running size the collecting accumulators check before they take a document.
 */
module WindowAggregates {
  import opened Options
  import opened Picking

  /** One row's argument: SQL NULL; the empty document (a missing field); or a document holding a
      number (taken as an exact integer) or something else. `size` is its BSON size. */
  datatype Input = SqlNull | Missing(size: nat) | Number(n: int, size: nat) | Other(content: string, size: nat)

  /* ---------- $sum and $avg ---------- */

  function Sum(window: seq<Input>): int {
    if window == [] then 0 else Sum(window[..|window| - 1]) + Amount(window[|window| - 1])
  }

  function Amount(r: Input): int { if r.Number? then r.n else 0 }

  function Count(window: seq<Input>): nat {
    if window == [] then 0 else Count(window[..|window| - 1]) + if window[|window| - 1].Number? then 1 else 0
  }

  lemma {:induction false} WithoutHead(window: seq<Input>)
    requires window != []
    ensures Sum(window) == Amount(window[0]) + Sum(window[1..])
    ensures Count(window) == (if window[0].Number? then 1 else 0) + Count(window[1..])
  {
    var init := window[..|window| - 1];
    if init != [] {
      WithoutHead(init);
      assert window[1..][..|window| - 2] == init[1..];
    }
  }

  /** BsonNumericAggState. */
  class NumericState {
    var sum: int
    var count: nat

    constructor ()
      ensures sum == 0 && count == 0
    {
      sum, count := 0, 0;
    }
  }

  ghost predicate SumsUp(state: NumericState?, window: seq<Input>)
    reads state
  {
    if state == null then window == [] else state.sum == Sum(window) && state.count == Count(window)
  }

  /** bson_sum_avg_transition. */
  method SumTransition(state: NumericState?, row: Input, ghost window: seq<Input>) returns (next: NumericState)
    requires SumsUp(state, window)
    modifies state
    ensures SumsUp(next, window + [row])
    ensures if state == null then fresh(next) else next == state
  {
    assert (window + [row])[..|window|] == window;
    if state == null {
      next := new NumericState();
    } else {
      next := state;
    }
    if row.Number? {
      next.sum := next.sum + row.n;
      next.count := next.count + 1;
    }
  }

  /** bson_sum_avg_minvtransition, for the row at the head of the window; without a state it
      declines, and the aggregation starts over. The guard on count never holds a numeric
      row back. */
  method SumInverse(state: NumericState?, row: Input, ghost window: seq<Input>) returns (next: NumericState?)
    requires SumsUp(state, window) && window != [] && window[0] == row
    modifies state
    ensures next == state && SumsUp(next, window[1..])
  {
    WithoutHead(window);
    if state == null {
      return null;
    }
    next := state;
    if row.Number? && state.count > 0 {
      next.sum := next.sum - row.n;
      next.count := next.count - 1;
    }
  }

  /* ---------- $push ---------- */

  const LIMIT: nat := 104857600  // BSON_MAX_ALLOWED_SIZE_INTERMEDIATE

  function Narrow(n: nat): nat { n % 0x1_0000_0000 }

  /** CheckAggregateIntermediateResultSize: its argument is narrowed to uint32. */
  predicate SizeAllowed(size: nat) {
    Narrow(size) <= LIMIT
  }

  predicate CheckIsExact(written: nat, size: nat) {
    SizeAllowed(written + size) <==> written + size <= LIMIT
  }

  /** The narrowing is exact for a running size and a document exactly when their sum is below 2^32:
      from there on a document that is far too large passes. So it is exact for every running
      size exactly for documents below 2^32 - LIMIT. */
  lemma NarrowingIsExact(size: nat)
    requires size < 0x1_0000_0000
    ensures forall written: nat :: written <= LIMIT ==>
              (CheckIsExact(written, size) <==> written + size < 0x1_0000_0000)
    ensures (forall written: nat :: written <= LIMIT ==> CheckIsExact(written, size)) <==> size < 0x1_0000_0000 - LIMIT
  {
    assert CheckIsExact(LIMIT, size) <==> LIMIT + size < 0x1_0000_0000;
  }

  function SizeOf(r: Input): nat { if r.SqlNull? then 0 else r.size }

  function TotalSize(window: seq<Input>): nat {
    if window == [] then 0 else TotalSize(window[..|window| - 1]) + SizeOf(window[|window| - 1])
  }

  lemma {:induction false} SizeWithoutHead(window: seq<Input>)
    requires window != []
    ensures TotalSize(window) == SizeOf(window[0]) + TotalSize(window[1..])
  {
    var init := window[..|window| - 1];
    if init != [] {
      SizeWithoutHead(init);
      assert window[1..][..|window| - 2] == init[1..];
    }
  }

  /** BsonArrayAggState of a window aggregation. */
  class PushState {
    var aggregateList: seq<Input>
    var currentSizeWritten: int

    constructor ()
      ensures aggregateList == [] && currentSizeWritten == 0
    {
      aggregateList, currentSizeWritten := [], 0;
    }

    /** In every reachable state: the written size is that of the list, and within bounds. */
    ghost predicate Valid()
      reads this
    {
      currentSizeWritten == TotalSize(aggregateList) <= LIMIT
    }

    /** BsonArrayAggTransitionCore, window case. */
    method Push(row: Input) returns (ok: bool)
      requires Valid() && SizeOf(row) < 0x1_0000_0000 - LIMIT
      modifies this
      ensures Valid()
      ensures ok <==> old(currentSizeWritten) + SizeOf(row) <= LIMIT
      ensures aggregateList == if ok then old(aggregateList) + [row] else old(aggregateList)
    {
      assert (aggregateList + [row])[..|aggregateList|] == aggregateList;
      if !row.SqlNull? {
        NarrowingIsExact(row.size);
        assert CheckIsExact(currentSizeWritten, row.size);
        if !SizeAllowed(currentSizeWritten + row.size) {
          return false;
        }
        currentSizeWritten := currentSizeWritten + row.size;
      }
      aggregateList := aggregateList + [row];
      ok := true;
    }

    /** bson_array_agg_minvtransition, for the row at the head of the window. */
    method RemoveHead(row: Input)
      requires Valid() && aggregateList != [] && aggregateList[0] == row
      modifies this
      ensures Valid() && aggregateList == old(aggregateList)[1..]
    {
      SizeWithoutHead(aggregateList);
      if !row.SqlNull? {
        currentSizeWritten := currentSizeWritten - row.size;
      }
      aggregateList := aggregateList[1..];
    }

    /** bson_array_agg_final, window case: NULL and missing values are not written. */
    method Final() returns (out: seq<Input>)
      ensures out == Present(aggregateList)
    {
      out := [];
      for i := 0 to |aggregateList|
        invariant out == Present(aggregateList[..i])
      {
        assert aggregateList[..i + 1][..i] == aggregateList[..i];
        var value := aggregateList[i];
        if !value.SqlNull? && !value.Missing? {
          out := out + [value];
        }
      }
      assert aggregateList[..|aggregateList|] == aggregateList;
    }
  }

  function Present(window: seq<Input>): seq<Input> {
    if window == [] then []
    else
      var r := window[|window| - 1];
      Present(window[..|window| - 1]) + if r.SqlNull? || r.Missing? then [] else [r]
  }

  /* ---------- any run ---------- */

  datatype Step = Enter(row: Input) | Leave

  /** The window after the steps; a step out of an empty window does nothing. */
  function Window(steps: seq<Step>): seq<Input> {
    if steps == [] then []
    else
      var before := Window(steps[..|steps| - 1]);
      match steps[|steps| - 1]
      case Enter(row) => before + [row]
      case Leave => if before == [] then [] else before[1..]
  }

  /** After any run of the two transitions the finals equal recomputation from the window. `avg` is
      None for a window without a number. */
  method RunSums(steps: seq<Step>) returns (sum: int, avg: Option<real>)
    ensures sum == Sum(Window(steps))
    ensures avg == if Count(Window(steps)) == 0 then None
                   else Some(Sum(Window(steps)) as real / Count(Window(steps)) as real)
  {
    var state: NumericState? := null;
    var window: seq<Input> := [];
    for i := 0 to |steps|
      invariant window == Window(steps[..i]) && SumsUp(state, window) && (state != null ==> fresh(state))
    {
      assert steps[..i + 1][..i] == steps[..i];
      match steps[i]
      case Enter(row) =>
        state := SumTransition(state, row, window);
        window := window + [row];
      case Leave =>
        if window != [] {
          state := SumInverse(state, window[0], window);
          window := window[1..];
        }
    }
    assert steps[..|steps|] == steps;
    // bson_sum_final and bson_avg_final
    sum := if state == null then 0 else state.sum;
    avg := if state == null || state.count == 0 then None else Some(state.sum as real / state.count as real);
  }

  /** The same for `$push`, stopping at the first document that would exceed the limit: `ok` tells
      whether every window on the way stayed within it. */
  method RunPush(steps: seq<Step>) returns (ok: bool, out: seq<Input>)
    requires forall i :: 0 <= i < |steps| && steps[i].Enter? ==> SizeOf(steps[i].row) < 0x1_0000_0000 - 104857600
    ensures ok <==> forall i :: 0 <= i <= |steps| ==> TotalSize(Window(steps[..i])) <= 104857600
    ensures ok ==> out == Present(Window(steps))
  {
    var state := new PushState();
    ok, out := true, [];
    for i := 0 to |steps|
      invariant fresh(state) && state.Valid() && ok
      invariant state.aggregateList == Window(steps[..i])
      invariant forall j :: 0 <= j <= i ==> TotalSize(Window(steps[..j])) <= LIMIT
    {
      assert steps[..i + 1][..i] == steps[..i];
      match steps[i]
      case Enter(row) =>
        assert (state.aggregateList + [row])[..|state.aggregateList|] == state.aggregateList;
        ok := state.Push(row);
        if !ok {
          assert TotalSize(Window(steps[..i + 1])) > LIMIT;
          return;
        }
      case Leave =>
        if state.aggregateList != [] {
          state.RemoveHead(state.aggregateList[0]);
        }
    }
    assert steps[..|steps|] == steps;
    out := state.Final();
  }

  /* ---------- $addToSet ---------- */

  /** Values that compare equal, whatever type of number they are stored as. */
  function Class(r: Input): Input {
    match r
    case SqlNull => r
    case Missing(_) => Missing(0)
    case Number(n, _) => Number(n, 0)
    case Other(content, _) => Other(content, 0)
  }

  /** BsonAddToSetState: the size counts each value once, with the size it first came in, though the check is
      made for every one. */
  class SetState {
    var values: set<Input>
    var currentSizeWritten: int
    ghost var entered: seq<Input>

    constructor ()
      ensures Valid() && values == {} && entered == []
    {
      values, currentSizeWritten, entered := {}, 0, [];
    }

    ghost predicate Valid()
      reads this
    {
      && currentSizeWritten == TotalSize(entered) <= LIMIT
      && (forall i, j :: 0 <= i < j < |entered| ==> Class(entered[i]) != Class(entered[j]))
      && (forall i :: 0 <= i < |entered| ==> Class(entered[i]) in values)
    }

    /** bson_add_to_set_transition. */
    method Add(row: Input) returns (ok: bool)
      requires Valid() && SizeOf(row) < 0x1_0000_0000 - LIMIT
      modifies this
      ensures Valid()
      ensures ok <==> row.SqlNull? || row.Missing? || old(currentSizeWritten) + row.size <= LIMIT
      ensures values == if ok && !row.SqlNull? && !row.Missing? then old(values) + {Class(row)} else old(values)
      ensures currentSizeWritten == old(currentSizeWritten) + if values != old(values) then SizeOf(row) else 0
    {
      if row.SqlNull? || row.Missing? {
        return true;
      }
      NarrowingIsExact(row.size);
      assert CheckIsExact(currentSizeWritten, row.size);
      if !SizeAllowed(currentSizeWritten + row.size) {
        return false;
      }
      var found := Class(row) in values;
      values := values + {Class(row)};
      if !found {
        currentSizeWritten := currentSizeWritten + row.size;
        assert (entered + [row])[..|entered|] == entered;
        entered := entered + [row];
      }
      ok := true;
    }
  }

  /* ---------- objects ---------- */

  /** A document of fields for bson_object_agg, or SQL NULL. */
  datatype ObjectInput = NoObject | Fields(fields: seq<(string, int)>, size: nat)

  /** The value of the last field of that name. */
  function LastField(fields: seq<(string, int)>, k: string): Option<int> {
    if fields == [] then None
    else if fields[|fields| - 1].0 == k then Some(fields[|fields| - 1].1)
    else LastField(fields[..|fields| - 1], k)
  }

  lemma LastFieldStep(fields: seq<(string, int)>, i: nat, k: string)
    requires i < |fields|
    ensures LastField(fields[..i + 1], k) == if fields[i].0 == k then Some(fields[i].1) else LastField(fields[..i], k)
  {
    assert fields[..i + 1][..i] == fields[..i];
  }

  function Lookup(tree: map<string, int>, k: string): Option<int> {
    if k in tree then Some(tree[k]) else None
  }

  function Overridden(tree: map<string, int>, fields: seq<(string, int)>, k: string): Option<int> {
    if LastField(fields, k).Some? then LastField(fields, k) else Lookup(tree, k)
  }

  lemma OverrideStep(before: map<string, int>, tree: map<string, int>, after: map<string, int>,
                     fields: seq<(string, int)>, i: nat)
    requires i < |fields| && forall k :: Lookup(tree, k) == Overridden(before, fields[..i], k)
    requires after == tree[fields[i].0 := fields[i].1]
    ensures forall k :: Lookup(after, k) == Overridden(before, fields[..i + 1], k)
  {
    forall k ensures Lookup(after, k) == Overridden(before, fields[..i + 1], k) {
      LastFieldStep(fields, i, k);
      assert Lookup(tree, k) == Overridden(before, fields[..i], k);
    }
  }

  /** BsonObjectAggState. */
  class ObjectState {
    var tree: map<string, int>
    var currentSizeWritten: int

    constructor ()
      ensures Valid() && tree == map[]
    {
      tree, currentSizeWritten := map[], 0;
    }

    ghost predicate Valid()
      reads this
    {
      0 <= currentSizeWritten <= LIMIT
    }

    /** AggregateObjectsCore: a field overrides one of the same name from before, or from the same
        document; a name overridden still counts in the size. */
    method Add(row: ObjectInput) returns (ok: bool)
      requires Valid() && (row.Fields? ==> row.size < 0x1_0000_0000 - LIMIT)
      modifies this
      ensures Valid()
      ensures ok <==> row.NoObject? || old(currentSizeWritten) + row.size <= LIMIT
      ensures currentSizeWritten == old(currentSizeWritten) + if ok && row.Fields? then row.size else 0
      ensures !ok || row.NoObject? ==> tree == old(tree)
      ensures ok && row.Fields? ==> forall k :: Lookup(tree, k) == Overridden(old(tree), row.fields, k)
    {
      if row.NoObject? {
        return true;
      }
      NarrowingIsExact(row.size);
      assert CheckIsExact(currentSizeWritten, row.size);
      if !SizeAllowed(currentSizeWritten + row.size) {
        return false;
      }
      for i := 0 to |row.fields|
        invariant currentSizeWritten == old(currentSizeWritten)
        invariant forall k :: Lookup(tree, k) == Overridden(old(tree), row.fields[..i], k)
      {
        ghost var was := tree;
        tree := tree[row.fields[i].0 := row.fields[i].1];
        OverrideStep(old(tree), was, tree, row.fields, i);
      }
      assert row.fields[..|row.fields|] == row.fields;
      currentSizeWritten := currentSizeWritten + row.size;
      ok := true;
    }
  }

  /* ---------- the reference, said otherwise ---------- */

  /** Sum, count and size are determined by what they are of one row, and by being added up. */
  lemma {:induction false} AddedUp(a: seq<Input>, b: seq<Input>)
    ensures Sum(a + b) == Sum(a) + Sum(b) && Count(a + b) == Count(a) + Count(b)
    ensures TotalSize(a + b) == TotalSize(a) + TotalSize(b)
  {
    if b == [] {
      assert a + b == a;
    } else {
      var init := b[..|b| - 1];
      AddedUp(a, init);
      assert (a + b)[..|a + b| - 1] == a + init;
    }
  }

  lemma OfOneRow(r: Input)
    ensures Sum([r]) == (if r.Number? then r.n else 0) && Count([r]) == (if r.Number? then 1 else 0)
    ensures TotalSize([r]) == if r.SqlNull? then 0 else r.size
  {
    assert [r][..0] == [];
  }

  /** `$push` returns the window without what is SQL NULL or missing, in order. */
  lemma {:induction false} PresentPicks(window: seq<Input>) returns (at: seq<nat>)
    ensures Picks(window, (r: Input) => !r.SqlNull? && !r.Missing?, Present(window), at)
  {
    if window == [] {
      at := [];
    } else {
      at := PresentPicks(window[..|window| - 1]);
      at := PicksLast(window, (r: Input) => !r.SqlNull? && !r.Missing?, Present(window[..|window| - 1]), at);
    }
  }

  /** The rows that entered, in order, and how many times one left. */
  function EnteredRows(steps: seq<Step>): seq<Input> {
    if steps == [] then []
    else EnteredRows(steps[..|steps| - 1]) + if steps[|steps| - 1].Enter? then [steps[|steps| - 1].row] else []
  }

  function Leaves(steps: seq<Step>): nat {
    if steps == [] then 0 else Leaves(steps[..|steps| - 1]) + if steps[|steps| - 1].Leave? then 1 else 0
  }

  /** The window is what entered, without as many rows from the front as have left. */
  lemma {:induction false} WindowIsRest(steps: seq<Step>)
    requires forall i :: 0 <= i <= |steps| ==> Leaves(steps[..i]) <= |EnteredRows(steps[..i])|
    ensures Leaves(steps) <= |EnteredRows(steps)| && Window(steps) == EnteredRows(steps)[Leaves(steps)..]
  {
    assert steps[..|steps|] == steps;
    if steps != [] {
      var init := steps[..|steps| - 1];
      forall i | 0 <= i <= |init| ensures Leaves(init[..i]) <= |EnteredRows(init[..i])| {
        assert init[..i] == steps[..i];
      }
      WindowIsRest(init);
    }
  }

  /** Values are one element of a set if they differ in size alone. */
  lemma SameClassIff(a: Input, b: Input)
    ensures Class(a) == Class(b) <==>
            match a
            case SqlNull => b.SqlNull?
            case Missing(_) => b.Missing?
            case Number(n, _) => b.Number? && b.n == n
            case Other(content, _) => b.Other? && b.content == content
  {
  }

  /** The last field of a name, by its place. */
  lemma {:induction false} LastFieldAt(fields: seq<(string, int)>, k: string) returns (i: nat)
    ensures if LastField(fields, k).None? then forall j :: 0 <= j < |fields| ==> fields[j].0 != k
            else && i < |fields| && fields[i].0 == k && LastField(fields, k) == Some(fields[i].1)
                 && forall j :: i < j < |fields| ==> fields[j].0 != k
  {
    i := 0;
    if fields != [] {
      if fields[|fields| - 1].0 == k {
        i := |fields| - 1;
      } else {
        i := LastFieldAt(fields[..|fields| - 1], k);
      }
    }
  }
}

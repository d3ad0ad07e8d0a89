/**
 The stages of a `$lookup` pipeline: what they do, the test each makes to be moved below the join, and
 when moving it there is right.
 */
module LookupStages {
  import opened Documents
  import opened Projection
  import opened JoinFilter
  import opened Inclusion
  import opened Options
  import opened Picking

  /** The `let` variables. */
  type Vars = Doc

  datatype SetField = SetField(name: string, value: (Vars, Doc) -> Value)

  /** UnknownStage is a stage whose name is not known; OtherStage is one without a test of its own. */
  datatype Stage =
    | UnknownStage
    | DollarMatch(usesExpr: bool, pred: (Vars, Doc) -> bool)
    | DollarSort(key: Doc -> real)
    | DollarSet(fields: seq<SetField>)
    | DollarInclude(names: seq<string>)
    | DollarExclude(names: seq<string>)
    | DollarUnset(names: seq<string>)
    | DollarUnwind(name: string, preserve: bool)
    | DollarLookup(target: string, matches: (Vars, Doc) -> seq<Doc>)
    | OtherStage(run: (Vars, seq<Doc>) -> seq<Doc>)

  /* ---------- what the stages do ---------- */

  function Filter(keep: Doc -> bool, docs: seq<Doc>): seq<Doc> {
    if docs == [] then []
    else (if keep(docs[0]) then [docs[0]] else []) + Filter(keep, docs[1..])
  }

  function FlatMap(f: Doc -> seq<Doc>, docs: seq<Doc>): seq<Doc> {
    if docs == [] then [] else f(docs[0]) + FlatMap(f, docs[1..])
  }

  function InsertBy(key: Doc -> real, d: Doc, docs: seq<Doc>): seq<Doc> {
    if docs == [] || key(d) <= key(docs[0]) then [d] + docs else [docs[0]] + InsertBy(key, d, docs[1..])
  }

  /** Documents that compare equal keep their order. */
  function SortBy(key: Doc -> real, docs: seq<Doc>): seq<Doc> {
    if docs == [] then [] else InsertBy(key, docs[0], SortBy(key, docs[1..]))
  }

  /** The values are computed from the document as it came. */
  function SetAll(vars: Vars, original: Doc, d: Doc, fields: seq<SetField>): Doc
    decreases |fields|
  {
    if fields == [] then d
    else SetAll(vars, original, SetDeep(d, Split(fields[0].name), fields[0].value(vars, original)), fields[1..])
  }

  function UnsetAll(d: Doc, names: seq<string>): Doc
    decreases |names|
  {
    if names == [] then d else UnsetAll(UnsetDeep(d, Split(names[0])), names[1..])
  }

  predicate ByDocument(stage: Stage) {
    stage.DollarSet? || stage.DollarInclude? || stage.DollarExclude? || stage.DollarUnset? || stage.DollarUnwind?
    || stage.DollarLookup?
  }

  function EachDoc(vars: Vars, stage: Stage, d: Doc): seq<Doc>
    requires ByDocument(stage)
  {
    match stage
    case DollarSet(fields) => [SetAll(vars, d, d, fields)]
    case DollarInclude(names) => [Include(d, names)]
    case DollarExclude(names) => [UnsetAll(d, names)]
    case DollarUnset(names) => [UnsetAll(d, names)]
    case DollarUnwind(name, preserve) => Unwind(d, Split(name), preserve)
    case DollarLookup(target, matches) => [SetPath(d, Split(target), Array(ArrayItems(matches(vars, d))))]
  }

  function Each(vars: Vars, stage: Stage): Doc -> seq<Doc>
    requires ByDocument(stage)
  {
    d => EachDoc(vars, stage, d)
  }

  function RunStage(vars: Vars, stage: Stage, docs: seq<Doc>): seq<Doc> {
    match stage
    case UnknownStage => docs
    case DollarMatch(_, pred) => Filter(d => pred(vars, d), docs)
    case DollarSort(key) => SortBy(key, docs)
    case OtherStage(run) => run(vars, docs)
    case _ => FlatMap(Each(vars, stage), docs)
  }

  /* ---------- the tests ---------- */

  /** What the tests compare with: the local field up to its first dot. */
  function LookupPath(localField: string): string {
    if HasDot(localField) && Split(localField)[0] != "" then Split(localField)[0] else localField
  }

  predicate StartsWith(source: string, s: string) {
    s <= source
  }

  predicate Overlaps(name: string, path: string) {
    StartsWith(name, path) || StartsWith(path, name)
  }

  /** The canInlineLookupStageFunc of each stage. An `$unwind` is compared with its dollar sign. */
  predicate CanInline(stage: Stage, path: string, hasLet: bool) {
    match stage
    case UnknownStage => false
    case OtherStage(_) => false
    case DollarMatch(usesExpr, _) => !hasLet || !usesExpr
    case DollarSort(_) => true
    case DollarSet(fields) => !hasLet && forall i :: 0 <= i < |fields| ==> !Overlaps(fields[i].name, path)
    case DollarInclude(names) => !hasLet && forall i :: 0 <= i < |names| ==> !Overlaps(names[i], path)
    case DollarExclude(names) => !hasLet && forall i :: 0 <= i < |names| ==> !Overlaps(names[i], path)
    case DollarUnset(names) => forall i :: 0 <= i < |names| ==> !StartsWith(names[i], path)
    case DollarUnwind(name, _) => !StartsWith("$" + name, path)
    case DollarLookup(target, _) => !hasLet && !Overlaps(target, path)
  }

  /* ---------- when a stage may go below the join ---------- */

  function JoinOn(p: Path, wanted: set<Value>): Doc -> bool {
    d => Joins(d, p, wanted)
  }

  predicate CommutesWith(vars: Vars, stage: Stage, joins: Doc -> bool, docs: seq<Doc>) {
    Filter(joins, RunStage(vars, stage, docs)) == RunStage(vars, stage, Filter(joins, docs))
  }

  /** The stage and the filter on p may change places, whatever is wanted and on every collection. */
  ghost predicate SafeBelow(stage: Stage, p: Path) {
    forall vars, wanted, docs :: CommutesWith(vars, stage, JoinOn(p, wanted), docs)
  }

  /** What decides it, by paths alone: `$set` and `$lookup` must not touch the first name of p; what only
      removes or replaces must not be comparable with p; an inclusion must keep its first name whole. */
  predicate PathSafe(stage: Stage, p: Path) {
    match stage
    case UnknownStage => true
    case OtherStage(_) => false
    case DollarMatch(_, _) => true
    case DollarSort(_) => true
    case DollarSet(fields) => forall i :: 0 <= i < |fields| ==> Split(fields[i].name)[0] != p[0]
    case DollarInclude(names) => KeepsFirst(IncludedPaths(names), p)
    case DollarExclude(names) => forall i :: 0 <= i < |names| ==> !Comparable(p, Split(names[i]))
    case DollarUnset(names) => forall i :: 0 <= i < |names| ==> !Comparable(p, Split(names[i]))
    case DollarUnwind(name, _) => !Comparable(p, Split(name))
    case DollarLookup(target, _) => Split(target)[0] != p[0]
  }

  lemma FilterCons(p: Doc -> bool, d: Doc, docs: seq<Doc>)
    ensures Filter(p, [d] + docs) == Filter(p, [d]) + Filter(p, docs)
  {
    assert ([d] + docs)[1..] == docs;
  }

  lemma {:induction false} FilterConcat(p: Doc -> bool, a: seq<Doc>, b: seq<Doc>)
    ensures Filter(p, a + b) == Filter(p, a) + Filter(p, b)
  {
    if a == [] {
      assert a + b == b;
    } else {
      var d, rest := a[0], a[1..];
      var head := Filter(p, [d]);
      calc {
        Filter(p, a + b);
        { assert a + b == [d] + (rest + b); FilterCons(p, d, rest + b); }
        head + Filter(p, rest + b);
        { FilterConcat(p, rest, b); }
        head + Filter(p, rest) + Filter(p, b);
        { assert a == [d] + rest; FilterCons(p, d, rest); }
        Filter(p, a) + Filter(p, b);
      }
    }
  }

  lemma {:induction false} FilterTwice(p: Doc -> bool, q: Doc -> bool, docs: seq<Doc>)
    ensures Filter(q, Filter(p, docs)) == Filter(d => p(d) && q(d), docs)
  {
    if docs != [] {
      FilterTwice(p, q, docs[1..]);
      if p(docs[0]) {
        assert Filter(p, docs)[1..] == Filter(p, docs[1..]);
      } else {
        assert Filter(p, docs) == Filter(p, docs[1..]);
      }
    }
  }

  lemma {:induction false} FilterSame(p: Doc -> bool, q: Doc -> bool, docs: seq<Doc>)
    requires forall d :: d in docs ==> p(d) == q(d)
    ensures Filter(p, docs) == Filter(q, docs)
  {
    if docs != [] { FilterSame(p, q, docs[1..]); }
  }

  lemma {:induction false} FilterAll(p: Doc -> bool, docs: seq<Doc>)
    ensures (forall d :: d in docs ==> p(d)) ==> Filter(p, docs) == docs
    ensures (forall d :: d in docs ==> !p(d)) ==> Filter(p, docs) == []
    ensures forall d :: d in Filter(p, docs) <==> d in docs && p(d)
  {
    if docs != [] {
      FilterAll(p, docs[1..]);
      assert docs == [docs[0]] + docs[1..];
    }
  }

  /** A stage that works document by document commutes with a filter that gives the same answer for a
      document and for whatever the stage makes of it. */
  lemma {:induction false} MovesBelow(f: Doc -> seq<Doc>, joins: Doc -> bool, docs: seq<Doc>)
    requires forall d, o :: d in docs && o in f(d) ==> joins(o) == joins(d)
    ensures Filter(joins, FlatMap(f, docs)) == FlatMap(f, Filter(joins, docs))
  {
    if docs != [] {
      var d := docs[0];
      assert d in docs;
      FilterConcat(joins, f(d), FlatMap(f, docs[1..]));
      FilterAll(joins, f(d));
      MovesBelow(f, joins, docs[1..]);
      if joins(d) {
        assert Filter(joins, docs)[1..] == Filter(joins, docs[1..]);
      } else {
        assert Filter(joins, docs) == Filter(joins, docs[1..]);
      }
    }
  }

  lemma OnlyThenMovesBelow(f: Doc -> seq<Doc>, joins: Doc -> bool, d: Doc, o: Doc)
    requires o in f(d) && Filter(joins, FlatMap(f, [d])) == FlatMap(f, Filter(joins, [d]))
    ensures joins(o) == joins(d)
  {
    assert [d][1..] == [];
    assert FlatMap(f, [d]) == f(d);
    FilterAll(joins, f(d));
  }

  /** `$match` commutes with every filter. */
  lemma MatchCommutes(vars: Vars, stage: Stage, joins: Doc -> bool, docs: seq<Doc>)
    requires stage.DollarMatch?
    ensures CommutesWith(vars, stage, joins, docs)
  {
    var pred := d => stage.pred(vars, d);
    FilterTwice(pred, joins, docs);
    FilterTwice(joins, pred, docs);
    FilterSame(d => pred(d) && joins(d), d => joins(d) && pred(d), docs);
    FilterSame(d => stage.pred(vars, d), pred, docs);
    FilterSame(d => stage.pred(vars, d), pred, Filter(joins, docs));
  }

  ghost predicate SortedBy(key: Doc -> real, docs: seq<Doc>) {
    forall i, j :: 0 <= i < j < |docs| ==> key(docs[i]) <= key(docs[j])
  }

  lemma {:induction false} InsertSorts(key: Doc -> real, d: Doc, docs: seq<Doc>)
    requires SortedBy(key, docs)
    ensures SortedBy(key, InsertBy(key, d, docs))
    ensures forall x :: x in InsertBy(key, d, docs) ==> x == d || x in docs
  {
    if docs != [] && key(d) > key(docs[0]) {
      InsertSorts(key, d, docs[1..]);
      var rest := InsertBy(key, d, docs[1..]);
      forall x | x in rest ensures key(docs[0]) <= key(x) {
        assert x == d || x in docs[1..];
      }
    }
  }

  lemma {:induction false} SortSorts(key: Doc -> real, docs: seq<Doc>)
    ensures SortedBy(key, SortBy(key, docs))
  {
    if docs != [] {
      SortSorts(key, docs[1..]);
      InsertSorts(key, docs[0], SortBy(key, docs[1..]));
    }
  }

  lemma FilterInFront(joins: Doc -> bool, key: Doc -> real, d: Doc, docs: seq<Doc>)
    requires SortedBy(key, docs) && (docs != [] ==> key(d) <= key(docs[0]))
    ensures InsertBy(key, d, Filter(joins, docs)) == [d] + Filter(joins, docs)
  {
    FilterAll(joins, docs);
    var kept := Filter(joins, docs);
    if kept != [] {
      assert kept[0] in docs;
    }
  }

  lemma InsertLater(key: Doc -> real, d: Doc, first: Doc, docs: seq<Doc>)
    requires key(d) > key(first)
    ensures InsertBy(key, d, [first] + docs) == [first] + InsertBy(key, d, docs)
  {
    assert ([first] + docs)[1..] == docs;
  }

  lemma FilterFirst(joins: Doc -> bool, d: Doc, docs: seq<Doc>)
    ensures Filter(joins, [d] + docs) == if joins(d) then [d] + Filter(joins, docs) else Filter(joins, docs)
  {
    assert ([d] + docs)[1..] == docs;
  }

  lemma {:induction false} FilterInsert(joins: Doc -> bool, key: Doc -> real, d: Doc, docs: seq<Doc>)
    requires SortedBy(key, docs)
    ensures Filter(joins, InsertBy(key, d, docs))
            == if joins(d) then InsertBy(key, d, Filter(joins, docs)) else Filter(joins, docs)
  {
    if docs == [] || key(d) <= key(docs[0]) {
      FilterFirst(joins, d, docs);
      FilterInFront(joins, key, d, docs);
    } else {
      FilterInsert(joins, key, d, docs[1..]);
      FilterInsertLater(joins, key, d, docs[0], docs[1..]);
      assert docs == [docs[0]] + docs[1..];
    }
  }

  lemma FilterInsertLater(joins: Doc -> bool, key: Doc -> real, d: Doc, first: Doc, rest: seq<Doc>)
    requires key(d) > key(first)
    requires Filter(joins, InsertBy(key, d, rest))
             == if joins(d) then InsertBy(key, d, Filter(joins, rest)) else Filter(joins, rest)
    ensures Filter(joins, InsertBy(key, d, [first] + rest))
            == if joins(d) then InsertBy(key, d, Filter(joins, [first] + rest)) else Filter(joins, [first] + rest)
  {
    InsertLater(key, d, first, rest);
    FilterFirst(joins, first, InsertBy(key, d, rest));
    FilterFirst(joins, first, rest);
    InsertLater(key, d, first, Filter(joins, rest));
  }

  /** `$sort` commutes with every filter. */
  lemma {:induction false} SortCommutes(key: Doc -> real, joins: Doc -> bool, docs: seq<Doc>)
    ensures Filter(joins, SortBy(key, docs)) == SortBy(key, Filter(joins, docs))
  {
    if docs != [] {
      SortCommutes(key, joins, docs[1..]);
      SortSorts(key, docs[1..]);
      FilterInsert(joins, key, docs[0], SortBy(key, docs[1..]));
      FilterFirst(joins, docs[0], docs[1..]);
      assert docs == [docs[0]] + docs[1..];
      assert joins(docs[0]) ==> ([docs[0]] + Filter(joins, docs[1..]))[1..] == Filter(joins, docs[1..]);
    }
  }

  lemma {:induction false} SetAllUnseen(vars: Vars, original: Doc, d: Doc, fields: seq<SetField>, k: string)
    requires forall i :: 0 <= i < |fields| ==> Split(fields[i].name)[0] != k
    ensures Get(SetAll(vars, original, d, fields), k) == Get(d, k)
    decreases |fields|
  {
    if fields != [] {
      var q, v := Split(fields[0].name), fields[0].value(vars, original);
      SetDeepKeeps(d, q, v, k);
      SetAllUnseen(vars, original, SetDeep(d, q, v), fields[1..], k);
    }
  }

  lemma {:induction false} UnsetAllUnseen(d: Doc, names: seq<string>, p: Path, wanted: set<Value>)
    requires forall i :: 0 <= i < |names| ==> !Comparable(p, Split(names[i]))
    ensures Compare(UnsetAll(d, names), p, wanted) == Compare(d, p, wanted)
    decreases |names|
  {
    if names != [] {
      UnsetUnseen(d, Split(names[0]), p, wanted);
      UnsetAllUnseen(UnsetDeep(d, Split(names[0])), names[1..], p, wanted);
    }
  }

  lemma {:induction false} EachUnseen(vars: Vars, stage: Stage, d: Doc, o: Doc, p: Path, wanted: set<Value>)
    requires ByDocument(stage) && PathSafe(stage, p) && o in EachDoc(vars, stage, d)
    ensures Joins(o, p, wanted) == Joins(d, p, wanted)
  {
    match stage
    case DollarSet(fields) => SetAllUnseen(vars, d, d, fields, p[0]); SameField(d, o, p, wanted);
    case DollarInclude(names) => InclusionUnseen(d, IncludedPaths(names), p, wanted);
    case DollarExclude(names) => UnsetAllUnseen(d, names, p, wanted);
    case DollarUnset(names) => UnsetAllUnseen(d, names, p, wanted);
    case DollarUnwind(name, preserve) => UnwindUnseen(d, Split(name), preserve, o, p, wanted);
    case DollarLookup(target, matches) =>
      SetPathKeeps(d, Split(target), Array(ArrayItems(matches(vars, d))), p[0]);
      SameField(d, o, p, wanted);
  }

  /** Whatever values a stage computes, if its paths are safe it may go below the join. */
  lemma {:induction false} PathSafeIsSafe(stage: Stage, p: Path)
    requires PathSafe(stage, p)
    ensures SafeBelow(stage, p)
  {
    forall vars, wanted, docs ensures CommutesWith(vars, stage, JoinOn(p, wanted), docs) {
      var joins := JoinOn(p, wanted);
      if ByDocument(stage) {
        var f := Each(vars, stage);
        forall d, o | d in docs && o in f(d) ensures joins(o) == joins(d) {
          EachUnseen(vars, stage, d, o, p, wanted);
        }
        MovesBelow(f, joins, docs);
      } else if stage.DollarMatch? {
        MatchCommutes(vars, stage, joins, docs);
      } else if stage.DollarSort? {
        SortCommutes(stage.key, joins, docs);
      }
    }
  }

  /* ---------- what the stages do, by places ---------- */

  /** A filter keeps exactly the documents it accepts, in their order. */
  lemma {:induction false} FilterPicks(keep: Doc -> bool, docs: seq<Doc>) returns (at: seq<nat>)
    ensures Picks(docs, keep, Filter(keep, docs), at)
  {
    if docs == [] {
      at := [];
    } else {
      at := FilterPicks(keep, docs[1..]);
      at := PicksFirst(docs, keep, Filter(keep, docs[1..]), at);
    }
  }

  /** `$match` keeps exactly the documents it accepts. */
  lemma MatchPicks(vars: Vars, stage: Stage, docs: seq<Doc>) returns (at: seq<nat>)
    requires stage.DollarMatch?
    ensures Picks(docs, d => stage.pred(vars, d), RunStage(vars, stage, docs), at)
  {
    at := FilterPicks(d => stage.pred(vars, d), docs);
  }

  /** A stage that works document by document yields the rows of each in turn. */
  lemma {:induction false} RowsInTurn(vars: Vars, stage: Stage, a: seq<Doc>, d: Doc)
    requires ByDocument(stage)
    ensures RunStage(vars, stage, []) == []
    ensures RunStage(vars, stage, a + [d]) == RunStage(vars, stage, a) + EachDoc(vars, stage, d)
  {
    FlatMapLast(Each(vars, stage), a, d);
  }

  lemma {:induction false} FlatMapLast(f: Doc -> seq<Doc>, a: seq<Doc>, d: Doc)
    ensures FlatMap(f, a + [d]) == FlatMap(f, a) + f(d)
  {
    if a == [] {
      assert a + [d] == [d] && [d][1..] == [];
    } else {
      assert (a + [d])[1..] == a[1..] + [d];
      FlatMapLast(f, a[1..], d);
    }
  }

  /** out is docs in another order, by key, where documents of equal key keep theirs. */
  ghost predicate IsStableSort(key: Doc -> real, docs: seq<Doc>, out: seq<Doc>, at: seq<nat>) {
    |at| == |docs| && Placed(docs, out, at) && (forall i :: 0 <= i < |docs| ==> i in at) && InKeyOrder(key, docs, at)
  }

  predicate Placed(docs: seq<Doc>, out: seq<Doc>, at: seq<nat>) {
    |at| == |out| && forall k :: 0 <= k < |at| ==> at[k] < |docs| && out[k] == docs[at[k]]
  }

  ghost predicate InKeyOrder(key: Doc -> real, docs: seq<Doc>, at: seq<nat>) {
    forall j, k :: 0 <= j < k < |at| ==> ComesBefore(key, docs, at[j], at[k])
  }

  /** A smaller key, or an earlier place. */
  ghost predicate ComesBefore(key: Doc -> real, docs: seq<Doc>, i: nat, j: nat) {
    && i < |docs| && j < |docs|
    && (key(docs[i]) < key(docs[j]) || (key(docs[i]) == key(docs[j]) && i < j))
  }

  lemma {:induction false} InsertPlace(key: Doc -> real, d: Doc, docs: seq<Doc>) returns (i: nat)
    ensures i <= |docs| && InsertBy(key, d, docs) == docs[..i] + [d] + docs[i..]
    ensures forall j :: 0 <= j < i ==> key(docs[j]) < key(d)
    ensures i < |docs| ==> key(d) <= key(docs[i])
  {
    if docs == [] || key(d) <= key(docs[0]) {
      i := 0;
    } else {
      i := InsertPlace(key, d, docs[1..]);
      i := i + 1;
      assert docs[..i] == [docs[0]] + docs[1..][..i - 1] && docs[i..] == docs[1..][i - 1..];
    }
  }

  /** `$sort` is a stable permutation. */
  lemma {:induction false} SortIsStable(key: Doc -> real, docs: seq<Doc>) returns (at: seq<nat>)
    ensures IsStableSort(key, docs, SortBy(key, docs), at)
  {
    if docs == [] {
      at := [];
    } else {
      at := SortIsStable(key, docs[1..]);
      var i := InsertPlace(key, docs[0], SortBy(key, docs[1..]));
      InsertIsStable(key, docs, SortBy(key, docs[1..]), at, i);
      at := Shifted(at)[..i] + [0] + Shifted(at)[i..];
    }
  }

  lemma {:induction false} Around<T>(s: seq<T>, x: T, i: nat, k: nat)
    requires i <= |s| && k <= |s|
    ensures (s[..i] + [x] + s[i..])[k] == if k < i then s[k] else if k == i then x else s[k - 1]
  {
  }

  // The same, one place further on.
  lemma {:induction false} ShiftedPlaces(docs: seq<Doc>, out: seq<Doc>, at: seq<nat>)
    requires docs != [] && Placed(docs[1..], out, at) && forall i :: 0 <= i < |docs[1..]| ==> i in at
    ensures Placed(docs, out, Shifted(at))
    ensures forall i :: 0 < i < |docs| ==> i in Shifted(at)
  {
    forall i | 0 < i < |docs| ensures i in Shifted(at) {
      assert i - 1 in at;
      var k :| 0 <= k < |at| && at[k] == i - 1;
      assert Shifted(at)[k] == i;
    }
  }

  lemma {:induction false} ShiftedOrder(key: Doc -> real, docs: seq<Doc>, at: seq<nat>)
    requires docs != [] && InKeyOrder(key, docs[1..], at)
    ensures InKeyOrder(key, docs, Shifted(at))
  {
    forall m, n | 0 <= m < n < |at| ensures ComesBefore(key, docs, Shifted(at)[m], Shifted(at)[n]) {
      assert ComesBefore(key, docs[1..], at[m], at[n]);
    }
  }

  lemma {:induction false} PlacedAround(docs: seq<Doc>, out: seq<Doc>, sh: seq<nat>, i: nat)
    requires docs != [] && Placed(docs, out, sh) && i <= |sh|
    ensures Placed(docs, out[..i] + [docs[0]] + out[i..], sh[..i] + [0] + sh[i..])
  {
    var all, at' := out[..i] + [docs[0]] + out[i..], sh[..i] + [0] + sh[i..];
    forall k | 0 <= k < |at'| ensures at'[k] < |docs| && all[k] == docs[at'[k]] {
      Around(sh, 0, i, k);
      Around(out, docs[0], i, k);
    }
  }

  lemma {:induction false} StillIn(sh: seq<nat>, i: nat, m: nat)
    requires i <= |sh| && (m == 0 || m in sh)
    ensures m in sh[..i] + [0] + sh[i..]
  {
    assert sh == sh[..i] + sh[i..];
  }

  // The first document comes before those from i on, and behind the ones before.
  lemma {:induction false} OrderAround(key: Doc -> real, docs: seq<Doc>, sh: seq<nat>, i: nat)
    requires InKeyOrder(key, docs, sh) && i <= |sh|
    requires forall j :: 0 <= j < i ==> ComesBefore(key, docs, sh[j], 0)
    requires forall j :: i <= j < |sh| ==> ComesBefore(key, docs, 0, sh[j])
    ensures InKeyOrder(key, docs, sh[..i] + [0] + sh[i..])
  {
    var at' := sh[..i] + [0] + sh[i..];
    forall j, k | 0 <= j < k < |at'| ensures ComesBefore(key, docs, at'[j], at'[k]) {
      Around(sh, 0, i, j);
      Around(sh, 0, i, k);
    }
  }

  lemma {:induction false} InsertIsStable(key: Doc -> real, docs: seq<Doc>, out: seq<Doc>, at: seq<nat>, i: nat)
    requires docs != [] && IsStableSort(key, docs[1..], out, at) && i <= |out|
    requires forall j :: 0 <= j < i ==> key(out[j]) < key(docs[0])
    requires i < |out| ==> key(docs[0]) <= key(out[i])
    ensures IsStableSort(key, docs, out[..i] + [docs[0]] + out[i..], Shifted(at)[..i] + [0] + Shifted(at)[i..])
  {
    var sh := Shifted(at);
    ShiftedPlaces(docs, out, at);
    ShiftedOrder(key, docs, at);
    PlacedAround(docs, out, sh, i);
    forall m | 0 <= m < |docs| ensures m in sh[..i] + [0] + sh[i..] { StillIn(sh, i, m); }
    forall j | i <= j < |sh| ensures ComesBefore(key, docs, 0, sh[j]) {
      if i < j { assert ComesBefore(key, docs, sh[i], sh[j]); }
    }
    OrderAround(key, docs, sh, i);
  }

  /** `$set` of names without dots, all different: each gets its value, computed from the document as it came. */
  lemma {:induction false} SetAllWrites(vars: Vars, original: Doc, d: Doc, fields: seq<SetField>, i: nat)
    requires forall j :: 0 <= j < |fields| ==> !HasDot(fields[j].name)
    requires forall j, k :: 0 <= j < k < |fields| ==> fields[j].name != fields[k].name
    requires i < |fields|
    ensures Get(SetAll(vars, original, d, fields), fields[i].name) == Some(fields[i].value(vars, original))
    decreases |fields|
  {
    var d' := SetDeep(d, Split(fields[0].name), fields[0].value(vars, original));
    if i > 0 {
      SetAllWrites(vars, original, d', fields[1..], i - 1);
    } else {
      GetSet(d, fields[0].name, fields[0].value(vars, original));
      forall j | 0 <= j < |fields[1..]| ensures Split(fields[1..][j].name)[0] != fields[0].name {
        assert fields[1..][j] == fields[j + 1];
      }
      SetAllUnseen(vars, original, d', fields[1..], fields[0].name);
    }
  }

  /** `$unset` and exclusion of names without dots: these fields are gone, and the others stay. */
  lemma {:induction false} UnsetAllRemoves(d: Doc, names: seq<string>, k: string)
    requires forall j :: 0 <= j < |names| ==> !HasDot(names[j])
    ensures Get(UnsetAll(d, names), k) == if k in names then None else Get(d, k)
    decreases |names|
  {
    if names != [] {
      GetRemove(d, names[0], k);
      UnsetAllRemoves(UnsetDeep(d, Split(names[0])), names[1..], k);
    }
  }
}

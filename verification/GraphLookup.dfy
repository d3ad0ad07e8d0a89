/**
 The recursive query that `$graphLookup` is compiled to, and what it returns.

 The stage becomes a WITH RECURSIVE query whose anchor scans the `from` collection for the
 start values, whose recursive member joins the previous rows with the collection again, whose
 CYCLE clause on `baseDocId` marks a row that revisits a document, and whose rows are finally
 reduced by DISTINCT ON (baseDocId) ORDER BY baseDocId, depth.

 `Reached` is the reference: walks in the graph of admitted documents, with no rows, paths,
 marks or rounds in it.
 */
module GraphLookup {
  import opened Options
  import D = Documents
  import Projection

  const INT32_MAX := 0x7FFF_FFFF

  // The place of an `_id` in the BSON order (any countable total order embeds in the reals).
  type Id = real

  /** A document: its `_id` and everything else in it. */
  datatype Doc = Doc(id: Id, rest: string)

  /** The stage's arguments. `starts` is the join filter against the start values, `connects`
      the join filter of a document against the connectFrom values of the document before it,
      `admits` is restrictSearchWithMatch; `order` is the place of a depth column in the BSON
      order. */
  datatype Args = Args(
    starts: Doc -> bool,
    connects: (Doc, Doc) -> bool,
    admits: Doc -> bool,
    maxDepth: int,
    depthField: string,
    order: D.Doc -> real
  )

  /** A row of the recursive table: the document, the depth column, which is a document too, and the two
      columns the CYCLE clause adds. */
  datatype Row = Row(doc: Doc, column: D.Doc, isCycle: bool, path: seq<Id>)

  predicate UniqueIds(coll: seq<Doc>) {
    forall i, j :: 0 <= i < j < |coll| ==> coll[i].id != coll[j].id
  }

  // The depth filter is only added for a limit other than the default.
  predicate Limited(a: Args) {
    a.maxDepth >= 0 && a.maxDepth != INT32_MAX
  }

  predicate WithinLimit(a: Args, depth: nat) {
    Limited(a) ==> depth <= a.maxDepth
  }

  function DepthName(a: Args): string {
    if a.depthField == "" then "depth" else a.depthField
  }

  function DepthColumn(a: Args, n: int): D.Doc {
    [D.Field(DepthName(a), D.Number(n))]
  }

  /** Columns of the same name order by their number. */
  ghost predicate Ordered(a: Args) {
    forall m: nat, n: nat :: m < n ==> a.order(DepthColumn(a, m)) < a.order(DepthColumn(a, n))
  }

  /** The anchor writes the name of the depth as it is; the recursive member reads it as a path. That goes
      together if the name has no dot, and if there is nothing to read because no step is allowed. */
  predicate DepthIsReadable(a: Args) {
    !D.HasDot(DepthName(a)) || a.maxDepth == 0
  }

  /* ---------- the query ---------- */

  function BaseRow(a: Args, d: Doc): Row {
    Row(d, DepthColumn(a, 0), false, [d.id])
  }

  function ReadDepth(a: Args, column: D.Doc): Option<D.Value> {
    D.GetPath(column, D.Split(DepthName(a)))
  }

  /** `$add` of the depth read and 1; null if it is not a number. */
  function Deeper(depth: Option<D.Value>): D.Value {
    if depth.Some? && depth.value.Number? then D.Number(depth.value.n + 1) else D.Null
  }

  /** `$addFields` of the depth and its successor. */
  function NextColumn(a: Args, column: D.Doc): D.Doc {
    Projection.SetDeep(column, D.Split(DepthName(a)), Deeper(ReadDepth(a, column)))
  }

  function NextRow(a: Args, prior: Row, d: Doc): Row {
    Row(d, NextColumn(a, prior.column), d.id in prior.path, prior.path + [d.id])
  }

  /** The anchor member. */
  function BaseRows(coll: seq<Doc>, a: Args): seq<Row> {
    if coll == [] then []
    else (if a.admits(coll[0]) && a.starts(coll[0]) then [BaseRow(a, coll[0])] else [])
         + BaseRows(coll[1..], a)
  }

  /** The rows the recursive member makes from one prior row. */
  function RowsAfter(coll: seq<Doc>, a: Args, prior: Row): seq<Row> {
    if coll == [] then []
    else (if a.admits(coll[0]) && a.connects(prior.doc, coll[0]) then [NextRow(a, prior, coll[0])] else [])
         + RowsAfter(coll[1..], a, prior)
  }

  /** `$lt` of what is read at the path. */
  predicate IsLess(depth: Option<D.Value>, limit: int) {
    depth.Some? && depth.value.Number? && depth.value.n < limit
  }

  // A marked row is not extended, and the depth filter is on the prior row's depth.
  predicate Extensible(a: Args, prior: Row) {
    !prior.isCycle && (Limited(a) ==> IsLess(ReadDepth(a, prior.column), a.maxDepth))
  }

  /** How many steps a row is away from the start. */
  function Steps(r: Row): int {
    |r.path| - 1
  }

  /** The recursive member over a whole working table. */
  function Step(coll: seq<Doc>, a: Args, working: seq<Row>): seq<Row> {
    if working == [] then []
    else (if Extensible(a, working[0]) then RowsAfter(coll, a, working[0]) else [])
         + Step(coll, a, working[1..])
  }

  /** The working table of round k. */
  function Round(coll: seq<Doc>, a: Args, k: nat): seq<Row> {
    if k == 0 then BaseRows(coll, a) else Step(coll, a, Round(coll, a, k - 1))
  }

  /** UNION ALL of the rounds from k on, stopping at the first empty working table. That this
      recursion is accepted is the termination of the query, on cyclic graphs too. */
  function RowsFrom(coll: seq<Doc>, a: Args, k: nat): (rows: seq<Row>)
    ensures forall r :: r in rows ==> Steps(r) >= k && r in Round(coll, a, Steps(r))
    decreases if k <= |coll| + 1 then |coll| + 1 - k else 0
  {
    var working := Round(coll, a, k);
    RoundIsBounded(coll, a, k);
    forall r | r in working ensures Steps(r) == k { RoundRow(coll, a, k, r); }
    if working == [] then [] else working + RowsFrom(coll, a, k + 1)
  }

  function RecursiveRows(coll: seq<Doc>, a: Args): seq<Row> {
    RowsFrom(coll, a, 0)
  }

  /** Puts a row into a list that is strictly ascending by id, keeping the smaller depth. */
  function Keep(a: Args, row: Row, out: seq<Row>): seq<Row> {
    if out == [] || row.doc.id < out[0].doc.id then [row] + out
    else if row.doc.id == out[0].doc.id then
      (if a.order(row.column) < a.order(out[0].column) then [row] + out[1..] else out)
    else [out[0]] + Keep(a, row, out[1..])
  }

  /** SELECT DISTINCT ON (baseDocId) ... ORDER BY baseDocId, depth. */
  function DistinctOn(a: Args, rows: seq<Row>): seq<Row> {
    if rows == [] then [] else Keep(a, rows[0], DistinctOn(a, rows[1..]))
  }

  function GraphLookup(coll: seq<Doc>, a: Args): seq<Row> {
    DistinctOn(a, RecursiveRows(coll, a))
  }

  /* ---------- the reference ---------- */

  /** d is the end of a walk of n edges that starts at a start document and only visits
      admitted documents of the collection. */
  ghost predicate Reached(coll: seq<Doc>, a: Args, d: Doc, n: nat)
    decreases n
  {
    && d in coll
    && a.admits(d)
    && if n == 0 then a.starts(d)
       else exists p :: p in coll && Reached(coll, a, p, n - 1) && a.connects(p, d)
  }

  /** n is the length of a shortest such walk. */
  ghost predicate Distance(coll: seq<Doc>, a: Args, d: Doc, n: nat) {
    Reached(coll, a, d, n) && forall m: nat :: m < n ==> !Reached(coll, a, d, m)
  }

  /* ---------- what is in a round ---------- */

  lemma {:induction false} InBaseRows(coll: seq<Doc>, a: Args, r: Row)
    ensures r in BaseRows(coll, a) <==>
            r.doc in coll && a.admits(r.doc) && a.starts(r.doc) && r == BaseRow(a, r.doc)
  {
    if coll != [] { InBaseRows(coll[1..], a, r); }
  }

  lemma {:induction false} InRowsAfter(coll: seq<Doc>, a: Args, prior: Row, r: Row)
    ensures r in RowsAfter(coll, a, prior) <==>
            r.doc in coll && a.admits(r.doc) && a.connects(prior.doc, r.doc) && r == NextRow(a, prior, r.doc)
  {
    if coll != [] { InRowsAfter(coll[1..], a, prior, r); }
  }

  ghost predicate StepOf(coll: seq<Doc>, a: Args, prior: Row, r: Row) {
    && Extensible(a, prior)
    && r.doc in coll && a.admits(r.doc) && a.connects(prior.doc, r.doc)
    && r == NextRow(a, prior, r.doc)
  }

  lemma {:induction false} InStep(coll: seq<Doc>, a: Args, working: seq<Row>, r: Row)
    ensures r in Step(coll, a, working) <==> exists p :: p in working && StepOf(coll, a, p, r)
  {
    if working != [] {
      InRowsAfter(coll, a, working[0], r);
      InStep(coll, a, working[1..], r);
      if r in Step(coll, a, working) {
        if p :| p in working[1..] && StepOf(coll, a, p, r) {
          assert p in working;
        } else {
          assert StepOf(coll, a, working[0], r);
        }
      }
      forall p | p in working && StepOf(coll, a, p, r) ensures r in Step(coll, a, working) {
        assert p == working[0] || p in working[1..];
      }
    }
  }

  lemma {:induction false} RowBefore(coll: seq<Doc>, a: Args, k: nat, r: Row) returns (p: Row)
    requires k > 0 && r in Round(coll, a, k)
    ensures p in Round(coll, a, k - 1) && StepOf(coll, a, p, r)
  {
    InStep(coll, a, Round(coll, a, k - 1), r);
    p :| p in Round(coll, a, k - 1) && StepOf(coll, a, p, r);
  }

  lemma {:induction false} RowAfter(coll: seq<Doc>, a: Args, k: nat, p: Row, r: Row)
    requires k > 0 && p in Round(coll, a, k - 1) && StepOf(coll, a, p, r)
    ensures r in Round(coll, a, k)
  {
    InStep(coll, a, Round(coll, a, k - 1), r);
  }

  /** Every row of round k has a path of k + 1 ids that ends in its own, whose i-th id is that of a document
      reached in i steps; the ids before the last are distinct, and the mark says whether the last one
      repeats one of them. */
  ghost predicate PathOf(coll: seq<Doc>, a: Args, k: nat, r: Row) {
    && |r.path| == k + 1
    && r.path[k] == r.doc.id
    && (forall i, j :: 0 <= i < j < k ==> r.path[i] != r.path[j])
    && (r.isCycle <==> r.path[k] in r.path[..k])
    && forall i :: 0 <= i <= k ==> IdReached(coll, a, r.path[i], i)
  }

  ghost predicate IdReached(coll: seq<Doc>, a: Args, id: Id, n: nat) {
    exists d :: d in coll && d.id == id && Reached(coll, a, d, n)
  }

  lemma {:induction false} RoundRow(coll: seq<Doc>, a: Args, k: nat, r: Row)
    requires r in Round(coll, a, k)
    ensures PathOf(coll, a, k, r) && Steps(r) == k
    ensures r.doc in coll && Reached(coll, a, r.doc, k)
  {
    if k == 0 {
      BaseRowPath(coll, a, r);
    } else {
      var p := RowBefore(coll, a, k, r);
      RoundRow(coll, a, k - 1, p);
      NextRowPath(coll, a, k - 1, p, r);
    }
  }

  lemma {:induction false} BaseRowPath(coll: seq<Doc>, a: Args, r: Row)
    requires r in BaseRows(coll, a)
    ensures PathOf(coll, a, 0, r) && Reached(coll, a, r.doc, 0)
  {
    InBaseRows(coll, a, r);
    assert IdReached(coll, a, r.doc.id, 0);
  }

  lemma ReadColumn(a: Args, n: int)
    ensures !D.HasDot(DepthName(a)) ==>
              && ReadDepth(a, DepthColumn(a, n)) == Some(D.Number(n))
              && NextColumn(a, DepthColumn(a, n)) == DepthColumn(a, n + 1)
    ensures D.HasDot(DepthName(a)) ==> ReadDepth(a, DepthColumn(a, n)) == None
  {
    var column, p := DepthColumn(a, n), D.Split(DepthName(a));
    Projection.GetSingle(DepthName(a), D.Number(n));
    if D.HasDot(DepthName(a)) {
      assert p[0] != DepthName(a) && column[1..] == [];
      assert D.Get(column, p[0]) == None;
    }
  }

  /** If the depth is readable, the rows of round k have depth k, and k is within the limit. */
  lemma {:induction false} RoundDepth(coll: seq<Doc>, a: Args, k: nat, r: Row)
    requires r in Round(coll, a, k) && DepthIsReadable(a)
    ensures r.column == DepthColumn(a, k) && WithinLimit(a, k)
  {
    if k == 0 {
      InBaseRows(coll, a, r);
    } else {
      var p := RowBefore(coll, a, k, r);
      RoundDepth(coll, a, k - 1, p);
      ReadColumn(a, k - 1);
    }
  }

  lemma {:induction false} NextRowPath(coll: seq<Doc>, a: Args, k: nat, p: Row, r: Row)
    requires PathOf(coll, a, k, p) && Reached(coll, a, p.doc, k) && p.doc in coll
    requires StepOf(coll, a, p, r)
    ensures PathOf(coll, a, k + 1, r) && Reached(coll, a, r.doc, k + 1)
  {
    assert Reached(coll, a, r.doc, k + 1);
    assert IdReached(coll, a, r.doc.id, k + 1);
    assert r.path[..k + 1] == p.path;
    assert p.path[k] !in p.path[..k];
    forall i | 0 <= i <= k + 1 ensures IdReached(coll, a, r.path[i], i) {
      if i <= k { assert IdReached(coll, a, p.path[i], i); }
    }
  }

  function IdSet(coll: seq<Doc>): (s: set<Id>)
    ensures forall d :: d in coll ==> d.id in s
    ensures |s| <= |coll|
  {
    if coll == [] then {} else {coll[0].id} + IdSet(coll[1..])
  }

  lemma {:induction false} DistinctSeqIsSmall<T>(s: seq<T>, all: set<T>)
    requires forall i, j :: 0 <= i < j < |s| ==> s[i] != s[j]
    requires forall i :: 0 <= i < |s| ==> s[i] in all
    ensures |s| <= |all|
  {
    if s != [] {
      var last := s[|s| - 1];
      DistinctSeqIsSmall(s[..|s| - 1], all - {last});
    }
  }

  /** A path repeats at most its last id, so no round after round |coll| has a row. */
  lemma {:induction false} RoundIsBounded(coll: seq<Doc>, a: Args, k: nat)
    ensures Round(coll, a, k) != [] ==> k <= |coll|
  {
    if Round(coll, a, k) != [] {
      var r := Round(coll, a, k)[0];
      RoundRow(coll, a, k, r);
      forall i | 0 <= i < k ensures r.path[..k][i] in IdSet(coll) {
        assert IdReached(coll, a, r.path[i], i);
      }
      DistinctSeqIsSmall(r.path[..k], IdSet(coll));
    }
  }

  /** The query terminates: its rounds are empty from round |coll| + 1 on, and the path column
      never holds more than |coll| + 1 ids. */
  lemma RecursionTerminates(coll: seq<Doc>, a: Args, k: nat)
    ensures k > |coll| ==> Round(coll, a, k) == []
    ensures forall r :: r in RecursiveRows(coll, a) ==> |r.path| <= |coll| + 1
  {
    RoundIsBounded(coll, a, k);
    forall r | r in RecursiveRows(coll, a) ensures |r.path| <= |coll| + 1 {
      RoundRow(coll, a, Steps(r), r);
      RoundIsBounded(coll, a, Steps(r));
    }
  }

  lemma {:induction false} RoundsAreDownClosed(coll: seq<Doc>, a: Args, k: nat, n: nat)
    requires k <= n && Round(coll, a, n) != []
    ensures Round(coll, a, k) != []
    decreases n - k
  {
    if k < n {
      assert Round(coll, a, n - 1) != [];
      RoundsAreDownClosed(coll, a, k, n - 1);
    }
  }

  lemma {:induction false} RoundIsCollected(coll: seq<Doc>, a: Args, k: nat, n: nat, r: Row)
    requires k <= n && r in Round(coll, a, n)
    ensures r in RowsFrom(coll, a, k)
    decreases n - k
  {
    RoundsAreDownClosed(coll, a, k, n);
    if k < n { RoundIsCollected(coll, a, k + 1, n, r); }
  }

  /* ---------- completeness ---------- */

  lemma {:induction false} SameIdSameDoc(coll: seq<Doc>, d: Doc, e: Doc)
    requires UniqueIds(coll) && d in coll && e in coll && d.id == e.id
    ensures d == e
  {
    var i :| 0 <= i < |coll| && coll[i] == d;
    var j :| 0 <= j < |coll| && coll[j] == e;
    assert !(i < j) && !(j < i);
  }

  lemma DistanceBefore(coll: seq<Doc>, a: Args, d: Doc, n: nat) returns (p: Doc)
    requires n > 0 && Distance(coll, a, d, n)
    ensures p in coll && Distance(coll, a, p, n - 1) && a.connects(p, d)
  {
    p :| p in coll && Reached(coll, a, p, n - 1) && a.connects(p, d);
    forall m: nat | m < n - 1 ensures !Reached(coll, a, p, m) {
      if Reached(coll, a, p, m) { assert Reached(coll, a, d, m + 1); }
    }
  }

  lemma NotOnShorterPath(coll: seq<Doc>, a: Args, d: Doc, n: nat, prior: Row)
    requires UniqueIds(coll) && Distance(coll, a, d, n)
    requires n > 0 && PathOf(coll, a, n - 1, prior)
    ensures d.id !in prior.path
  {
    forall i | 0 <= i < |prior.path| ensures prior.path[i] != d.id {
      assert IdReached(coll, a, prior.path[i], i);
      var e :| e in coll && e.id == prior.path[i] && Reached(coll, a, e, i);
      if e.id == d.id { SameIdSameDoc(coll, d, e); }
    }
  }

  /** A document at distance n has an unmarked row in round n: along a shortest walk no id can
      have occurred before. */
  lemma {:induction false} DistanceHasRow(coll: seq<Doc>, a: Args, d: Doc, n: nat) returns (r: Row)
    requires UniqueIds(coll) && DepthIsReadable(a) && Distance(coll, a, d, n) && WithinLimit(a, n)
    ensures r in Round(coll, a, n) && r.doc == d && !r.isCycle
    decreases n
  {
    if n == 0 {
      r := BaseRow(a, d);
      InBaseRows(coll, a, r);
    } else {
      var p := DistanceBefore(coll, a, d, n);
      var prior := DistanceHasRow(coll, a, p, n - 1);
      RoundRow(coll, a, n - 1, prior);
      CanBeExtended(coll, a, n - 1, prior);
      NotOnShorterPath(coll, a, d, n, prior);
      r := NextRow(a, prior, d);
      assert StepOf(coll, a, prior, r);
      RowAfter(coll, a, n, prior, r);
    }
  }

  lemma {:induction false} CanBeExtended(coll: seq<Doc>, a: Args, k: nat, prior: Row)
    requires DepthIsReadable(a) && prior in Round(coll, a, k) && !prior.isCycle && WithinLimit(a, k + 1)
    ensures Extensible(a, prior)
  {
    RoundDepth(coll, a, k, prior);
    ReadColumn(a, k);
  }

  lemma {:induction false} ReachedHasDistance(coll: seq<Doc>, a: Args, d: Doc, n: nat) returns (m: nat)
    requires Reached(coll, a, d, n)
    ensures m <= n && Distance(coll, a, d, m)
    decreases n
  {
    if k: nat :| k < n && Reached(coll, a, d, k) {
      m := ReachedHasDistance(coll, a, d, k);
    } else {
      m := n;
    }
  }

  /* ---------- DISTINCT ON ---------- */

  ghost predicate Ascending(out: seq<Row>) {
    forall i, j :: 0 <= i < j < |out| ==> out[i].doc.id < out[j].doc.id
  }

  // o stands for r after DISTINCT ON.
  ghost predicate Covers(a: Args, o: Row, r: Row) {
    o.doc.id == r.doc.id && a.order(o.column) <= a.order(r.column)
  }

  lemma {:induction false} KeepIsAscending(a: Args, row: Row, out: seq<Row>)
    requires Ascending(out)
    ensures Ascending(Keep(a, row, out))
    ensures forall r :: r in Keep(a, row, out) ==> r == row || r in out
  {
    if out != [] && row.doc.id > out[0].doc.id {
      KeepIsAscending(a, row, out[1..]);
      forall r | r in Keep(a, row, out[1..]) ensures out[0].doc.id < r.doc.id {
        assert r == row || r in out[1..];
      }
    }
  }

  lemma {:induction false} KeepCovers(a: Args, row: Row, out: seq<Row>, r: Row) returns (o: Row)
    requires r in out || r == row
    ensures o in Keep(a, row, out) && Covers(a, o, r)
  {
    var kept := Keep(a, row, out);
    if out == [] || row.doc.id < out[0].doc.id {
      o := r;
    } else if row.doc.id == out[0].doc.id {
      o := if r == row || r == out[0] then kept[0] else r;
      assert r in out && r != out[0] ==> r in out[1..];
    } else if r == out[0] {
      o := kept[0];
    } else {
      assert r in out ==> r in out[1..];
      o := KeepCovers(a, row, out[1..], r);
    }
  }

  lemma {:induction false} DistinctOnCovers(a: Args, rows: seq<Row>, r: Row) returns (o: Row)
    requires r in rows
    ensures o in DistinctOn(a, rows) && Covers(a, o, r)
  {
    var rest := DistinctOn(a, rows[1..]);
    if r == rows[0] {
      o := KeepCovers(a, r, rest, r);
    } else {
      var c := DistinctOnCovers(a, rows[1..], r);
      o := KeepCovers(a, rows[0], rest, c);
    }
  }

  lemma {:induction false} DistinctOnIsAscending(a: Args, rows: seq<Row>)
    ensures Ascending(DistinctOn(a, rows))
    ensures forall r :: r in DistinctOn(a, rows) ==> r in rows
  {
    if rows != [] {
      DistinctOnIsAscending(a, rows[1..]);
      KeepIsAscending(a, rows[0], DistinctOn(a, rows[1..]));
    }
  }

  /* ---------- main results ---------- */

  /** What is asked of the inputs: ids are unique, the depth is readable, and columns order by number. */
  ghost predicate Plain(coll: seq<Doc>, a: Args) {
    UniqueIds(coll) && DepthIsReadable(a) && Ordered(a)
  }

  lemma ShallowerIsCloser(coll: seq<Doc>, a: Args, o: Row, r: Row)
    requires Plain(coll, a) && o in RecursiveRows(coll, a) && r in RecursiveRows(coll, a) && Covers(a, o, r)
    ensures 0 <= Steps(o) <= Steps(r)
  {
    RoundDepth(coll, a, Steps(o), o);
    RoundDepth(coll, a, Steps(r), r);
  }

  /** A returned row is unmarked, and its depth is its document's distance, within the limit. */
  lemma ReturnedAtDistance(coll: seq<Doc>, a: Args, o: Row)
    requires Plain(coll, a) && o in GraphLookup(coll, a)
    ensures o in RecursiveRows(coll, a) && !o.isCycle
    ensures Steps(o) >= 0 && o.column == DepthColumn(a, Steps(o))
    ensures Distance(coll, a, o.doc, Steps(o)) && WithinLimit(a, Steps(o))
  {
    var rows := RecursiveRows(coll, a);
    DistinctOnIsAscending(a, rows);
    RoundRow(coll, a, Steps(o), o);
    RoundDepth(coll, a, Steps(o), o);
    var m := ReachedHasDistance(coll, a, o.doc, Steps(o));
    var c := DistanceIsReturned(coll, a, o.doc, m);
    AscendingIsInjective(GraphLookup(coll, a), c, o);
    if o.isCycle { MarkedIsDeeper(coll, a, o); }
  }

  lemma DistanceIsReturned(coll: seq<Doc>, a: Args, d: Doc, n: nat) returns (o: Row)
    requires Plain(coll, a) && Distance(coll, a, d, n) && WithinLimit(a, n)
    ensures o in GraphLookup(coll, a) && o.doc == d && 0 <= Steps(o) <= n
  {
    var rows := RecursiveRows(coll, a);
    var r := DistanceHasRow(coll, a, d, n);
    RoundIsCollected(coll, a, 0, n, r);
    RoundRow(coll, a, n, r);
    o := DistinctOnCovers(a, rows, r);
    DistinctOnIsAscending(a, rows);
    ShallowerIsCloser(coll, a, o, r);
    RoundRow(coll, a, Steps(o), o);
    SameIdSameDoc(coll, o.doc, d);
  }

  ghost predicate Returned(coll: seq<Doc>, a: Args, d: Doc, n: nat) {
    exists o :: o in GraphLookup(coll, a) && o.doc == d && o.column == DepthColumn(a, n)
  }

  /** The returned documents and depths are those of bounded reachability. */
  ghost predicate IsReachability(coll: seq<Doc>, a: Args) {
    forall d: Doc, n: nat :: Returned(coll, a, d, n) <==> Distance(coll, a, d, n) && WithinLimit(a, n)
  }

  /** The stage returns bounded reachability with shortest depths: the returned rows have ascending
      ids, and a document is returned with depth n exactly when its distance is n and n is within
      the limit. */
  lemma GraphLookupIsReachability(coll: seq<Doc>, a: Args)
    requires Plain(coll, a)
    ensures Ascending(GraphLookup(coll, a)) && IsReachability(coll, a)
  {
    DistinctOnIsAscending(a, RecursiveRows(coll, a));
    forall d: Doc, n: nat
      ensures Returned(coll, a, d, n) <==> Distance(coll, a, d, n) && WithinLimit(a, n)
    {
      if Returned(coll, a, d, n) {
        var o :| o in GraphLookup(coll, a) && o.doc == d && o.column == DepthColumn(a, n);
        ReturnedAtDistance(coll, a, o);
      }
      if Distance(coll, a, d, n) && WithinLimit(a, n) {
        var o := DistanceIsReturned(coll, a, d, n);
        ReturnedAtDistance(coll, a, o);
        assert Steps(o) == n;
      }
    }
  }

  /** The same in plain numbers. A limit from 0 up to 0x7FFF_FFFE is one; 0x7FFF_FFFF, the default, is none. The depth
      is a field of the given name, or "depth". */
  lemma ReturnedInNumbers(coll: seq<Doc>, a: Args, d: Doc, n: nat)
    requires UniqueIds(coll) && Ordered(a) && a.maxDepth >= 0
    requires '.' !in a.depthField || a.maxDepth == 0
    ensures
      var name := if a.depthField == "" then "depth" else a.depthField;
      var isReturned := exists o :: o in GraphLookup(coll, a) && o.doc == d && o.column == [D.Field(name, D.Number(n))];
      && (a.maxDepth < 0x7FFF_FFFF ==> (isReturned <==> Distance(coll, a, d, n) && n <= a.maxDepth))
      && (a.maxDepth == 0x7FFF_FFFF ==> (isReturned <==> Distance(coll, a, d, n)))
  {
    assert !D.HasDot("depth");
    GraphLookupIsReachability(coll, a);
    assert Returned(coll, a, d, n) <==> Distance(coll, a, d, n) && WithinLimit(a, n);
  }

  lemma AscendingIsInjective(out: seq<Row>, c: Row, o: Row)
    requires Ascending(out) && c in out && o in out && c.doc.id == o.doc.id
    ensures c == o
  {
    var i :| 0 <= i < |out| && out[i] == c;
    var j :| 0 <= j < |out| && out[j] == o;
    assert !(i < j) && !(j < i);
  }

  /** A marked row is deeper than the distance of its document. */
  lemma MarkedIsDeeper(coll: seq<Doc>, a: Args, r: Row)
    requires UniqueIds(coll) && r in RecursiveRows(coll, a) && r.isCycle
    ensures Steps(r) >= 0 && !Distance(coll, a, r.doc, Steps(r))
  {
    RoundRow(coll, a, Steps(r), r);
    var i :| 0 <= i < Steps(r) && r.path[i] == r.doc.id;
    assert IdReached(coll, a, r.path[i], i);
    var e :| e in coll && e.id == r.path[i] && Reached(coll, a, e, i);
    SameIdSameDoc(coll, r.doc, e);
  }

  function Unmarked(rows: seq<Row>): seq<Row> {
    if rows == [] then []
    else (if rows[0].isCycle then [] else [rows[0]]) + Unmarked(rows[1..])
  }

  lemma {:induction false} InUnmarked(rows: seq<Row>, r: Row)
    ensures r in Unmarked(rows) <==> r in rows && !r.isCycle
  {
    if rows != [] { InUnmarked(rows[1..], r); }
  }

  /** The final SELECT does not test the mark, and need not: leaving the marked rows out first
      returns the same documents with the same depths. */
  lemma MarkedRowsNeverShow(coll: seq<Doc>, a: Args)
    requires Plain(coll, a)
    ensures Shown(DistinctOn(a, Unmarked(RecursiveRows(coll, a)))) == Shown(GraphLookup(coll, a))
  {
    var rows := RecursiveRows(coll, a);
    var all, some := GraphLookup(coll, a), DistinctOn(a, Unmarked(rows));
    DistinctOnIsAscending(a, rows);
    DistinctOnIsAscending(a, Unmarked(rows));
    forall p | p in Shown(all) ensures p in Shown(some) {
      var o := ShownBy(all, p);
      ReturnedAtDistance(coll, a, o);
      InUnmarked(rows, o);
      var s := DistinctOnCovers(a, Unmarked(rows), o);
      InUnmarked(rows, s);
      SameAsReturned(coll, a, o, s);
      InShown(some, s);
    }
    forall p | p in Shown(some) ensures p in Shown(all) {
      var s := ShownBy(some, p);
      InUnmarked(rows, s);
      var o := DistinctOnCovers(a, rows, s);
      ReturnedAtDistance(coll, a, o);
      InUnmarked(rows, o);
      var s' := DistinctOnCovers(a, Unmarked(rows), o);
      AscendingIsInjective(some, s', s);
      SameAsReturned(coll, a, o, s);
      InShown(all, o);
    }
    AscendingPairs(Shown(some), Shown(all));
  }

  /** The columns of the result: the document and its depth. */
  function Shown(rows: seq<Row>): seq<(Doc, D.Doc)> {
    seq(|rows|, i requires 0 <= i < |rows| => (rows[i].doc, rows[i].column))
  }

  lemma InShown(rows: seq<Row>, r: Row)
    requires r in rows
    ensures (r.doc, r.column) in Shown(rows)
  {
    var i :| 0 <= i < |rows| && rows[i] == r;
    assert Shown(rows)[i] == (r.doc, r.column);
  }

  lemma ShownBy(rows: seq<Row>, p: (Doc, D.Doc)) returns (r: Row)
    requires p in Shown(rows)
    ensures r in rows && p == (r.doc, r.column)
  {
    var i :| 0 <= i < |rows| && Shown(rows)[i] == p;
    r := rows[i];
  }

  // A row of the query that is no deeper than a returned row of the same id shows the same.
  lemma SameAsReturned(coll: seq<Doc>, a: Args, o: Row, s: Row)
    requires Plain(coll, a) && o in GraphLookup(coll, a) && s in RecursiveRows(coll, a)
    requires Covers(a, s, o)
    ensures s.doc == o.doc && s.column == o.column
  {
    ReturnedAtDistance(coll, a, o);
    ShallowerIsCloser(coll, a, s, o);
    RoundRow(coll, a, Steps(s), s);
    RoundDepth(coll, a, Steps(s), s);
    SameIdSameDoc(coll, s.doc, o.doc);
  }

  ghost predicate AscendingIds(x: seq<(Doc, D.Doc)>) {
    forall i, j :: 0 <= i < j < |x| ==> x[i].0.id < x[j].0.id
  }

  lemma {:induction false} AscendingPairs(x: seq<(Doc, D.Doc)>, y: seq<(Doc, D.Doc)>)
    requires AscendingIds(x) && AscendingIds(y)
    requires forall p :: p in x <==> p in y
    ensures x == y
  {
    assert x == [] <==> y == [] by {
      if x != [] { assert x[0] in x; }
      if y != [] { assert y[0] in y; }
    }
    if x != [] {
      assert x[0] in y;
      assert y[0] in x;
      assert x[0] == y[0];
      forall p ensures p in x[1..] <==> p in y[1..] {
        assert p in x[1..] <==> p in x && p != x[0];
        assert p in y[1..] <==> p in y && p != y[0];
      }
      AscendingPairs(x[1..], y[1..]);
    }
  }

  /* ---------- a depth field with a dot ---------- */

  // The column of every row after the first round: null at the path.
  lemma {:induction false} DottedColumn(coll: seq<Doc>, a: Args, k: nat, r: Row)
    requires D.HasDot(DepthName(a)) && r in Round(coll, a, k)
    ensures Clear(r.column, D.Split(DepthName(a)))
    ensures ReadDepth(a, r.column) == if k == 0 then None else Some(D.Null)
  {
    if k == 0 {
      InBaseRows(coll, a, r);
      ReadColumn(a, 0);
      var p := D.Split(DepthName(a));
      assert r.column[1..] == [] && D.Get(r.column, p[0]) == None;
      EmptyIsClear(p[1..]);
    } else {
      var p := RowBefore(coll, a, k, r);
      DottedColumn(coll, a, k - 1, p);
      GetSetDeep(p.column, D.Split(DepthName(a)), D.Null);
    }
  }

  /** No array on the way down the path. */
  predicate Clear(d: D.Doc, p: D.Path)
    decreases |p|
  {
    |p| == 1 || (!(D.Get(d, p[0]).Some? && D.Get(d, p[0]).value.Array?) && Clear(D.Sub(d, p[0]), p[1..]))
  }

  lemma {:induction false} EmptyIsClear(p: D.Path)
    ensures Clear([], p)
    decreases |p|
  {
    if |p| > 1 { EmptyIsClear(p[1..]); }
  }

  lemma {:induction false} GetSetDeep(d: D.Doc, p: D.Path, v: D.Value)
    requires Clear(d, p)
    ensures D.GetPath(Projection.SetDeep(d, p, v), p) == Some(v) && Clear(Projection.SetDeep(d, p, v), p)
    decreases |p|
  {
    if |p| == 1 {
      D.GetSet(d, p[0], v);
    } else {
      var sub := D.Sub(d, p[0]);
      GetSetDeep(sub, p[1..], v);
      D.GetSetSub(d, p[0], Projection.SetDeep(sub, p[1..], v), p[0]);
    }
  }

  /** With a dot in the name, no row after the first round shows a depth, and with a limit there is none. */
  lemma DottedDepthIsLost(coll: seq<Doc>, a: Args, k: nat, r: Row, n: int)
    requires D.HasDot(DepthName(a)) && k > 0 && r in Round(coll, a, k)
    ensures r.column != DepthColumn(a, n) && !Limited(a)
  {
    DottedColumn(coll, a, k, r);
    ReadColumn(a, n);
    var p := RowBefore(coll, a, k, r);
    DottedColumn(coll, a, k - 1, p);
  }

  const START: Doc := Doc(0.0, "")
  const NEXT: Doc := Doc(1.0, "")

  /** Two documents, the second one step from the first. */
  function TwoSteps(maxDepth: int, depthField: string): Args {
    Args((d: Doc) => d == START, (p: Doc, d: Doc) => p == START && d == NEXT, (d: Doc) => true, maxDepth, depthField,
         (c: D.Doc) => if c != [] && c[0].value.Number? then c[0].value.n as real else 0.0)
  }

  lemma OneStepAway(a: Args, maxDepth: int, depthField: string)
    requires a == TwoSteps(maxDepth, depthField)
    ensures UniqueIds([START, NEXT]) && Ordered(a) && Distance([START, NEXT], a, NEXT, 1)
  {
    var coll := [START, NEXT];
    assert START in coll && NEXT in coll;
    assert Reached(coll, a, START, 0);
    assert !Reached(coll, a, NEXT, 0);
    forall m: nat, n: nat | m < n ensures a.order(DepthColumn(a, m)) < a.order(DepthColumn(a, n)) { }
  }

  ghost predicate AlwaysRight(maxDepth: int, depthField: string) {
    forall coll, a: Args ::
      a.maxDepth == maxDepth && a.depthField == depthField && UniqueIds(coll) && Ordered(a) ==> IsReachability(coll, a)
  }

  /** Exactly when the stage is right for every collection, start, connection and restriction: the name of
      the depth has no dot, or no step is allowed. */
  lemma RightIffDepthIsReadable(maxDepth: int, depthField: string)
    ensures AlwaysRight(maxDepth, depthField) <==> DepthIsReadable(TwoSteps(maxDepth, depthField))
  {
    var two := TwoSteps(maxDepth, depthField);
    if DepthIsReadable(two) {
      forall coll, a: Args | a.maxDepth == maxDepth && a.depthField == depthField && UniqueIds(coll) && Ordered(a)
        ensures IsReachability(coll, a)
      {
        GraphLookupIsReachability(coll, a);
      }
    } else {
      OneStepAway(two, maxDepth, depthField);
      NextIsNotReturned(two, maxDepth, depthField);
    }
  }

  lemma NextIsNotReturned(a: Args, maxDepth: int, depthField: string)
    requires a == TwoSteps(maxDepth, depthField) && D.HasDot(DepthName(a))
    ensures !Returned([START, NEXT], a, NEXT, 1)
  {
    var coll := [START, NEXT];
    if Returned(coll, a, NEXT, 1) {
      var o :| o in GraphLookup(coll, a) && o.doc == NEXT && o.column == DepthColumn(a, 1);
      DistinctOnIsAscending(a, RecursiveRows(coll, a));
      RoundRow(coll, a, Steps(o), o);
      if Steps(o) > 0 {
        DottedDepthIsLost(coll, a, Steps(o), o, 1);
      } else {
        InBaseRows(coll, a, o);
      }
    }
  }
}

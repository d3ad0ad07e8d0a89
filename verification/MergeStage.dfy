/**
 The `$merge` stage: what it writes for a matched and for an unmatched source document, and what a
 whole run leaves in the target table.
 */
module MergeStage {
  import opened Options
  import opened Bson
  import opened MergeDocument
  import opened MergeLinks
  import MergeTable

  datatype WhenMatched = Replace | Merge | KeepExisting | Fail | PipelineOrLet

  datatype WhenNotMatched = Insert | Discard | FailUnmatched

  datatype Error =
    | Internal
    | ImmutableField
    | DuplicateKey
    | NotSupported
    | NoMatchingDocument
    | InvalidId
    | RowTouchedTwice
    | NeverEnds  // no error: the loop that writes the merged fields does not end

  datatype Result<T> = Ok(value: T) | Err(error: Error)

  /* ---------- one document ---------- */

  /** The value of the first `_id`. */
  function IdOf(d: FlatDoc): Option<Ranked> {
    if Find(d, ID) < |d| then Some(d[Find(d, ID)].value) else None
  }

  function WithoutId(d: FlatDoc): FlatDoc {
    if d == [] then []
    else if d[|d| - 1].key == ID then WithoutId(d[..|d| - 1])
    else WithoutId(d[..|d| - 1]) + [d[|d| - 1]]
  }

  /** A clean document: `_id` first, and no key twice. The table may hold others. */
  predicate IsClean(d: FlatDoc) {
    d != [] && d[0].key == ID && DistinctKeys(d)
  }

  /** ValidateAndAddObjectIdToWriter: the `_id` to write, always the target's. */
  function IdToWrite(source: FlatDoc, target: FlatDoc): Result<FlatField> {
    if target == [] || (|target| != 1 && target[0].key != ID) then Err(Internal)
    else if IdOf(source).Some? && IdOf(source).value.rank != target[0].value.rank then Err(ImmutableField)
    else Ok(FlatField(ID, target[0].value))
  }

  /** The document whenMatched should write. */
  function Written(action: WhenMatched, source: FlatDoc, target: FlatDoc): Result<FlatDoc> {
    match action
    case KeepExisting => Err(Internal)
    case Fail => Err(DuplicateKey)
    case PipelineOrLet => Err(NotSupported)
    case Replace =>
      (match IdToWrite(source, target)
       case Err(e) => Err(e)
       case Ok(id) => Ok([id] + WithoutId(source)))
    case Merge =>
      match IdToWrite(source, target)
      case Err(e) => Err(e)
      case Ok(id) =>
        if target[0].key != ID then Err(Internal)
        else match Merged(target[1..], WithoutId(source))
             case None => Err(NeverEnds)
             case Some(fields) => Ok([id] + fields)
  }

  /** Whether a source equal to the target is written as the target. */
  predicate RewritesItself(action: WhenMatched, d: FlatDoc) {
    && d != [] && d[0].key == ID
    && if action.Replace? then forall i :: 0 < i < |d| ==> d[i].key != ID else DistinctKeys(d[1..])
  }

  /** bson_dollar_merge_handle_when_matched, wherever it ends. `hasValidator` is whether a schema validator
      applies; `validated` is whether it is run on the document: it is skipped if and only if the source
      equals the target. The document written then is the target if and only if replace finds no
      second `_id` in it, or merge no key that is repeated. */
  method HandleWhenMatched(action: WhenMatched, source: FlatDoc, target: FlatDoc, hasValidator: bool)
    returns (r: Result<FlatDoc>, validated: bool)
    requires Written(action, source, target) != Err(NeverEnds)
    ensures r == Written(action, source, target)
    ensures validated <==> r.Ok? && hasValidator && source != target
    ensures r.Ok? && hasValidator && !validated ==> (r.value == target <==> RewritesItself(action, target))
  {
    var needComparison := true;
    validated := hasValidator;
    if action.KeepExisting? { return Err(Internal), false; }
    if action.Fail? { return Err(DuplicateKey), false; }
    if action.PipelineOrLet? { return Err(NotSupported), false; }
    var id := IdToWrite(source, target);
    if id.Err? { return Err(id.error), false; }
    var rest := WriteWithoutId(source);
    if action.Replace? {
      r := Ok([id.value] + rest);
    } else if target[0].key != ID {
      return Err(Internal), false;
    } else {
      var merged;
      merged, needComparison := MergeTable.MergeFields(target[1..], rest);
      r := Ok([id.value] + merged);
    }
    if needComparison && validated {
      validated := source != target;
    }
    if source == target { WrittenForItself(action, target); }
  }

  lemma {:induction false} FieldsWithoutId(d: FlatDoc)
    ensures forall f :: f in WithoutId(d) ==> f.key != ID && f in d
  {
    if d != [] { FieldsWithoutId(d[..|d| - 1]); }
  }

  lemma WithoutIdIsRest(d: FlatDoc)
    requires d != [] && d[0].key == ID
    ensures forall f :: f in WithoutId(d) ==> f in d[1..]
    ensures WithoutId(d) == d[1..] <==> forall i :: 0 < i < |d| ==> d[i].key != ID
  {
    FieldsWithoutId(d);
    if WithoutId(d) == d[1..] {
      forall i | 0 < i < |d| ensures d[i].key != ID { assert d[i] == d[1..][i - 1]; }
    } else if forall i :: 0 < i < |d| ==> d[i].key != ID {
      WithoutIdKeepsRest(d);
    }
  }

  lemma OwnId(d: FlatDoc)
    requires d != [] && d[0].key == ID
    ensures IdToWrite(d, d) == Ok(d[0])
  {
    assert Find(d, ID) == 0;
  }

  lemma SameRest(d: FlatDoc, rest: FlatDoc)
    requires d != []
    ensures [d[0]] + rest == d <==> rest == d[1..]
  {
    assert ([d[0]] + rest)[1..] == rest && [d[0]] + d[1..] == d;
  }

  lemma ReplacedByItself(d: FlatDoc)
    requires d != [] && d[0].key == ID
    ensures Written(Replace, d, d) == Ok(d) <==> RewritesItself(Replace, d)
  {
    OwnId(d);
    WithoutIdIsRest(d);
    SameRest(d, WithoutId(d));
  }

  lemma MergedWithItself(d: FlatDoc)
    requires d != [] && d[0].key == ID
    ensures !HasOwnKey(d[1..], WithoutId(d))
    ensures Written(Merge, d, d) == Ok(d) <==> RewritesItself(Merge, d)
  {
    var tail, rest := d[1..], WithoutId(d);
    OwnId(d);
    WithoutIdIsRest(d);
    OnlyItsKeys(tail, rest);
    RewrittenIffDistinct(tail, rest);
    if Merged(tail, rest).Some? { SameRest(d, Merged(tail, rest).value); }
  }

  /** A source equal to the target has no key of its own, and is written as the target under the stated
      condition only. */
  lemma WrittenForItself(action: WhenMatched, d: FlatDoc)
    ensures d != [] && d[0].key == ID ==> !HasOwnKey(d[1..], WithoutId(d))
    ensures Written(action, d, d) == Ok(d) <==> (action.Replace? || action.Merge?) && RewritesItself(action, d)
  {
    if d != [] && d[0].key == ID {
      ReplacedByItself(d);
      MergedWithItself(d);
    } else if |d| == 1 {
      SameRest([FlatField(ID, d[0].value)], WithoutId(d));
    }
  }

  lemma OnlyItsKeys(d: FlatDoc, fs: FlatDoc)
    requires forall f :: f in fs ==> f in d
    ensures !HasOwnKey(d, fs)
  {
    forall i | 0 <= i < |fs| ensures fs[i].key in Keys(d) {
      assert fs[i] in fs;
      var j :| 0 <= j < |d| && d[j] == fs[i];
      assert Keys(d)[j] == fs[i].key;
    }
  }

  const REPEATING: FlatDoc :=
    [FlatField("a", Ranked(1.0, "")), FlatField("b", Ranked(2.0, "")),
     FlatField("a", Ranked(3.0, "")), FlatField("c", Ranked(4.0, ""))]

  const REMAINING: FlatDoc := [FlatField("a", Ranked(3.0, "")), FlatField("c", Ranked(4.0, ""))]

  /** The keys _id, a, b, a, c, merged with themselves: validation is skipped, and b is gone. */
  lemma RepeatedKeyIsLost(id: Ranked)
    ensures var d := [FlatField(ID, id)] + REPEATING; Written(Merge, d, d) == Ok([FlatField(ID, id)] + REMAINING)
  {
    var d := [FlatField(ID, id)] + REPEATING;
    assert "a"[0] != ID[0] && "b"[0] != ID[0] && "c"[0] != ID[0];
    WithoutIdKeepsRest(d);
    assert d[1..] == REPEATING;
    OwnId(d);
    RepeatedIsRemaining();
    WritesIsMerged(REPEATING, REPEATING, REMAINING);
  }

  lemma RepeatedIsRemaining()
    ensures Writes(REPEATING, REPEATING, REMAINING)
  {
    OnlyItsKeys(REPEATING, REPEATING);
    OwnKeyIsNew(REPEATING, REPEATING);
    WhatTheTableHolds(REPEATING, REPEATING);
    assert Keys(REPEATING) + [] == Keys(REPEATING);
    ItsKeys();
    RepeatedKeys();
    LastValues();
  }

  lemma ItsKeys()
    ensures Keys(REPEATING) == ["a", "b", "a", "c"] && Keys(REMAINING) == ["a", "c"]
  {
  }

  lemma LastValues()
    ensures Last(REPEATING, "a") == Some(Ranked(3.0, "")) && Last(REPEATING, "c") == Some(Ranked(4.0, ""))
  {
    assert "a"[0] != "c"[0];
    assert Last(REPEATING, "a") == Last(REPEATING[..3], "a");
  }

  lemma DistinctTail(d: FlatDoc)
    requires IsClean(d)
    ensures DistinctKeys(d[1..])
  {}

  method WriteWithoutId(source: FlatDoc) returns (out: FlatDoc)
    ensures out == WithoutId(source)
  {
    out := [];
    for i := 0 to |source|
      invariant out == WithoutId(source[..i])
    {
      assert source[..i + 1][..i] == source[..i];
      if source[i].key != ID {
        out := out + [source[i]];
      }
    }
    assert source[..|source|] == source;
  }

  lemma {:induction false} WithoutIdKeepsRest(d: FlatDoc)
    requires forall i :: 0 < i < |d| ==> d[i].key != ID
    requires d != [] && d[0].key == ID
    ensures WithoutId(d) == d[1..]
  {
    if |d| > 1 {
      var init := d[..|d| - 1];
      WithoutIdKeepsRest(init);
      assert d[1..] == init[1..] + [d[|d| - 1]];
    } else {
      assert WithoutId(d[..0]) == [];
    }
  }

  /* ---------- what is written is again a clean document ---------- */

  lemma {:induction false} WithoutIdIsDistinct(d: FlatDoc)
    requires DistinctKeys(d)
    ensures DistinctKeys(WithoutId(d))
    ensures forall f :: f in WithoutId(d) ==> f.key != ID && f in d
  {
    if d != [] {
      var init := d[..|d| - 1];
      WithoutIdIsDistinct(init);
      forall f | f in WithoutId(init) ensures f.key != d[|d| - 1].key {
        var i :| 0 <= i < |init| && init[i] == f;
        assert d[i] == f;
      }
    }
  }

  lemma {:induction false} EnteredKeepsNoId(d: FlatDoc, fs: FlatDoc)
    requires forall f :: f in d ==> f.key != ID
    requires forall f :: f in fs ==> f.key != ID
    ensures forall f :: f in EnteredAll(d, fs) ==> f.key != ID
  {
    if fs != [] {
      EnteredKeepsNoId(d, fs[..|fs| - 1]);
      assert fs[|fs| - 1] in fs;
    }
  }

  lemma PutIdFirst(id: Ranked, rest: FlatDoc)
    requires DistinctKeys(rest) && forall f :: f in rest ==> f.key != ID
    ensures IsClean([FlatField(ID, id)] + rest)
  {
    var d := [FlatField(ID, id)] + rest;
    forall i, j | 0 <= i < j < |d| ensures d[i].key != d[j].key {
      assert d[j] == rest[j - 1] && rest[j - 1] in rest;
      if i > 0 { assert d[i] == rest[i - 1]; }
    }
  }

  /** A matched document keeps its `_id`, first. If it was clean it stays so, provided no key of the source is
      repeated, and by merge in any case. */
  lemma WrittenIsClean(action: WhenMatched, source: FlatDoc, target: FlatDoc)
    requires target != [] && target[0].key == ID && Written(action, source, target).Ok?
    ensures Written(action, source, target).value != [] && Written(action, source, target).value[0] == target[0]
    ensures IsClean(target) && (DistinctKeys(source) || action.Merge?) ==>
              IsClean(Written(action, source, target).value)
  {
    FieldsWithoutId(source);
    if action.Merge? && IsClean(target) {
      MergedIsClean(target, WithoutId(source));
    } else if DistinctKeys(source) && !action.Merge? {
      WithoutIdIsDistinct(source);
      PutIdFirst(target[0].value, WithoutId(source));
    }
  }

  lemma MergedIsClean(target: FlatDoc, rest: FlatDoc)
    requires IsClean(target) && (forall f :: f in rest ==> f.key != ID) && Merged(target[1..], rest).Some?
    ensures IsClean([FlatField(ID, target[0].value)] + Merged(target[1..], rest).value)
  {
    var tail := target[1..];
    var merged := Merged(tail, rest).value;
    DistinctTail(target);
    forall f | f in tail ensures f.key != ID {
      var i :| 0 <= i < |tail| && tail[i] == f;
      assert target[i + 1] == f;
    }
    WritesIsMerged(tail, rest, merged);
    DistinctTargetIsOverridden(tail, rest, merged);
    EnteredAllIsOverride(tail, rest);
    EnteredKeepsNoId(tail, rest);
    PutIdFirst(target[0].value, merged);
  }

  /* ---------- one insert ---------- */

  datatype Row = Row(objectId: Ranked, doc: FlatDoc)

  /** A source document with the id generated for it in case it has none. */
  datatype Source = Source(doc: FlatDoc, generated: Ranked)

  /** RewriteDocumentWithCustomObjectId. */
  function WithIdFirst(d: FlatDoc, generated: Ranked): FlatDoc {
    if d != [] && d[0].key == ID then d
    else if IdOf(d).Some? then [FlatField(ID, IdOf(d).value)] + WithoutId(d)
    else [FlatField(ID, generated)] + d
  }

  /** The row the insert action makes: the object_id column and the document are computed separately. */
  function NewRow(s: Source): Row {
    Row(if IdOf(s.doc).Some? then IdOf(s.doc).value else s.generated, WithIdFirst(s.doc, s.generated))
  }

  /** `_id` comes first, and is what the column holds. */
  predicate RowOk(r: Row) {
    r.doc != [] && r.doc[0] == FlatField(ID, r.objectId)
  }

  lemma NewRowIsOk(s: Source)
    ensures RowOk(NewRow(s)) && (DistinctKeys(s.doc) ==> IsClean(NewRow(s).doc))
  {
    if !DistinctKeys(s.doc) {
    } else if s.doc != [] && s.doc[0].key == ID {
    } else if IdOf(s.doc).Some? {
      WithoutIdIsDistinct(s.doc);
      PutIdFirst(IdOf(s.doc).value, WithoutId(s.doc));
    } else {
      forall f | f in s.doc ensures f.key != ID {
        var i :| 0 <= i < |s.doc| && s.doc[i] == f;
      }
      PutIdFirst(s.generated, s.doc);
    }
  }

  /* ---------- a run ---------- */

  /** What the stage was given: whether a source document joins a target row, and the two actions. */
  datatype Args = Args(
    joins: (FlatDoc, Row) -> bool,
    validId: Ranked -> bool,
    matched: WhenMatched,
    notMatched: WhenNotMatched
  )

  /** The table while the statement runs. Its first rows are those of the snapshot the join sees, in
      place; inserted rows come after them. `touched` are the rows already updated. */
  datatype Run = Run(rows: seq<Row>, touched: set<nat>)

  ghost predicate TableOk(rows: seq<Row>) {
    && (forall i :: 0 <= i < |rows| ==> RowOk(rows[i]))
    && forall i, j :: 0 <= i < j < |rows| ==> rows[i].objectId.rank != rows[j].objectId.rank
  }

  predicate AllClean(rows: seq<Row>) {
    forall i :: 0 <= i < |rows| ==> IsClean(rows[i].doc)
  }

  predicate HasId(rows: seq<Row>, id: Ranked) {
    exists i :: 0 <= i < |rows| && rows[i].objectId.rank == id.rank
  }

  predicate Joins(a: Args, snapshot: seq<Row>, s: Source, i: nat)
    requires i < |snapshot|
  {
    a.joins(s.doc, snapshot[i])
  }

  /** WHEN MATCHED for the target rows from i on: each one that joins the source. */
  function UpdateFrom(a: Args, snapshot: seq<Row>, run: Run, s: Source, i: nat): Result<Run>
    requires i <= |snapshot| <= |run.rows|
    decreases |snapshot| - i
  {
    if i == |snapshot| then Ok(run)
    else if !Joins(a, snapshot, s, i) || a.matched.KeepExisting? then UpdateFrom(a, snapshot, run, s, i + 1)
    else if i in run.touched then Err(RowTouchedTwice)
    else match Written(a.matched, s.doc, snapshot[i].doc)
         case Err(e) => Err(e)
         case Ok(doc) =>
           UpdateFrom(a, snapshot, Run(run.rows[i := run.rows[i].(doc := doc)], run.touched + {i}), s, i + 1)
  }

  /** WHEN NOT MATCHED. */
  function InsertRow(a: Args, run: Run, s: Source): Result<Run> {
    match a.notMatched
    case Discard => Ok(run)
    case FailUnmatched => Err(NoMatchingDocument)
    case Insert =>
      if IdOf(s.doc).Some? && !a.validId(IdOf(s.doc).value) then Err(InvalidId)
      else if HasId(run.rows, NewRow(s).objectId) then Err(DuplicateKey)
      else Ok(run.(rows := run.rows + [NewRow(s)]))
  }

  predicate IsMatched(a: Args, snapshot: seq<Row>, s: Source) {
    exists i :: 0 <= i < |snapshot| && Joins(a, snapshot, s, i)
  }

  /** The whole statement over the source rows. */
  function RunAll(a: Args, snapshot: seq<Row>, sources: seq<Source>): (r: Result<Run>)
    ensures r.Ok? ==> |snapshot| <= |r.value.rows|
  {
    if sources == [] then Ok(Run(snapshot, {}))
    else match RunAll(a, snapshot, sources[..|sources| - 1])
         case Err(e) => Err(e)
         case Ok(run) => ApplyOne(a, snapshot, run, sources[|sources| - 1])
  }

  function ApplyOne(a: Args, snapshot: seq<Row>, run: Run, s: Source): (r: Result<Run>)
    requires |snapshot| <= |run.rows|
    ensures r.Ok? ==> |snapshot| <= |r.value.rows|
  {
    if IsMatched(a, snapshot, s) then UpdateKeepsLength(a, snapshot, run, s, 0); UpdateFrom(a, snapshot, run, s, 0)
    else InsertRow(a, run, s)
  }

  lemma {:induction false} UpdateKeepsLength(a: Args, snapshot: seq<Row>, run: Run, s: Source, i: nat)
    requires i <= |snapshot| <= |run.rows|
    ensures UpdateFrom(a, snapshot, run, s, i).Ok? ==> |UpdateFrom(a, snapshot, run, s, i).value.rows| == |run.rows|
    decreases |snapshot| - i
  {
    if i < |snapshot| {
      if !Joins(a, snapshot, s, i) || a.matched.KeepExisting? {
        UpdateKeepsLength(a, snapshot, run, s, i + 1);
      } else if i !in run.touched && Written(a.matched, s.doc, snapshot[i].doc).Ok? {
        var doc := Written(a.matched, s.doc, snapshot[i].doc).value;
        UpdateKeepsLength(a, snapshot, Run(run.rows[i := run.rows[i].(doc := doc)], run.touched + {i}), s, i + 1);
      }
    }
  }

  /** What every step of a run keeps: the table's own invariant; the `_id`s of the rows that were
      there; rows that no update touched; and, where neither a row nor a source repeats a key
      (`clean`), that no row does. */
  ghost predicate Keeps(a: Args, snapshot: seq<Row>, run: Run, clean: bool) {
    && (clean ==> AllClean(run.rows))
    && |snapshot| <= |run.rows| && TableOk(run.rows)
    && (forall i :: 0 <= i < |snapshot| ==> run.rows[i].objectId == snapshot[i].objectId)
    && (forall i :: 0 <= i < |snapshot| && i !in run.touched ==> run.rows[i] == snapshot[i])
    && (a.matched.KeepExisting? ==> run.touched == {})
    && (!a.notMatched.Insert? ==> |run.rows| == |snapshot|)
  }

  function Touched(run: Run, i: nat, doc: FlatDoc): Run
    requires i < |run.rows|
  {
    Run(run.rows[i := run.rows[i].(doc := doc)], run.touched + {i})
  }

  lemma TouchKeeps(a: Args, snapshot: seq<Row>, run: Run, s: Source, i: nat, clean: bool)
    requires TableOk(snapshot) && (clean ==> AllClean(snapshot)) && Keeps(a, snapshot, run, clean)
    requires clean ==> DistinctKeys(s.doc)
    requires i < |snapshot| && !a.matched.KeepExisting? && Written(a.matched, s.doc, snapshot[i].doc).Ok?
    ensures Keeps(a, snapshot, Touched(run, i, Written(a.matched, s.doc, snapshot[i].doc).value), clean)
  {
    assert RowOk(snapshot[i]);
    WrittenIsClean(a.matched, s.doc, snapshot[i].doc);
  }

  lemma {:induction false} UpdateKeeps(a: Args, snapshot: seq<Row>, run: Run, s: Source, i: nat, clean: bool)
    requires TableOk(snapshot) && (clean ==> AllClean(snapshot)) && Keeps(a, snapshot, run, clean)
    requires i <= |snapshot| && (clean ==> DistinctKeys(s.doc))
    ensures UpdateFrom(a, snapshot, run, s, i).Ok? ==>
              Keeps(a, snapshot, UpdateFrom(a, snapshot, run, s, i).value, clean)
    decreases |snapshot| - i
  {
    if i < |snapshot| {
      if !Joins(a, snapshot, s, i) || a.matched.KeepExisting? {
        UpdateKeeps(a, snapshot, run, s, i + 1, clean);
      } else if i !in run.touched && Written(a.matched, s.doc, snapshot[i].doc).Ok? {
        TouchKeeps(a, snapshot, run, s, i, clean);
        UpdateKeeps(a, snapshot, Touched(run, i, Written(a.matched, s.doc, snapshot[i].doc).value), s, i + 1, clean);
      }
    }
  }

  lemma InsertKeeps(a: Args, snapshot: seq<Row>, run: Run, s: Source, clean: bool)
    requires Keeps(a, snapshot, run, clean) && (clean ==> DistinctKeys(s.doc))
    ensures InsertRow(a, run, s).Ok? ==> Keeps(a, snapshot, InsertRow(a, run, s).value, clean)
  {
    NewRowIsOk(s);
  }

  predicate Clean(sources: seq<Source>) {
    forall s :: s in sources ==> DistinctKeys(s.doc)
  }

  /** Every run, over any source sequence and for each pair of actions, keeps the table's invariant. */
  lemma {:induction false} RunKeeps(a: Args, snapshot: seq<Row>, sources: seq<Source>)
    requires TableOk(snapshot)
    ensures RunAll(a, snapshot, sources).Ok? ==>
              Keeps(a, snapshot, RunAll(a, snapshot, sources).value, AllClean(snapshot) && Clean(sources))
  {
    if sources != [] {
      var init, s := sources[..|sources| - 1], sources[|sources| - 1];
      RunKeeps(a, snapshot, init);
      if RunAll(a, snapshot, init).Ok? {
        var run, clean := RunAll(a, snapshot, init).value, AllClean(snapshot) && Clean(sources);
        assert s in sources && forall t :: t in init ==> t in sources;
        assert Keeps(a, snapshot, run, clean);
        UpdateKeeps(a, snapshot, run, s, 0, clean);
        InsertKeeps(a, snapshot, run, s, clean);
      }
    }
  }

  /* ---------- and what it changes ---------- */

  /** The rows already touched stay as they are, and a source leaves its document in every row it
      joins: a second source for the same row is an error. */
  ghost predicate Wrote(a: Args, snapshot: seq<Row>, run: Run, run': Run, s: Source, from: nat) {
    && |run'.rows| == |run.rows| >= |snapshot|
    && run.touched <= run'.touched
    && (forall j :: 0 <= j < |run.rows| && (j in run.touched || j < from || j >= |snapshot|) ==>
          run'.rows[j] == run.rows[j])
    && (forall j :: 0 <= j < |snapshot| && j !in run.touched ==>
          (j in run'.touched <==> j >= from && Joins(a, snapshot, s, j) && !a.matched.KeepExisting?))
    && (forall j :: from <= j < |snapshot| && Joins(a, snapshot, s, j) && !a.matched.KeepExisting? ==>
          j !in run.touched && Written(a.matched, s.doc, snapshot[j].doc) == Ok(run'.rows[j].doc))
  }

  lemma {:induction false} UpdateWrites(a: Args, snapshot: seq<Row>, run: Run, s: Source, i: nat)
    requires i <= |snapshot| <= |run.rows|
    ensures UpdateFrom(a, snapshot, run, s, i).Ok? ==>
              Wrote(a, snapshot, run, UpdateFrom(a, snapshot, run, s, i).value, s, i)
    decreases |snapshot| - i
  {
    if i < |snapshot| {
      if !Joins(a, snapshot, s, i) || a.matched.KeepExisting? {
        UpdateWrites(a, snapshot, run, s, i + 1);
      } else if i !in run.touched && Written(a.matched, s.doc, snapshot[i].doc).Ok? {
        UpdateWrites(a, snapshot, Touched(run, i, Written(a.matched, s.doc, snapshot[i].doc).value), s, i + 1);
      }
    }
  }

  ghost predicate TouchedIsJoined(a: Args, snapshot: seq<Row>, sources: seq<Source>, run: Run) {
    forall i :: 0 <= i < |snapshot| && i in run.touched ==> exists s :: s in sources && Joins(a, snapshot, s, i)
  }

  predicate WrittenTo(a: Args, snapshot: seq<Row>, run: Run, s: Source, i: nat)
    requires i < |snapshot| <= |run.rows|
  {
    i in run.touched && Written(a.matched, s.doc, snapshot[i].doc) == Ok(run.rows[i].doc)
  }

  ghost predicate JoinedIsWritten(a: Args, snapshot: seq<Row>, sources: seq<Source>, run: Run)
    requires |snapshot| <= |run.rows|
  {
    forall s, i :: s in sources && 0 <= i < |snapshot| && Joins(a, snapshot, s, i) && !a.matched.KeepExisting? ==>
      WrittenTo(a, snapshot, run, s, i)
  }

  ghost predicate UnmatchedAreIn(a: Args, snapshot: seq<Row>, sources: seq<Source>, rows: seq<Row>) {
    forall s :: s in sources && !IsMatched(a, snapshot, s) ==> NewRow(s) in rows
  }

  ghost predicate OnlyUnmatched(a: Args, snapshot: seq<Row>, sources: seq<Source>, rows: seq<Row>) {
    forall r :: r in rows ==> exists s :: s in sources && !IsMatched(a, snapshot, s) && r == NewRow(s)
  }

  /** The outcome of a run in terms of its inputs alone: a row that was there is touched exactly when
      some source joins it, and then holds what whenMatched writes for that source; every
      unmatched source has its row, and there are no other rows. */
  ghost predicate Outcome(a: Args, snapshot: seq<Row>, sources: seq<Source>, run: Run) {
    && |snapshot| <= |run.rows|
    && TouchedIsJoined(a, snapshot, sources, run)
    && JoinedIsWritten(a, snapshot, sources, run)
    && (a.notMatched.Insert? ==> UnmatchedAreIn(a, snapshot, sources, run.rows[|snapshot|..]))
    && OnlyUnmatched(a, snapshot, sources, run.rows[|snapshot|..])
  }

  lemma {:induction false} RunOutcome(a: Args, snapshot: seq<Row>, sources: seq<Source>)
    ensures RunAll(a, snapshot, sources).Ok? ==> Outcome(a, snapshot, sources, RunAll(a, snapshot, sources).value)
  {
    if sources != [] && RunAll(a, snapshot, sources).Ok? {
      var init, s := sources[..|sources| - 1], sources[|sources| - 1];
      RunOutcome(a, snapshot, init);
      var run := RunAll(a, snapshot, init).value;
      var run' := RunAll(a, snapshot, sources).value;
      assert forall t :: t in sources <==> t in init || t == s;
      if IsMatched(a, snapshot, s) {
        UpdateWrites(a, snapshot, run, s, 0);
        AfterUpdate(a, snapshot, init, sources, run, run', s);
      } else {
        AfterInsert(a, snapshot, init, sources, run, run', s);
      }
    }
  }

  lemma StillWritten(a: Args, snapshot: seq<Row>, init: seq<Source>, sources: seq<Source>, run: Run, run': Run,
                     s: Source)
    requires |snapshot| <= |run.rows| && JoinedIsWritten(a, snapshot, init, run) && Wrote(a, snapshot, run, run', s, 0)
    requires forall t :: t in sources <==> t in init || t == s
    ensures JoinedIsWritten(a, snapshot, sources, run')
  {
    forall t, i | t in sources && 0 <= i < |snapshot| && Joins(a, snapshot, t, i) && !a.matched.KeepExisting?
      ensures WrittenTo(a, snapshot, run', t, i)
    {
      if t in init { assert WrittenTo(a, snapshot, run, t, i); }
    }
  }

  lemma AfterUpdate(a: Args, snapshot: seq<Row>, init: seq<Source>, sources: seq<Source>, run: Run, run': Run,
                    s: Source)
    requires Outcome(a, snapshot, init, run) && Wrote(a, snapshot, run, run', s, 0) && IsMatched(a, snapshot, s)
    requires forall t :: t in sources <==> t in init || t == s
    ensures Outcome(a, snapshot, sources, run')
  {
    assert run'.rows[|snapshot|..] == run.rows[|snapshot|..];
    StillWritten(a, snapshot, init, sources, run, run', s);
  }

  lemma AfterInsert(a: Args, snapshot: seq<Row>, init: seq<Source>, sources: seq<Source>, run: Run, run': Run,
                    s: Source)
    requires Outcome(a, snapshot, init, run) && InsertRow(a, run, s) == Ok(run') && !IsMatched(a, snapshot, s)
    requires forall t :: t in sources <==> t in init || t == s
    ensures Outcome(a, snapshot, sources, run')
  {
    if a.notMatched.Insert? {
      assert run'.rows[|snapshot|..] == run.rows[|snapshot|..] + [NewRow(s)];
    }
    forall t, i | t in sources && 0 <= i < |snapshot| && Joins(a, snapshot, t, i) && !a.matched.KeepExisting?
      ensures WrittenTo(a, snapshot, run', t, i)
    {
      assert WrittenTo(a, snapshot, run, t, i);
    }
  }
}

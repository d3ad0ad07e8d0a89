/**
 A `$merge` run joined on accepted `on` fields: a source document updates at most one row, and when two
 of them meet in the same row.
 */
module MergeRun {
  import opened Bson
  import opened MergeStage
  import J = MergeJoin

  /** What the join reads: the values extracted from a source document, and the terms of a target row. */
  datatype Extract = Extract(source: FlatDoc -> map<string, real>, terms: Row -> J.Row)

  function TermRows(x: Extract, rows: seq<Row>): (out: seq<J.Row>)
    ensures |out| == |rows| && forall i :: 0 <= i < |rows| ==> out[i] == x.terms(rows[i])
  {
    if rows == [] then [] else [x.terms(rows[0])] + TermRows(x, rows[1..])
  }

  /** The stage's join is the one on these fields. */
  ghost predicate JoinsOn(a: Args, x: Extract, on: J.On) {
    forall d, r :: a.joins(d, r) <==> J.JoinsRow(x.source(d), J.OnFields(on), x.terms(r))
  }

  ghost predicate IndexesHold(x: Extract, snapshot: seq<Row>, indexes: seq<J.Index>) {
    && J.Enforced([ID], TermRows(x, snapshot))
    && forall ix :: ix in indexes && J.Usable(ix) ==> J.Enforced(ix.keys, TermRows(x, snapshot))
  }

  /** No source joins two rows. */
  ghost predicate AtMostOne(a: Args, snapshot: seq<Row>) {
    forall s, i, j :: 0 <= i < |snapshot| && 0 <= j < |snapshot| && Joins(a, snapshot, s, i) && Joins(a, snapshot, s, j)
      ==> i == j
  }

  /** With accepted `on` fields, on a table that obeys its unique indexes, that is so. */
  method AcceptedOnJoinsOnce(a: Args, ghost x: Extract, on: J.On, indexes: seq<J.Index>, ghost snapshot: seq<Row>)
    returns (v: J.Verdict)
    requires JoinsOn(a, x, on) && IndexesHold(x, snapshot, indexes)
    requires forall ix :: ix in indexes ==> Distinct(ix.keys)
    ensures v == J.Accepted ==> AtMostOne(a, snapshot)
  {
    v := J.ValidateOn(on, indexes);
    if v == J.Accepted {
      forall s, i, j
        | 0 <= i < |snapshot| && 0 <= j < |snapshot| && Joins(a, snapshot, s, i) && Joins(a, snapshot, s, j)
        ensures i == j
      {
        J.JoinIsFunctional(on, indexes, TermRows(x, snapshot), x.source(s.doc), i, j);
      }
    }
  }

  /** Then a matched source updates its one row, or fails for it. */
  lemma {:induction false} UpdatesOneRow(a: Args, snapshot: seq<Row>, run: Run, s: Source, i: nat, r: nat)
    requires AtMostOne(a, snapshot) && i <= r < |snapshot| <= |run.rows| && Joins(a, snapshot, s, r)
    ensures UpdateFrom(a, snapshot, run, s, i) ==
            if a.matched.KeepExisting? then Ok(run)
            else if r in run.touched then Err(RowTouchedTwice)
            else match Written(a.matched, s.doc, snapshot[r].doc)
                 case Err(e) => Err(e)
                 case Ok(doc) => Ok(Touched(run, r, doc))
    decreases r - i
  {
    if i < r {
      assert !Joins(a, snapshot, s, i);
      UpdatesOneRow(a, snapshot, run, s, i + 1, r);
    } else {
      NothingMore(a, snapshot, run, s, r + 1, r);
      if !a.matched.KeepExisting? && r !in run.touched && Written(a.matched, s.doc, snapshot[r].doc).Ok? {
        NothingMore(a, snapshot, Touched(run, r, Written(a.matched, s.doc, snapshot[r].doc).value), s, r + 1, r);
      }
    }
  }

  lemma {:induction false} NothingMore(a: Args, snapshot: seq<Row>, run: Run, s: Source, i: nat, r: nat)
    requires AtMostOne(a, snapshot) && r < i <= |snapshot| <= |run.rows| && Joins(a, snapshot, s, r)
    ensures UpdateFrom(a, snapshot, run, s, i) == Ok(run)
    decreases |snapshot| - i
  {
    if i < |snapshot| {
      assert !Joins(a, snapshot, s, i);
      NothingMore(a, snapshot, run, s, i + 1, r);
    }
  }

  ghost predicate Meet(a: Args, snapshot: seq<Row>, s: Source, t: Source) {
    exists r :: 0 <= r < |snapshot| && Joins(a, snapshot, s, r) && Joins(a, snapshot, t, r)
  }

  /** The run gets to source j, and an earlier source joins the row that j joins. */
  ghost predicate MeetsAt(a: Args, snapshot: seq<Row>, sources: seq<Source>, j: nat)
    requires j < |sources|
  {
    RunAll(a, snapshot, sources[..j]).Ok? && exists s :: s in sources[..j] && Meet(a, snapshot, s, sources[j])
  }

  lemma TouchedIffJoined(a: Args, snapshot: seq<Row>, before: seq<Source>, run: Run, r: nat)
    requires Outcome(a, snapshot, before, run) && !a.matched.KeepExisting? && r < |snapshot|
    ensures r in run.touched <==> exists t :: t in before && Joins(a, snapshot, t, r)
  {
    if t :| t in before && Joins(a, snapshot, t, r) { assert WrittenTo(a, snapshot, run, t, r); }
  }

  lemma MeetIffJoins(a: Args, snapshot: seq<Row>, s: Source, t: Source, r: nat)
    requires AtMostOne(a, snapshot) && r < |snapshot| && Joins(a, snapshot, s, r)
    ensures Meet(a, snapshot, t, s) <==> Joins(a, snapshot, t, r)
  {
  }

  lemma ErrorForRow(action: WhenMatched, source: FlatDoc, target: FlatDoc)
    ensures Written(action, source, target) != Err(RowTouchedTwice)
  {
  }

  lemma StepTouchesTwice(a: Args, snapshot: seq<Row>, before: seq<Source>, run: Run, s: Source)
    requires AtMostOne(a, snapshot) && RunAll(a, snapshot, before) == Ok(run)
    ensures ApplyOne(a, snapshot, run, s) == Err(RowTouchedTwice)
            <==> !a.matched.KeepExisting? && exists t :: t in before && Meet(a, snapshot, t, s)
  {
    RunOutcome(a, snapshot, before);
    if IsMatched(a, snapshot, s) {
      var r :| 0 <= r < |snapshot| && Joins(a, snapshot, s, r);
      UpdatesOneRow(a, snapshot, run, s, 0, r);
      ErrorForRow(a.matched, s.doc, snapshot[r].doc);
      if !a.matched.KeepExisting? { TouchedIffJoined(a, snapshot, before, run, r); }
      forall t ensures Meet(a, snapshot, t, s) <==> Joins(a, snapshot, t, r) { MeetIffJoins(a, snapshot, s, t, r); }
    }
  }

  /** Exactly when a run ends because a row would be updated twice: some source is reached and joins the row
      of one before it, and matched rows are not just kept. */
  lemma {:induction false} TouchedTwiceIff(a: Args, snapshot: seq<Row>, sources: seq<Source>)
    requires AtMostOne(a, snapshot)
    ensures RunAll(a, snapshot, sources) == Err(RowTouchedTwice)
            <==> !a.matched.KeepExisting? && exists j :: 0 <= j < |sources| && MeetsAt(a, snapshot, sources, j)
  {
    if sources != [] {
      var n := |sources| - 1;
      var init, s := sources[..n], sources[n];
      TouchedTwiceIff(a, snapshot, init);
      forall j | 0 <= j < n ensures MeetsAt(a, snapshot, sources, j) <==> MeetsAt(a, snapshot, init, j) {
        assert sources[..j] == init[..j];
      }
      if RunAll(a, snapshot, init).Ok? {
        StepTouchesTwice(a, snapshot, init, RunAll(a, snapshot, init).value, s);
        assert MeetsAt(a, snapshot, sources, n) <==> exists t :: t in init && Meet(a, snapshot, t, s);
      }
    }
  }
}

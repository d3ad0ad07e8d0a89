/**
 A `$lookup` with a pipeline: a front part of the pipeline is moved below the join, a `$match` that
 reads the `let` variables may become part of the join filter, and the rest runs after the join: the
 matches are aggregated to an array, the array is unwound again, and the results are aggregated anew.
 */
module LookupPipeline {
  import opened Options
  import opened Documents
  import opened JoinFilter
  import opened LookupStages
  import opened Picking

  datatype JoinFields = JoinFields(localField: string, foreignField: string)

  /** The stage's arguments: `as`, the two fields (both or neither), whether there are variables, its own or
      an enclosing stage's; and whether the join is on the right `_id`, and the setting that lets a
      `$match` be pulled. */
  datatype Spec = Spec(into: string, fields: Option<JoinFields>, hasLet: bool, onRightId: bool, pullsMatch: bool)

  function RunStages(vars: Vars, stages: seq<Stage>, docs: seq<Doc>): seq<Doc>
    decreases |stages|
  {
    if stages == [] then docs else RunStages(vars, stages[1..], RunStage(vars, stages[0], docs))
  }

  lemma {:induction false} RunInParts(vars: Vars, a: seq<Stage>, b: seq<Stage>, docs: seq<Doc>)
    ensures RunStages(vars, a + b, docs) == RunStages(vars, b, RunStages(vars, a, docs))
    decreases |a|
  {
    if a == [] {
      assert a + b == b;
    } else {
      assert (a + b)[1..] == a[1..] + b;
      RunInParts(vars, a[1..], b, RunStage(vars, a[0], docs));
    }
  }

  /* ---------- the split ---------- */

  predicate AllKnown(stages: seq<Stage>) {
    forall i :: 0 <= i < |stages| ==> !stages[i].UnknownStage?
  }

  function KnownOnly(stages: seq<Stage>): seq<Stage> {
    if stages == [] then []
    else (if stages[0].UnknownStage? then [] else [stages[0]]) + KnownOnly(stages[1..])
  }

  lemma {:induction false} KnownOnlyAppend(stages: seq<Stage>, stage: Stage)
    ensures KnownOnly(stages + [stage]) == KnownOnly(stages) + if stage.UnknownStage? then [] else [stage]
  {
    if stages == [] {
      assert [] + [stage] == [stage] && [stage][1..] == [];
    } else {
      assert (stages + [stage])[1..] == stages[1..] + [stage];
      KnownOnlyAppend(stages[1..], stage);
    }
  }

  lemma {:induction false} KnownOnlyIsAll(stages: seq<Stage>)
    ensures |KnownOnly(stages)| <= |stages|
    ensures KnownOnly(stages) == stages <==> AllKnown(stages)
  {
    if stages != [] {
      KnownOnlyIsAll(stages[1..]);
      assert stages == [stages[0]] + stages[1..];
      if AllKnown(stages) {
        assert AllKnown(stages[1..]);
      } else if !stages[0].UnknownStage? {
        assert !AllKnown(stages[1..]);
        assert KnownOnly(stages)[1..] == KnownOnly(stages[1..]);
      }
    }
  }

  /** How many stages, from the front, pass their test. */
  function FrontLength(stages: seq<Stage>, path: string, hasLet: bool): (k: nat)
    ensures k <= |stages|
    ensures forall i :: 0 <= i < k ==> CanInline(stages[i], path, hasLet)
    ensures k < |stages| ==> !CanInline(stages[k], path, hasLet)
  {
    if stages == [] || !CanInline(stages[0], path, hasLet) then 0 else 1 + FrontLength(stages[1..], path, hasLet)
  }

  lemma FrontIsUnique(stages: seq<Stage>, path: string, hasLet: bool, k: nat)
    requires k <= |stages| && (forall i :: 0 <= i < k ==> CanInline(stages[i], path, hasLet))
    requires k < |stages| ==> !CanInline(stages[k], path, hasLet)
    ensures k == FrontLength(stages, path, hasLet)
  {
  }

  /** CanInlineLookupPipeline: the front of stages that pass their test, and the known ones among the rest.
      It reports the pipeline as valid whatever it saw. */
  method SplitPipeline(pipeline: seq<Stage>, path: string, hasLet: bool)
    returns (canInline: bool, isValid: bool, inlined: seq<Stage>, nonInlined: seq<Stage>)
    ensures isValid
    ensures var k := FrontLength(pipeline, path, hasLet);
            && (canInline <==> k == |pipeline|)
            && inlined == pipeline[..k] && nonInlined == KnownOnly(pipeline[k..])
  {
    canInline, isValid := true, false;
    inlined, nonInlined := [], [];
    ghost var k := 0;
    for i := 0 to |pipeline|
      invariant 0 <= k <= i && (canInline <==> k == i)
      invariant forall j :: 0 <= j < k ==> CanInline(pipeline[j], path, hasLet)
      invariant k < i ==> !CanInline(pipeline[k], path, hasLet)
      invariant inlined == pipeline[..k] && nonInlined == KnownOnly(pipeline[k..i])
    {
      var stage := pipeline[i];
      KnownOnlyAppend(pipeline[k..i], stage);
      assert pipeline[k..i + 1] == pipeline[k..i] + [stage];
      if stage.UnknownStage? {
        canInline, isValid := false, false;
      } else if !canInline || !CanInline(stage, path, hasLet) {
        canInline := false;
        nonInlined := nonInlined + [stage];
      } else {
        inlined := inlined + [stage];
        assert pipeline[..i + 1] == pipeline[..i] + [stage];
        k := i + 1;
      }
    }
    FrontIsUnique(pipeline, path, hasLet, k);
    assert pipeline[k..|pipeline|] == pipeline[k..];
    isValid := true;
  }

  /* ---------- the plan ---------- */

  /** What runs below the join, the `$match` taken into the join filter, and what runs after the join. */
  datatype Plan = Plan(below: seq<Stage>, pulled: Option<(Vars, Doc) -> bool>, after: seq<Stage>)

  predicate IsUncorrelated(spec: Spec) {
    spec.fields.None? && !spec.hasLet
  }

  function TestPath(spec: Spec): string {
    if spec.fields.Some? then LookupPath(spec.fields.value.localField) else ""
  }

  function Pulled(spec: Spec, below: seq<Stage>, after: seq<Stage>): Plan {
    if spec.pullsMatch && after != [] && after[0].DollarMatch?
    then Plan(below, Some(after[0].pred), after[1..])
    else Plan(below, None, after)
  }

  /** None is the error of an unrecognized stage name. */
  function PlanOf(spec: Spec, pipeline: seq<Stage>): Option<Plan> {
    if pipeline == [] then Some(Plan([], None, []))
    else if IsUncorrelated(spec) then (if AllKnown(pipeline) then Some(Pulled(spec, pipeline, [])) else None)
    else if spec.onRightId then (if AllKnown(pipeline) then Some(Plan([], None, pipeline)) else None)
    else
      var k := FrontLength(pipeline, TestPath(spec), spec.hasLet);
      Some(Pulled(spec, pipeline[..k], KnownOnly(pipeline[k..])))
  }

  method CheckStages(stages: seq<Stage>) returns (ok: bool)
    ensures ok <==> AllKnown(stages)
  {
    for i := 0 to |stages|
      invariant AllKnown(stages[..i])
    {
      if stages[i].UnknownStage? {
        return false;
      }
    }
    assert stages[..|stages|] == stages;
    ok := true;
  }

  /** OptimizeLookup. */
  method MakePlan(spec: Spec, pipeline: seq<Stage>) returns (plan: Option<Plan>)
    ensures plan == PlanOf(spec, pipeline)
  {
    var inlined, nonInlined := [], [];
    var checked := true;
    if pipeline != [] {
      if IsUncorrelated(spec) {
        inlined := pipeline;
        checked := CheckStages(pipeline);
      } else if spec.onRightId {
        nonInlined := pipeline;
        checked := CheckStages(pipeline);
      } else {
        var canInline, isValid;
        canInline, isValid, inlined, nonInlined := SplitPipeline(pipeline, TestPath(spec), spec.hasLet);
        if !isValid || canInline {
          assert pipeline[..|pipeline|] == pipeline && KnownOnly(pipeline[|pipeline|..]) == [];
          inlined, nonInlined := pipeline, [];
        }
      }
    }
    if !checked {
      return None;
    }
    if spec.pullsMatch && !spec.onRightId && nonInlined != [] && nonInlined[0].DollarMatch? {
      plan := Some(Plan(inlined, Some(nonInlined[0].pred), nonInlined[1..]));
    } else {
      plan := Some(Plan(inlined, None, nonInlined));
    }
  }

  ghost predicate IsPulled(plan: Plan, matches: seq<Stage>) {
    if plan.pulled.None? then matches == []
    else |matches| == 1 && matches[0].DollarMatch? && matches[0].pred == plan.pulled.value
  }

  /** The plan has every known stage of the pipeline, in order; all of them if and only if every name is
      known. An unknown name is an error if and only if the pipeline is not split, and otherwise dropped.
      Only stages that pass their test go below a join. */
  lemma PlanIsComplete(spec: Spec, pipeline: seq<Stage>) returns (matches: seq<Stage>)
    ensures PlanOf(spec, pipeline).None? <==> !AllKnown(pipeline) && (IsUncorrelated(spec) || spec.onRightId)
    ensures PlanOf(spec, pipeline).Some? ==>
              var plan := PlanOf(spec, pipeline).value;
              && IsPulled(plan, matches) && plan.below + matches + plan.after == KnownOnly(pipeline)
              && (!IsUncorrelated(spec) ==>
                    forall i :: 0 <= i < |plan.below| ==> CanInline(plan.below[i], TestPath(spec), spec.hasLet))
    ensures KnownOnly(pipeline) == pipeline <==> AllKnown(pipeline)
  {
    KnownOnlyIsAll(pipeline);
    matches := [];
    if PlanOf(spec, pipeline).Some? {
      if pipeline != [] && !IsUncorrelated(spec) && !spec.onRightId {
        var k := FrontLength(pipeline, TestPath(spec), spec.hasLet);
        KnownFront(pipeline, k);
        matches := PulledIsComplete(spec, pipeline[..k], KnownOnly(pipeline[k..]));
      } else {
        var plan := PlanOf(spec, pipeline).value;
        assert plan.below + [] + plan.after == pipeline;
      }
    }
  }

  lemma PulledIsComplete(spec: Spec, below: seq<Stage>, after: seq<Stage>) returns (matches: seq<Stage>)
    ensures var plan := Pulled(spec, below, after);
            IsPulled(plan, matches) && plan.below == below && plan.below + matches + plan.after == below + after
  {
    var plan := Pulled(spec, below, after);
    matches := if plan.pulled.Some? then [after[0]] else [];
    assert matches + plan.after == after;
    assert below + matches + plan.after == below + (matches + plan.after);
  }

  lemma {:induction false} KnownFront(stages: seq<Stage>, k: nat)
    requires k <= |stages| && forall i :: 0 <= i < k ==> !stages[i].UnknownStage?
    ensures KnownOnly(stages) == stages[..k] + KnownOnly(stages[k..])
  {
    if k == 0 {
      assert stages[0..] == stages;
    } else {
      KnownFront(stages[1..], k - 1);
      assert stages[1..][..k - 1] == stages[1..k] && stages[1..][k - 1..] == stages[k..];
      assert stages[..k] == [stages[0]] + stages[1..k];
    }
  }

  /* ---------- what the query computes for one left document ---------- */

  function JoinsFor(spec: Spec, wanted: set<Value>): Doc -> bool {
    if spec.fields.Some? then JoinOn(Split(spec.fields.value.foreignField), wanted) else d => true
  }

  /** The array under the literal name, coalesced to an empty one. */
  function ArrayAgg(into: string, docs: seq<Doc>): Doc {
    [Field(into, Array(ArrayItems(docs)))]
  }

  function DocsOf(items: seq<Value>): (docs: seq<Doc>)
    requires forall i :: 0 <= i < |items| ==> items[i].Object?
    ensures |docs| == |items| && forall i :: 0 <= i < |docs| ==> docs[i] == items[i].fields
  {
    if items == [] then [] else [items[0].fields] + DocsOf(items[1..])
  }

  /** bson_lookup_unwind: the name is read as a path. None is an error. */
  function UnwindArray(d: Doc, into: string): Option<seq<Doc>> {
    match GetPath(d, Split(into))
    case None => Some([])
    case Some(Array(items)) =>
      if forall i :: 0 <= i < |items| ==> items[i].Object? then Some(DocsOf(items)) else None
    case Some(_) => None
  }

  function FullFilter(vars: Vars, joins: Doc -> bool, pulled: Option<(Vars, Doc) -> bool>): Doc -> bool {
    d => joins(d) && (pulled.Some? ==> pulled.value(vars, d))
  }

  lemma NothingPulled(vars: Vars, joins: Doc -> bool, docs: seq<Doc>)
    ensures Filter(FullFilter(vars, joins, None), docs) == Filter(joins, docs)
  {
    FilterSame(FullFilter(vars, joins, None), joins, docs);
  }

  /** The documents the join finds: the front part of the pipeline runs on the whole collection, then come the
      join filter and the pulled `$match`. */
  function JoinedDocs(vars: Vars, spec: Spec, wanted: set<Value>, plan: Plan, right: seq<Doc>): seq<Doc> {
    Filter(FullFilter(vars, JoinsFor(spec, wanted), plan.pulled), RunStages(vars, plan.below, right))
  }

  /** The query that unwinds the array, runs the rest of the pipeline, and aggregates again. */
  function PostJoin(vars: Vars, into: string, after: seq<Stage>, aggregated: Doc): Option<Doc> {
    match UnwindArray(aggregated, into)
    case None => None
    case Some(docs) => Some(ArrayAgg(into, RunStages(vars, after, docs)))
  }

  /** ProcessLookupCoreWithLet: in the end the one field, its name read as a path, is merged into the left
      document. */
  function Rewritten(vars: Vars, spec: Spec, wanted: set<Value>, plan: Plan, left: Doc, right: seq<Doc>): Option<Doc> {
    var aggregated := ArrayAgg(spec.into, JoinedDocs(vars, spec, wanted, plan, right));
    match if plan.after == [] then Some(aggregated) else PostJoin(vars, spec.into, plan.after, aggregated)
    case None => None
    case Some(result) => Some(if result == [] then left else SetPath(left, Split(spec.into), result[0].value))
  }

  /** The stage as it is meant: the pipeline runs on the documents that join. */
  function Reference(vars: Vars, spec: Spec, wanted: set<Value>, stages: seq<Stage>, left: Doc, right: seq<Doc>): Doc {
    SetPath(left, Split(spec.into), Array(Objects(RunStages(vars, stages, Filter(JoinsFor(spec, wanted), right)))))
  }

  /* ---------- arrays ---------- */

  /** Unwinding what was aggregated gives the documents back, but for the empty ones; if the name has a dot it
      finds nothing. */
  lemma UnwindOfArray(into: string, docs: seq<Doc>)
    ensures UnwindArray(ArrayAgg(into, docs), into) == Some(if HasDot(into) then [] else NonEmpty(docs))
  {
    var d, p := ArrayAgg(into, docs), Split(into);
    assert d[1..] == [];
    if HasDot(into) {
      assert p[0] != into;
      assert Get(d, p[0]) == None;
    } else {
      assert GetPath(d, p) == Some(Array(ArrayItems(docs)));
      assert DocsOf(ArrayItems(docs)) == NonEmpty(docs);
    }
  }

  lemma {:induction false} ArrayDecides(left: Doc, p: Path, vs: seq<Value>, ws: seq<Value>)
    ensures SetPath(left, p, Array(vs)) == SetPath(left, p, Array(ws)) <==> vs == ws
  {
    GetSetPath(left, p, Array(vs));
    GetSetPath(left, p, Array(ws));
  }

  /* ---------- the theorem ---------- */

  /** The stages the plan moves below the join have safe paths. */
  predicate InlinedAreSafe(spec: Spec, plan: Plan) {
    spec.fields.Some? ==>
      forall i :: 0 <= i < |plan.below| ==> PathSafe(plan.below[i], Split(spec.fields.value.foreignField))
  }

  lemma {:induction false} StagesCommute(vars: Vars, p: Path, wanted: set<Value>, stages: seq<Stage>, right: seq<Doc>)
    requires forall i :: 0 <= i < |stages| ==> PathSafe(stages[i], p)
    ensures Filter(JoinOn(p, wanted), RunStages(vars, stages, right))
            == RunStages(vars, stages, Filter(JoinOn(p, wanted), right))
    decreases |stages|
  {
    if stages != [] {
      PathSafeIsSafe(stages[0], p);
      assert CommutesWith(vars, stages[0], JoinOn(p, wanted), right);
      StagesCommute(vars, p, wanted, stages[1..], RunStage(vars, stages[0], right));
    }
  }

  lemma BelowCommutes(vars: Vars, spec: Spec, wanted: set<Value>, stages: seq<Stage>, right: seq<Doc>)
    requires spec.fields.Some? ==>
               forall i :: 0 <= i < |stages| ==> PathSafe(stages[i], Split(spec.fields.value.foreignField))
    ensures Filter(JoinsFor(spec, wanted), RunStages(vars, stages, right))
            == RunStages(vars, stages, Filter(JoinsFor(spec, wanted), right))
  {
    if spec.fields.Some? {
      StagesCommute(vars, Split(spec.fields.value.foreignField), wanted, stages, right);
    } else {
      FilterAll(JoinsFor(spec, wanted), right);
      FilterAll(JoinsFor(spec, wanted), RunStages(vars, stages, right));
    }
  }

  lemma JoinedInOrder(vars: Vars, spec: Spec, wanted: set<Value>, plan: Plan, matches: seq<Stage>, right: seq<Doc>)
    requires IsPulled(plan, matches) && InlinedAreSafe(spec, plan)
    ensures JoinedDocs(vars, spec, wanted, plan, right)
            == RunStages(vars, plan.below + matches, Filter(JoinsFor(spec, wanted), right))
  {
    var joins := JoinsFor(spec, wanted);
    var below := RunStages(vars, plan.below, right);
    var filter := FullFilter(vars, joins, plan.pulled);
    BelowCommutes(vars, spec, wanted, plan.below, right);
    RunInParts(vars, plan.below, matches, Filter(joins, right));
    if plan.pulled.Some? {
      var pred := d => plan.pulled.value(vars, d);
      FilterTwice(joins, pred, below);
      FilterSame(d => joins(d) && pred(d), filter, below);
      assert matches[1..] == [];
      FilterSame(d => matches[0].pred(vars, d), pred, Filter(joins, below));
    } else {
      NothingPulled(vars, joins, below);
    }
  }

  /** For every left document, collection and pipeline whose stages below the join have safe paths. If
      nothing is left to run after the join, the array is right if and only if no joined document is empty.
      Otherwise the rest of the pipeline gets the joined documents that are not empty, or none if `as`
      has a dot, and the array is right if and only if what it makes of them, without the empty
      ones, is what it makes of all. */
  lemma LookupIsRight(vars: Vars, spec: Spec, wanted: set<Value>, pipeline: seq<Stage>, left: Doc, right: seq<Doc>)
    requires PlanOf(spec, pipeline).Some? && InlinedAreSafe(spec, PlanOf(spec, pipeline).value)
    ensures
      var plan := PlanOf(spec, pipeline).value;
      var joined := JoinedDocs(vars, spec, wanted, plan, right);
      var isRight := Rewritten(vars, spec, wanted, plan, left, right)
                     == Some(Reference(vars, spec, wanted, KnownOnly(pipeline), left, right));
      if plan.after == [] then isRight <==> NoneEmpty(joined)
      else isRight <==> NonEmpty(RunStages(vars, plan.after, Unwound(spec.into, joined)))
                        == RunStages(vars, plan.after, joined)
  {
    var plan := PlanOf(spec, pipeline).value;
    var matches := PlanIsComplete(spec, pipeline);
    JoinedInOrder(vars, spec, wanted, plan, matches, right);
    var joined := JoinedDocs(vars, spec, wanted, plan, right);
    RunInParts(vars, plan.below + matches, plan.after, Filter(JoinsFor(spec, wanted), right));
    var run := RunStages(vars, plan.after, joined);
    if plan.after == [] {
      ItemsAreAllIff(joined);
      ArrayDecides(left, Split(spec.into), ArrayItems(joined), Objects(joined));
    } else {
      UnwindOfArray(spec.into, joined);
      var seen := RunStages(vars, plan.after, Unwound(spec.into, joined));
      ArrayDecides(left, Split(spec.into), ArrayItems(seen), Objects(run));
      ObjectsIsInjective(NonEmpty(seen), run);
    }
  }

  /** What the rest of the pipeline gets to see of the joined documents. */
  function Unwound(into: string, joined: seq<Doc>): seq<Doc> {
    if HasDot(into) then [] else NonEmpty(joined)
  }

  /** Where no document is empty, the condition is on `as`: it has no dot, or the rest of the pipeline makes of
      the joined documents what it makes of none. */
  lemma RightIffUndotted(vars: Vars, spec: Spec, wanted: set<Value>, pipeline: seq<Stage>, left: Doc, right: seq<Doc>)
    requires PlanOf(spec, pipeline).Some? && InlinedAreSafe(spec, PlanOf(spec, pipeline).value)
    requires
      var plan := PlanOf(spec, pipeline).value;
      var joined := JoinedDocs(vars, spec, wanted, plan, right);
      && plan.after != [] && NoneEmpty(joined)
      && NoneEmpty(RunStages(vars, plan.after, joined)) && NoneEmpty(RunStages(vars, plan.after, []))
    ensures
      var plan := PlanOf(spec, pipeline).value;
      var joined := JoinedDocs(vars, spec, wanted, plan, right);
      Rewritten(vars, spec, wanted, plan, left, right)
      == Some(Reference(vars, spec, wanted, KnownOnly(pipeline), left, right))
      <==> !HasDot(spec.into) || RunStages(vars, plan.after, joined) == RunStages(vars, plan.after, [])
  {
    var plan := PlanOf(spec, pipeline).value;
    var joined := JoinedDocs(vars, spec, wanted, plan, right);
    LookupIsRight(vars, spec, wanted, pipeline, left, right);
    NonEmptyIsAll(joined);
    NonEmptyIsAll(RunStages(vars, plan.after, joined));
    NonEmptyIsAll(RunStages(vars, plan.after, []));
  }

  /* ---------- inputs for which it is wrong ---------- */

  const B1: Doc := [Field("b", Number(1))]

  function Limit(): Stage {
    OtherStage((_, docs: seq<Doc>) => docs)
  }

  lemma B1Joins()
    ensures Filter(JoinOn(["b"], {Number(1)}), [B1]) == [B1]
  {
    var joins := JoinOn(["b"], {Number(1)});
    assert Get(B1, "b") == Some(Number(1));
    assert joins(B1);
    FilterFirst(joins, B1, []);
    assert [B1] + [] == [B1];
  }

  /** A dot in `as`, and a stage that is left to run after the join: the stage sees no document. */
  lemma DottedAsFindsNothing()
    ensures
      var spec := Spec("a.b", Some(JoinFields("b", "b")), false, false, true);
      var wanted, pipeline := {Number(1)}, [Limit()];
      && PlanOf(spec, pipeline) == Some(Plan([], None, pipeline))
      && Rewritten([], spec, wanted, Plan([], None, pipeline), [], [B1]) == Some(SetPath([], Split("a.b"), Array([])))
      && Reference([], spec, wanted, pipeline, [], [B1]) == SetPath([], Split("a.b"), Array([Object(B1)]))
  {
    var spec := Spec("a.b", Some(JoinFields("b", "b")), false, false, true);
    var wanted, pipeline := {Number(1)}, [Limit()];
    var plan := Plan([], None, pipeline);
    assert KnownOnly(pipeline) == pipeline by { assert AllKnown(pipeline); KnownOnlyIsAll(pipeline); }
    assert pipeline[0..] == pipeline;
    B1Joins();
    assert pipeline[1..] == [];
    NothingPulled([], JoinsFor(spec, wanted), [B1]);
    assert JoinedDocs([], spec, wanted, plan, [B1]) == [B1];
    assert "a.b"[1] == DOT;
    UnwindOfArray("a.b", [B1]);
    assert !HasDot("b");
    assert Filter(JoinsFor(spec, wanted), [B1]) == [B1];
    assert RunStages([], pipeline, [B1]) == [B1];
    assert Objects([B1]) == [Object(B1)];
  }

  /** An empty document is lost: one without fields, after an `$unset` of its only one. */
  lemma EmptyDocumentIsLost()
    ensures
      var spec, pipeline := Spec("as", None, false, false, true), [DollarUnset(["b"])];
      && PlanOf(spec, pipeline) == Some(Plan(pipeline, None, []))
      && Rewritten([], spec, {}, Plan(pipeline, None, []), [], [B1]) == Some(SetPath([], Split("as"), Array([])))
      && Reference([], spec, {}, pipeline, [], [B1]) == SetPath([], Split("as"), Array([Object([])]))
  {
    var spec, pipeline := Spec("as", None, false, false, true), [DollarUnset(["b"])];
    var plan := Plan(pipeline, None, []);
    var joins := JoinsFor(spec, {});
    UnsetB1();
    FilterAll(joins, [B1]);
    assert pipeline[1..] == [];
    assert RunStages([], pipeline, [B1]) == NOTHING_LEFT;
    NothingPulled([], joins, NOTHING_LEFT);
    FilterAll(joins, NOTHING_LEFT);
    ItemsOfNothing();
  }

  lemma ItemsOfNothing()
    ensures ArrayItems(NOTHING_LEFT) == [] && Objects(NOTHING_LEFT) == [Object([])]
  {
    assert NOTHING_LEFT[1..] == [];
  }

  const NOTHING_LEFT: seq<Doc> := [[]]

  lemma UnsetB1()
    ensures RunStage([], DollarUnset(["b"]), [B1]) == NOTHING_LEFT
  {
    assert ["b"][1..] == [] && [B1][1..] == [] && B1[1..] == [];
    assert !HasDot("b");
    assert Remove(B1, "b") == [];
    assert UnsetAll(B1, ["b"]) == [];
    var f := Each([], DollarUnset(["b"]));
    assert f(B1) == NOTHING_LEFT;
    assert FlatMap(f, [B1]) == NOTHING_LEFT;
  }

  /* ---------- the plan and the plain lookup, by places ---------- */

  lemma {:induction false} KnownPicks(stages: seq<Stage>) returns (at: seq<nat>)
    ensures Picks(stages, (st: Stage) => !st.UnknownStage?, KnownOnly(stages), at)
  {
    if stages == [] {
      at := [];
    } else {
      at := KnownPicks(stages[1..]);
      at := PicksFirst(stages, (st: Stage) => !st.UnknownStage?, KnownOnly(stages[1..]), at);
    }
  }

  /** Which stages go where. An uncorrelated pipeline runs below the join; one that joins on the right `_id`, after
      it. Otherwise the longest front of stages that pass their test goes below, the known ones of the
      rest come after, and if the first of these is a `$match` it is pulled, where the setting allows. */
  lemma PlanByPlaces(spec: Spec, pipeline: seq<Stage>) returns (k: nat, rest: seq<Stage>, at: seq<nat>)
    requires PlanOf(spec, pipeline).Some? && pipeline != []
    ensures
      var plan := PlanOf(spec, pipeline).value;
      if spec.fields.None? && !spec.hasLet then plan == Plan(pipeline, None, [])
      else if spec.onRightId then plan == Plan([], None, pipeline)
      else
        && k <= |pipeline| && plan.below == pipeline[..k]
        && (forall i :: 0 <= i < k ==> CanInline(pipeline[i], TestPath(spec), spec.hasLet))
        && (k < |pipeline| ==> !CanInline(pipeline[k], TestPath(spec), spec.hasLet))
        && Picks(pipeline[k..], (st: Stage) => !st.UnknownStage?, rest, at)
        && if spec.pullsMatch && rest != [] && rest[0].DollarMatch?
           then plan.pulled == Some(rest[0].pred) && plan.after == rest[1..]
           else plan.pulled == None && plan.after == rest
  {
    k := FrontLength(pipeline, TestPath(spec), spec.hasLet);
    rest := KnownOnly(pipeline[k..]);
    at := KnownPicks(pipeline[k..]);
  }

  lemma {:induction false} NonEmptyIsFilter(docs: seq<Doc>)
    ensures NonEmpty(docs) == Filter(d => d != [], docs)
  {
    if docs != [] { NonEmptyIsFilter(docs[1..]); }
  }

  /** Whether a right document joins: on the foreign field, if there is one. */
  predicate IsJoined(spec: Spec, wanted: set<Value>, d: Doc) {
    spec.fields.None? || Joins(d, Split(spec.fields.value.foreignField), wanted)
  }

  /** Without a pipeline the left document gets, at the path `as`, the array of the right documents that join and
      are not empty, in their order. */
  lemma PlainLookup(vars: Vars, spec: Spec, wanted: set<Value>, left: Doc, right: seq<Doc>)
    returns (docs: seq<Doc>, at: seq<nat>)
    ensures PlanOf(spec, []).Some?
    ensures Picks(right, d => IsJoined(spec, wanted, d) && d != [], docs, at)
    ensures Rewritten(vars, spec, wanted, PlanOf(spec, []).value, left, right)
            == Some(SetPath(left, Split(spec.into), Array(Objects(docs))))
  {
    var joins, keep := JoinsFor(spec, wanted), d => IsJoined(spec, wanted, d) && d != [];
    docs := Filter(keep, right);
    at := FilterPicks(keep, right);
    NothingPulled(vars, joins, right);
    NonEmptyIsFilter(Filter(joins, right));
    FilterTwice(joins, d => d != [], right);
    FilterSame(d => joins(d) && (d => d != [])(d), keep, right);
    assert JoinedDocs(vars, spec, wanted, PlanOf(spec, []).value, right) == Filter(joins, right);
  }
}

/**
 When a stage of a `$lookup` pipeline must not go below the join, and where the stages' own tests let it
 go there all the same.
 */
module LookupTests {
  import opened Options
  import opened Documents
  import Bson
  import opened Projection
  import opened JoinFilter
  import opened Inclusion
  import opened LookupStages
  import opened SeenWrites

  /* ---------- when a stage may not go below the join ---------- */

  lemma {:induction false} OneDocumentDecides(stage: Stage, p: Path, vars: Vars, wanted: set<Value>, d: Doc, o: Doc)
    requires ByDocument(stage) && o in EachDoc(vars, stage, d) && Joins(o, p, wanted) != Joins(d, p, wanted)
    ensures !SafeBelow(stage, p)
  {
    if SafeBelow(stage, p) {
      assert CommutesWith(vars, stage, JoinOn(p, wanted), [d]);
      OnlyThenMovesBelow(Each(vars, stage), JoinOn(p, wanted), d, o);
    }
  }

  lemma {:induction false} UnwindAt(q: Path, items: seq<Value>, preserve: bool)
    requires items != []
    ensures GetPath(At(q, Array(items)), q) == Some(Array(items))
    ensures |Unwind(At(q, Array(items)), q, preserve)| == |items|
    ensures forall i :: 0 <= i < |items| ==> Unwind(At(q, Array(items)), q, preserve)[i] == At(q, items[i])
  {
    var d := At(q, Array(items));
    SetAt(q, Array(items), q, Array(items));
    GetSetPath(d, q, Array(items));
    forall i | 0 <= i < |items| ensures Elements(d, q, items)[i] == At(q, items[i]) {
      SetAt(q, Array(items), q, items[i]);
    }
  }

  lemma {:induction false} UnwindIsSeen(p: Path, q: Path, preserve: bool) returns (wanted: set<Value>, d: Doc, o: Doc)
    requires Comparable(p, q)
    ensures o in Unwind(d, q, preserve) && Joins(o, p, wanted) != Joins(d, p, wanted)
  {
    if p == q {
      wanted, d := {A}, At(q, Array([A, B]));
      UnwindAt(q, [A, B], preserve);
      o := Unwind(d, q, preserve)[1];
      assert [A, B][0] in wanted;
      CompareAt(p, Array([A, B]), wanted);
      OnlyA(p, B);
    } else if q <= p {
      var r: Path := p[|q|..];
      assert p == q + r;
      wanted, d, o := UnwindAbove(q, r, preserve);
    } else {
      var r: Path := q[|p|..];
      assert q == p + r;
      wanted, d, o := UnwindBelow(p, r, preserve);
    }
  }

  lemma {:induction false} UnwindAbove(q: Path, r: Path, preserve: bool) returns (wanted: set<Value>, d: Doc, o: Doc)
    ensures o in Unwind(d, q, preserve) && Joins(o, q + r, wanted) != Joins(d, q + r, wanted)
  {
    var items := [Object(At(r, A)), Object(At(r, B))];
    wanted, d := {A}, At(q, Array(items));
    UnwindAt(q, items, preserve);
    o := Unwind(d, q, preserve)[1];
    AtSplit(q, r, B);
    OnlyA(q + r, B);
    CompareBelow(q, Array(items), r, wanted);
    GetSingle(q[0], Array(items));
    assert ([q[0]] + r)[1..] == r;
    CompareAt(r, A, wanted);
  }

  lemma {:induction false} UnwindBelow(p: Path, r: Path, preserve: bool) returns (wanted: set<Value>, d: Doc, o: Doc)
    ensures o in Unwind(d, p + r, preserve) && Joins(o, p, wanted) != Joins(d, p, wanted)
  {
    var q: Path := p + r;
    var whole := Object(At(r, Array([A, B])));
    wanted, d := {whole}, At(q, Array([A, B]));
    AtSplit(p, r, Array([A, B]));
    UnwindAt(q, [A, B], preserve);
    o := Unwind(d, q, preserve)[1];
    AtSplit(p, r, B);
    OnlyA(p, whole);
    AtIsInjective(r, B, Array([A, B]));
    CompareAt(p, Object(At(r, B)), wanted);
  }

  lemma {:induction false} AtIsInjective(p: Path, v: Value, w: Value)
    requires v != w
    ensures At(p, v) != At(p, w)
    decreases |p|
  {
    if |p| > 1 { AtIsInjective(p[1..], v, w); }
  }

  lemma {:induction false} InclusionMatters(p: Path, paths: seq<Path>) returns (wanted: set<Value>, d: Doc)
    requires !KeepsFirst(paths, p)
    ensures Joins(IncludeDeep(d, paths), p, wanted) != Joins(d, p, wanted)
  {
    if KeepsSecond(paths, p) {
      wanted := {A};
      d := RepeatedIsSeen(p, paths);
    } else {
      wanted, d := InclusionIsSeen(p, paths);
    }
  }

  /** What is written does not depend on the document, as far as p can see it: with a `$set` of a prefix of p, the
      values of the fields under the first name of p; with a `$lookup` of a proper prefix, the matches. */
  ghost predicate Determined(stage: Stage, p: Path) {
    match stage
    case DollarSet(fields) =>
      (exists i :: 0 <= i < |fields| && Split(fields[i].name) <= p) ==>
        forall o, o' :: SameValues([], o, o', fields, p)
    case DollarLookup(target, matches) => Split(target) < p ==> forall o, o' :: matches([], o) == matches([], o')
    case OtherStage(_) => false
    case _ => true
  }

  /** For stages of any number of fields, safe paths are also necessary. */
  lemma {:induction false} SafeIffPathSafe(stage: Stage, p: Path)
    requires Determined(stage, p)
    ensures SafeBelow(stage, p) <==> PathSafe(stage, p)
  {
    if PathSafe(stage, p) {
      PathSafeIsSafe(stage, p);
    } else if stage.DollarSet? {
      var wanted, d := SetIsSeen(stage.fields, p);
      OneDocumentDecides(stage, p, [], wanted, d, SetAll([], d, d, stage.fields));
    } else if stage.DollarLookup? {
      var q, found := Split(stage.target), (d: Doc) => stage.matches([], d);
      var wanted, d := LookupIsSeen(p, q, found);
      OneDocumentDecides(stage, p, [], wanted, d, SetPath(d, q, Array(ArrayItems(found(d)))));
    } else if stage.DollarUnwind? {
      var wanted, d, o := UnwindIsSeen(p, Split(stage.name), stage.preserve);
      OneDocumentDecides(stage, p, [], wanted, d, o);
    } else if stage.DollarInclude? {
      var wanted, d := InclusionMatters(p, IncludedPaths(stage.names));
      OneDocumentDecides(stage, p, [], wanted, d, Include(d, stage.names));
    } else {
      var wanted, d := UnsetIsSeen(stage.names, p);
      OneDocumentDecides(stage, p, [], wanted, d, UnsetAll(d, stage.names));
    }
  }

  function Own(k: string): (Vars, Doc) -> Value {
    (_, d: Doc) => if Get(d, k).Some? then Get(d, k).value else Null
  }

  /** Without that they are not: a `$set` of b to its own value, or null, does no harm. */
  lemma OwnValueIsSafe()
    ensures var stage := DollarSet([SetField("b", Own("b"))]); SafeBelow(stage, ["b"]) && !PathSafe(stage, ["b"])
  {
    var fields := [SetField("b", Own("b"))];
    var stage := DollarSet(fields);
    assert !HasDot("b") && Split(fields[0].name) == ["b"];
    assert fields[1..] == [];
    forall vars, wanted, docs ensures CommutesWith(vars, stage, JoinOn(["b"], wanted), docs) {
      var f, joins := Each(vars, stage), JoinOn(["b"], wanted);
      forall d, o | d in docs && o in f(d) ensures joins(o) == joins(d) {
        var v := Own("b")(vars, d);
        assert o == SetAll(vars, d, d, fields) == Set(d, "b", v);
        GetSet(d, "b", v);
        assert Hits(Null, wanted) <==> Null in wanted;
      }
      MovesBelow(f, joins, docs);
    }
  }

  /** On collections whose documents do not repeat the first name of p. */
  ghost predicate SafeWithoutRepeats(stage: Stage, p: Path) {
    forall vars, wanted, docs :: (forall d :: d in docs ==> !Repeats(d, p[0])) ==>
      CommutesWith(vars, stage, JoinOn(p, wanted), docs)
  }

  /** For such documents an inclusion may also end at the second name of p. At a later one it may not. */
  lemma {:induction false} InclusionWithoutRepeats(names: seq<string>, p: Path)
    ensures SafeWithoutRepeats(DollarInclude(names), p)
            <==> KeepsFirst(IncludedPaths(names), p) || KeepsSecond(IncludedPaths(names), p)
  {
    var stage, paths := DollarInclude(names), IncludedPaths(names);
    if KeepsFirst(paths, p) || KeepsSecond(paths, p) {
      forall vars, wanted, docs | forall d :: d in docs ==> !Repeats(d, p[0])
        ensures CommutesWith(vars, stage, JoinOn(p, wanted), docs)
      {
        InclusionCommutes(vars, names, p, wanted, docs);
      }
    } else {
      var wanted, d := InclusionIsSeen(p, paths);
      if SafeWithoutRepeats(stage, p) {
        assert CommutesWith([], stage, JoinOn(p, wanted), [d]);
        OnlyThenMovesBelow(Each([], stage), JoinOn(p, wanted), d, Include(d, names));
      }
    }
  }

  lemma {:induction false} InclusionCommutes(vars: Vars, names: seq<string>, p: Path, wanted: set<Value>,
                                             docs: seq<Doc>)
    requires KeepsFirst(IncludedPaths(names), p) || KeepsSecond(IncludedPaths(names), p)
    requires forall d :: d in docs ==> !Repeats(d, p[0])
    ensures CommutesWith(vars, DollarInclude(names), JoinOn(p, wanted), docs)
  {
    var f, joins := Each(vars, DollarInclude(names)), JoinOn(p, wanted);
    forall d, o | d in docs && o in f(d) ensures joins(o) == joins(d) {
      InclusionUnseen(d, IncludedPaths(names), p, wanted);
    }
    MovesBelow(f, joins, docs);
  }

  /* ---------- the tests compared with the truth ---------- */

  /** The test lets a stage below the join that must not go there. */
  ghost predicate TestIsWrong(stage: Stage, localField: string, foreignField: string, hasLet: bool) {
    CanInline(stage, LookupPath(localField), hasLet) && !SafeBelow(stage, Split(foreignField))
  }

  /** Kind by kind: the tests look at the local field (path), the filter at the foreign one (p). */
  predicate Misjudged(stage: Stage, path: string, p: Path, hasLet: bool) {
    match stage
    case DollarSet(fields) =>
      && !hasLet && (exists i :: 0 <= i < |fields| && Split(fields[i].name)[0] == p[0])
      && forall i :: 0 <= i < |fields| ==> !Overlaps(fields[i].name, path)
    case DollarLookup(target, _) => !hasLet && Split(target)[0] == p[0] && !Overlaps(target, path)
    case DollarExclude(names) =>
      && !hasLet && (exists i :: 0 <= i < |names| && Comparable(p, Split(names[i])))
      && forall i :: 0 <= i < |names| ==> !Overlaps(names[i], path)
    case DollarUnset(names) =>
      && (exists i :: 0 <= i < |names| && Comparable(p, Split(names[i])))
      && forall i :: 0 <= i < |names| ==> !StartsWith(names[i], path)
    case DollarUnwind(name, _) => Comparable(p, Split(name)) && !StartsWith("$" + name, path)
    case DollarInclude(names) =>
      !hasLet && !KeepsFirst(IncludedPaths(names), p) && forall i :: 0 <= i < |names| ==> !Overlaps(names[i], path)
    case _ => false
  }

  lemma {:induction false} PassesAndUnsafe(stage: Stage, path: string, p: Path, hasLet: bool)
    ensures CanInline(stage, path, hasLet) && !PathSafe(stage, p) <==> Misjudged(stage, path, p, hasLet)
  {
  }

  lemma WhenTheTestIsWrong(stage: Stage, localField: string, foreignField: string, hasLet: bool)
    requires stage.OtherStage? || Determined(stage, Split(foreignField))
    ensures TestIsWrong(stage, localField, foreignField, hasLet)
            <==> Misjudged(stage, LookupPath(localField), Split(foreignField), hasLet)
  {
    if !stage.OtherStage? { SafeIffPathSafe(stage, Split(foreignField)); }
    PassesAndUnsafe(stage, LookupPath(localField), Split(foreignField), hasLet);
  }

  /** Whatever a stage writes, if the test is wrong its paths are such. */
  lemma OnlyWhenMisjudged(stage: Stage, localField: string, foreignField: string, hasLet: bool)
    requires TestIsWrong(stage, localField, foreignField, hasLet)
    ensures Misjudged(stage, LookupPath(localField), Split(foreignField), hasLet)
  {
    var p := Split(foreignField);
    if PathSafe(stage, p) { PathSafeIsSafe(stage, p); }
    PassesAndUnsafe(stage, LookupPath(localField), p, hasLet);
  }

  /** When local and foreign field start with the same name, the tests for `$set`, `$unset`, an exclusion and
      a nested `$lookup` are never wrong, whatever the stage writes. That of `$unwind` is wrong for every
      comparable path, and that of an inclusion whenever it passes, except for `_id`. */
  lemma TestsOfTheSameField(stage: Stage, localField: string, foreignField: string, hasLet: bool)
    requires Split(localField)[0] == Split(foreignField)[0] != ""
    ensures var p := Split(foreignField);
            TestIsWrong(stage, localField, foreignField, hasLet) <==>
            match stage
            case DollarUnwind(name, _) => Comparable(p, Split(name)) && !StartsWith("$" + name, p[0])
            case DollarInclude(names) => CanInline(stage, p[0], hasLet) && p[0] != Bson.ID
            case _ => false
  {
    var path, p := LookupPath(localField), Split(foreignField);
    assert path == p[0];
    if stage.DollarUnwind? || stage.DollarInclude? {
      WhenTheTestIsWrong(stage, localField, foreignField, hasLet);
      if stage.DollarInclude? && CanInline(stage, path, hasLet) { KeepsOnlyId(stage.names, p); }
    } else if TestIsWrong(stage, localField, foreignField, hasLet) {
      OnlyWhenMisjudged(stage, localField, foreignField, hasLet);
      NotOfTheFirstName(stage, p, hasLet);
    }
  }

  lemma {:induction false} NotOfTheFirstName(stage: Stage, p: Path, hasLet: bool)
    requires !stage.DollarUnwind? && !stage.DollarInclude?
    ensures !Misjudged(stage, p[0], p, hasLet)
  {
    if stage.DollarExclude? || stage.DollarUnset? {
      forall i | 0 <= i < |stage.names| && Comparable(p, Split(stage.names[i]))
        ensures StartsWith(stage.names[i], p[0])
      {
        FirstOfComparable(p, Split(stage.names[i]));
      }
    }
  }

  lemma {:induction false} KeepsOnlyId(names: seq<string>, p: Path)
    requires forall i :: 0 <= i < |names| ==> !Overlaps(names[i], p[0])
    ensures KeepsFirst(IncludedPaths(names), p) <==> p[0] == Bson.ID
  {
  }

  lemma {:induction false} FirstOfComparable(p: Path, q: Path)
    ensures Comparable(p, q) ==> p[0] == q[0]
  {
  }

  function Doc1(k: string, v: Value): Doc {
    [Field(k, v)]
  }

  lemma Singles(joins: Doc -> bool, f: Doc -> seq<Doc>, d: Doc)
    ensures Filter(joins, [d]) == if joins(d) then [d] else []
    ensures FlatMap(f, [d]) == f(d) && FlatMap(f, []) == []
  {
    assert [d][1..] == [];
  }

  lemma UnwindTwo()
    ensures EachDoc([], DollarUnwind("b", false), Doc1("b", Array([Number(1), Number(2)])))
            == [Doc1("b", Number(1)), Doc1("b", Number(2))]
  {
    var items := [Number(1), Number(2)];
    assert Doc1("b", Array(items)) == At(["b"], Array(items));
    UnwindAt(["b"], items, false);
  }

  lemma JoinsOne(v: Value)
    ensures Joins(Doc1("b", v), ["b"], {Number(1)}) <==> Hits(v, {Number(1)})
  {
    assert Doc1("b", v) == At(["b"], v);
    CompareAt(["b"], v, {Number(1)});
  }

  /** The same field on both sides: unwound after the join there are two documents, below it one. */
  lemma UnwindBelowLosesOne()
    ensures
      var stage, both := DollarUnwind("b", false), [Doc1("b", Array([Number(1), Number(2)]))];
      var joins := JoinOn(["b"], {Number(1)});
      && CanInline(stage, LookupPath("b"), false)
      && RunStage([], stage, Filter(joins, both)) == [Doc1("b", Number(1)), Doc1("b", Number(2))]
      && Filter(joins, RunStage([], stage, both)) == [Doc1("b", Number(1))]
  {
    var items := [Number(1), Number(2)];
    var d, one, two := Doc1("b", Array(items)), Doc1("b", Number(1)), Doc1("b", Number(2));
    var joins := JoinOn(["b"], {Number(1)});
    UnwindTwo();
    assert items[0] in {Number(1)};
    JoinsOne(Array(items));
    JoinsOne(Number(1));
    JoinsOne(Number(2));
    Singles(joins, Each([], DollarUnwind("b", false)), d);
    FilterFirst(joins, one, [two]);
    Singles(joins, Each([], DollarUnwind("b", false)), two);
    assert [one] + [two] == [one, two];
  }

  lemma PathsOfX()
    ensures IncludedPaths(["x"]) == [["x"], [Bson.ID]]
  {
    assert !HasDot("x") && "x"[0] != Bson.ID[0];
    assert Split("x") == ["x"];
    assert SplitAll(["x"]) == [["x"]];
  }

  lemma IncludeX()
    ensures Include([Field("b", Number(1)), Field("x", Number(2))], ["x"]) == Doc1("x", Number(2))
  {
    var d, x := [Field("b", Number(1)), Field("x", Number(2))], Doc1("x", Number(2));
    var paths: seq<Path> := [["x"], [Bson.ID]];
    PathsOfX();
    assert "x"[0] != "b"[0] && "b"[0] != Bson.ID[0];
    assert d[1..] == x && x[1..] == [];
    NothingBelow("b");
    assert ["x"] in paths;
    assert Included("b", Number(1), paths) == None;
    assert IncludeDeep(x, paths) == x;
  }

  lemma BeforeAndAfter()
    ensures var d, x := [Field("b", Number(1)), Field("x", Number(2))], Doc1("x", Number(2));
            Joins(d, ["b"], {Number(1)}) && !Joins(x, ["b"], {Number(1)})
  {
    assert "x"[0] != "b"[0];
    assert Doc1("x", Number(2))[1..] == [];
  }

  lemma NothingBelow(k: string)
    ensures Tails([["x"], [Bson.ID]], k) == []
  {
    var paths: seq<Path> := [["x"], [Bson.ID]];
    var rest: seq<Path> := [[Bson.ID]];
    assert paths[1..] == rest && rest[1..] == [];
    assert Tails(rest[1..], k) == [];
    assert Tails(rest, k) == [];
  }

  /** The same field on both sides: a projection that keeps another field loses every document. */
  lemma InclusionBelowLosesAll()
    ensures
      var stage, d := DollarInclude(["x"]), [Field("b", Number(1)), Field("x", Number(2))];
      var joins := JoinOn(["b"], {Number(1)});
      && CanInline(stage, LookupPath("b"), false)
      && RunStage([], stage, Filter(joins, [d])) == [Doc1("x", Number(2))]
      && Filter(joins, RunStage([], stage, [d])) == []
  {
    IncludeX();
    BeforeAndAfter();
    assert "x"[0] != "b"[0];
    var joins, f := JoinOn(["b"], {Number(1)}), Each([], DollarInclude(["x"]));
    Singles(joins, f, [Field("b", Number(1)), Field("x", Number(2))]);
    Singles(joins, f, Doc1("x", Number(2)));
  }

  /** Local field x, foreign field b: a `$set` of b is let down, and every document joins there. */
  lemma SetBelowJoinsMore()
    ensures
      var stage := DollarSet([SetField("b", (_, _) => Number(1))]);
      var joins, d := JoinOn(["b"], {Number(1)}), Doc1("b", Number(2));
      && CanInline(stage, LookupPath("x"), false)
      && RunStage([], stage, Filter(joins, [d])) == []
      && Filter(joins, RunStage([], stage, [d])) == [Doc1("b", Number(1))]
  {
    var fields := [SetField("b", (_, _) => Number(1))];
    var d, one := Doc1("b", Number(2)), Doc1("b", Number(1));
    var joins := JoinOn(["b"], {Number(1)});
    var f := Each([], DollarSet(fields));
    assert "b"[0] != "x"[0];
    assert fields[1..] == [];
    GetSingle("b", Number(2));
    assert f(d) == [one];
    JoinsOne(Number(1));
    JoinsOne(Number(2));
    Singles(joins, f, d);
    Singles(joins, f, one);
  }

  /** The tests in bare strings, where `<=` is "begins": what the test of each stage compares, and with what. */
  lemma TestsInStrings(stage: Stage, localField: string, hasLet: bool)
    ensures
      var path := LookupPath(localField);
      CanInline(stage, path, hasLet) <==>
      match stage
      case DollarMatch(usesExpr, _) => !(hasLet && usesExpr)
      case DollarSort(_) => true
      case DollarSet(fields) =>
        !hasLet && forall i :: 0 <= i < |fields| ==> !(path <= fields[i].name) && !(fields[i].name <= path)
      case DollarInclude(names) =>
        !hasLet && forall i :: 0 <= i < |names| ==> !(path <= names[i]) && !(names[i] <= path)
      case DollarExclude(names) =>
        !hasLet && forall i :: 0 <= i < |names| ==> !(path <= names[i]) && !(names[i] <= path)
      case DollarUnset(names) => forall i :: 0 <= i < |names| ==> !(path <= names[i])
      case DollarUnwind(name, _) => !(path <= "$" + name)
      case DollarLookup(target, _) => !hasLet && !(path <= target) && !(target <= path)
      case _ => false
    ensures LookupPath(localField) <= localField
    ensures localField != "" && localField[0] != '.' ==> '.' !in LookupPath(localField)
    ensures localField != "" && localField[0] == '.' ==> LookupPath(localField) == localField
    ensures LookupPath(localField) != localField ==> localField[|LookupPath(localField)|] == '.'
  {
    BeginsAtDot(localField);
  }

  lemma {:induction false} BeginsAtDot(s: string)
    ensures HasDot(s) ==> |Split(s)[0]| < |s| && s[|Split(s)[0]|] == DOT
    ensures s != "" ==> (s[0] != DOT <==> Split(s)[0] != "")
  {
    FirstPart(s, 0);
  }

  lemma {:induction false} FirstPart(s: string, i: nat)
    requires i <= |s| && DOT !in s[..i]
    ensures HasDot(s) ==> i <= |SplitFrom(s, i)[0]| < |s| && s[|SplitFrom(s, i)[0]|] == DOT
    ensures !HasDot(s) ==> SplitFrom(s, i)[0] == s
    ensures s != "" && s[0] != DOT ==> SplitFrom(s, i)[0] != ""
    decreases |s| - i
  {
    if i < |s| && s[i] != DOT {
      assert s[..i + 1] == s[..i] + [s[i]];
      FirstPart(s, i + 1);
    } else if i == |s| {
      assert s[..i] == s;
    }
  }
}

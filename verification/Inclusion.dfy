/**
 What the join filter of a `$lookup` sees of an inclusion with dotted names.
 */
module Inclusion {
  import opened Options
  import opened Documents
  import opened Projection
  import opened JoinFilter

  predicate Repeats(d: Doc, k: string) {
    exists i, j :: 0 <= i < j < |d| && d[i].key == k && d[j].key == k
  }

  /** One of the paths ends at the first name of p. */
  predicate KeepsFirst(paths: seq<Path>, p: Path) {
    [p[0]] in paths
  }

  /** Or one ends at its second. */
  predicate KeepsSecond(paths: seq<Path>, p: Path) {
    |p| >= 2 && [p[0], p[1]] in paths
  }

  /* ---------- what it does not see ---------- */

  lemma {:induction false} ItemsUnseen(items: seq<Value>, paths: seq<Path>, p: Path, wanted: set<Value>)
    requires KeepsFirst(paths, p)
    ensures CompareItems(IncludeItems(items, paths), p, wanted) == CompareItems(items, p, wanted)
  {
    if items != [] {
      ItemsUnseen(items[1..], paths, p, wanted);
      var rest := IncludeItems(items[1..], paths);
      match items[0]
      case Object(fields) =>
        IncludedWhole(fields, paths, p[0]);
        SameField(fields, IncludeDeep(fields, paths), p, wanted);
        assert IncludeItems(items, paths)[1..] == rest;
      case Array(inner) => assert IncludeItems(items, paths)[1..] == rest;
      case _ => assert IncludeItems(items, paths) == rest;
    }
  }

  lemma {:induction false} InclusionUnseen(d: Doc, paths: seq<Path>, p: Path, wanted: set<Value>)
    requires KeepsFirst(paths, p) || (KeepsSecond(paths, p) && !Repeats(d, p[0]))
    ensures Joins(IncludeDeep(d, paths), p, wanted) == Joins(d, p, wanted)
  {
    if KeepsFirst(paths, p) {
      IncludedWhole(d, paths, p[0]);
      SameField(d, IncludeDeep(d, paths), p, wanted);
    } else {
      var tails, q: Path := Tails(paths, p[0]), p[1..];
      assert [p[0], p[1]][1..] == [q[0]];
      assert KeepsFirst(tails, q);
      IncludedPart(d, paths, p[0]);
      match Get(d, p[0])
      case Some(Object(fields)) =>
        IncludedWhole(fields, tails, q[0]);
        SameField(fields, IncludeDeep(fields, tails), q, wanted);
      case Some(Array(items)) => ItemsUnseen(items, tails, q, wanted);
      case _ =>
    }
  }

  /* ---------- what it sees ---------- */

  const A: Value := Scalar("a")

  lemma {:induction false} IncludeOne(k: string, v: Value, paths: seq<Path>)
    ensures IncludeDeep([Field(k, v)], paths)
            == match Included(k, v, paths) case None => [] case Some(w) => [Field(k, w)]
  {
    assert [Field(k, v)][1..] == [];
  }

  /** A value at a path that none of the paths leads to is lost. */
  lemma {:induction false} LostAt(p: Path, paths: seq<Path>)
    requires forall q: Path :: q in paths ==> !(q <= p)
    ensures Compare(IncludeDeep(At(p, A), paths), p, {A}).outcome == NotFound
    decreases |p|
  {
    assert !KeepsFirst(paths, p);
    if |p| == 1 {
      IncludeOne(p[0], A, paths);
    } else {
      var tails, rest: Path := Tails(paths, p[0]), p[1..];
      IncludeOne(p[0], Object(At(rest, A)), paths);
      forall q: Path | q in tails ensures !(q <= rest) {
        assert !([p[0]] + q <= p);
        assert p == [p[0]] + rest;
      }
      LostAt(rest, tails);
      GetSingle(p[0], Object(IncludeDeep(At(rest, A), tails)));
    }
  }

  function InArray(p: Path): Doc
    requires |p| >= 2
  {
    [Field(p[0], Array([Object([Field(p[1], A)])]))]
  }

  lemma {:induction false} SecondNotKept(p: Path, paths: seq<Path>)
    requires |p| >= 2 && !KeepsSecond(paths, p)
    ensures [p[1]] !in Tails(paths, p[0])
  {
    assert [p[0]] + [p[1]] == [p[0], p[1]];
  }

  lemma {:induction false} GoesOn(p: Path, paths: seq<Path>, q: Path)
    requires !KeepsFirst(paths, p) && !KeepsSecond(paths, p) && q in paths && q <= p
    ensures |p| >= 3 && Tails(paths, p[0]) != []
  {
    assert q == p[..|q|] && p[..1] == [p[0]];
    assert |p| >= 2 ==> p[..2] == [p[0], p[1]];
    assert q[1..] in Tails(paths, p[0]);
  }

  lemma {:induction false} DropsScalar(k: string, paths: seq<Path>)
    requires [k] !in paths
    ensures IncludeItems([Object([Field(k, A)])], paths) == [Object([])]
  {
    IncludeOne(k, A, paths);
    assert [Object([Field(k, A)])][1..] == [];
  }

  lemma {:induction false} ScalarIsDropped(p: Path, paths: seq<Path>, q: Path)
    requires !KeepsFirst(paths, p) && !KeepsSecond(paths, p) && q in paths && q <= p
    ensures |p| >= 3 && IncludeDeep(InArray(p), paths) == [Field(p[0], Array([Object([])]))]
  {
    GoesOn(p, paths, q);
    SecondNotKept(p, paths);
    DropsScalar(p[1], Tails(paths, p[0]));
    IncludeOne(p[0], Array([Object([Field(p[1], A)])]), paths);
  }

  lemma {:induction false} ArrayOfOne(p: Path, sub: Doc, wanted: set<Value>)
    requires |p| >= 2
    ensures Compare([Field(p[0], Array([Object(sub)]))], p, wanted)
            == Either(Compare(sub, p[1..], wanted), Seen(Mismatch, false))
  {
    var items, rest: Path := [Object(sub)], p[1..];
    GetSingle(p[0], Array(items));
    assert items[1..] == [];
    assert CompareItems(items[1..], rest, wanted) == Seen(Mismatch, false);
    assert CompareItems(items, rest, wanted) == Either(Compare(sub, rest, wanted), Seen(Mismatch, false));
  }

  /** The path goes on below its second name: in a document of an array, a scalar found there is dropped, and
      the path is missing after that. */
  lemma {:induction false} DroppedInArray(p: Path, paths: seq<Path>, q: Path)
    requires !KeepsFirst(paths, p) && !KeepsSecond(paths, p) && q in paths && q <= p
    ensures |p| >= 3 && Joins(IncludeDeep(InArray(p), paths), p, {Null}) && !Joins(InArray(p), p, {Null})
  {
    ScalarIsDropped(p, paths, q);
    ArrayOfOne(p, [], {Null});
    ArrayOfOne(p, [Field(p[1], A)], {Null});
    GetSingle(p[1], A);
  }

  /** Neither of the first two names is kept: some document without a repeated key joins before and not
      after, or the other way round. */
  lemma {:induction false} InclusionIsSeen(p: Path, paths: seq<Path>) returns (wanted: set<Value>, d: Doc)
    requires !KeepsFirst(paths, p) && !KeepsSecond(paths, p)
    ensures |d| == 1 && Joins(IncludeDeep(d, paths), p, wanted) != Joins(d, p, wanted)
  {
    if q: Path :| q in paths && q <= p {
      DroppedInArray(p, paths, q);
      wanted, d := {Null}, InArray(p);
    } else {
      LostAt(p, paths);
      CompareAt(p, A, {A});
      wanted, d := {A}, At(p, A);
    }
  }

  /** The second name is kept, and not the first: a document that repeats the first name shows another value
      after a scalar was dropped. */
  lemma {:induction false} RepeatedIsSeen(p: Path, paths: seq<Path>) returns (d: Doc)
    requires !KeepsFirst(paths, p) && KeepsSecond(paths, p)
    ensures Joins(IncludeDeep(d, paths), p, {A}) && !Joins(d, p, {A})
  {
    var tails, rest: Path := Tails(paths, p[0]), p[1..];
    assert [p[0], p[1]][1..] == [rest[0]];
    assert KeepsFirst(tails, rest);
    var sub := At(rest, A);
    d := [Field(p[0], A), Field(p[0], Object(sub))];
    IncludeFirst(d, paths, p[0]);
    assert d[1..] == [Field(p[0], Object(sub))];
    IncludeOne(p[0], Object(sub), paths);
    GetSingle(p[0], Object(IncludeDeep(sub, tails)));
    IncludedWhole(sub, tails, rest[0]);
    SameField(sub, IncludeDeep(sub, tails), rest, {A});
    CompareAt(rest, A, {A});
  }
}

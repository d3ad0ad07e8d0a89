/**
 Writes that the join filter of a `$lookup` sees: for any list of names that an `$unset`, an exclusion or a
 `$set` is given, and for the path of a nested `$lookup`, a document that joins before and not after, or
 the other way round.
 */
module SeenWrites {
  import opened Options
  import opened Documents
  import opened Projection
  import opened JoinFilter
  import opened Inclusion
  import opened LookupStages

  const B: Value := Scalar("b")

  /* ---------- reading through documents ---------- */

  lemma {:induction false} GetAt(p: Path, v: Value)
    ensures GetPath(At(p, v), p) == Some(v)
    decreases |p|
  {
    GetSingle(p[0], if |p| == 1 then v else Object(At(p[1..], v)));
    if |p| > 1 { GetAt(p[1..], v); }
  }

  lemma {:induction false} CompareFound(d: Doc, p: Path, v: Value, wanted: set<Value>)
    requires GetPath(d, p) == Some(v)
    ensures Compare(d, p, wanted) == Seen(if Hits(v, wanted) then Match else Mismatch, false)
    decreases |p|
  {
    if |p| > 1 { CompareFound(Sub(d, p[0]), p[1..], v, wanted); }
  }

  function CompareIn(v: Value, r: Path, wanted: set<Value>): Seen {
    match v
    case Object(fields) => Compare(fields, r, wanted)
    case Array(items) => CompareItems(items, r, wanted)
    case _ => Seen(NotFound, false)
  }

  lemma {:induction false} CompareUnder(d: Doc, p: Path, v: Value, r: Path, wanted: set<Value>)
    requires GetPath(d, p) == Some(v)
    ensures Compare(d, p + r, wanted) == CompareIn(v, r, wanted)
    decreases |p|
  {
    if |p| > 1 {
      assert (p + r)[1..] == p[1..] + r;
      CompareUnder(Sub(d, p[0]), p[1..], v, r, wanted);
    } else {
      assert (p + r)[1..] == r;
    }
  }

  lemma {:induction false} OnlyA(p: Path, v: Value)
    requires !v.Array? && v != Null
    ensures Joins(At(p, v), p, {A}) <==> v == A
    ensures Joins(At(p, v), p, {v})
  {
    CompareAt(p, v, {A});
    CompareAt(p, v, {v});
  }

  /** The longest front of p that some path has, if none is comparable with p. */
  lemma {:induction false} LongestFront(p: Path, paths: seq<Path>, n: nat) returns (front: Path, r: Path)
    requires forall q: Path :: q in paths ==> !Comparable(p, q)
    requires 1 <= n <= |p| && exists q: Path :: q in paths && p[..n] <= q
    ensures p == front + r
    ensures exists q: Path :: q in paths && front <= q
    ensures forall q: Path :: q in paths && front <= q ==> |q| > |front| && q[|front|] != r[0]
    decreases |p| - n
  {
    var q: Path :| q in paths && p[..n] <= q;
    assert p[..|p|] == p;
    if q': Path :| q' in paths && p[..n + 1] <= q' {
      front, r := LongestFront(p, paths, n + 1);
    } else {
      front, r := p[..n], p[n..];
      forall q: Path | q in paths && front <= q ensures |q| > n && q[n] != r[0] {
        StepsAside(p, q, n);
      }
    }
  }

  lemma {:induction false} StepsAside(p: Path, q: Path, n: nat)
    requires n < |p| && p[..n] <= q && !Comparable(p, q) && !(p[..n + 1] <= q)
    ensures |q| > n && q[n] != p[n]
  {
    assert p[..n + 1] == p[..n] + [p[n]];
    assert |q| > n ==> q[..n + 1] == q[..n] + [q[n]];
  }

  /* ---------- `$unset` and exclusion ---------- */

  /** There is nothing at p, nor an array or a scalar on the way. */
  predicate Gone(d: Doc, p: Path)
    decreases |p|
  {
    Get(d, p[0]).None? || (|p| > 1 && HasObject(d, p[0]) && Gone(Sub(d, p[0]), p[1..]))
  }

  lemma {:induction false} GoneIsNotFound(d: Doc, p: Path, wanted: set<Value>)
    requires Gone(d, p)
    ensures Compare(d, p, wanted).outcome == NotFound && GetPath(d, p) == None
    decreases |p|
  {
    if Get(d, p[0]).Some? { GoneIsNotFound(Sub(d, p[0]), p[1..], wanted); }
  }

  lemma {:induction false} UnsetLeavesGone(d: Doc, q: Path, p: Path)
    requires Gone(d, p)
    ensures Gone(UnsetDeep(d, q), p)
    decreases |p|
  {
    if p[0] != q[0] {
      UnsetDeepKeeps(d, q, p[0]);
    } else if |q| == 1 {
      GetRemove(d, q[0], q[0]);
    } else if Get(d, p[0]).Some? {
      UnsetLeavesGone(Sub(d, p[0]), q[1..], p[1..]);
      GetSetSub(d, q[0], UnsetDeep(Sub(d, q[0]), q[1..]), q[0]);
    }
  }

  /** A scalar is gone after an unset of a prefix of its path, and stays after any other. */
  lemma {:induction false} UnsetScalar(d: Doc, q: Path, p: Path)
    requires GetPath(d, p) == Some(A)
    ensures if q <= p then Gone(UnsetDeep(d, q), p) else GetPath(UnsetDeep(d, q), p) == Some(A)
    decreases |p|
  {
    if p[0] != q[0] {
      UnsetDeepKeeps(d, q, p[0]);
    } else if |q| == 1 {
      GetRemove(d, q[0], q[0]);
      assert q == p[..1];
    } else if |p| > 1 {
      assert q <= p <==> q[1..] <= p[1..] by { assert p == [p[0]] + p[1..] && q == [q[0]] + q[1..]; }
      UnsetScalar(Sub(d, p[0]), q[1..], p[1..]);
      GetSetSub(d, q[0], UnsetDeep(Sub(d, q[0]), q[1..]), q[0]);
    }
  }

  lemma {:induction false} UnsetAllCuts(d: Doc, names: seq<string>, p: Path)
    requires Gone(d, p) || (GetPath(d, p) == Some(A) && exists i :: 0 <= i < |names| && Split(names[i]) <= p)
    ensures Gone(UnsetAll(d, names), p)
    decreases |names|
  {
    if names != [] {
      var q := Split(names[0]);
      if Gone(d, p) {
        UnsetLeavesGone(d, q, p);
      } else {
        UnsetScalar(d, q, p);
        if !(q <= p) {
          var i :| 0 <= i < |names| && Split(names[i]) <= p;
          assert names[1..][i - 1] == names[i];
        }
      }
      UnsetAllCuts(UnsetDeep(d, q), names[1..], p);
    }
  }

  // A document that was A at r, and has nothing there now, is another one.
  lemma {:induction false} CutIsAnother(d: Doc, p: Path, r: Path)
    requires Gone(d, p + r)
    ensures Compare(d, p, {Object(At(r, A))}).outcome != Match
    decreases |p|
  {
    assert (p + r)[1..] == p[1..] + r;
    if Get(d, p[0]).Some? {
      if |p| > 1 {
        CutIsAnother(Sub(d, p[0]), p[1..], r);
      } else {
        assert p[1..] + r == r;
        GoneIsNotFound(Sub(d, p[0]), r, {});
        GetAt(r, A);
      }
    }
  }

  /** Any list of names, one of them comparable with p. */
  lemma {:induction false} UnsetIsSeen(names: seq<string>, p: Path) returns (wanted: set<Value>, d: Doc)
    requires exists i :: 0 <= i < |names| && Comparable(p, Split(names[i]))
    ensures Joins(UnsetAll(d, names), p, wanted) != Joins(d, p, wanted)
  {
    if i :| 0 <= i < |names| && Split(names[i]) <= p {
      wanted, d := {A}, At(p, A);
      OnlyA(p, A);
      GetAt(p, A);
      UnsetAllCuts(d, names, p);
      GoneIsNotFound(UnsetAll(d, names), p, wanted);
    } else {
      var i :| 0 <= i < |names| && p <= Split(names[i]);
      var q := Split(names[i]);
      var r: Path := q[|p|..];
      assert q == p + r;
      wanted, d := {Object(At(r, A))}, At(q, A);
      AtSplit(p, r, A);
      OnlyA(p, Object(At(r, A)));
      GetAt(q, A);
      UnsetAllCuts(d, names, q);
      CutIsAnother(UnsetAll(d, names), p, r);
    }
  }

  /* ---------- `$set` ---------- */

  lemma {:induction false} SetAside(d: Doc, q: Path, v: Value, p: Path)
    requires !Comparable(p, q) && GetPath(d, p).Some?
    ensures GetPath(SetDeep(d, q, v), p) == GetPath(d, p)
    decreases |p|
  {
    if p[0] != q[0] {
      SetDeepKeeps(d, q, v, p[0]);
    } else {
      ComparableTail(p, q);
      SetAside(Sub(d, p[0]), q[1..], v, p[1..]);
      GetSetSub(d, q[0], SetDeep(Sub(d, q[0]), q[1..], v), q[0]);
    }
  }

  lemma {:induction false} SetUnder(d: Doc, p: Path, x: Value, s: Path, v: Value)
    requires GetPath(d, p) == Some(x)
    ensures GetPath(SetDeep(d, p + s, v), p) == Some(SetItem(x, s, v))
    decreases |p|
  {
    var q := p + s;
    if |p| == 1 {
      assert q[1..] == s;
      if x.Array? {
        GetSet(d, p[0], Array(SetItems(x.items, s, v)));
      } else {
        GetSetSub(d, p[0], SetDeep(Sub(d, p[0]), s, v), p[0]);
      }
    } else {
      assert q[1..] == p[1..] + s;
      SetUnder(Sub(d, p[0]), p[1..], x, s, v);
      GetSetSub(d, p[0], SetDeep(Sub(d, p[0]), q[1..], v), p[0]);
    }
  }

  // No name is a prefix of p. A scalar at p stays, or becomes a document if a name goes on below it.
  lemma {:induction false} SetAllUnder(vars: Vars, original: Doc, d: Doc, fields: seq<SetField>, p: Path)
    requires forall i :: 0 <= i < |fields| ==> !(Split(fields[i].name) <= p)
    requires GetPath(d, p).Some? && (GetPath(d, p).value == A || GetPath(d, p).value.Object?)
    requires GetPath(d, p).value.Object? || exists i :: 0 <= i < |fields| && p <= Split(fields[i].name)
    ensures var o := GetPath(SetAll(vars, original, d, fields), p); o.Some? && o.value.Object?
    decreases |fields|
  {
    if fields != [] {
      var q, v := Split(fields[0].name), fields[0].value(vars, original);
      if p <= q {
        var s: Path := q[|p|..];
        assert q == p + s;
        SetUnder(d, p, GetPath(d, p).value, s, v);
      } else {
        SetAside(d, q, v, p);
        if !GetPath(d, p).value.Object? {
          var i :| 0 <= i < |fields| && p <= Split(fields[i].name);
          assert fields[1..][i - 1] == fields[i];
        }
      }
      SetAllUnder(vars, original, SetDeep(d, q, v), fields[1..], p);
    }
  }

  /** An array at front of one element: a scalar, or after `entered` a document without the name k. */
  predicate HoldsOne(d: Doc, front: Path, k: string, entered: bool) {
    match GetPath(d, front)
    case Some(Array(items)) =>
      |items| == 1 && if entered then items[0].Object? && Get(items[0].fields, k) == None else items[0] == A
    case _ => false
  }

  lemma {:induction false} SetEntersOne(d: Doc, front: Path, s: Path, v: Value, k: string, entered: bool)
    requires HoldsOne(d, front, k, entered) && s[0] != k
    ensures HoldsOne(SetDeep(d, front + s, v), front, k, true)
  {
    var items := GetPath(d, front).value.items;
    SetUnder(d, front, Array(items), s, v);
    assert items[1..] == [];
    assert SetItems(items, s, v) == [SetItem(items[0], s, v)];
    SetDeepKeeps(if entered then items[0].fields else [], s, v, k);
  }

  // Names that leave p at front or before: the element of the array is entered if one leaves it there.
  lemma {:induction false} SetAllEnters(vars: Vars, original: Doc, d: Doc, fields: seq<SetField>, front: Path,
                                        k: string, entered: bool)
    requires HoldsOne(d, front, k, entered)
    requires forall i :: 0 <= i < |fields| ==> !(Split(fields[i].name) <= front)
    requires forall i :: 0 <= i < |fields| && front <= Split(fields[i].name) ==> Split(fields[i].name)[|front|] != k
    requires entered || exists i :: 0 <= i < |fields| && front <= Split(fields[i].name)
    ensures HoldsOne(SetAll(vars, original, d, fields), front, k, true)
    decreases |fields|
  {
    if fields != [] {
      var q, v := Split(fields[0].name), fields[0].value(vars, original);
      if front <= q {
        var s: Path := q[|front|..];
        assert q == front + s;
        SetEntersOne(d, front, s, v, k, entered);
        SetAllEnters(vars, original, SetDeep(d, q, v), fields[1..], front, k, true);
      } else {
        SetAside(d, q, v, front);
        if !entered {
          var i :| 0 <= i < |fields| && front <= Split(fields[i].name);
          assert fields[1..][i - 1] == fields[i];
        }
        SetAllEnters(vars, original, SetDeep(d, q, v), fields[1..], front, k, entered);
      }
    }
  }

  // Null is wanted: an array without documents does not join, one with a document without the name does.
  lemma {:induction false} OneJoins(d: Doc, front: Path, r: Path, entered: bool)
    requires HoldsOne(d, front, r[0], entered)
    ensures Joins(d, front + r, {Null}) <==> entered
  {
    var items := GetPath(d, front).value.items;
    CompareUnder(d, front, Array(items), r, {Null});
    assert items[1..] == [];
    assert CompareItems(items[1..], r, {Null}) == Seen(Mismatch, false);
    assert CompareItems(items, r, {Null}) == if entered then Seen(NotFound, true) else Seen(Mismatch, false);
  }

  /* ---------- a `$set` of a prefix of p ---------- */

  /** What is read along p is the same in both. */
  predicate Same(d: Doc, d': Doc, p: Path)
    decreases |p|
  {
    || Get(d, p[0]) == Get(d', p[0])
    || (|p| > 1 && HasObject(d, p[0]) && HasObject(d', p[0]) && Same(Sub(d, p[0]), Sub(d', p[0]), p[1..]))
  }

  /** There is A at p in one, and B in the other. */
  predicate Apart(d: Doc, d': Doc, p: Path) {
    GetPath(d, p) == Some(A) && GetPath(d', p) == Some(B)
  }

  lemma {:induction false} SameCompares(d: Doc, d': Doc, p: Path, wanted: set<Value>)
    requires Same(d, d', p)
    ensures Compare(d, p, wanted) == Compare(d', p, wanted)
    decreases |p|
  {
    if Get(d, p[0]) == Get(d', p[0]) {
      SameField(d, d', p, wanted);
    } else {
      SameCompares(Sub(d, p[0]), Sub(d', p[0]), p[1..], wanted);
    }
  }

  /** What SetDeep leaves at the first name of q. */
  function Written(was: Option<Value>, q: Path, v: Value): Value {
    if |q| == 1 then v else SetItem(if was.Some? then was.value else Null, q[1..], v)
  }

  lemma {:induction false} SetReads(d: Doc, q: Path, v: Value)
    ensures Get(SetDeep(d, q, v), q[0]) == Some(Written(Get(d, q[0]), q, v))
  {
    if |q| == 1 {
      GetSet(d, q[0], v);
    } else if Get(d, q[0]).Some? && Get(d, q[0]).value.Array? {
      GetSet(d, q[0], Array(SetItems(Get(d, q[0]).value.items, q[1..], v)));
    } else {
      GetSetSub(d, q[0], SetDeep(Sub(d, q[0]), q[1..], v), q[0]);
    }
  }

  lemma {:induction false} SetKeepsSame(d: Doc, d': Doc, q: Path, v: Value, p: Path)
    requires Same(d, d', p) && p[0] == q[0]
    ensures Same(SetDeep(d, q, v), SetDeep(d', q, v), p)
    decreases |p|
  {
    SetReads(d, q, v);
    SetReads(d', q, v);
    if Get(d, p[0]) != Get(d', p[0]) && |q| > 1 {
      var s, s' := Sub(d, p[0]), Sub(d', p[0]);
      if p[1] == q[1] {
        SetKeepsSame(s, s', q[1..], v, p[1..]);
      } else {
        SetDeepKeeps(s, q[1..], v, p[1]);
        SetDeepKeeps(s', q[1..], v, p[1]);
      }
    }
  }

  lemma {:induction false} SetMakesSame(d: Doc, d': Doc, q: Path, v: Value, p: Path)
    requires Apart(d, d', p) && Comparable(p, q)
    ensures Same(SetDeep(d, q, v), SetDeep(d', q, v), p)
    decreases |p|
  {
    assert p[0] == q[0];
    SetReads(d, q, v);
    SetReads(d', q, v);
    if |q| > 1 && |p| > 1 {
      ComparableTail(p, q);
      SetMakesSame(Sub(d, p[0]), Sub(d', p[0]), q[1..], v, p[1..]);
    }
  }

  /** The values written under the first name of p do not differ between the two documents. */
  predicate SameValues(vars: Vars, o: Doc, o': Doc, fields: seq<SetField>, p: Path) {
    forall i :: 0 <= i < |fields| && Split(fields[i].name)[0] == p[0] ==>
      fields[i].value(vars, o) == fields[i].value(vars, o')
  }

  lemma {:induction false} SetStep(d: Doc, d': Doc, q: Path, v: Value, v': Value, p: Path)
    requires (Same(d, d', p) || Apart(d, d', p)) && (p[0] == q[0] ==> v == v')
    ensures Same(d, d', p) || Comparable(p, q) ==> Same(SetDeep(d, q, v), SetDeep(d', q, v'), p)
    ensures Apart(d, d', p) && !Comparable(p, q) ==> Apart(SetDeep(d, q, v), SetDeep(d', q, v'), p)
  {
    if p[0] != q[0] {
      SetDeepKeeps(d, q, v, p[0]);
      SetDeepKeeps(d', q, v', p[0]);
    } else if Same(d, d', p) {
      SetKeepsSame(d, d', q, v, p);
    } else if Comparable(p, q) {
      SetMakesSame(d, d', q, v, p);
    }
    if Apart(d, d', p) && !Comparable(p, q) {
      SetAside(d, q, v, p);
      SetAside(d', q, v', p);
    }
  }

  lemma {:induction false} SetAllMakesSame(vars: Vars, o: Doc, o': Doc, d: Doc, d': Doc, fields: seq<SetField>,
                                           p: Path)
    requires SameValues(vars, o, o', fields, p)
    requires
      || Same(d, d', p)
      || (Apart(d, d', p) && exists i :: 0 <= i < |fields| && Comparable(p, Split(fields[i].name)))
    ensures Same(SetAll(vars, o, d, fields), SetAll(vars, o', d', fields), p)
    decreases |fields|
  {
    if fields != [] {
      var q, v, v' := Split(fields[0].name), fields[0].value(vars, o), fields[0].value(vars, o');
      SetStep(d, d', q, v, v', p);
      if !Same(d, d', p) && !Comparable(p, q) {
        var i :| 0 <= i < |fields| && Comparable(p, Split(fields[i].name));
        assert fields[1..][i - 1] == fields[i];
      }
      SetAllMakesSame(vars, o, o', SetDeep(d, q, v), SetDeep(d', q, v'), fields[1..], p);
    }
  }

  /* ---------- any list of fields ---------- */

  lemma {:induction false} PrefixIsSeen(fields: seq<SetField>, p: Path) returns (wanted: set<Value>, d: Doc)
    requires exists i :: 0 <= i < |fields| && Split(fields[i].name) <= p
    requires forall o, o' :: SameValues([], o, o', fields, p)
    ensures Joins(SetAll([], d, d, fields), p, wanted) != Joins(d, p, wanted)
  {
    var a, b := At(p, A), At(p, B);
    GetAt(p, A);
    GetAt(p, B);
    assert SameValues([], a, b, fields, p);
    SetAllMakesSame([], a, b, a, b, fields, p);
    SameCompares(SetAll([], a, a, fields), SetAll([], b, b, fields), p, {A});
    OnlyA(p, A);
    OnlyA(p, B);
    wanted := {A};
    d := if Joins(SetAll([], a, a, fields), p, wanted) then b else a;
  }

  lemma {:induction false} UnderIsSeen(fields: seq<SetField>, p: Path)
    requires forall i :: 0 <= i < |fields| ==> !(Split(fields[i].name) <= p)
    requires exists i :: 0 <= i < |fields| && p <= Split(fields[i].name)
    ensures Joins(SetAll([], At(p, A), At(p, A), fields), p, {A}) != Joins(At(p, A), p, {A})
  {
    var d := At(p, A);
    GetAt(p, A);
    OnlyA(p, A);
    SetAllUnder([], d, d, fields, p);
    var o := SetAll([], d, d, fields);
    CompareFound(o, p, GetPath(o, p).value, {A});
  }

  function Paths(fields: seq<SetField>): (paths: seq<Path>)
    ensures |paths| == |fields| && forall i :: 0 <= i < |fields| ==> paths[i] == Split(fields[i].name)
  {
    if fields == [] then [] else [Split(fields[0].name)] + Paths(fields[1..])
  }

  lemma {:induction false} AsideIsSeen(fields: seq<SetField>, p: Path) returns (d: Doc)
    requires forall i :: 0 <= i < |fields| ==> !Comparable(p, Split(fields[i].name))
    requires exists i :: 0 <= i < |fields| && Split(fields[i].name)[0] == p[0]
    ensures Joins(SetAll([], d, d, fields), p, {Null}) != Joins(d, p, {Null})
  {
    var paths := Paths(fields);
    var i :| 0 <= i < |fields| && Split(fields[i].name)[0] == p[0];
    assert paths[i] in paths && p[..1] <= paths[i];
    var front, r := LongestFront(p, paths, 1);
    d := At(front, Array([A]));
    GetAt(front, Array([A]));
    forall i | 0 <= i < |fields|
      ensures !(Split(fields[i].name) <= front)
      ensures front <= Split(fields[i].name) ==> Split(fields[i].name)[|front|] != r[0]
    {
      assert paths[i] in paths && front <= p;
    }
    var q: Path :| q in paths && front <= q;
    var j :| 0 <= j < |fields| && paths[j] == q;
    assert front <= Split(fields[j].name);
    SetAllEnters([], d, d, fields, front, r[0], false);
    OneJoins(d, front, r, false);
    OneJoins(SetAll([], d, d, fields), front, r, true);
  }

  /** Any list of fields, one of which has the first name of p. If a name is a prefix of p, what is written under
      the first name of p must not depend on the document; otherwise it may. */
  lemma {:induction false} SetIsSeen(fields: seq<SetField>, p: Path) returns (wanted: set<Value>, d: Doc)
    requires exists i :: 0 <= i < |fields| && Split(fields[i].name)[0] == p[0]
    requires (exists i :: 0 <= i < |fields| && Split(fields[i].name) <= p) ==>
               forall o, o' :: SameValues([], o, o', fields, p)
    ensures Joins(SetAll([], d, d, fields), p, wanted) != Joins(d, p, wanted)
  {
    if exists i :: 0 <= i < |fields| && Split(fields[i].name) <= p {
      wanted, d := PrefixIsSeen(fields, p);
    } else if exists i :: 0 <= i < |fields| && p <= Split(fields[i].name) {
      wanted, d := {A}, At(p, A);
      UnderIsSeen(fields, p);
    } else {
      wanted := {Null};
      d := AsideIsSeen(fields, p);
    }
  }

  /* ---------- a nested `$lookup` ---------- */

  lemma {:induction false} OverUnder(d: Doc, p: Path, x: Value, s: Path, v: Value)
    requires GetPath(d, p) == Some(x)
    ensures GetPath(SetPath(d, p + s, v), p) == Some(Object(SetPath(if x.Object? then x.fields else [], s, v)))
    decreases |p|
  {
    var q := p + s;
    if |p| == 1 {
      assert q[1..] == s;
      GetSetSub(d, p[0], SetPath(Sub(d, p[0]), s, v), p[0]);
    } else {
      assert q[1..] == p[1..] + s;
      OverUnder(Sub(d, p[0]), p[1..], x, s, v);
      GetSetSub(d, p[0], SetPath(Sub(d, p[0]), q[1..], v), p[0]);
    }
  }

  /** The array written at q, whatever its documents are. Only if q is a proper prefix of p do they matter. */
  lemma {:induction false} LookupIsSeen(p: Path, q: Path, found: Doc -> seq<Doc>) returns (wanted: set<Value>, d: Doc)
    requires p[0] == q[0]
    requires q < p ==> forall d, d' :: found(d) == found(d')
    ensures Joins(SetPath(d, q, Array(ArrayItems(found(d)))), p, wanted) != Joins(d, p, wanted)
  {
    if q < p {
      wanted := {A};
      var v := Array(ArrayItems(found([])));
      SetAt(p, A, q, v);
      SetAt(p, B, q, v);
      OnlyA(p, A);
      OnlyA(p, B);
      d := if Joins(At(q, v), p, wanted) then At(p, B) else At(p, A);
      assert found(d) == found([]);
    } else if p <= q {
      wanted, d := {A}, At(p, A);
      OnlyA(p, A);
      GetAt(p, A);
      OverIsNotA(d, p, q, ArrayItems(found(d)));
    } else {
      assert q in [q] && p[..1] <= q;
      var front, r := LongestFront(p, [q], 1);
      var s: Path := q[|front|..];
      assert q == front + s;
      wanted, d := {Null}, At(front, Array([A]));
      GetAt(front, Array([A]));
      OneJoins(d, front, r, false);
      var v := Array(ArrayItems(found(d)));
      OverUnder(d, front, Array([A]), s, v);
      SetPathKeeps([], s, v, r[0]);
      CompareUnder(SetPath(d, q, v), front, Object(SetPath([], s, v)), r, wanted);
    }
  }

  lemma {:induction false} OverIsNotA(d: Doc, p: Path, q: Path, items: seq<Value>)
    requires GetPath(d, p) == Some(A) && p <= q && forall i :: 0 <= i < |items| ==> items[i].Object?
    ensures !Joins(SetPath(d, q, Array(items)), p, {A})
  {
    var o := SetPath(d, q, Array(items));
    if p == q {
      GetSetPath(d, q, Array(items));
      CompareFound(o, p, Array(items), {A});
    } else {
      var s: Path := q[|p|..];
      assert q == p + s;
      OverUnder(d, p, A, s, Array(items));
      CompareFound(o, p, Object(SetPath([], s, Array(items))), {A});
    }
  }
}

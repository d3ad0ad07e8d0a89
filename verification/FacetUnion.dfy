/**
 The UNION ALL tree of a `$facet` stage. The arms are added one by one to a set operation, in turn
 on the left and on the right, so that the tree is half as high as a chain; the arms then come out
 in another order than they were written, and bson_object_agg collects them into one document.
 */
module FacetUnion {
  import opened Options
  import opened Documents

  datatype SetOp<T> = Leaf(arm: T) | Union(larg: SetOp<T>, rarg: SetOp<T>)

  function Leaves<T>(t: SetOp<T>): (s: seq<T>)
    ensures |s| >= 1
  {
    match t
    case Leaf(x) => [x]
    case Union(l, r) => Leaves(l) + Leaves(r)
  }

  function Height<T>(t: SetOp<T>): nat {
    match t
    case Leaf(_) => 0
    case Union(l, r) => 1 + if Height(l) < Height(r) then Height(r) else Height(l)
  }

  /** The arms left of the root: the first, then every second one from the fourth on. */
  function LeftArms<T>(arms: seq<T>): seq<T> {
    if |arms| <= 1 then arms
    else if |arms| % 2 == 0 && |arms| > 2 then LeftArms(arms[..|arms| - 1]) + [arms[|arms| - 1]]
    else LeftArms(arms[..|arms| - 1])
  }

  /** The arms right of the root: the second, the third, then every second one. */
  function RightArms<T>(arms: seq<T>): seq<T> {
    if |arms| <= 1 then []
    else if |arms| % 2 == 1 || |arms| == 2 then RightArms(arms[..|arms| - 1]) + [arms[|arms| - 1]]
    else RightArms(arms[..|arms| - 1])
  }

  /** The loop of BuildFacetUnionAllQuery over two or more range table references. */
  method BuildUnionTree<T>(arms: seq<T>) returns (t: SetOp<T>)
    requires |arms| >= 2
    ensures t.Union?
    ensures Leaves(t.larg) == LeftArms(arms) && Leaves(t.rarg) == RightArms(arms)
    ensures Height(t) == (|arms| + 1) / 2
  {
    var larg: Option<SetOp<T>>, rarg: Option<SetOp<T>> := None, None;
    var insertLeft := false;
    for i := 0 to |arms|
      invariant larg.Some? <==> i >= 1
      invariant rarg.Some? <==> i >= 2
      invariant insertLeft <==> i >= 2 && i % 2 == 1
      invariant i >= 1 ==> Leaves(larg.value) == LeftArms(arms[..i])
      invariant i >= 2 ==> Leaves(rarg.value) == RightArms(arms[..i])
      invariant i == 1 ==> Height(larg.value) == 0
      invariant i >= 2 ==> Height(larg.value) + 1 == i / 2 && Height(rarg.value) + 1 == (i + 1) / 2
    {
      var arm := arms[i];
      assert arms[..i + 1][..i] == arms[..i];
      if larg.None? {
        larg := Some(Leaf(arm));
      } else if rarg.None? {
        rarg := Some(Leaf(arm));
      } else if insertLeft {
        larg := Some(Union(larg.value, Leaf(arm)));
        insertLeft := false;
      } else {
        rarg := Some(Union(rarg.value, Leaf(arm)));
        insertLeft := true;
      }
    }
    t := Union(larg.value, rarg.value);
    assert arms[..|arms|] == arms;
  }

  /** Every arm is in the tree exactly once. */
  lemma {:induction false} EachArmOnce<T>(arms: seq<T>)
    ensures multiset(LeftArms(arms) + RightArms(arms)) == multiset(arms)
  {
    if |arms| >= 2 {
      var init, last := arms[..|arms| - 1], arms[|arms| - 1];
      EachArmOnce(init);
      assert arms == init + [last];
      InsertOnce(LeftArms(init), RightArms(init), last);
    } else {
      assert arms + [] == arms;
    }
  }

  lemma InsertOnce<T>(l: seq<T>, r: seq<T>, x: T)
    ensures multiset((l + [x]) + r) == multiset(l + r) + multiset{x}
    ensures multiset(l + (r + [x])) == multiset(l + r) + multiset{x}
  {
    assert l + (r + [x]) == (l + r) + [x];
  }

  /** The order of the leaves: arm 0 is leftmost; left of the root come arms 0, 3, 5, 7, ..., right
      of it arms 1, 2, 4, 6, .... */
  lemma ArmsInOrder<T>(arms: seq<T>, k: nat)
    requires |arms| >= 2 && k >= 1
    ensures |LeftArms(arms)| == |arms| / 2 && |RightArms(arms)| == (|arms| + 1) / 2
    ensures LeftArms(arms)[0] == arms[0] && RightArms(arms)[0] == arms[1]
    ensures k < |arms| / 2 ==> LeftArms(arms)[k] == arms[2 * k + 1]
    ensures k < (|arms| + 1) / 2 ==> RightArms(arms)[k] == arms[2 * k]
  {
    LeftInOrder(arms, k);
    RightInOrder(arms, k);
  }

  lemma {:induction false} LeftInOrder<T>(arms: seq<T>, k: nat)
    requires |arms| >= 2 && k >= 1
    ensures |LeftArms(arms)| == |arms| / 2 && LeftArms(arms)[0] == arms[0]
    ensures k < |arms| / 2 ==> LeftArms(arms)[k] == arms[2 * k + 1]
  {
    if |arms| == 2 {
      assert LeftArms(arms[..1]) == arms[..1];
    } else {
      LeftInOrder(arms[..|arms| - 1], k);
    }
  }

  lemma {:induction false} RightInOrder<T>(arms: seq<T>, k: nat)
    requires |arms| >= 2 && k >= 1
    ensures |RightArms(arms)| == (|arms| + 1) / 2 && RightArms(arms)[0] == arms[1]
    ensures k < (|arms| + 1) / 2 ==> RightArms(arms)[k] == arms[2 * k]
  {
    if |arms| > 2 {
      RightInOrder(arms[..|arms| - 1], k);
    }
  }

  /* ---------- the document the stage computes ---------- */

  /** One arm: the facet's name and the array its pipeline yields. */
  datatype Facet = Facet(name: string, result: seq<Value>)

  /** Entering an array into the tree of bson_object_agg. The name is split at its dots. A leaf on the way
      takes the value, whatever is left of the path; None is the error of a name that
      is already the front of a path. */
  function Enter(tree: Doc, p: Path, v: Value): Option<Doc>
    decreases |p|
  {
    match Get(tree, p[0])
    case None => Some(tree + [Field(p[0], Nested(p, v))])
    case Some(Object(sub)) =>
      if |p| == 1 then None
      else (match Enter(sub, p[1..], v)
            case None => None
            case Some(sub') => Some(Set(tree, p[0], Object(sub'))))
    case Some(_) => Some(Set(tree, p[0], v))
  }

  function Nested(p: Path, v: Value): Value
    decreases |p|
  {
    if |p| == 1 then v else Object([Field(p[1], Nested(p[1..], v))])
  }

  /** bson_object_agg over the rows' single-field documents, in order. */
  function ObjectAgg(rows: seq<Facet>): Option<Doc> {
    if rows == [] then Some([])
    else match ObjectAgg(rows[..|rows| - 1])
         case None => None
         case Some(tree) => Enter(tree, Split(rows[|rows| - 1].name), Array(rows[|rows| - 1].result))
  }

  predicate NamesAgree(rows: seq<Facet>) {
    forall f, g :: f in rows && g in rows && f.name == g.name ==> f == g
  }

  predicate NoDots(rows: seq<Facet>) {
    forall f :: f in rows ==> !HasDot(f.name)
  }

  predicate HasField(doc: Doc, f: Facet) {
    Get(doc, f.name) == Some(Array(f.result))
  }

  predicate IsNamed(k: string, rows: seq<Facet>) {
    exists f :: f in rows && f.name == k
  }

  /** Each name has its own array, and there is no other field. */
  predicate MapsEach(doc: Doc, rows: seq<Facet>) {
    && (forall f :: f in rows ==> HasField(doc, f))
    && forall i :: 0 <= i < |doc| ==> IsNamed(doc[i].key, rows)
  }

  lemma {:induction false} SetKeys(d: Doc, k: string, v: Value)
    ensures forall i :: 0 <= i < |Set(d, k, v)| ==>
              Set(d, k, v)[i].key == k || exists j :: 0 <= j < |d| && d[j].key == Set(d, k, v)[i].key
  {
    if d != [] && d[0].key != k {
      SetKeys(d[1..], k, v);
      var tail := Set(d[1..], k, v);
      forall i | 0 <= i < |Set(d, k, v)| && Set(d, k, v)[i].key != k
        ensures exists j :: 0 <= j < |d| && d[j].key == Set(d, k, v)[i].key
      {
        if i > 0 {
          assert Set(d, k, v)[i] == tail[i - 1];
          var j :| 0 <= j < |d[1..]| && d[1..][j].key == tail[i - 1].key;
          assert d[j + 1].key == Set(d, k, v)[i].key;
        }
      }
    } else if d != [] {
      forall i | 0 < i < |Set(d, k, v)| ensures d[i].key == Set(d, k, v)[i].key { }
    }
  }

  predicate KeysHaveNoDot(d: Doc) {
    forall i :: 0 <= i < |d| ==> !HasDot(d[i].key)
  }

  /** The document the tree is written to has no name with a dot. */
  lemma {:induction false} AggregateHasNoDot(rows: seq<Facet>)
    ensures ObjectAgg(rows).Some? ==> KeysHaveNoDot(ObjectAgg(rows).value)
  {
    if rows != [] {
      var init, last := rows[..|rows| - 1], rows[|rows| - 1];
      AggregateHasNoDot(init);
      if ObjectAgg(init).Some? {
        var tree, p := ObjectAgg(init).value, Split(last.name);
        SetKeys(tree, p[0], Array(last.result));
        match Get(tree, p[0])
        case Some(Object(sub)) =>
          if |p| > 1 && Enter(sub, p[1..], Array(last.result)).Some? {
            SetKeys(tree, p[0], Object(Enter(sub, p[1..], Array(last.result)).value));
          }
        case _ =>
      }
    }
  }

  lemma {:induction false} GetMeansKey(d: Doc, k: string)
    requires Get(d, k).Some?
    ensures exists i :: 0 <= i < |d| && d[i].key == k
  {
    if d[0].key != k {
      GetMeansKey(d[1..], k);
      var i :| 0 <= i < |d[1..]| && d[1..][i].key == k;
      assert d[i + 1].key == k;
    }
  }

  ghost predicate OnlyArrays(d: Doc) {
    forall k :: Get(d, k).Some? ==> Get(d, k).value.Array?
  }

  // One more row with an undotted name.
  lemma EnterName(init: seq<Facet>, last: Facet, tree: Doc)
    requires MapsEach(tree, init) && OnlyArrays(tree) && !HasDot(last.name)
    requires forall f :: f in init && f.name == last.name ==> f == last
    ensures var r := Enter(tree, [last.name], Array(last.result));
            r.Some? && MapsEach(r.value, init + [last]) && OnlyArrays(r.value)
  {
    var k, v, rows := last.name, Array(last.result), init + [last];
    var r := Enter(tree, [k], v);
    var doc := r.value;
    forall other ensures Get(doc, other) == if other == k then Some(v) else Get(tree, other) {
      GetAppend(tree, Field(k, v), other);
      if other == k { GetSet(tree, k, v); } else { GetSetOther(tree, k, v, other); }
    }
    forall f | f in rows ensures HasField(doc, f) {
      if f.name != k { assert HasField(tree, f); }
    }
    SetKeys(tree, k, v);
    forall i | 0 <= i < |doc| ensures IsNamed(doc[i].key, rows) {
      if doc[i].key == k {
        assert last in rows;
      } else {
        var j :| 0 <= j < |tree| && tree[j].key == doc[i].key;
        assert IsNamed(tree[j].key, init);
        var f :| f in init && f.name == tree[j].key;
        assert f in rows;
      }
    }
  }

  /** Undotted names that agree: each is mapped to its array, in whatever order the rows come. */
  lemma {:induction false} ObjectAggMapsEach(rows: seq<Facet>)
    requires NamesAgree(rows) && NoDots(rows)
    ensures ObjectAgg(rows).Some? && MapsEach(ObjectAgg(rows).value, rows) && OnlyArrays(ObjectAgg(rows).value)
  {
    if rows != [] {
      var init, last := rows[..|rows| - 1], rows[|rows| - 1];
      assert rows == init + [last];
      assert forall f :: f in init ==> f in rows;
      ObjectAggMapsEach(init);
      EnterName(init, last, ObjectAgg(init).value);
    }
  }

  predicate IsRight(doc: Option<Doc>, facets: seq<Facet>) {
    doc.Some? && MapsEach(doc.value, facets)
  }

  lemma MappedIffUndotted(rows: seq<Facet>, facets: seq<Facet>)
    requires multiset(rows) == multiset(facets)
    ensures IsRight(ObjectAgg(rows), facets) <==> NamesAgree(facets) && NoDots(facets)
  {
    SameElements(rows, facets);
    if NamesAgree(facets) && NoDots(facets) {
      ObjectAggMapsEach(rows);
      SameNames(ObjectAgg(rows).value, rows, facets);
    }
    if IsRight(ObjectAgg(rows), facets) {
      var doc := ObjectAgg(rows).value;
      AggregateHasNoDot(rows);
      MappedAgree(doc, facets);
      forall f | f in facets ensures !HasDot(f.name) {
        assert HasField(doc, f);
        GetMeansKey(doc, f.name);
      }
    }
  }

  lemma SameNames(doc: Doc, rows: seq<Facet>, facets: seq<Facet>)
    requires MapsEach(doc, rows) && forall f :: f in rows <==> f in facets
    ensures MapsEach(doc, facets)
  {
    forall i | 0 <= i < |doc| ensures IsNamed(doc[i].key, facets) {
      assert IsNamed(doc[i].key, rows);
      var f :| f in rows && f.name == doc[i].key;
      assert f in facets;
    }
  }

  lemma MappedAgree(doc: Doc, facets: seq<Facet>)
    requires MapsEach(doc, facets)
    ensures NamesAgree(facets)
  {
    forall f, g | f in facets && g in facets && f.name == g.name ensures f == g {
      assert HasField(doc, f) && HasField(doc, g);
    }
  }

  /** The stage: one facet is selected from directly, more go through the union tree, and bson_object_agg takes
      the rows of either. The document maps every facet name to its own pipeline's array, and has no
      other field, exactly when facets of the same name do not differ and no name has a dot. */
  method EvaluateFacet(facets: seq<Facet>) returns (doc: Option<Doc>)
    requires facets != []
    ensures IsRight(doc, facets) <==> NamesAgree(facets) && NoDots(facets)
  {
    if |facets| == 1 {
      doc := ObjectAgg(facets);
      MappedIffUndotted(facets, facets);
    } else {
      var t := BuildUnionTree(facets);
      EachArmOnce(facets);
      doc := ObjectAgg(Leaves(t));
      MappedIffUndotted(Leaves(t), facets);
    }
  }

  /** A facet called "a.b" is nested, on its own or beside another one: there is no field of its name. */
  lemma DottedFacetIsNested()
    ensures var tree := [Field("a", Object([Field("b", Array([Number(1)]))]))];
            && ObjectAgg([Facet("a.b", [Number(1)])]) == Some(tree)
            && ObjectAgg([Facet("a.b", [Number(1)]), Facet("c", [Number(2)])])
               == Some(tree + [Field("c", Array([Number(2)]))])
  {
    var first, second := Facet("a.b", [Number(1)]), Facet("c", [Number(2)]);
    var rows := [first, second];
    assert rows[..1] == [first] && [first][..0] == [];
    SplitsAB();
    assert !HasDot("c");
    var tree := [Field("a", Object([Field("b", Array([Number(1)]))]))];
    assert Nested(["a", "b"], Array([Number(1)])) == Object([Field("b", Array([Number(1)]))]);
    assert [] + tree == tree;
    assert ObjectAgg([first]) == Some(tree);
    assert "a"[0] != "c"[0] && tree[1..] == [];
    assert Get(tree, "c") == None;
  }

  lemma SplitsAB()
    ensures Split("a.b") == ["a", "b"]
  {
    var s := "a.b";
    assert s[0] != DOT && s[1] == DOT;
    assert s[..1] == "a" && s[2..] == "b";
    assert SplitFrom(s, 1) == ["a"] + Split("b");
    assert SplitFrom(s, 0) == SplitFrom(s, 1);
  }

  lemma SameElements<T>(s: seq<T>, t: seq<T>)
    requires multiset(s) == multiset(t)
    ensures forall x :: x in s <==> x in t
  {
    forall x ensures x in s <==> x in t {
      assert x in s <==> x in multiset(s);
      assert x in t <==> x in multiset(t);
    }
  }

  /* ---------- dotted names ---------- */

  /** Walking down p in the tree meets documents alone, until there is nothing or p ends at a leaf. */
  predicate IsFree(tree: Doc, p: Path)
    decreases |p|
  {
    match Get(tree, p[0])
    case None => true
    case Some(Object(sub)) => |p| > 1 && IsFree(sub, p[1..])
    case Some(_) => |p| == 1
  }

  /** What is read at q once v was entered at p. */
  predicate IsAfter(before: Option<Value>, after: Option<Value>, p: Path, v: Value, q: Path) {
    if q == p then after == Some(v)
    else if q <= p then after.Some? && after.value.Object?
    else if p <= q then after == None
    else after == before
  }

  lemma {:induction false} TailOfComparable(p: Path, q: Path)
    requires p[0] == q[0] && |p| > 1 && |q| > 1
    ensures p == q <==> p[1..] == q[1..]
    ensures p <= q <==> p[1..] <= q[1..]
    ensures q <= p <==> q[1..] <= p[1..]
  {
    assert p == [p[0]] + p[1..] && q == [q[0]] + q[1..];
  }

  lemma {:induction false} GetOne(k: string, v: Value, other: string)
    ensures Get([Field(k, v)], other) == if other == k then Some(v) else None
  {
    assert [Field(k, v)][1..] == [];
  }

  lemma {:induction false} NestedAt(p: Path, v: Value, q: Path)
    requires !v.Object? && p[0] == q[0]
    ensures IsAfter(None, GetPath([Field(p[0], Nested(p, v))], q), p, v, q)
    decreases |p|
  {
    GetOne(p[0], Nested(p, v), p[0]);
    if |p| > 1 && |q| > 1 {
      TailOfComparable(p, q);
      var inner := [Field(p[1], Nested(p[1..], v))];
      if p[1] == q[1] {
        NestedAt(p[1..], v, q[1..]);
      } else {
        GetOne(p[1], Nested(p[1..], v), q[1]);
        assert GetPath(inner, q[1..]) == None;
      }
    } else if |p| == 1 {
      assert p <= q;
    } else {
      assert q <= p;
    }
  }

  lemma {:induction false} AppendedAt(tree: Doc, p: Path, v: Value, q: Path)
    requires !v.Object? && Get(tree, p[0]) == None
    ensures IsAfter(GetPath(tree, q), GetPath(tree + [Field(p[0], Nested(p, v))], q), p, v, q)
  {
    var f := Field(p[0], Nested(p, v));
    GetAppend(tree, f, q[0]);
    if p[0] == q[0] {
      NestedAt(p, v, q);
      GetOne(p[0], f.value, p[0]);
    }
  }

  /** Entering an array where the tree is free: it can be read at its path, the way there is documents, and what is
      elsewhere stays. */
  lemma {:induction false} EnterFree(tree: Doc, p: Path, v: Value, q: Path)
    requires IsFree(tree, p) && !v.Object?
    ensures Enter(tree, p, v).Some?
    ensures IsAfter(GetPath(tree, q), GetPath(Enter(tree, p, v).value, q), p, v, q)
    decreases |p|
  {
    match Get(tree, p[0])
    case None => AppendedAt(tree, p, v, q);
    case Some(Object(sub)) =>
      EnterFree(sub, p[1..], v, p[1..]);
      var sub' := Enter(sub, p[1..], v).value;
      if p[0] != q[0] {
        GetSetOther(tree, p[0], Object(sub'), q[0]);
      } else {
        GetSet(tree, p[0], Object(sub'));
        if |q| > 1 {
          TailOfComparable(p, q);
          EnterFree(sub, p[1..], v, q[1..]);
        }
      }
    case Some(_) =>
      if p[0] != q[0] { GetSetOther(tree, p[0], v, q[0]); } else { GetSet(tree, p[0], v); }
  }

  ghost predicate IsInner(rows: seq<Facet>, q: Path) {
    exists f :: f in rows && q < Split(f.name)
  }

  ghost predicate IsLeafOf(rows: seq<Facet>, q: Path, v: Value) {
    exists f :: f in rows && Split(f.name) == q && v == Array(f.result)
  }

  /** The tree holds every array at its path, documents on the way there, and nothing else. */
  ghost predicate Mirrors(tree: Doc, rows: seq<Facet>) {
    && (forall f :: f in rows ==> GetPath(tree, Split(f.name)) == Some(Array(f.result)))
    && forall q: Path :: GetPath(tree, q).Some? ==>
         if GetPath(tree, q).value.Object? then IsInner(rows, q) else IsLeafOf(rows, q, GetPath(tree, q).value)
  }

  /** No name is the front of another one, dot by dot, and the same name comes with the same array. */
  ghost predicate PathsApart(rows: seq<Facet>) {
    forall f, g :: f in rows && g in rows && Comparable(Split(f.name), Split(g.name)) ==>
      Split(f.name) == Split(g.name) && f.result == g.result
  }

  /** What may be at q if p is to be entered: documents on the way, a leaf at its end, and nothing below. */
  predicate Beside(p: Path, q: Path, v: Value) {
    if q == p then !v.Object? else if q <= p then v.Object? else !(p <= q)
  }

  ghost predicate LeavesRoom(tree: Doc, p: Path) {
    forall q: Path :: GetPath(tree, q).Some? ==> Beside(p, q, GetPath(tree, q).value)
  }

  lemma {:induction false} RoomIsFree(tree: Doc, p: Path)
    requires LeavesRoom(tree, p)
    ensures IsFree(tree, p)
    decreases |p|
  {
    var one: Path := [p[0]];
    assert GetPath(tree, one) == Get(tree, p[0]) && one <= p;
    if HasObject(tree, p[0]) {
      forall q: Path | GetPath(Sub(tree, p[0]), q).Some? ensures Beside(p[1..], q, GetPath(Sub(tree, p[0]), q).value) {
        var q': Path := [p[0]] + q;
        assert q'[1..] == q && GetPath(tree, q') == GetPath(Sub(tree, p[0]), q);
        TailOfComparable(p, q');
      }
      RoomIsFree(Sub(tree, p[0]), p[1..]);
    }
  }

  lemma {:induction false} RoomForNext(tree: Doc, init: seq<Facet>, last: Facet)
    requires Mirrors(tree, init) && PathsApart(init + [last])
    ensures LeavesRoom(tree, Split(last.name))
  {
    var rows, p := init + [last], Split(last.name);
    assert last in rows && forall f :: f in init ==> f in rows;
    forall q: Path | GetPath(tree, q).Some? ensures Beside(p, q, GetPath(tree, q).value) {
      if GetPath(tree, q).value.Object? {
        assert IsInner(init, q);
        var f :| f in init && q < Split(f.name);
        assert Comparable(Split(f.name), p) ==> Split(f.name) == p;
      } else {
        assert IsLeafOf(init, q, GetPath(tree, q).value);
        var f :| f in init && Split(f.name) == q;
        assert Comparable(Split(f.name), p) ==> Split(f.name) == p;
      }
    }
  }

  lemma {:induction false} EnterMirrors(tree: Doc, init: seq<Facet>, last: Facet)
    requires Mirrors(tree, init) && PathsApart(init + [last])
    ensures var r := Enter(tree, Split(last.name), Array(last.result)); r.Some? && Mirrors(r.value, init + [last])
  {
    var rows, p, v := init + [last], Split(last.name), Array(last.result);
    assert last in rows && forall f :: f in init ==> f in rows;
    RoomForNext(tree, init, last);
    RoomIsFree(tree, p);
    EnterFree(tree, p, v, p);
    var tree' := Enter(tree, p, v).value;
    forall f | f in rows ensures GetPath(tree', Split(f.name)) == Some(Array(f.result)) {
      EnterFree(tree, p, v, Split(f.name));
      assert Comparable(Split(f.name), p) ==> Split(f.name) == p && f.result == last.result;
    }
    forall q: Path | GetPath(tree', q).Some?
      ensures if GetPath(tree', q).value.Object? then IsInner(rows, q) else IsLeafOf(rows, q, GetPath(tree', q).value)
    {
      EnterFree(tree, p, v, q);
      StillMirrors(tree, init, last, q);
    }
  }

  lemma {:induction false} StillMirrors(tree: Doc, init: seq<Facet>, last: Facet, q: Path)
    requires Mirrors(tree, init)
    ensures IsLeafOf(init + [last], Split(last.name), Array(last.result))
    ensures q < Split(last.name) ==> IsInner(init + [last], q)
    ensures GetPath(tree, q).Some? ==>
              if GetPath(tree, q).value.Object? then IsInner(init + [last], q)
              else IsLeafOf(init + [last], q, GetPath(tree, q).value)
  {
    var rows := init + [last];
    assert last in rows;
    if GetPath(tree, q).Some? {
      if GetPath(tree, q).value.Object? {
        assert IsInner(init, q);
        var f :| f in init && q < Split(f.name);
        assert f in rows;
      } else {
        assert IsLeafOf(init, q, GetPath(tree, q).value);
        var f :| f in init && Split(f.name) == q && GetPath(tree, q).value == Array(f.result);
        assert f in rows;
      }
    }
  }

  /** For names of any number of dots, none the front of another: the document holds every array at its path, and
      nothing else but the documents on the way. */
  lemma {:induction false} DottedNamesHold(rows: seq<Facet>)
    requires PathsApart(rows)
    ensures ObjectAgg(rows).Some? && Mirrors(ObjectAgg(rows).value, rows)
  {
    if rows == [] {
      forall q: Path ensures GetPath([], q) == None { }
    } else {
      var init, last := rows[..|rows| - 1], rows[|rows| - 1];
      assert rows == init + [last];
      assert forall f :: f in init ==> f in rows;
      DottedNamesHold(init);
      EnterMirrors(ObjectAgg(init).value, init, last);
    }
  }

  /** Where a name is the front of an earlier one, the stage fails. */
  lemma {:induction false} FrontFails(tree: Doc, p: Path, v: Value)
    requires GetPath(tree, p).Some? && GetPath(tree, p).value.Object?
    ensures Enter(tree, p, v) == None
    decreases |p|
  {
    if |p| > 1 { FrontFails(Sub(tree, p[0]), p[1..], v); }
  }

  /** Where an earlier name is the front of this one, its array is replaced. */
  lemma {:induction false} LeafIsReplaced(tree: Doc, front: Path, rest: Path, v: Value)
    requires GetPath(tree, front).Some? && !GetPath(tree, front).value.Object?
    ensures Enter(tree, front + rest, v).Some? && GetPath(Enter(tree, front + rest, v).value, front) == Some(v)
    decreases |front|
  {
    var p := front + rest;
    if |front| == 1 {
      GetSet(tree, p[0], v);
    } else {
      assert p[1..] == front[1..] + rest;
      LeafIsReplaced(Sub(tree, front[0]), front[1..], rest, v);
      GetSet(tree, p[0], Object(Enter(Sub(tree, p[0]), p[1..], v).value));
    }
  }
}

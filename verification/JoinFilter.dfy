/**
 The filter that joins a right document of a `$lookup`: `$in` with the left document's values, on the
 foreign field. What the filter reads at a dotted path, and which writes it can see.
 */
module JoinFilter {
  import opened Options
  import opened Documents
  import opened Projection

  datatype Outcome = Match | Mismatch | NotFound

  /** What a traversal leaves in its state, and whether it reports the path as missing. */
  datatype Seen = Seen(outcome: Outcome, missing: bool)

  /** The value at the end of the path, and if it is an array its elements. */
  predicate Hits(v: Value, wanted: set<Value>) {
    v in wanted || (v.Array? && exists i :: 0 <= i < |v.items| && v.items[i] in wanted)
  }

  /** TraverseBsonCore for `$in`. A path that ends at a scalar is not found, but not reported as missing. */
  function Compare(d: Doc, p: Path, wanted: set<Value>): Seen
    decreases |p|, 0
  {
    match Get(d, p[0])
    case None => Seen(NotFound, true)
    case Some(v) =>
      if |p| == 1 then Seen(if Hits(v, wanted) then Match else Mismatch, false)
      else match v
           case Object(fields) => Compare(fields, p[1..], wanted)
           case Array(items) => CompareItems(items, p[1..], wanted)
           case _ => Seen(NotFound, false)
  }

  /** The documents of an array: a match in one is a match, otherwise a path missing in one is missing. */
  function CompareItems(items: seq<Value>, p: Path, wanted: set<Value>): Seen
    decreases |p|, 1 + |items|
  {
    if items == [] then Seen(Mismatch, false)
    else
      var rest := CompareItems(items[1..], p, wanted);
      if !items[0].Object? then rest else Either(Compare(items[0].fields, p, wanted), rest)
  }

  function Either(a: Seen, b: Seen): Seen {
    if a.outcome == Match || b.outcome == Match then Seen(Match, false)
    else if a.missing || b.missing then Seen(NotFound, true)
    else Seen(Mismatch, false)
  }

  /** bson_dollar_lookup_join_filter: a wanted null also finds documents without the path. */
  predicate Joins(d: Doc, p: Path, wanted: set<Value>) {
    var outcome := Compare(d, p, wanted).outcome;
    outcome == Match || (outcome == NotFound && Null in wanted)
  }

  /* ---------- writes the filter does not see ---------- */

  lemma {:induction false} SameField(d: Doc, d': Doc, p: Path, wanted: set<Value>)
    requires Get(d, p[0]) == Get(d', p[0])
    ensures Compare(d, p, wanted) == Compare(d', p, wanted)
  {
  }

  lemma {:induction false} UnsetUnseen(d: Doc, q: Path, p: Path, wanted: set<Value>)
    requires !Comparable(p, q)
    ensures Compare(UnsetDeep(d, q), p, wanted) == Compare(d, p, wanted)
    decreases |p|, 0
  {
    if p[0] != q[0] {
      UnsetDeepKeeps(d, q, p[0]);
      SameField(d, UnsetDeep(d, q), p, wanted);
    } else {
      ComparableTail(p, q);
      match Get(d, q[0])
      case Some(Object(fields)) =>
        UnsetUnseen(fields, q[1..], p[1..], wanted);
        GetSetSub(d, q[0], UnsetDeep(fields, q[1..]), q[0]);
      case Some(Array(items)) =>
        UnsetUnseenItems(items, q[1..], p[1..], wanted);
        GetSet(d, q[0], Array(UnsetItems(items, q[1..])));
      case _ =>
    }
  }

  lemma {:induction false} UnsetUnseenItems(items: seq<Value>, q: Path, p: Path, wanted: set<Value>)
    requires !Comparable(p, q)
    ensures CompareItems(UnsetItems(items, q), p, wanted) == CompareItems(items, p, wanted)
    decreases |p|, 1 + |items|
  {
    if items != [] {
      UnsetUnseenItems(items[1..], q, p, wanted);
      assert UnsetItems(items, q)[1..] == UnsetItems(items[1..], q);
      if items[0].Object? { UnsetUnseen(items[0].fields, q, p, wanted); }
    }
  }

  lemma {:induction false} ReplaceUnseen(d: Doc, q: Path, v: Value, p: Path, wanted: set<Value>)
    requires !Comparable(p, q) && GetPath(d, q).Some?
    ensures Compare(SetPath(d, q, v), p, wanted) == Compare(d, p, wanted)
    decreases |p|
  {
    if p[0] != q[0] {
      SetPathKeeps(d, q, v, p[0]);
      SameField(d, SetPath(d, q, v), p, wanted);
    } else {
      ComparableTail(p, q);
      ReplaceUnseen(Sub(d, q[0]), q[1..], v, p[1..], wanted);
      GetSetSub(d, q[0], SetPath(Sub(d, q[0]), q[1..], v), q[0]);
    }
  }

  lemma {:induction false} RemoveUnseen(d: Doc, q: Path, p: Path, wanted: set<Value>)
    requires !Comparable(p, q)
    ensures Compare(RemovePath(d, q), p, wanted) == Compare(d, p, wanted)
    decreases |p|
  {
    if p[0] != q[0] {
      RemovePathKeeps(d, q, p[0]);
      SameField(d, RemovePath(d, q), p, wanted);
    } else {
      ComparableTail(p, q);
      if HasObject(d, q[0]) {
        RemoveUnseen(Sub(d, q[0]), q[1..], p[1..], wanted);
        GetSetSub(d, q[0], RemovePath(Sub(d, q[0]), q[1..]), q[0]);
      }
    }
  }

  lemma {:induction false} UnwindUnseen(d: Doc, q: Path, preserve: bool, o: Doc, p: Path, wanted: set<Value>)
    requires !Comparable(p, q) && o in Unwind(d, q, preserve)
    ensures Compare(o, p, wanted) == Compare(d, p, wanted)
  {
    match GetPath(d, q)
    case Some(Null) => ReplaceUnseen(d, q, Null, p, wanted);
    case Some(Array(items)) =>
      if items == [] {
        RemoveUnseen(d, q, p, wanted);
      } else {
        var i :| 0 <= i < |items| && o == Elements(d, q, items)[i];
        ReplaceUnseen(d, q, items[i], p, wanted);
      }
    case _ =>
  }

  /* ---------- writes it does see ---------- */

  lemma {:induction false} CompareAt(p: Path, v: Value, wanted: set<Value>)
    ensures Compare(At(p, v), p, wanted) == Seen(if Hits(v, wanted) then Match else Mismatch, false)
    decreases |p|
  {
    GetSingle(p[0], if |p| == 1 then v else Object(At(p[1..], v)));
    if |p| > 1 { CompareAt(p[1..], v, wanted); }
  }

  // Below p, the traversal goes on in the value at p.
  lemma {:induction false} CompareBelow(p: Path, v: Value, r: Path, wanted: set<Value>)
    ensures Compare(At(p, v), p + r, wanted) == Compare([Field(p[0], v)], [p[0]] + r, wanted)
    decreases |p|
  {
    if |p| > 1 {
      GetSingle(p[0], Object(At(p[1..], v)));
      assert (p + r)[1..] == p[1..] + r;
      CompareBelow(p[1..], v, r, wanted);
      GetSingle(p[1], v);
      GetSingle(p[0], v);
      assert ([p[0]] + r)[1..] == r == ([p[1]] + r)[1..];
      assert p[1..][0] == p[1];
    } else {
      assert At(p, v) == [Field(p[0], v)] && p == [p[0]];
    }
  }

  lemma {:induction false} SetAt(p: Path, x: Value, q: Path, v: Value)
    requires q <= p
    ensures SetDeep(At(p, x), q, v) == At(q, v) == SetPath(At(p, x), q, v)
    decreases |q|
  {
    if |q| == 1 {
      GetSingle(p[0], if |p| == 1 then x else Object(At(p[1..], x)));
    } else {
      assert q[1..] <= p[1..];
      GetSingle(p[0], Object(At(p[1..], x)));
      SetAt(p[1..], x, q[1..], v);
    }
  }

  /* ---------- what the filter decides ---------- */

  /** A way down the path, through a document of every array on it, ends at v. */
  ghost predicate Reaches(d: Doc, p: Path, v: Value)
    decreases |p|, 0
  {
    if |p| == 1 then Get(d, p[0]) == Some(v)
    else match Get(d, p[0])
         case Some(Object(fields)) => Reaches(fields, p[1..], v)
         case Some(Array(items)) => exists i :: 0 <= i < |items| && ReachesIn(items[i], p[1..], v)
         case _ => false
  }

  ghost predicate ReachesIn(item: Value, p: Path, v: Value)
    decreases |p|, 1
  {
    item.Object? && Reaches(item.fields, p, v)
  }

  /** The value is wanted, or it is an array and an element is. */
  predicate IsWanted(v: Value, wanted: set<Value>) {
    v in wanted || (v.Array? && exists i :: 0 <= i < |v.items| && v.items[i] in wanted)
  }

  /** Some way down the path meets a document without the next name. */
  predicate IsMissing(d: Doc, p: Path)
    decreases |p|, 0
  {
    match Get(d, p[0])
    case None => true
    case Some(Object(fields)) => |p| > 1 && IsMissing(fields, p[1..])
    case Some(Array(items)) => |p| > 1 && exists i :: 0 <= i < |items| && MissingIn(items[i], p[1..])
    case _ => false
  }

  predicate MissingIn(item: Value, p: Path)
    decreases |p|, 1
  {
    item.Object? && IsMissing(item.fields, p)
  }

  /** The path goes through documents alone and then meets a scalar too soon. */
  predicate EndsAtScalar(d: Doc, p: Path)
    decreases |p|
  {
    |p| > 1 && match Get(d, p[0])
               case None => false
               case Some(Object(fields)) => EndsAtScalar(fields, p[1..])
               case Some(Array(_)) => false
               case _ => true
  }

  ghost predicate Meets(d: Doc, p: Path, wanted: set<Value>) {
    exists v :: Reaches(d, p, v) && IsWanted(v, wanted)
  }

  ghost predicate MeetsIn(item: Value, p: Path, wanted: set<Value>) {
    item.Object? && Meets(item.fields, p, wanted)
  }

  lemma {:induction false} MeetsBelow(d: Doc, p: Path, wanted: set<Value>)
    requires |p| > 1 && Get(d, p[0]).Some?
    ensures Get(d, p[0]).value.Object? ==>
              (Meets(d, p, wanted) <==> Meets(Get(d, p[0]).value.fields, p[1..], wanted))
    ensures Get(d, p[0]).value.Array? ==>
              var items := Get(d, p[0]).value.items;
              (Meets(d, p, wanted) <==> exists i :: 0 <= i < |items| && MeetsIn(items[i], p[1..], wanted))
  {
    match Get(d, p[0]).value
    case Object(fields) =>
      if v :| Reaches(d, p, v) && IsWanted(v, wanted) { assert Reaches(fields, p[1..], v); }
      if v :| Reaches(fields, p[1..], v) && IsWanted(v, wanted) { assert Reaches(d, p, v); }
    case Array(items) =>
      if v :| Reaches(d, p, v) && IsWanted(v, wanted) {
        var i :| 0 <= i < |items| && ReachesIn(items[i], p[1..], v);
        assert MeetsIn(items[i], p[1..], wanted);
      }
      if i :| 0 <= i < |items| && MeetsIn(items[i], p[1..], wanted) {
        var v :| Reaches(items[i].fields, p[1..], v) && IsWanted(v, wanted);
        assert ReachesIn(items[i], p[1..], v);
        assert Reaches(d, p, v);
      }
    case _ =>
  }

  lemma {:induction false} CompareIs(d: Doc, p: Path, wanted: set<Value>)
    ensures Compare(d, p, wanted).outcome == Match <==> Meets(d, p, wanted)
    ensures Compare(d, p, wanted).missing <==> !Meets(d, p, wanted) && IsMissing(d, p)
    ensures Compare(d, p, wanted).outcome == NotFound
            <==> !Meets(d, p, wanted) && (IsMissing(d, p) || EndsAtScalar(d, p))
    decreases |p|, 0
  {
    if Get(d, p[0]).Some? {
      if |p| == 1 {
        assert Meets(d, p, wanted) <==> IsWanted(Get(d, p[0]).value, wanted) by {
          if IsWanted(Get(d, p[0]).value, wanted) { assert Reaches(d, p, Get(d, p[0]).value); }
        }
      } else {
        MeetsBelow(d, p, wanted);
        match Get(d, p[0]).value
        case Object(fields) => CompareIs(fields, p[1..], wanted);
        case Array(items) => CompareItemsIs(items, p[1..], wanted);
        case _ => assert !Meets(d, p, wanted);
      }
    }
  }

  lemma {:induction false} CompareItemsIs(items: seq<Value>, p: Path, wanted: set<Value>)
    ensures var seen := CompareItems(items, p, wanted);
            var meets := exists i :: 0 <= i < |items| && MeetsIn(items[i], p, wanted);
            var missing := exists i :: 0 <= i < |items| && MissingIn(items[i], p);
            && (seen.outcome == Match <==> meets)
            && (seen.missing <==> !meets && missing)
            && (seen.outcome == NotFound <==> !meets && missing)
    decreases |p|, 1 + |items|
  {
    if items != [] {
      CompareItemsIs(items[1..], p, wanted);
      if items[0].Object? { CompareIs(items[0].fields, p, wanted); }
      SomeItem(items, i => MeetsIn(i, p, wanted));
      SomeItem(items, i => MissingIn(i, p));
    }
  }

  lemma {:induction false} SomeItem(items: seq<Value>, has: Value -> bool)
    requires items != []
    ensures (exists i :: 0 <= i < |items| && has(items[i]))
            <==> has(items[0]) || exists i :: 0 <= i < |items[1..]| && has(items[1..][i])
  {
    if i :| 0 <= i < |items| && has(items[i]) { assert i > 0 ==> items[1..][i - 1] == items[i]; }
    if i :| 0 <= i < |items[1..]| && has(items[1..][i]) { assert items[i + 1] == items[1..][i]; }
  }

  /** A document joins if a way down the path ends at something wanted; and if null is wanted, also if the path is
      missing somewhere, or ends at a scalar too soon. */
  lemma {:induction false} JoinsIff(d: Doc, p: Path, wanted: set<Value>)
    ensures Joins(d, p, wanted) <==>
            || (exists v :: Reaches(d, p, v) && IsWanted(v, wanted))
            || (Null in wanted && (IsMissing(d, p) || EndsAtScalar(d, p)))
  {
    CompareIs(d, p, wanted);
  }
}

/**
 Documents with nested documents and arrays, and what reads and writes them at a dotted path.
 */
module Documents {
  import opened Options

  datatype Value = Null | Number(n: int) | Scalar(content: string) | Array(items: seq<Value>) | Object(fields: Doc)

  datatype Field = Field(key: string, value: Value)

  /** A document is its fields in order. */
  type Doc = seq<Field>

  /** A dotted path, split. */
  type Path = p: seq<string> | |p| >= 1 witness [""]

  /* ---------- names ---------- */

  const DOT: char := '.'

  predicate HasDot(s: string) {
    DOT in s
  }

  /** A name split at its dots. */
  function Split(s: string): (p: Path)
    ensures !HasDot(s) ==> p == [s]
    ensures HasDot(s) ==> |p| >= 2
    ensures p[0] <= s && !HasDot(p[0])
    decreases |s|, |s| + 1
  {
    SplitFrom(s, 0)
  }

  // s[..i] has no dot.
  function SplitFrom(s: string, i: nat): (p: Path)
    requires i <= |s| && DOT !in s[..i]
    ensures !HasDot(s) ==> p == [s]
    ensures HasDot(s) ==> |p| >= 2
    ensures p[0] <= s && !HasDot(p[0])
    decreases |s|, |s| - i
  {
    if i == |s| then [s]
    else if s[i] == DOT then [s[..i]] + Split(s[i + 1..])
    else SplitFrom(s, i + 1)
  }

  function Joined(p: Path): string
    decreases |p|
  {
    if |p| == 1 then p[0] else p[0] + [DOT] + Joined(p[1..])
  }

  /** The split takes the name apart at every dot and loses nothing. */
  lemma {:induction false} SplitIsAll(s: string)
    ensures Joined(Split(s)) == s && forall i :: 0 <= i < |Split(s)| ==> !HasDot(Split(s)[i])
    decreases |s|, |s| + 1
  {
    SplitFromIsAll(s, 0);
  }

  lemma {:induction false} SplitFromIsAll(s: string, i: nat)
    requires i <= |s| && DOT !in s[..i]
    ensures Joined(SplitFrom(s, i)) == s && forall k :: 0 <= k < |SplitFrom(s, i)| ==> !HasDot(SplitFrom(s, i)[k])
    decreases |s|, |s| - i
  {
    if i == |s| {
      assert s[..i] == s;
    } else if s[i] == DOT {
      SplitIsAll(s[i + 1..]);
      assert SplitFrom(s, i)[1..] == Split(s[i + 1..]);
      assert s == s[..i] + [DOT] + s[i + 1..];
    } else {
      assert s[..i + 1] == s[..i] + [s[i]];
      SplitFromIsAll(s, i + 1);
    }
  }

  predicate Comparable(p: Path, q: Path) {
    p <= q || q <= p
  }

  lemma {:induction false} ComparableTail(p: Path, q: Path)
    requires p[0] == q[0]
    ensures |p| == 1 || |q| == 1 ==> Comparable(p, q)
    ensures |p| > 1 && |q| > 1 ==> (Comparable(p, q) <==> Comparable(p[1..], q[1..]))
  {
    assert p == [p[0]] + p[1..] && q == [q[0]] + q[1..];
  }

  /* ---------- fields ---------- */

  function Get(d: Doc, k: string): Option<Value> {
    if d == [] then None else if d[0].key == k then Some(d[0].value) else Get(d[1..], k)
  }

  /** Get reads the first field of that key. */
  lemma {:induction false} GetIsFirst(d: Doc, k: string) returns (i: nat)
    ensures if Get(d, k).None? then forall j :: 0 <= j < |d| ==> d[j].key != k
            else i < |d| && d[i] == Field(k, Get(d, k).value) && forall j :: 0 <= j < i ==> d[j].key != k
  {
    i := 0;
    if d != [] && d[0].key != k {
      i := GetIsFirst(d[1..], k);
      i := i + 1;
      assert forall j :: 0 < j < |d| ==> d[j] == d[1..][j - 1];
    }
  }

  /** Replaced in its place, or appended. */
  function Set(d: Doc, k: string, v: Value): Doc {
    if d == [] then [Field(k, v)]
    else if d[0].key == k then [Field(k, v)] + d[1..]
    else [d[0]] + Set(d[1..], k, v)
  }

  function Remove(d: Doc, k: string): Doc {
    if d == [] then [] else (if d[0].key == k then [] else [d[0]]) + Remove(d[1..], k)
  }

  lemma {:induction false} GetSet(d: Doc, k: string, v: Value)
    ensures Get(Set(d, k, v), k) == Some(v)
  {
    if d != [] && d[0].key != k {
      GetSet(d[1..], k, v);
      assert Set(d, k, v)[1..] == Set(d[1..], k, v);
    }
  }

  lemma {:induction false} SetSet(d: Doc, k: string, v: Value, w: Value)
    ensures Set(Set(d, k, v), k, w) == Set(d, k, w)
  {
    if d != [] && d[0].key != k {
      SetSet(d[1..], k, v, w);
      assert Set(d, k, v)[1..] == Set(d[1..], k, v);
    } else {
      assert Set(d, k, v)[1..] == if d == [] then [] else d[1..];
    }
  }

  lemma {:induction false} SetIsSame(d: Doc, k: string, v: Value)
    ensures Set(d, k, v) == d <==> Get(d, k) == Some(v)
  {
    if d != [] {
      assert d == [d[0]] + d[1..];
      assert Set(d, k, v)[1..] == if d[0].key == k then d[1..] else Set(d[1..], k, v);
      SetIsSame(d[1..], k, v);
    }
  }

  lemma {:induction false} RemoveSet(d: Doc, k: string, v: Value)
    ensures Remove(Set(d, k, v), k) == Remove(d, k)
  {
    if d == [] {
      assert Set(d, k, v)[1..] == [];
    } else {
      assert Set(d, k, v)[1..] == if d[0].key == k then d[1..] else Set(d[1..], k, v);
      if d[0].key != k { RemoveSet(d[1..], k, v); }
    }
  }

  lemma {:induction false} RemoveIsSame(d: Doc, k: string)
    ensures |Remove(d, k)| <= |d|
    ensures Remove(d, k) == d <==> Get(d, k) == None
  {
    if d != [] {
      assert d == [d[0]] + d[1..];
      RemoveIsSame(d[1..], k);
      if d[0].key != k { assert Remove(d, k)[1..] == Remove(d[1..], k); }
    }
  }

  lemma {:induction false} GetSetOther(d: Doc, k: string, v: Value, other: string)
    requires other != k
    ensures Get(Set(d, k, v), other) == Get(d, other)
  {
    if d != [] {
      assert Set(d, k, v)[1..] == if d[0].key == k then d[1..] else Set(d[1..], k, v);
      if d[0].key != k { GetSetOther(d[1..], k, v, other); }
    } else {
      assert Get([Field(k, v)][1..], other) == None;
    }
  }

  lemma {:induction false} GetRemove(d: Doc, k: string, other: string)
    ensures Get(Remove(d, k), other) == if other == k then None else Get(d, other)
  {
    if d != [] {
      GetRemove(d[1..], k, other);
      if d[0].key == k {
        assert Remove(d, k) == Remove(d[1..], k);
      } else {
        assert Remove(d, k)[1..] == Remove(d[1..], k);
      }
    }
  }

  lemma {:induction false} GetAppend(d: Doc, f: Field, k: string)
    ensures Get(d + [f], k) == if Get(d, k).Some? then Get(d, k) else if f.key == k then Some(f.value) else None
  {
    if d == [] {
      assert [] + [f] == [f];
      assert Get([f][1..], k) == None;
    } else {
      assert (d + [f])[1..] == d[1..] + [f];
      GetAppend(d[1..], f, k);
    }
  }

  lemma {:induction false} SetAtEnd(d: Doc, k: string, v: Value, w: Value)
    requires Get(d, k) == None
    ensures Set(d + [Field(k, v)], k, w) == d + [Field(k, w)]
  {
    if d == [] {
      assert [] + [Field(k, v)] == [Field(k, v)];
      assert [Field(k, v)][1..] == [];
    } else {
      assert (d + [Field(k, v)])[1..] == d[1..] + [Field(k, v)];
      SetAtEnd(d[1..], k, v, w);
    }
  }

  /* ---------- paths ---------- */

  predicate HasObject(d: Doc, k: string) {
    Get(d, k).Some? && Get(d, k).value.Object?
  }

  /** The document at k, or a new one. */
  function Sub(d: Doc, k: string): Doc {
    if HasObject(d, k) then Get(d, k).value.fields else []
  }

  /** A document in its place; a new one at the end, instead of anything else that was there. */
  function SetSub(d: Doc, k: string, sub: Doc): Doc {
    if HasObject(d, k) then Set(d, k, Object(sub)) else Remove(d, k) + [Field(k, Object(sub))]
  }

  /** Writing at a dotted path, with anything but documents on the way overridden
      (bson_dollar_merge_documents with overrideNestedArrays). */
  function SetPath(d: Doc, p: Path, v: Value): Doc
    decreases |p|
  {
    if |p| == 1 then Set(d, p[0], v) else SetSub(d, p[0], SetPath(Sub(d, p[0]), p[1..], v))
  }

  function GetPath(d: Doc, p: Path): Option<Value>
    decreases |p|
  {
    if |p| == 1 then Get(d, p[0])
    else if HasObject(d, p[0]) then GetPath(Sub(d, p[0]), p[1..])
    else None
  }

  function RemovePath(d: Doc, p: Path): Doc
    decreases |p|
  {
    if |p| == 1 then Remove(d, p[0])
    else if HasObject(d, p[0]) then SetSub(d, p[0], RemovePath(Sub(d, p[0]), p[1..]))
    else d
  }

  lemma GetSetSub(d: Doc, k: string, sub: Doc, other: string)
    ensures Get(SetSub(d, k, sub), other) == if other == k then Some(Object(sub)) else Get(d, other)
  {
    if HasObject(d, k) {
      if other == k { GetSet(d, k, Object(sub)); } else { GetSetOther(d, k, Object(sub), other); }
    } else {
      GetRemove(d, k, other);
      GetAppend(Remove(d, k), Field(k, Object(sub)), other);
    }
  }

  lemma SetSubAgain(d: Doc, k: string, a: Doc, b: Doc)
    ensures SetSub(SetSub(d, k, a), k, b) == SetSub(d, k, b)
  {
    GetSetSub(d, k, a, k);
    if HasObject(d, k) {
      SetSet(d, k, Object(a), Object(b));
    } else {
      GetRemove(d, k, k);
      SetAtEnd(Remove(d, k), k, Object(a), Object(b));
    }
  }

  lemma SetSubIsSame(d: Doc, k: string, sub: Doc)
    ensures SetSub(d, k, sub) == d <==> Get(d, k) == Some(Object(sub))
  {
    GetSetSub(d, k, sub, k);
    SetIsSame(d, k, Object(sub));
  }

  lemma {:induction false} GetSetPath(d: Doc, p: Path, v: Value)
    ensures GetPath(SetPath(d, p, v), p) == Some(v)
    decreases |p|
  {
    if |p| == 1 {
      GetSet(d, p[0], v);
    } else {
      GetSetSub(d, p[0], SetPath(Sub(d, p[0]), p[1..], v), p[0]);
      GetSetPath(Sub(d, p[0]), p[1..], v);
    }
  }

  lemma {:induction false} SetSetPath(d: Doc, p: Path, v: Value, w: Value)
    ensures SetPath(SetPath(d, p, v), p, w) == SetPath(d, p, w)
    decreases |p|
  {
    if |p| == 1 {
      SetSet(d, p[0], v, w);
    } else {
      var sub := Sub(d, p[0]);
      GetSetSub(d, p[0], SetPath(sub, p[1..], v), p[0]);
      SetSetPath(sub, p[1..], v, w);
      SetSubAgain(d, p[0], SetPath(sub, p[1..], v), SetPath(sub, p[1..], w));
    }
  }

  /** The parent of the path is a document, and lacks the last name. */
  predicate Lacks(d: Doc, p: Path)
    decreases |p|
  {
    if |p| == 1 then Get(d, p[0]) == None else HasObject(d, p[0]) && Lacks(Sub(d, p[0]), p[1..])
  }

  /** Writing something at a path and removing it again leaves the document as it was exactly when the
      path was missing there and its parent was not. */
  lemma {:induction false} RemoveSetPath(d: Doc, p: Path, v: Value)
    ensures RemovePath(SetPath(d, p, v), p) == d <==> Lacks(d, p)
    decreases |p|
  {
    if |p| == 1 {
      RemoveSet(d, p[0], v);
      RemoveIsSame(d, p[0]);
    } else {
      var sub := Sub(d, p[0]);
      var inner := SetPath(sub, p[1..], v);
      GetSetSub(d, p[0], inner, p[0]);
      SetSubAgain(d, p[0], inner, RemovePath(inner, p[1..]));
      SetSubIsSame(d, p[0], RemovePath(inner, p[1..]));
      RemoveSetPath(sub, p[1..], v);
    }
  }

  /* ---------- arrays of documents ---------- */

  function Objects(docs: seq<Doc>): (vs: seq<Value>)
    ensures |vs| == |docs|
    ensures forall i :: 0 <= i < |docs| ==> vs[i] == Object(docs[i])
  {
    if docs == [] then [] else [Object(docs[0])] + Objects(docs[1..])
  }

  lemma ObjectsIsInjective(a: seq<Doc>, b: seq<Doc>)
    ensures Objects(a) == Objects(b) <==> a == b
  {
    if Objects(a) == Objects(b) {
      forall i | 0 <= i < |a| ensures a[i] == b[i] { assert Objects(a)[i] == Objects(b)[i]; }
    }
  }

  predicate NoneEmpty(docs: seq<Doc>) {
    forall i :: 0 <= i < |docs| ==> docs[i] != []
  }

  function NonEmpty(docs: seq<Doc>): (rest: seq<Doc>)
    ensures |rest| <= |docs| && NoneEmpty(rest)
  {
    if docs == [] then [] else (if docs[0] == [] then [] else [docs[0]]) + NonEmpty(docs[1..])
  }

  lemma {:induction false} NonEmptyIsAll(docs: seq<Doc>)
    ensures NoneEmpty(docs) ==> NonEmpty(docs) == docs
    ensures !NoneEmpty(docs) ==> |NonEmpty(docs)| < |docs|
  {
    if docs != [] {
      NonEmptyIsAll(docs[1..]);
      assert docs == [docs[0]] + docs[1..];
      assert docs[0] != [] ==> (NoneEmpty(docs) <==> NoneEmpty(docs[1..]));
    }
  }

  /** What bson_array_agg writes of the documents: an empty one is left out as a missing value. */
  function ArrayItems(docs: seq<Doc>): seq<Value> {
    Objects(NonEmpty(docs))
  }

  /** All of them are written if and only if none is empty. */
  lemma ItemsAreAllIff(docs: seq<Doc>)
    ensures ArrayItems(docs) == Objects(docs) <==> NoneEmpty(docs)
  {
    NonEmptyIsAll(docs);
    ObjectsIsInjective(NonEmpty(docs), docs);
  }

  function Elements(d: Doc, p: Path, items: seq<Value>): (out: seq<Doc>)
    ensures |out| == |items|
    ensures forall i :: 0 <= i < |items| ==> out[i] == SetPath(d, p, items[i])
  {
    if items == [] then [] else [SetPath(d, p, items[0])] + Elements(d, p, items[1..])
  }

  /** BsonUnwindArray, without an index field. */
  function Unwind(d: Doc, p: Path, preserve: bool): seq<Doc> {
    match GetPath(d, p)
    case None => if preserve then [d] else []
    case Some(Null) => if preserve then [SetPath(d, p, Null)] else []
    case Some(Array(items)) => if items == [] && preserve then [RemovePath(d, p)] else Elements(d, p, items)
    case Some(_) => [d]
  }

  /* ---------- the rows of an unwind ---------- */

  lemma {:induction false} SetPathIsSame(d: Doc, p: Path, v: Value)
    requires GetPath(d, p) == Some(v)
    ensures SetPath(d, p, v) == d
    decreases |p|
  {
    if |p| == 1 {
      SetIsSame(d, p[0], v);
    } else {
      SetPathIsSame(Sub(d, p[0]), p[1..], v);
      SetSubIsSame(d, p[0], Sub(d, p[0]));
    }
  }

  /** Elsewhere nothing changes. */
  ghost predicate SameElsewhere(d: Doc, o: Doc, p: Path) {
    forall q: Path :: !Comparable(p, q) ==> GetPath(o, q) == GetPath(d, q)
  }

  lemma {:induction false} SetElsewhere(d: Doc, p: Path, v: Value, q: Path)
    requires GetPath(d, p).Some? && !Comparable(p, q)
    ensures GetPath(SetPath(d, p, v), q) == GetPath(d, q)
    decreases |p|
  {
    if p[0] != q[0] {
      if |p| == 1 {
        GetSetOther(d, p[0], v, q[0]);
      } else {
        GetSetSub(d, p[0], SetPath(Sub(d, p[0]), p[1..], v), q[0]);
      }
    } else {
      ComparableTail(p, q);
      SetElsewhere(Sub(d, p[0]), p[1..], v, q[1..]);
      GetSetSub(d, p[0], SetPath(Sub(d, p[0]), p[1..], v), p[0]);
    }
  }

  lemma {:induction false} RemoveElsewhere(d: Doc, p: Path, q: Path)
    requires GetPath(d, p).Some? && !Comparable(p, q)
    ensures GetPath(RemovePath(d, p), q) == GetPath(d, q)
    decreases |p|
  {
    if p[0] != q[0] {
      if |p| == 1 {
        GetRemove(d, p[0], q[0]);
      } else {
        GetSetSub(d, p[0], RemovePath(Sub(d, p[0]), p[1..]), q[0]);
      }
    } else {
      ComparableTail(p, q);
      RemoveElsewhere(Sub(d, p[0]), p[1..], q[1..]);
      GetSetSub(d, p[0], RemovePath(Sub(d, p[0]), p[1..]), p[0]);
    }
  }

  lemma {:induction false} RemovedIsGone(d: Doc, p: Path)
    requires GetPath(d, p).Some?
    ensures GetPath(RemovePath(d, p), p) == None
    decreases |p|
  {
    if |p| == 1 {
      GetRemove(d, p[0], p[0]);
    } else {
      RemovedIsGone(Sub(d, p[0]), p[1..]);
      GetSetSub(d, p[0], RemovePath(Sub(d, p[0]), p[1..]), p[0]);
    }
  }

  /** `$unwind`, by what is at the path. Nothing, or null: the document itself, if preserved. An empty array: the
      document without it, if preserved. An array: one row per element, in order, with the element in its
      place. Anything else: the document itself. Elsewhere nothing changes. */
  lemma {:induction false} UnwindRows(d: Doc, p: Path, preserve: bool)
    ensures var out, at := Unwind(d, p, preserve), GetPath(d, p);
            if at.None? || at.value == Null then out == if preserve then [d] else []
            else if !at.value.Array? then out == [d]
            else if at.value.items == [] then
              if !preserve then out == []
              else |out| == 1 && GetPath(out[0], p) == None && SameElsewhere(d, out[0], p)
            else
              && |out| == |at.value.items|
              && forall i :: 0 <= i < |out| ==>
                   GetPath(out[i], p) == Some(at.value.items[i]) && SameElsewhere(d, out[i], p)
  {
    match GetPath(d, p)
    case Some(Null) => SetPathIsSame(d, p, Null);
    case Some(Array(items)) =>
      RemovedIsGone(d, p);
      forall q: Path | !Comparable(p, q) ensures GetPath(RemovePath(d, p), q) == GetPath(d, q) {
        RemoveElsewhere(d, p, q);
      }
      forall v ensures GetPath(SetPath(d, p, v), p) == Some(v) && SameElsewhere(d, SetPath(d, p, v), p) {
        GetSetPath(d, p, v);
        forall q: Path | !Comparable(p, q) ensures GetPath(SetPath(d, p, v), q) == GetPath(d, q) {
          SetElsewhere(d, p, v, q);
        }
      }
    case _ =>
  }
}

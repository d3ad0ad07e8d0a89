/**
 What `$set`, `$unset` and `$project` do to a document. On the way down a dotted path they enter every
 element of an array, and an array in an array; `$set` makes a document of anything else it meets.
 */
module Projection {
  import opened Options
  import opened Documents
  import Bson

  function SetDeep(d: Doc, q: Path, v: Value): Doc
    decreases |q|, 0
  {
    if |q| == 1 then Set(d, q[0], v)
    else if Get(d, q[0]).Some? && Get(d, q[0]).value.Array?
    then Set(d, q[0], Array(SetItems(Get(d, q[0]).value.items, q[1..], v)))
    else SetSub(d, q[0], SetDeep(Sub(d, q[0]), q[1..], v))
  }

  function SetItem(item: Value, q: Path, v: Value): Value
    decreases |q|, 1, item, 1
  {
    match item
    case Object(fields) => Object(SetDeep(fields, q, v))
    case Array(items) => Array(SetItems(items, q, v))
    case _ => Object(SetDeep([], q, v))
  }

  function SetItems(items: seq<Value>, q: Path, v: Value): (out: seq<Value>)
    ensures |out| == |items|
    decreases |q|, 1, items, 0
  {
    if items == [] then [] else [SetItem(items[0], q, v)] + SetItems(items[1..], q, v)
  }

  function UnsetDeep(d: Doc, q: Path): Doc
    decreases |q|, 0
  {
    if |q| == 1 then Remove(d, q[0])
    else match Get(d, q[0])
         case Some(Object(fields)) => SetSub(d, q[0], UnsetDeep(fields, q[1..]))
         case Some(Array(items)) => Set(d, q[0], Array(UnsetItems(items, q[1..])))
         case _ => d
  }

  function UnsetItem(item: Value, q: Path): Value
    decreases |q|, 1, item, 1
  {
    match item
    case Object(fields) => Object(UnsetDeep(fields, q))
    case Array(items) => Array(UnsetItems(items, q))
    case _ => item
  }

  function UnsetItems(items: seq<Value>, q: Path): (out: seq<Value>)
    ensures |out| == |items|
    decreases |q|, 1, items, 0
  {
    if items == [] then [] else [UnsetItem(items[0], q)] + UnsetItems(items[1..], q)
  }

  /** The rest of every path that goes on below k. */
  function Tails(paths: seq<Path>, k: string): (tails: seq<Path>)
    ensures forall t: Path :: t in tails ==> [k] + t in paths
    ensures forall q: Path :: q in paths && q[0] == k && |q| > 1 ==> q[1..] in tails
  {
    if paths == [] then []
    else
      var q := paths[0];
      assert |q| > 1 ==> q == [q[0]] + q[1..];
      (if q[0] == k && |q| > 1 then [q[1..]] else []) + Tails(paths[1..], k)
  }

  /** An inclusion. A path that ends at a field includes it; one that goes on is followed into documents and
      arrays, and anything else is dropped. */
  function IncludeDeep(d: Doc, paths: seq<Path>): Doc
    decreases d
  {
    if d == [] then []
    else (match Included(d[0].key, d[0].value, paths) case None => [] case Some(v) => [Field(d[0].key, v)])
         + IncludeDeep(d[1..], paths)
  }

  function Included(k: string, v: Value, paths: seq<Path>): Option<Value>
    decreases v
  {
    if [k] in paths then Some(v)
    else if Tails(paths, k) == [] then None
    else match v
         case Object(fields) => Some(Object(IncludeDeep(fields, Tails(paths, k))))
         case Array(items) => Some(Array(IncludeItems(items, Tails(paths, k))))
         case _ => None
  }

  function IncludeItems(items: seq<Value>, paths: seq<Path>): seq<Value>
    decreases items
  {
    if items == [] then []
    else (match items[0]
          case Object(fields) => [Object(IncludeDeep(fields, paths))]
          case Array(inner) => [Array(IncludeItems(inner, paths))]
          case _ => [])
         + IncludeItems(items[1..], paths)
  }

  function SplitAll(names: seq<string>): (paths: seq<Path>)
    ensures |paths| == |names| && forall i :: 0 <= i < |names| ==> paths[i] == Split(names[i])
  {
    if names == [] then [] else [Split(names[0])] + SplitAll(names[1..])
  }

  /** `_id` is included too, unless a name starts with it. */
  function IncludedPaths(names: seq<string>): seq<Path> {
    if exists i :: 0 <= i < |names| && Split(names[i])[0] == Bson.ID then SplitAll(names)
    else SplitAll(names) + [[Bson.ID]]
  }

  function Include(d: Doc, names: seq<string>): Doc {
    IncludeDeep(d, IncludedPaths(names))
  }

  lemma {:induction false} IncludeFirst(d: Doc, paths: seq<Path>, k: string)
    requires d != []
    ensures Get(IncludeDeep(d, paths), k)
            == if d[0].key == k && Included(k, d[0].value, paths).Some? then Included(k, d[0].value, paths)
               else Get(IncludeDeep(d[1..], paths), k)
  {
    var rest := IncludeDeep(d[1..], paths);
    match Included(d[0].key, d[0].value, paths)
    case None => assert IncludeDeep(d, paths) == rest;
    case Some(v) => assert IncludeDeep(d, paths)[1..] == rest;
  }

  /** A field that a path ends at is kept whole. */
  lemma {:induction false} IncludedWhole(d: Doc, paths: seq<Path>, k: string)
    requires [k] in paths
    ensures Get(IncludeDeep(d, paths), k) == Get(d, k)
  {
    if d != [] {
      IncludeFirst(d, paths, k);
      if d[0].key != k { IncludedWhole(d[1..], paths, k); }
    }
  }

  /** Another one is kept as far as it is included, if no other field has its key. */
  lemma {:induction false} IncludedPart(d: Doc, paths: seq<Path>, k: string)
    requires forall i, j :: 0 <= i < j < |d| && d[i].key == k ==> d[j].key != k
    ensures Get(IncludeDeep(d, paths), k)
            == match Get(d, k) case None => None case Some(v) => Included(k, v, paths)
  {
    if d != [] {
      IncludeFirst(d, paths, k);
      IncludedPart(d[1..], paths, k);
      if d[0].key == k { NoOther(d[1..], k); }
    }
  }

  lemma {:induction false} NoOther(d: Doc, k: string)
    requires forall j :: 0 <= j < |d| ==> d[j].key != k
    ensures Get(d, k) == None
  {
    if d != [] { NoOther(d[1..], k); }
  }

  /* ---------- other fields stay ---------- */

  lemma {:induction false} SetDeepKeeps(d: Doc, q: Path, v: Value, k: string)
    requires k != q[0]
    ensures Get(SetDeep(d, q, v), k) == Get(d, k)
  {
    if |q| == 1 {
      GetSetOther(d, q[0], v, k);
    } else if Get(d, q[0]).Some? && Get(d, q[0]).value.Array? {
      GetSetOther(d, q[0], Array(SetItems(Get(d, q[0]).value.items, q[1..], v)), k);
    } else {
      GetSetSub(d, q[0], SetDeep(Sub(d, q[0]), q[1..], v), k);
    }
  }

  lemma {:induction false} SetPathKeeps(d: Doc, q: Path, v: Value, k: string)
    requires k != q[0]
    ensures Get(SetPath(d, q, v), k) == Get(d, k)
  {
    if |q| == 1 {
      GetSetOther(d, q[0], v, k);
    } else {
      GetSetSub(d, q[0], SetPath(Sub(d, q[0]), q[1..], v), k);
    }
  }

  lemma {:induction false} RemovePathKeeps(d: Doc, q: Path, k: string)
    requires k != q[0]
    ensures Get(RemovePath(d, q), k) == Get(d, k)
  {
    if |q| == 1 {
      GetRemove(d, q[0], k);
    } else if HasObject(d, q[0]) {
      GetSetSub(d, q[0], RemovePath(Sub(d, q[0]), q[1..]), k);
    }
  }

  lemma {:induction false} UnsetDeepKeeps(d: Doc, q: Path, k: string)
    requires k != q[0]
    ensures Get(UnsetDeep(d, q), k) == Get(d, k)
  {
    if |q| == 1 {
      GetRemove(d, q[0], k);
    } else {
      match Get(d, q[0])
      case Some(Object(fields)) => GetSetSub(d, q[0], UnsetDeep(fields, q[1..]), k);
      case Some(Array(items)) => GetSetOther(d, q[0], Array(UnsetItems(items, q[1..])), k);
      case _ =>
    }
  }

  /* ---------- documents with one path ---------- */

  /** The document with just v at p. */
  function At(p: Path, v: Value): Doc
    decreases |p|
  {
    if |p| == 1 then [Field(p[0], v)] else [Field(p[0], Object(At(p[1..], v)))]
  }

  lemma GetSingle(k: string, v: Value)
    ensures Get([Field(k, v)], k) == Some(v)
    ensures forall w :: Set([Field(k, v)], k, w) == [Field(k, w)]
    ensures Remove([Field(k, v)], k) == []
    ensures forall sub :: SetSub([Field(k, v)], k, sub) == [Field(k, Object(sub))]
  {
    var d := [Field(k, v)];
    assert d[1..] == [];
    assert Remove(d, k) == [];
    forall sub ensures SetSub(d, k, sub) == [Field(k, Object(sub))] {
      assert [] + [Field(k, Object(sub))] == [Field(k, Object(sub))];
    }
  }

  lemma {:induction false} AtSplit(p: Path, r: Path, v: Value)
    ensures At(p + r, v) == At(p, Object(At(r, v)))
    decreases |p|
  {
    if |p| > 1 {
      assert (p + r)[1..] == p[1..] + r;
      AtSplit(p[1..], r, v);
    } else {
      assert (p + r)[1..] == r;
    }
  }
}

/** whenMatched: "merge" of a `$merge` stage: what the merged document should be. */
module MergeDocument {
  import opened Options
  import opened Bson

  /* ---------- what the merged document should be ---------- */

  /** The keys in the order they are first seen. */
  function FirstSeen(d: FlatDoc): seq<string> {
    if d == [] then []
    else
      var front := FirstSeen(d[..|d| - 1]);
      var k := d[|d| - 1].key;
      if k in front then front else front + [k]
  }

  /** The value of the last field of that key. */
  function Last(d: FlatDoc, k: string): Option<Ranked> {
    if d == [] then None
    else if d[|d| - 1].key == k then Some(d[|d| - 1].value)
    else Last(d[..|d| - 1], k)
  }

  /** Ordered-map override: every key once, in the order first seen in the target and then the
      source; the source's last value wins, other keys keep the target's. */
  ghost predicate IsOverride(target: FlatDoc, source: FlatDoc, out: FlatDoc) {
    && |out| == |FirstSeen(target + source)|
    && forall i :: 0 <= i < |out| ==>
         && out[i].key == FirstSeen(target + source)[i]
         && Last(target + source, out[i].key) == Some(out[i].value)
  }

  /* ---------- the table as a sequence ---------- */

  /** The first field of that key, or |d|. */
  function Find(d: FlatDoc, k: string): (i: nat)
    ensures i <= |d|
    ensures i < |d| ==> d[i].key == k
    ensures forall j :: 0 <= j < i ==> d[j].key != k
  {
    if d == [] || d[0].key == k then 0 else 1 + Find(d[1..], k)
  }

  /** Entering a source field: replaced in its place, or appended. */
  function Entered(d: FlatDoc, f: FlatField): FlatDoc {
    var i := Find(d, f.key);
    if i < |d| then d[i := f] else d + [f]
  }

  function EnteredAll(d: FlatDoc, fs: FlatDoc): FlatDoc {
    if fs == [] then d else Entered(EnteredAll(d, fs[..|fs| - 1]), fs[|fs| - 1])
  }

  /** Entering a source into a target with distinct keys computes the override. */
  lemma {:induction false} EnteredAllIsOverride(target: FlatDoc, source: FlatDoc)
    requires DistinctKeys(target)
    ensures DistinctKeys(EnteredAll(target, source))
    ensures IsOverride(target, source, EnteredAll(target, source))
  {
    if source == [] {
      assert target + source == target;
      DistinctIsItsOwn(target);
    } else {
      var init, f := source[..|source| - 1], source[|source| - 1];
      var d, all := EnteredAll(target, init), target + init;
      EnteredAllIsOverride(target, init);
      assert target + source == all + [f];
      EnterStep(all, d, f);
    }
  }

  lemma {:induction false} DistinctIsItsOwn(d: FlatDoc)
    requires DistinctKeys(d)
    ensures |FirstSeen(d)| == |d|
    ensures forall i :: 0 <= i < |d| ==> FirstSeen(d)[i] == d[i].key && Last(d, d[i].key) == Some(d[i].value)
  {
    if d != [] {
      DistinctIsItsOwn(d[..|d| - 1]);
    }
  }

  lemma EnterStep(all: FlatDoc, d: FlatDoc, f: FlatField)
    requires DistinctKeys(d) && |d| == |FirstSeen(all)|
    requires forall i :: 0 <= i < |d| ==> d[i].key == FirstSeen(all)[i] && Last(all, d[i].key) == Some(d[i].value)
    ensures DistinctKeys(Entered(d, f)) && |Entered(d, f)| == |FirstSeen(all + [f])|
    ensures forall i :: 0 <= i < |Entered(d, f)| ==>
              && Entered(d, f)[i].key == FirstSeen(all + [f])[i]
              && Last(all + [f], Entered(d, f)[i].key) == Some(Entered(d, f)[i].value)
  {
    assert (all + [f])[..|all|] == all;
    var i := Find(d, f.key);
    if i < |d| {
      assert FirstSeen(all)[i] == f.key;
    }
  }
}

/**
 What a `$merge` stage writes and inserts, and how it fails, said by the fields of its documents and the
 places they stand at.
 */
module MergeWrites {
  import opened Options
  import opened Bson
  import opened Picking
  import opened MergeDocument
  import opened MergeLinks
  import opened MergeStage

  /* ---------- fields by place ---------- */

  /** The fields other than `_id`, in their order. */
  lemma {:induction false} OtherFields(d: FlatDoc) returns (at: seq<nat>)
    ensures Picks(d, (f: FlatField) => f.key != "_id", WithoutId(d), at)
  {
    if d == [] {
      at := [];
    } else {
      at := OtherFields(d[..|d| - 1]);
      at := PicksLast(d, (f: FlatField) => f.key != "_id", WithoutId(d[..|d| - 1]), at);
    }
  }

  predicate IsFirst(d: FlatDoc, k: string, i: nat) {
    i < |d| && d[i].key == k && forall j :: 0 <= j < i ==> d[j].key != k
  }

  predicate IsLast(d: FlatDoc, k: string, i: nat) {
    i < |d| && d[i].key == k && forall j :: i < j < |d| ==> d[j].key != k
  }

  predicate Lacks(d: FlatDoc, k: string) {
    forall j :: 0 <= j < |d| ==> d[j].key != k
  }

  lemma FoundFirst(d: FlatDoc, k: string)
    ensures Find(d, k) == |d| <==> Lacks(d, k)
    ensures forall i: nat :: IsFirst(d, k, i) <==> i == Find(d, k) < |d|
  {
  }

  lemma {:induction false} FoundLast(d: FlatDoc, k: string) returns (i: nat)
    ensures if Last(d, k).None? then Lacks(d, k) else IsLast(d, k, i) && Last(d, k) == Some(d[i].value)
  {
    i := 0;
    if d != [] {
      if d[|d| - 1].key == k {
        i := |d| - 1;
      } else {
        i := FoundLast(d[..|d| - 1], k);
      }
    }
  }

  lemma {:induction false} LastWithoutId(d: FlatDoc, k: string)
    ensures Last(WithoutId(d), k) == if k == ID then None else Last(d, k)
  {
    if d != [] {
      LastWithoutId(d[..|d| - 1], k);
      assert d[|d| - 1].key != ID ==> WithoutId(d)[..|WithoutId(d)| - 1] == WithoutId(d[..|d| - 1]);
    }
  }

  /* ---------- replace ---------- */

  /** The target's `_id`, and behind it the source's fields other than `_id`, in their order. */
  lemma ReplaceWrites(source: FlatDoc, target: FlatDoc) returns (at: seq<nat>)
    requires Written(Replace, source, target).Ok?
    ensures target != []
    ensures var out := Written(Replace, source, target).value;
            && out != [] && out[0] == FlatField("_id", target[0].value)
            && Picks(source, (f: FlatField) => f.key != "_id", out[1..], at)
  {
    at := OtherFields(source);
    var out := Written(Replace, source, target).value;
    assert out[1..] == WithoutId(source);
  }

  /* ---------- merge ---------- */

  /** What a merged field holds: the source's last value, `_id` apart, or else the target's first. */
  ghost predicate HoldsMerged(source: FlatDoc, rest: FlatDoc, f: FlatField) {
    if f.key != "_id" && !Lacks(source, f.key)
    then exists i: nat :: IsLast(source, f.key, i) && f.value == source[i].value
    else exists i: nat :: IsFirst(rest, f.key, i) && f.value == rest[i].value
  }

  lemma ValueIsMerged(source: FlatDoc, rest: FlatDoc, f: FlatField)
    requires ValueOf(rest, WithoutId(source), f.key) == Some(f.value)
    ensures HoldsMerged(source, rest, f)
  {
    LastWithoutId(source, f.key);
    var i := FoundLast(source, f.key);
    FoundFirst(rest, f.key);
    if f.key != ID && !Lacks(source, f.key) {
      assert IsLast(source, f.key, i);
    } else {
      assert IsFirst(rest, f.key, Find(rest, f.key));
    }
  }

  /** Whatever the target: its `_id`, and then fields of different keys, each with its merged value. */
  lemma MergeWritesValues(source: FlatDoc, target: FlatDoc)
    requires Written(Merge, source, target).Ok?
    ensures target != []
    ensures var out := Written(Merge, source, target).value;
            && out != [] && out[0] == FlatField("_id", target[0].value) && DistinctKeys(out[1..])
            && forall i :: 1 <= i < |out| ==> HoldsMerged(source, target[1..], out[i])
  {
    var rest, fs := target[1..], WithoutId(source);
    var out := Written(Merge, source, target).value;
    var merged := Merged(rest, fs).value;
    assert out[1..] == merged;
    WritesIsMerged(rest, fs, merged);
    WhatIsWritten(rest, fs, merged);
    var t := AfterSource(rest, fs);
    ListsIsDistinct(t.links.next, t.links.head, Keys(merged));
    forall i, j | 0 <= i < j < |merged| ensures merged[i].key != merged[j].key {
      assert Keys(merged)[i] != Keys(merged)[j];
    }
    forall i | 1 <= i < |out| ensures HoldsMerged(source, rest, out[i]) {
      assert out[i] == merged[i - 1];
      ValueIsMerged(source, rest, out[i]);
    }
  }

  lemma {:induction false} KeyIsNew(known: seq<string>, fs: FlatDoc, k: string)
    ensures k in NewKeys(known, fs) <==> k !in known && !Lacks(fs, k)
  {
    if fs != [] {
      var init := fs[..|fs| - 1];
      KeyIsNew(known, init, k);
      assert Lacks(fs, k) <==> Lacks(init, k) && fs[|fs| - 1].key != k;
      KeyIsNew(known, init, fs[|fs| - 1].key);
    }
  }

  lemma {:induction false} NewKeysInOrder(known: seq<string>, fs: FlatDoc, m: nat, n: nat)
    requires m < n < |NewKeys(known, fs)|
    ensures Find(fs, NewKeys(known, fs)[m]) < Find(fs, NewKeys(known, fs)[n])
  {
    var init, keys := fs[..|fs| - 1], NewKeys(known, fs);
    var front := NewKeys(known, init);
    assert keys[m] in front;
    KeyIsNew(known, init, keys[m]);
    FoundFirst(init, keys[m]);
    FindInFront(fs, keys[m]);
    FindInFront(fs, keys[n]);
    if n < |front| {
      NewKeysInOrder(known, init, m, n);
      assert keys[n] in front;
      KeyIsNew(known, init, keys[n]);
      FoundFirst(init, keys[n]);
    } else {
      KeyIsNew(known, init, keys[n]);
      assert keys[n] == fs[|fs| - 1].key;
      FoundFirst(init, keys[n]);
    }
  }

  // The first place of a key among the other fields is its first place in the document.
  lemma FirstAmongOthers(d: FlatDoc, at: seq<nat>, k: string)
    requires Picks(d, (f: FlatField) => f.key != "_id", WithoutId(d), at) && k != "_id"
    ensures Lacks(WithoutId(d), k) <==> Lacks(d, k)
    ensures !Lacks(d, k) ==> Find(WithoutId(d), k) < |at| && Find(d, k) == at[Find(WithoutId(d), k)]
  {
    var fs := WithoutId(d);
    FoundFirst(fs, k);
    FoundFirst(d, k);
    if !Lacks(d, k) {
      var i := Find(d, k);
      var m :| 0 <= m < |at| && at[m] == i;
      assert fs[m].key == k;
      var n := Find(fs, k);
      assert n <= m && d[at[n]].key == k;
    }
  }

  lemma KeysOfMerged(source: FlatDoc, rest: FlatDoc)
    requires DistinctKeys(rest) && Merged(rest, WithoutId(source)).Some?
    ensures Keys(Merged(rest, WithoutId(source)).value) == Keys(rest) + NewKeys(Keys(rest), WithoutId(source))
  {
    var fs := WithoutId(source);
    var merged := Merged(rest, fs).value;
    WritesIsMerged(rest, fs, merged);
    WhatIsWritten(rest, fs, merged);
    KeysAreFirstSeen(rest, fs);
    ChainOfDistinct(LinkedKeys(rest, fs), 0);
    assert LinkedKeys(rest, fs)[0..] == LinkedKeys(rest, fs);
  }

  lemma KeysInFront(f: FlatField, d: FlatDoc)
    ensures Keys([f] + d) == [f.key] + Keys(d)
  {
    assert ([f] + d)[1..] == d;
  }

  predicate IsOwn(source: FlatDoc, rest: FlatDoc, k: string) {
    k != "_id" && !Lacks(source, k) && Lacks(rest, k)
  }

  /** A target whose fields behind `_id` have different keys keeps them in their places; behind them come
      the source's own keys, in the order they first occur there. */
  lemma MergeWritesKeys(source: FlatDoc, target: FlatDoc) returns (added: seq<string>)
    requires Written(Merge, source, target).Ok? && target != [] && DistinctKeys(target[1..])
    ensures Keys(Written(Merge, source, target).value) == Keys(target) + added
    ensures forall k :: k in added <==> IsOwn(source, target[1..], k)
    ensures forall m, n :: 0 <= m < n < |added| ==> Find(source, added[m]) < Find(source, added[n])
  {
    added := NewKeys(Keys(target[1..]), WithoutId(source));
    KeysWritten(source, target);
    OwnKeys(source, target[1..]);
  }

  lemma MergedPart(source: FlatDoc, target: FlatDoc)
    requires Written(Merge, source, target).Ok?
    ensures target != [] && target[0].key == ID && Merged(target[1..], WithoutId(source)).Some?
    ensures Written(Merge, source, target).value
            == [FlatField(ID, target[0].value)] + Merged(target[1..], WithoutId(source)).value
  {
  }

  lemma {:induction false} KeysWithId(target: FlatDoc, merged: FlatDoc, added: seq<string>)
    requires target != [] && target[0].key == ID && Keys(merged) == Keys(target[1..]) + added
    ensures Keys([FlatField(ID, target[0].value)] + merged) == Keys(target) + added
  {
    calc {
      Keys([FlatField(ID, target[0].value)] + merged);
      { KeysInFront(FlatField(ID, target[0].value), merged); }
      [ID] + (Keys(target[1..]) + added);
      { Regroup([ID], Keys(target[1..]), added); }
      ([ID] + Keys(target[1..])) + added;
      Keys(target) + added;
    }
  }

  lemma Regroup(a: seq<string>, b: seq<string>, c: seq<string>)
    ensures a + (b + c) == (a + b) + c
  {
  }

  lemma KeysWritten(source: FlatDoc, target: FlatDoc)
    requires Written(Merge, source, target).Ok? && target != [] && DistinctKeys(target[1..])
    ensures Keys(Written(Merge, source, target).value) == Keys(target) + NewKeys(Keys(target[1..]), WithoutId(source))
  {
    var rest, fs := target[1..], WithoutId(source);
    MergedPart(source, target);
    KeysOfMerged(source, rest);
    KeysWithId(target, Merged(rest, fs).value, NewKeys(Keys(rest), fs));
  }

  lemma OwnKeys(source: FlatDoc, rest: FlatDoc)
    ensures forall k :: k in NewKeys(Keys(rest), WithoutId(source)) <==> IsOwn(source, rest, k)
    ensures var added := NewKeys(Keys(rest), WithoutId(source));
            forall m, n :: 0 <= m < n < |added| ==> Find(source, added[m]) < Find(source, added[n])
  {
    var added := NewKeys(Keys(rest), WithoutId(source));
    var at := OtherFields(source);
    forall k ensures k in added <==> IsOwn(source, rest, k) { OwnKey(source, at, rest, k); }
    forall m, n | 0 <= m < n < |added| ensures Find(source, added[m]) < Find(source, added[n]) {
      OwnKeysInOrder(source, at, Keys(rest), m, n);
    }
  }

  lemma OwnKey(source: FlatDoc, at: seq<nat>, rest: FlatDoc, k: string)
    requires Picks(source, (f: FlatField) => f.key != "_id", WithoutId(source), at)
    ensures k in NewKeys(Keys(rest), WithoutId(source)) <==> IsOwn(source, rest, k)
  {
    var fs := WithoutId(source);
    KeyIsNew(Keys(rest), fs, k);
    KeyIsFound(rest, k);
    FoundFirst(rest, k);
    if k != "_id" {
      FirstAmongOthers(source, at, k);
    } else {
      assert Lacks(fs, k);
    }
  }

  lemma OwnKeysInOrder(source: FlatDoc, at: seq<nat>, known: seq<string>, m: nat, n: nat)
    requires Picks(source, (f: FlatField) => f.key != "_id", WithoutId(source), at)
    requires m < n < |NewKeys(known, WithoutId(source))|
    ensures var added := NewKeys(known, WithoutId(source)); Find(source, added[m]) < Find(source, added[n])
  {
    var fs := WithoutId(source);
    var added := NewKeys(known, fs);
    NewKeysInOrder(known, fs, m, n);
    forall k | k in added ensures k != "_id" && !Lacks(fs, k) {
      KeyIsNew(known, fs, k);
      FoundFirst(fs, k);
      assert fs[Find(fs, k)].key == k;
    }
    assert added[m] in added && added[n] in added;
    FirstAmongOthers(source, at, added[m]);
    FirstAmongOthers(source, at, added[n]);
  }

  /* ---------- errors ---------- */

  predicate IdDiffers(source: FlatDoc, target: FlatDoc)
    requires target != []
  {
    exists i :: 0 <= i < |source| && IsFirst(source, "_id", i) && source[i].value.rank != target[0].value.rank
  }

  lemma IdIsFirst(d: FlatDoc)
    ensures IdOf(d).None? <==> Lacks(d, "_id")
    ensures forall i: nat :: IsFirst(d, "_id", i) ==> IdOf(d) == Some(d[i].value)
  {
    FoundFirst(d, "_id");
  }

  /** When each action fails, and with what. */
  lemma WhenItFails(action: WhenMatched, source: FlatDoc, target: FlatDoc)
    ensures action.KeepExisting? ==> Written(action, source, target) == Err(Internal)
    ensures action.Fail? ==> Written(action, source, target) == Err(DuplicateKey)
    ensures action.PipelineOrLet? ==> Written(action, source, target) == Err(NotSupported)
    ensures
      action.Replace? || action.Merge? ==>
        var noId := target == [] || (|target| != 1 && target[0].key != "_id");
        var w := Written(action, source, target);
        && (w == Err(ImmutableField) <==> !noId && IdDiffers(source, target))
        && (w == Err(Internal) <==>
              noId || (action.Merge? && !IdDiffers(source, target) && target[0].key != "_id"))
        && (w == Err(NeverEnds) <==>
              && action.Merge? && !noId && !IdDiffers(source, target) && target[0].key == "_id"
              && !WriteEnds(target[1..], WithoutId(source)))
        && (w.Err? ==> w.error in {ImmutableField, Internal, NeverEnds})
  {
    IdIsFirst(source);
    FoundFirst(source, "_id");
    if target != [] && !Lacks(source, "_id") { assert IsFirst(source, "_id", Find(source, "_id")); }
  }

  /* ---------- inserts ---------- */

  /** A document that begins with `_id` is inserted as it is. Otherwise its first `_id`, or if it has none the
      generated one, comes first, and then its other fields in their order. The column holds that `_id`. */
  lemma InsertedRow(s: Source) returns (i: nat, at: seq<nat>)
    ensures
      var r := NewRow(s);
      && r.doc != [] && r.doc[0] == FlatField("_id", r.objectId)
      && if s.doc != [] && s.doc[0].key == "_id" then r.doc == s.doc
         else if Lacks(s.doc, "_id") then r.objectId == s.generated && r.doc[1..] == s.doc
         else && IsFirst(s.doc, "_id", i) && r.objectId == s.doc[i].value
              && Picks(s.doc, (f: FlatField) => f.key != "_id", r.doc[1..], at)
  {
    i := Find(s.doc, "_id");
    at := OtherFields(s.doc);
    IdIsFirst(s.doc);
    FoundFirst(s.doc, "_id");
  }

  /** What a source that joins no row does. */
  lemma UnmatchedStep(a: Args, snapshot: seq<Row>, run: Run, s: Source)
    requires |snapshot| <= |run.rows| && forall i :: 0 <= i < |snapshot| ==> !a.joins(s.doc, snapshot[i])
    ensures
      var step := ApplyOne(a, snapshot, run, s);
      match a.notMatched
      case Discard => step == Ok(run)
      case FailUnmatched => step == Err(NoMatchingDocument)
      case Insert =>
        var badId := exists i :: 0 <= i < |s.doc| && IsFirst(s.doc, "_id", i) && !a.validId(s.doc[i].value);
        var taken := exists i :: 0 <= i < |run.rows| && run.rows[i].objectId.rank == NewRow(s).objectId.rank;
        step == if badId then Err(InvalidId) else if taken then Err(DuplicateKey)
                else Ok(Run(run.rows + [NewRow(s)], run.touched))
  {
    IdIsFirst(s.doc);
    FoundFirst(s.doc, "_id");
    assert forall i :: 0 <= i < |snapshot| ==> !Joins(a, snapshot, s, i);
    if a.notMatched.Insert? && !Lacks(s.doc, "_id") { assert IsFirst(s.doc, "_id", Find(s.doc, "_id")); }
  }

  /** A run fails with the error of the first source that cannot be applied, and otherwise not. */
  lemma {:induction false} RunFailsAt(a: Args, snapshot: seq<Row>, sources: seq<Source>, e: Error)
    ensures RunAll(a, snapshot, sources) == Err(e)
            <==> exists j :: 0 <= j < |sources| && FailsAt(a, snapshot, sources, j, e)
  {
    if sources != [] {
      var n := |sources| - 1;
      var init := sources[..n];
      RunFailsAt(a, snapshot, init, e);
      forall j | 0 <= j < n ensures FailsAt(a, snapshot, sources, j, e) <==> FailsAt(a, snapshot, init, j, e) {
        assert sources[..j] == init[..j];
      }
      if RunAll(a, snapshot, sources) == Err(e) && RunAll(a, snapshot, init).Ok? {
        assert FailsAt(a, snapshot, sources, n, e);
      }
    }
  }

  ghost predicate FailsAt(a: Args, snapshot: seq<Row>, sources: seq<Source>, j: nat, e: Error)
    requires j < |sources|
  {
    var before := RunAll(a, snapshot, sources[..j]);
    before.Ok? && ApplyOne(a, snapshot, before.value, sources[j]) == Err(e)
  }
}

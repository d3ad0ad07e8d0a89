/**
 The list of a "merge", whatever the target: a target with a repeated key has an entry linked in twice.
 When the loop that writes the list ends, and what it has written then.
 */
module MergeLinks {
  import opened Options
  import opened Bson
  import opened MergeDocument

  /* ---------- the links ---------- */

  /** The links, with entries named by their keys: hash_search returns the old entry for a key it has seen,
      and step 1 links that in again. */
  datatype Links = Links(head: Option<string>, tail: string, next: map<string, string>)

  function LinkKey(l: Links, k: string): Links {
    if l.head.None? then Links(Some(k), k, l.next) else Links(l.head, k, l.next[l.tail := k])
  }

  function LinkKeys(keys: seq<string>): Links {
    if keys == [] then Links(None, "", map[]) else LinkKey(LinkKeys(keys[..|keys| - 1]), keys[|keys| - 1])
  }

  function Next(next: map<string, string>, k: string): Option<string> {
    if k in next then Some(next[k]) else None
  }

  /** Following the links from `from` visits these keys and then ends. */
  predicate Lists(next: map<string, string>, from: Option<string>, keys: seq<string>)
    decreases |keys|
  {
    if keys == [] then from == None
    else from == Some(keys[0]) && Lists(next, Next(next, keys[0]), keys[1..])
  }

  lemma {:induction false} ListsIsUnique(next: map<string, string>, from: Option<string>, a: seq<string>,
                                         b: seq<string>)
    requires Lists(next, from, a) && Lists(next, from, b)
    ensures a == b
    decreases |a|
  {
    if a != [] {
      ListsIsUnique(next, Next(next, a[0]), a[1..], b[1..]);
      assert a == [a[0]] + a[1..] && b == [b[0]] + b[1..];
    }
  }

  lemma {:induction false} ListsSuffix(next: map<string, string>, from: Option<string>, keys: seq<string>, j: nat)
    requires Lists(next, from, keys) && j < |keys|
    ensures Lists(next, Some(keys[j]), keys[j..])
    decreases j
  {
    if j > 0 {
      ListsSuffix(next, Next(next, keys[0]), keys[1..], j - 1);
      assert keys[1..][j - 1..] == keys[j..];
    } else {
      assert keys[0..] == keys;
    }
  }

  lemma ListsIsDistinct(next: map<string, string>, from: Option<string>, keys: seq<string>)
    requires Lists(next, from, keys)
    ensures Distinct(keys)
  {
    forall i, j | 0 <= i < j < |keys| ensures keys[i] != keys[j] {
      ListsSuffix(next, from, keys, i);
      ListsSuffix(next, from, keys, j);
      if keys[i] == keys[j] {
        ListsIsUnique(next, Some(keys[i]), keys[i..], keys[j..]);
      }
    }
  }

  predicate LinkAt(next: map<string, string>, keys: seq<string>, i: nat)
    requires i + 1 < |keys|
  {
    Next(next, keys[i]) == Some(keys[i + 1])
  }

  lemma {:induction false} DistinctLinks(keys: seq<string>)
    requires keys != [] && Distinct(keys)
    ensures LinkKeys(keys).head == Some(keys[0]) && LinkKeys(keys).tail == keys[|keys| - 1]
    ensures forall i :: 0 <= i < |keys| - 1 ==> LinkAt(LinkKeys(keys).next, keys, i)
    ensures keys[|keys| - 1] !in LinkKeys(keys).next
    ensures forall k :: k in LinkKeys(keys).next ==> k in keys
  {
    var init := keys[..|keys| - 1];
    if init == [] {
      assert LinkKeys(init) == Links(None, "", map[]);
    } else {
      DistinctLinks(init);
      forall i | 0 <= i < |keys| - 1 ensures LinkAt(LinkKeys(keys).next, keys, i) {
        if i < |init| - 1 { assert LinkAt(LinkKeys(init).next, init, i); }
      }
    }
  }

  lemma {:induction false} FollowLinks(next: map<string, string>, keys: seq<string>)
    requires forall i :: 0 <= i < |keys| - 1 ==> LinkAt(next, keys, i)
    requires keys != [] && keys[|keys| - 1] !in next
    ensures Lists(next, Some(keys[0]), keys)
  {
    if |keys| > 1 {
      assert LinkAt(next, keys, 0);
      forall i | 0 <= i < |keys[1..]| - 1 ensures LinkAt(next, keys[1..], i) { assert LinkAt(next, keys, i + 1); }
      FollowLinks(next, keys[1..]);
    }
  }

  /** Exactly when step 1 leaves a null-terminated list of the target's fields in order: when no key
      of the target is repeated. */
  lemma LinkedIffDistinct(keys: seq<string>)
    ensures Lists(LinkKeys(keys).next, LinkKeys(keys).head, keys) <==> Distinct(keys)
  {
    var l := LinkKeys(keys);
    if Lists(l.next, l.head, keys) {
      ListsIsDistinct(l.next, l.head, keys);
    }
    if keys != [] && Distinct(keys) {
      DistinctLinks(keys);
      FollowLinks(l.next, keys);
    }
  }

  /** With a repeated key the list can be a cycle, so that the write loop never ends, or it can
      lose a field. */
  lemma RepeatedKeys()
    ensures var l := LinkKeys(["a", "b", "a"]); forall keys :: !Lists(l.next, l.head, keys)
    ensures var l := LinkKeys(["a", "b", "a", "c"]); Lists(l.next, l.head, ["a", "c"])
  {
    var l1 := LinkKeys(["a"]);
    assert ["a"][..0] == [];
    var l2 := LinkKeys(["a", "b"]);
    assert ["a", "b"][..1] == ["a"];
    var l3 := LinkKeys(["a", "b", "a"]);
    assert ["a", "b", "a"][..2] == ["a", "b"];
    assert l3 == Links(Some("a"), "a", map["a" := "b", "b" := "a"]);
    forall keys ensures !Lists(l3.next, l3.head, keys) {
      CycleNeverEnds(l3.next, "a", "b", keys);
    }
    var l4 := LinkKeys(["a", "b", "a", "c"]);
    assert ["a", "b", "a", "c"][..3] == ["a", "b", "a"];
    assert l4.next["a"] == "c" && "c" !in l4.next;
    assert ["a", "c"][1..] == ["c"] && ["c"][1..] == [];
    assert Lists(l4.next, None, []);
    assert Lists(l4.next, Some("c"), ["c"]);
  }

  lemma {:induction false} CycleNeverEnds(next: map<string, string>, x: string, y: string, keys: seq<string>)
    requires Next(next, x) == Some(y) && Next(next, y) == Some(x)
    ensures !Lists(next, Some(x), keys)
    decreases |keys|
  {
    if keys != [] { CycleNeverEnds(next, y, x, keys[1..]); }
  }

  /* ---------- where the links lead ---------- */

  /** The key after the last occurrence of k that has one after it. */
  function After(keys: seq<string>, k: string): Option<string> {
    if |keys| <= 1 then None
    else if keys[|keys| - 2] == k then Some(keys[|keys| - 1])
    else After(keys[..|keys| - 1], k)
  }

  lemma {:induction false} LinksLeadAfter(keys: seq<string>, k: string)
    ensures keys != [] ==> LinkKeys(keys).head == Some(keys[0]) && LinkKeys(keys).tail == keys[|keys| - 1]
    ensures Next(LinkKeys(keys).next, k) == After(keys, k)
  {
    if keys != [] {
      var init := keys[..|keys| - 1];
      LinksLeadAfter(init, k);
      if init == [] { assert LinkKeys(init) == Links(None, "", map[]); }
    }
  }

  function LastIndex(keys: seq<string>, k: string): (i: nat)
    requires k in keys
    ensures i < |keys| && keys[i] == k && forall j :: i < j < |keys| ==> keys[j] != k
  {
    if keys[|keys| - 1] == k then |keys| - 1 else LastIndex(keys[..|keys| - 1], k)
  }

  lemma LastIsUnique(keys: seq<string>, k: string, i: nat)
    requires i < |keys| && keys[i] == k && forall j :: i < j < |keys| ==> keys[j] != k
    ensures LastIndex(keys, k) == i
  {
  }

  lemma {:induction false} AfterLast(keys: seq<string>, k: string)
    requires k in keys
    ensures LastIndex(keys, k) < |keys| - 1 ==> After(keys, k) == Some(keys[LastIndex(keys, k) + 1])
  {
    if keys[|keys| - 1] != k {
      var init := keys[..|keys| - 1];
      if keys[|keys| - 2] != k { AfterLast(init, k); }
    }
  }

  lemma {:induction false} NothingAfter(keys: seq<string>, k: string)
    requires forall i :: 0 <= i < |keys| - 1 ==> keys[i] != k
    ensures After(keys, k) == None
  {
    if |keys| > 1 { NothingAfter(keys[..|keys| - 1], k); }
  }

  lemma {:induction false} SomethingAfter(keys: seq<string>, k: string)
    requires keys != [] && k in keys[..|keys| - 1]
    ensures After(keys, k).Some? && After(keys, k).value in keys
  {
    var init := keys[..|keys| - 1];
    if keys[|keys| - 2] != k {
      var i :| 0 <= i < |init| && init[i] == k;
      assert init[..|init| - 1][i] == k;
      SomethingAfter(init, k);
    }
  }

  /* ---------- when the write loop ends ---------- */

  /** The last key does not occur before. */
  predicate Ends(keys: seq<string>) {
    forall i :: 0 <= i < |keys| - 1 ==> keys[i] != keys[|keys| - 1]
  }

  /** What the loop visits: from each key it goes on after that key's last occurrence. */
  function Chain(keys: seq<string>): seq<string> {
    ChainFrom(keys, 0)
  }

  function ChainFrom(keys: seq<string>, i: nat): seq<string>
    requires i <= |keys|
    decreases |keys| - i
  {
    if i == |keys| then [] else [keys[i]] + ChainFrom(keys, LastIndex(keys, keys[i]) + 1)
  }

  lemma {:induction false} ChainIsListed(keys: seq<string>, i: nat)
    requires Ends(keys) && i < |keys|
    ensures Lists(LinkKeys(keys).next, Some(keys[i]), ChainFrom(keys, i))
    decreases |keys| - i
  {
    var k, j := keys[i], LastIndex(keys, keys[i]);
    LinksLeadAfter(keys, k);
    assert ChainFrom(keys, i)[1..] == ChainFrom(keys, j + 1);
    if j == |keys| - 1 {
      NothingAfter(keys, k);
    } else {
      AfterLast(keys, k);
      ChainIsListed(keys, j + 1);
    }
  }

  lemma {:induction false} NeverEnds(next: map<string, string>, all: seq<string>, from: string, keys: seq<string>)
    requires from in all && forall k :: k in all ==> Next(next, k).Some? && Next(next, k).value in all
    ensures !Lists(next, Some(from), keys)
    decreases |keys|
  {
    if keys != [] { NeverEnds(next, all, Next(next, from).value, keys[1..]); }
  }

  lemma OccursBefore(keys: seq<string>, k: string)
    requires !Ends(keys) && k in keys
    ensures k in keys[..|keys| - 1]
  {
    var init := keys[..|keys| - 1];
    var i :| 0 <= i < |keys| && keys[i] == k;
    var j :| 0 <= j < |keys| - 1 && keys[j] == keys[|keys| - 1];
    assert init[j] == keys[|keys| - 1];
    assert i < |keys| - 1 ==> init[i] == k;
  }

  /** The write loop ends if and only if the last key linked in does not occur before; then it visits
      exactly the chain. */
  lemma WriteLoopEndsIff(keys: seq<string>)
    ensures var l := LinkKeys(keys);
            && (Ends(keys) ==> Lists(l.next, l.head, Chain(keys)))
            && (!Ends(keys) ==> forall visited :: !Lists(l.next, l.head, visited))
  {
    var l := LinkKeys(keys);
    if keys != [] {
      LinksLeadAfter(keys, keys[0]);
      if Ends(keys) {
        ChainIsListed(keys, 0);
      } else {
        forall k | k in keys ensures Next(l.next, k).Some? && Next(l.next, k).value in keys {
          LinksLeadAfter(keys, k);
          OccursBefore(keys, k);
          SomethingAfter(keys, k);
        }
        forall visited ensures !Lists(l.next, l.head, visited) { NeverEnds(l.next, keys, keys[0], visited); }
      }
    }
  }

  /* ---------- the document that is written ---------- */

  function Keys(d: FlatDoc): (keys: seq<string>)
    ensures |keys| == |d| && forall i :: 0 <= i < |d| ==> keys[i] == d[i].key
  {
    if d == [] then [] else [d[0].key] + Keys(d[1..])
  }

  /** The keys step 2 links in: those of the source that the table does not have yet. */
  function NewKeys(known: seq<string>, source: FlatDoc): (keys: seq<string>)
    ensures Distinct(keys) && forall k :: k in keys ==> k !in known
  {
    if source == [] then []
    else
      var front, k := NewKeys(known, source[..|source| - 1]), source[|source| - 1].key;
      if k in known || k in front then front else front + [k]
  }

  /** The source's last value, or else the target's first. */
  function ValueOf(target: FlatDoc, source: FlatDoc, k: string): Option<Ranked> {
    if Last(source, k).Some? then Last(source, k)
    else if Find(target, k) < |target| then Some(target[Find(target, k)].value)
    else None
  }

  function LinkedKeys(target: FlatDoc, source: FlatDoc): seq<string> {
    Keys(target) + NewKeys(Keys(target), source)
  }

  predicate HasValues(target: FlatDoc, source: FlatDoc, out: FlatDoc) {
    forall i :: 0 <= i < |out| ==> ValueOf(target, source, out[i].key) == Some(out[i].value)
  }

  /** The hash table, as the values of its entries, and the links between them. */
  datatype Table = Table(values: map<string, Ranked>, links: Links)

  /** Step 1 for one field: an entry that is found keeps its value, and is linked in again. */
  function EnterTargetField(t: Table, f: FlatField): Table {
    Table(if f.key in t.values then t.values else t.values[f.key := f.value], LinkKey(t.links, f.key))
  }

  /** Step 2 for one field: an entry that is found gets the value, a new one is linked in. */
  function EnterSourceField(t: Table, f: FlatField): Table {
    Table(t.values[f.key := f.value], if f.key in t.values then t.links else LinkKey(t.links, f.key))
  }

  function AfterTarget(target: FlatDoc): Table {
    if target == [] then Table(map[], LinkKeys([]))
    else EnterTargetField(AfterTarget(target[..|target| - 1]), target[|target| - 1])
  }

  function AfterSource(target: FlatDoc, source: FlatDoc): Table {
    if source == [] then AfterTarget(target)
    else EnterSourceField(AfterSource(target, source[..|source| - 1]), source[|source| - 1])
  }

  function ValueIn(values: map<string, Ranked>, k: string): Option<Ranked> {
    if k in values then Some(values[k]) else None
  }

  lemma FindInFront(d: FlatDoc, k: string)
    requires d != []
    ensures var init := d[..|d| - 1];
            if Find(init, k) < |init| then Find(d, k) == Find(init, k)
            else Find(d, k) == if d[|d| - 1].key == k then |d| - 1 else |d|
  {
    var init := d[..|d| - 1];
    assert forall i :: 0 <= i < |init| ==> init[i] == d[i];
    var i := Find(d, k);
    if i < |init| { assert init[i].key == k; }
  }

  lemma {:induction false} TargetTable(target: FlatDoc, k: string)
    ensures AfterTarget(target).links == LinkKeys(Keys(target))
    ensures ValueIn(AfterTarget(target).values, k) == ValueOf(target, [], k)
  {
    if target != [] {
      var init, f := target[..|target| - 1], target[|target| - 1];
      TargetTable(init, k);
      TargetTable(init, f.key);
      assert Keys(target)[..|target| - 1] == Keys(init);
      FindInFront(target, k);
    }
  }

  lemma KeyIsFound(d: FlatDoc, k: string)
    ensures Find(d, k) < |d| <==> k in Keys(d)
  {
    if k in Keys(d) {
      var i :| 0 <= i < |d| && Keys(d)[i] == k;
      assert d[i].key == k;
    }
  }

  lemma {:induction false} KeyIsKnown(target: FlatDoc, source: FlatDoc, k: string)
    ensures ValueOf(target, source, k).Some? <==> k in LinkedKeys(target, source)
  {
    var known := Keys(target);
    KeyIsFound(target, k);
    if source == [] {
      assert known + [] == known;
    } else {
      var init := source[..|source| - 1];
      KeyIsKnown(target, init, k);
      assert forall keys: seq<string> :: k in known + keys <==> k in known || k in keys;
    }
  }

  lemma LinkedKeysGrow(target: FlatDoc, source: FlatDoc)
    requires source != []
    ensures var keys, k := LinkedKeys(target, source[..|source| - 1]), source[|source| - 1].key;
            LinkKeys(LinkedKeys(target, source)) == if k in keys then LinkKeys(keys) else LinkKey(LinkKeys(keys), k)
  {
    var known, front := Keys(target), NewKeys(Keys(target), source[..|source| - 1]);
    var keys, k := known + front, source[|source| - 1].key;
    assert k in keys <==> k in known || k in front;
    assert (keys + [k])[..|keys|] == keys;
    assert known + (front + [k]) == keys + [k];
  }

  lemma {:induction false} SourceValues(target: FlatDoc, source: FlatDoc, k: string)
    ensures ValueIn(AfterSource(target, source).values, k) == ValueOf(target, source, k)
  {
    if source == [] { TargetTable(target, k); } else { SourceValues(target, source[..|source| - 1], k); }
  }

  lemma {:induction false} SourceLinks(target: FlatDoc, source: FlatDoc)
    ensures AfterSource(target, source).links == LinkKeys(LinkedKeys(target, source))
  {
    if source == [] {
      TargetTable(target, "");
      assert Keys(target) + [] == Keys(target);
    } else {
      var init, k := source[..|source| - 1], source[|source| - 1].key;
      SourceLinks(target, init);
      SourceValues(target, init, k);
      KeyIsKnown(target, init, k);
      LinkedKeysGrow(target, source);
    }
  }

  /** What the two steps leave: the keys linked in are those of the target, and then the source's own ones, and
      every entry has the source's last value, or else the target's first. */
  lemma WhatTheTableHolds(target: FlatDoc, source: FlatDoc)
    ensures AfterSource(target, source).links == LinkKeys(LinkedKeys(target, source))
    ensures forall k :: ValueIn(AfterSource(target, source).values, k) == ValueOf(target, source, k)
  {
    SourceLinks(target, source);
    forall k ensures ValueIn(AfterSource(target, source).values, k) == ValueOf(target, source, k) {
      SourceValues(target, source, k);
    }
  }

  /** Steps 1 to 3: the list ends, and these are the entries on it. */
  ghost predicate Writes(target: FlatDoc, source: FlatDoc, out: FlatDoc) {
    var t := AfterSource(target, source);
    && Lists(t.links.next, t.links.head, Keys(out))
    && forall i :: 0 <= i < |out| ==> ValueIn(t.values, out[i].key) == Some(out[i].value)
  }

  predicate HasOwnKey(target: FlatDoc, source: FlatDoc) {
    exists i :: 0 <= i < |source| && source[i].key !in Keys(target)
  }

  lemma {:induction false} OwnKeyIsNew(target: FlatDoc, source: FlatDoc)
    ensures NewKeys(Keys(target), source) != [] <==> HasOwnKey(target, source)
  {
    if source != [] {
      var init := source[..|source| - 1];
      OwnKeyIsNew(target, init);
      if HasOwnKey(target, init) {
        var i :| 0 <= i < |init| && init[i].key !in Keys(target);
        assert source[i].key !in Keys(target);
      }
      if HasOwnKey(target, source) && !HasOwnKey(target, init) {
        var i :| 0 <= i < |source| && source[i].key !in Keys(target);
        assert i < |init| ==> init[i].key !in Keys(target);
      }
    }
  }

  /** The target's last key does not occur in it before, or the source has a key of its own. */
  predicate WriteEnds(target: FlatDoc, source: FlatDoc) {
    || (forall i :: 0 <= i < |target| - 1 ==> target[i].key != target[|target| - 1].key)
    || HasOwnKey(target, source)
  }

  lemma WriteEndsIsEnds(target: FlatDoc, source: FlatDoc)
    ensures Ends(LinkedKeys(target, source)) <==> WriteEnds(target, source)
  {
    var known, added := Keys(target), NewKeys(Keys(target), source);
    var all := known + added;
    OwnKeyIsNew(target, source);
    if added != [] {
      assert all[|all| - 1] == added[|added| - 1] && added[|added| - 1] in added;
      forall i | 0 <= i < |all| - 1 ensures all[i] != all[|all| - 1] {
        if i < |known| { assert all[i] in known; }
      }
    } else {
      assert all == known;
    }
  }

  lemma WrittenIsChain(keys: seq<string>, written: seq<string>)
    ensures Lists(LinkKeys(keys).next, LinkKeys(keys).head, written) <==> Ends(keys) && written == Chain(keys)
  {
    var l := LinkKeys(keys);
    WriteLoopEndsIff(keys);
    if Ends(keys) && Lists(l.next, l.head, written) {
      ListsIsUnique(l.next, l.head, written, Chain(keys));
    }
  }

  /** For every target and source: a document is written if and only if the target's last key does not
      occur in it before, or the source has a key of its own. It is then one document: the keys of the
      chain, each with the source's last value, or else the target's first. */
  lemma WhatIsWritten(target: FlatDoc, source: FlatDoc, out: FlatDoc)
    ensures Writes(target, source, out) <==>
            && WriteEnds(target, source)
            && Keys(out) == Chain(LinkedKeys(target, source))
            && HasValues(target, source, out)
  {
    WrittenIsChain(LinkedKeys(target, source), Keys(out));
    WriteEndsIsEnds(target, source);
    WhatTheTableHolds(target, source);
  }

  lemma {:induction false} ChainIsFrom(keys: seq<string>, i: nat)
    requires i <= |keys|
    ensures forall k :: k in ChainFrom(keys, i) ==> k in keys
    decreases |keys| - i
  {
    if i < |keys| { ChainIsFrom(keys, LastIndex(keys, keys[i]) + 1); }
  }

  lemma ChainHasValues(target: FlatDoc, source: FlatDoc)
    ensures forall k :: k in Chain(LinkedKeys(target, source)) ==> ValueOf(target, source, k).Some?
  {
    ChainIsFrom(LinkedKeys(target, source), 0);
    forall k | k in Chain(LinkedKeys(target, source)) ensures ValueOf(target, source, k).Some? {
      KeyIsKnown(target, source, k);
    }
  }

  function FieldsOf(keys: seq<string>, target: FlatDoc, source: FlatDoc): (d: FlatDoc)
    requires forall k :: k in keys ==> ValueOf(target, source, k).Some?
    ensures Keys(d) == keys && HasValues(target, source, d)
  {
    if keys == [] then []
    else
      var d := [FlatField(keys[0], ValueOf(target, source, keys[0]).value)] + FieldsOf(keys[1..], target, source);
      assert Keys(d) == [keys[0]] + Keys(d[1..]) && d[1..] == FieldsOf(keys[1..], target, source);
      d
  }

  /** The document that is written; None if the loop never ends. */
  function Merged(target: FlatDoc, source: FlatDoc): Option<FlatDoc> {
    if WriteEnds(target, source) then
      ChainHasValues(target, source);
      Some(FieldsOf(Chain(LinkedKeys(target, source)), target, source))
    else None
  }

  lemma WritesIsMerged(target: FlatDoc, source: FlatDoc, out: FlatDoc)
    ensures Writes(target, source, out) <==> Merged(target, source) == Some(out)
  {
    WhatIsWritten(target, source, out);
    if Merged(target, source).Some? {
      WhatIsWritten(target, source, Merged(target, source).value);
      if Writes(target, source, out) { SameFields(target, source, out, Merged(target, source).value); }
    }
  }

  lemma SameFields(target: FlatDoc, source: FlatDoc, a: FlatDoc, b: FlatDoc)
    requires Keys(a) == Keys(b) && HasValues(target, source, a) && HasValues(target, source, b)
    ensures a == b
  {
    forall i | 0 <= i < |a| ensures a[i] == b[i] { assert Keys(a)[i] == Keys(b)[i]; }
  }

  /** A target with distinct keys loses nothing: what is written is the override. */
  lemma DistinctTargetIsOverridden(target: FlatDoc, source: FlatDoc, out: FlatDoc)
    requires DistinctKeys(target)
    ensures Writes(target, source, out) <==> out == EnteredAll(target, source)
  {
    var keys := LinkedKeys(target, source);
    KeysAreFirstSeen(target, source);
    ChainOfDistinct(keys, 0);
    assert keys[0..] == keys;
    WhatIsWritten(target, source, out);
    WrittenIsChain(keys, keys);
    LinkedIffDistinct(keys);
    WriteEndsIsEnds(target, source);
    EnteredAllIsOverride(target, source);
    KeysAndValues(target, source, out, EnteredAll(target, source));
  }

  lemma KeysAndValues(target: FlatDoc, source: FlatDoc, out: FlatDoc, entered: FlatDoc)
    requires DistinctKeys(target) && IsOverride(target, source, entered)
    ensures Keys(out) == FirstSeen(target + source) && HasValues(target, source, out) <==> out == entered
  {
    assert Keys(entered) == FirstSeen(target + source);
    forall i | 0 <= i < |entered|
      ensures ValueOf(target, source, entered[i].key) == Some(entered[i].value)
    {
      LastOfBoth(target, source, entered[i].key);
    }
    if Keys(out) == FirstSeen(target + source) && HasValues(target, source, out) {
      forall i | 0 <= i < |out| ensures out[i] == entered[i] {
        assert Keys(out)[i] == Keys(entered)[i];
      }
    }
  }

  lemma {:induction false} ChainOfDistinct(keys: seq<string>, i: nat)
    requires Distinct(keys) && i <= |keys|
    ensures ChainFrom(keys, i) == keys[i..]
    decreases |keys| - i
  {
    if i < |keys| {
      LastIsUnique(keys, keys[i], i);
      ChainOfDistinct(keys, i + 1);
    }
  }

  lemma {:induction false} KeysAreFirstSeen(target: FlatDoc, source: FlatDoc)
    requires DistinctKeys(target)
    ensures LinkedKeys(target, source) == FirstSeen(target + source) && Distinct(LinkedKeys(target, source))
  {
    if source == [] {
      assert target + source == target;
      DistinctIsItsOwn(target);
    } else {
      var init, f := source[..|source| - 1], source[|source| - 1];
      KeysAreFirstSeen(target, init);
      assert (target + source)[..|target + source| - 1] == target + init;
      var known, front := Keys(target), NewKeys(Keys(target), init);
      assert f.key in known + front <==> f.key in known || f.key in front;
      assert known + (front + [f.key]) == known + front + [f.key];
    }
  }

  lemma {:induction false} LastOfBoth(target: FlatDoc, source: FlatDoc, k: string)
    requires DistinctKeys(target)
    ensures Last(target + source, k) == ValueOf(target, source, k)
  {
    if source == [] {
      assert target + source == target;
      LastOfDistinct(target, k);
    } else {
      assert (target + source)[..|target + source| - 1] == target + source[..|source| - 1];
      LastOfBoth(target, source[..|source| - 1], k);
    }
  }

  lemma {:induction false} LastOfDistinct(d: FlatDoc, k: string)
    requires DistinctKeys(d)
    ensures Last(d, k) == if Find(d, k) < |d| then Some(d[Find(d, k)].value) else None
  {
    if d != [] && d[|d| - 1].key != k {
      var init := d[..|d| - 1];
      LastOfDistinct(init, k);
      assert Find(d, k) < |d| <==> Find(init, k) < |init| by {
        if Find(d, k) < |d| { assert init[Find(d, k)].key == k; }
        if Find(init, k) < |init| { assert d[Find(init, k)].key == k; }
      }
      assert Find(d, k) < |d| ==> Find(d, k) == Find(init, k);
    }
  }

  /* ---------- a source that is the target ---------- */

  lemma {:induction false} EnterOwnFields(d: FlatDoc, fs: FlatDoc)
    requires DistinctKeys(d) && forall f :: f in fs ==> f in d
    ensures EnteredAll(d, fs) == d
  {
    if fs != [] {
      var f := fs[|fs| - 1];
      EnterOwnFields(d, fs[..|fs| - 1]);
      assert f in fs;
      var i :| 0 <= i < |d| && d[i] == f;
      assert Find(d, f.key) == i;
    }
  }

  /** With nothing but fields of the target in the source, the target is written if and only if it repeats no
      key. */
  lemma RewrittenIffDistinct(d: FlatDoc, fs: FlatDoc)
    requires forall f :: f in fs ==> f in d
    ensures Merged(d, fs) == Some(d) <==> DistinctKeys(d)
  {
    WritesIsMerged(d, fs, d);
    if DistinctKeys(d) {
      DistinctTargetIsOverridden(d, fs, d);
      EnterOwnFields(d, fs);
    } else if Writes(d, fs, d) {
      var t := AfterSource(d, fs);
      ListsIsDistinct(t.links.next, t.links.head, Keys(d));
    }
  }
}

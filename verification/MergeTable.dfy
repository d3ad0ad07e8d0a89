/**
 whenMatched: "merge" of a `$merge` stage: the target's and then the source's fields are entered
 into a hash table whose entries are also linked into a list, and the list is written out.
 */
module MergeTable {
  import opened Options
  import opened Bson
  import opened MergeDocument
  import opened MergeLinks

  /** PgbsonElementHashEntryOrdered. */
  class Entry {
    const key: string
    var value: Ranked
    var next: Entry?

    constructor (f: FlatField)
      ensures key == f.key && value == f.value && next == null
    {
      key := f.key;
      value := f.value;
      next := null;
    }
  }

  /** The function's local variables: the hash table and the two ends of the list. */
  datatype OrderedSet = OrderedSet(table: map<string, Entry>, head: Entry?, tail: Entry?)

  function EntryOf(s: OrderedSet, k: Option<string>): Entry? {
    if k.Some? && k.value in s.table then s.table[k.value] else null
  }

  predicate Closed(t: Table) {
    && (t.links.head.Some? ==> t.links.head.value in t.values && t.links.tail in t.values)
    && forall k :: k in t.links.next ==> k in t.values && t.links.next[k] in t.values
  }

  ghost predicate HasEntry(s: OrderedSet, t: Table, k: string)
    requires k in s.table && k in t.values
    reads s.table[k]
  {
    && s.table[k].key == k && s.table[k].value == t.values[k]
    && s.table[k].next == EntryOf(s, Next(t.links.next, k))
  }

  /** The entries and their pointers are this table. */
  ghost predicate Holds(s: OrderedSet, t: Table)
    reads s.table.Values
  {
    && Closed(t) && s.table.Keys == t.values.Keys
    && (forall k :: k in s.table ==> HasEntry(s, t, k))
    && s.head == EntryOf(s, t.links.head)
    && (t.links.head.Some? ==> s.tail == s.table[t.links.tail])
  }

  /** hash_search with HASH_ENTER: the entry of that key, a new one if there is none. */
  method Search(s: OrderedSet, f: FlatField, ghost t: Table) returns (s': OrderedSet, found: bool)
    requires Holds(s, t)
    ensures found <==> f.key in t.values
    ensures Holds(s', Table(if found then t.values else t.values[f.key := f.value], t.links))
    ensures forall n :: n in s'.table.Values ==> n in s.table.Values || fresh(n)
  {
    found := f.key in s.table;
    if found {
      s' := s;
    } else {
      var node := new Entry(f);
      s' := s.(table := s.table[f.key := node]);
      forall k | k in s'.table ensures HasEntry(s', Table(t.values[f.key := f.value], t.links), k) {
        if k != f.key { assert HasEntry(s, t, k); }
      }
    }
  }

  /** The entry of that key is linked in at the tail, whether or not it is linked in already. */
  method LinkIn(s: OrderedSet, key: string, ghost t: Table) returns (s': OrderedSet)
    requires Holds(s, t) && key in s.table
    modifies s.table.Values
    ensures Holds(s', Table(t.values, LinkKey(t.links, key))) && s'.table == s.table
  {
    var node := s.table[key];
    if s.head == null {
      s' := OrderedSet(s.table, node, node);
      assert forall k :: k in s.table ==> HasEntry(s, t, k);
    } else {
      var tail := s.tail;
      assert HasEntry(s, t, t.links.tail);
      tail.next := node;
      s' := OrderedSet(s.table, s.head, node);
      ghost var t' := Table(t.values, LinkKey(t.links, key));
      forall k | k in s.table ensures HasEntry(s', t', k) {
        assert old(HasEntry(s, t, k));
      }
    }
  }

  method EnterTargetEntry(s: OrderedSet, f: FlatField, ghost t: Table) returns (s': OrderedSet)
    requires Holds(s, t)
    modifies s.table.Values
    ensures Holds(s', EnterTargetField(t, f))
    ensures forall n :: n in s'.table.Values ==> n in s.table.Values || fresh(n)
  {
    var found;
    s', found := Search(s, f, t);
    s' := LinkIn(s', f.key, Table(if found then t.values else t.values[f.key := f.value], t.links));
  }

  /** Step 1, on any target: whatever keys it repeats. */
  method EnterTarget(target: FlatDoc) returns (s: OrderedSet)
    ensures Holds(s, AfterTarget(target)) && forall n :: n in s.table.Values ==> fresh(n)
  {
    s := OrderedSet(map[], null, null);
    for i := 0 to |target|
      invariant Holds(s, AfterTarget(target[..i])) && forall n :: n in s.table.Values ==> fresh(n)
    {
      assert target[..i + 1][..i] == target[..i];
      s := EnterTargetEntry(s, target[i], AfterTarget(target[..i]));
    }
    assert target[..|target|] == target;
  }

  method Replace(s: OrderedSet, f: FlatField, ghost t: Table)
    requires Holds(s, t) && f.key in s.table
    modifies s.table[f.key]
    ensures Holds(s, Table(t.values[f.key := f.value], t.links))
  {
    var node := s.table[f.key];
    node.value := f.value;
    ghost var t' := Table(t.values[f.key := f.value], t.links);
    assert t'.values.Keys == t.values.Keys;
    forall k | k in s.table ensures HasEntry(s, t', k) {
      assert old(HasEntry(s, t, k));
    }
  }

  /** Step 2 for one source field. */
  method EnterSource(s: OrderedSet, f: FlatField, ghost t: Table) returns (s': OrderedSet, found: bool)
    requires Holds(s, t)
    modifies s.table.Values
    ensures Holds(s', EnterSourceField(t, f)) && (found <==> f.key in t.values)
    ensures forall n :: n in s'.table.Values ==> n in s.table.Values || fresh(n)
  {
    s', found := Search(s, f, t);
    if found {
      Replace(s', f, t);
    } else {
      s' := LinkIn(s', f.key, Table(t.values[f.key := f.value], t.links));
    }
  }

  /** Step 3, where the list ends. */
  method WriteList(s: OrderedSet, ghost t: Table, ghost keys: seq<string>) returns (out: FlatDoc)
    requires Holds(s, t) && Lists(t.links.next, t.links.head, keys)
    ensures Keys(out) == keys && forall i :: 0 <= i < |out| ==> ValueIn(t.values, out[i].key) == Some(out[i].value)
  {
    out := [];
    var current := s.head;
    ghost var from := t.links.head;
    ghost var i := 0;
    while current != null
      invariant 0 <= i <= |keys| && Lists(t.links.next, from, keys[i..])
      invariant current == EntryOf(s, from) && (from.Some? ==> from.value in s.table)
      invariant |out| == i && forall j :: 0 <= j < i ==> out[j].key == keys[j]
      invariant forall j :: 0 <= j < i ==> ValueIn(t.values, out[j].key) == Some(out[j].value)
      decreases |keys| - i
    {
      assert HasEntry(s, t, from.value);
      assert keys[i..][1..] == keys[i + 1..];
      out := out + [FlatField(current.key, current.value)];
      from := Next(t.links.next, from.value);
      current := current.next;
      i := i + 1;
    }
  }

  /** Steps 1 to 3 on the fields after `_id`, wherever the list of step 3 ends. Also returned: whether the
      source had no key of its own (needComparison). */
  method MergeFields(target: FlatDoc, source: FlatDoc) returns (out: FlatDoc, needComparison: bool)
    requires WriteEnds(target, source)
    ensures Merged(target, source) == Some(out)
    ensures DistinctKeys(target) ==> IsOverride(target, source, out)
    ensures needComparison <==> !HasOwnKey(target, source)
  {
    var s := EnterTarget(target);
    needComparison := true;
    for i := 0 to |source|
      invariant Holds(s, AfterSource(target, source[..i])) && forall n :: n in s.table.Values ==> fresh(n)
      invariant needComparison <==> !HasOwnKey(target, source[..i])
    {
      assert source[..i + 1][..i] == source[..i];
      FoundIffNotOwn(target, source, i);
      var found;
      s, found := EnterSource(s, source[i], AfterSource(target, source[..i]));
      needComparison := needComparison && found;
    }
    assert source[..|source|] == source;
    WhatIsWritten(target, source, Merged(target, source).value);
    out := WriteList(s, AfterSource(target, source), Keys(Merged(target, source).value));
    WritesIsMerged(target, source, out);
    if DistinctKeys(target) {
      DistinctTargetIsOverridden(target, source, out);
      EnteredAllIsOverride(target, source);
    }
  }

  lemma FoundIffNotOwn(target: FlatDoc, source: FlatDoc, i: nat)
    requires i < |source|
    ensures HasOwnKey(target, source[..i + 1]) <==>
            HasOwnKey(target, source[..i]) || source[i].key !in AfterSource(target, source[..i]).values
  {
    var init, next, k := source[..i], source[..i + 1], source[i].key;
    SourceValues(target, init, k);
    KeyIsKnown(target, init, k);
    OwnKeyIsNew(target, init);
    OwnKeyIsNew(target, next);
    assert next[..i] == init;
    assert k in LinkedKeys(target, init) <==> k in Keys(target) || k in NewKeys(Keys(target), init);
  }
}

/**
 `$maxN` and `$minN` with the state as bytes between every two steps: each transition and combine reads the
 state it is given, and writes the new one, into the old buffer if there is room. The values of the
 heap lie in the buffers they were read from, and after a combine in two of them.
 */
module StoredTopN {
  import opened Options
  import opened Bytes
  import opened Bson
  import opened BinaryHeap
  import opened TopN
  import H = HeapState

  /** How the values of a run are laid out in bytes. */
  datatype Codec = Codec(values: set<Ranked>, put: Ranked -> seq<byte>, get: seq<byte> -> Ranked)

  function Puts(c: Codec, nodes: seq<Ranked>): (s: seq<seq<byte>>)
    ensures |s| == |nodes| && forall i :: 0 <= i < |nodes| ==> s[i] == c.put(nodes[i])
  {
    if nodes == [] then [] else [c.put(nodes[0])] + Puts(c, nodes[1..])
  }

  predicate Covers(c: Codec, nodes: seq<Ranked>) {
    forall v :: v in nodes ==> v in c.values
  }

  predicate CoversInput(c: Codec, input: Option<Ranked>) {
    input.Some? ==> input.value in c.values
  }

  /** The values of the run can be read back, and n of them fit into a varlena. */
  ghost predicate IsCodec(c: Codec, n: nat) {
    && (forall v :: v in c.values ==> c.get(c.put(v)) == v)
    && forall m: bool, nodes: seq<Ranked> :: |nodes| <= n && Covers(c, nodes) ==>
         FitsState(H.State(m, n, Puts(c, nodes)))
  }

  predicate FitsState(st: H.State) {
    H.Fits(st) && H.VARHDRSZ + |H.Encode(st)| < H.LIMIT
  }

  /** The bytes are a state of capacity n with these nodes. */
  ghost predicate Holds(bytes: array<byte>, c: Codec, n: nat, m: bool, nodes: seq<Ranked>)
    reads bytes
  {
    && H.IsVarlena(bytes) && |nodes| <= n && IsHeap(m, nodes) && Covers(c, nodes)
    && H.Decode(bytes[H.VARHDRSZ..]) == Some(H.State(m, n, Puts(c, nodes)))
  }

  /** The value's bytes lie there. */
  ghost predicate LiesAt(v: H.View, c: Codec, value: Ranked)
    reads v.buffer
  {
    H.Shows(v, v.buffer, c.put(value))
  }

  ghost predicate LieAt(views: seq<H.View>, c: Codec, values: seq<Ranked>)
    reads H.Buffers(views)
  {
    |views| == |values| && forall i :: 0 <= i < |views| ==> (assert views[i] in views; LiesAt(views[i], c, values[i]))
  }

  /* ---------- there are codecs ---------- */

  /** Where v first stands in values. */
  function IndexOf(values: seq<Ranked>, v: Ranked): (i: nat)
    requires v in values
    ensures i < |values| && values[i] == v
  {
    if values[0] == v then 0 else 1 + IndexOf(values[1..], v)
  }

  /** A value is laid out as its index in eight bytes. */
  function IndexCodec(values: seq<Ranked>): (c: Codec)
    requires 1 <= |values|
  {
    Codec((set v | v in values),
          v => if v in values then Put(IndexOf(values, v), 8) else [],
          bytes => if Get(bytes) < |values| then values[Get(bytes)] else values[0])
  }

  lemma {:induction false} EightEach(c: Codec, nodes: seq<Ranked>)
    requires forall v :: v in nodes ==> |c.put(v)| == 8
    ensures |H.Documents(Puts(c, nodes))| == 12 * |nodes|
    ensures forall d :: d in Puts(c, nodes) ==> |d| == 8
  {
    if nodes != [] {
      var init := nodes[..|nodes| - 1];
      EightEach(c, init);
      assert Puts(c, nodes)[..|nodes| - 1] == Puts(c, init);
    }
  }

  lemma IndexCodecFits(values: seq<Ranked>, n: nat)
    requires 1 <= |values| <= Pow256(8) && 12 * n < H.LIMIT - 100
    ensures IsCodec(IndexCodec(values), n)
  {
    var c := IndexCodec(values);
    forall v | v in c.values ensures c.get(c.put(v)) == v && |c.put(v)| == 8 {
      GetPut(IndexOf(values, v), 8);
    }
    forall m: bool, nodes: seq<Ranked> | |nodes| <= n && Covers(c, nodes)
      ensures FitsState(H.State(m, n, Puts(c, nodes)))
    {
      EightEach(c, nodes);
    }
  }

  function InputList(p: Plan): (values: seq<Ranked>)
    ensures multiset(values) == Inputs(p)
  {
    match p
    case NoRows => []
    case Row(q, input) => InputList(q) + if input.None? then [] else [input.value]
    case Both(l, r) => InputList(l) + InputList(r)
  }

  /** Every run of fewer than 2^64 inputs, with an n that leaves room for n indices, has a codec. */
  lemma EveryRunHasACodec(p: Plan, n: nat) returns (c: Codec)
    requires |Inputs(p)| < Pow256(8) && 12 * n < H.LIMIT - 100
    ensures IsCodec(c, n) && forall v :: v in Inputs(p) ==> v in c.values
  {
    var inputs := InputList(p);
    var values := [Ranked(0.0, "")] + inputs;
    assert |multiset(inputs)| == |inputs|;
    c := IndexCodec(values);
    IndexCodecFits(values, n);
    forall v | v in Inputs(p) ensures v in c.values {
      assert v in multiset(inputs) && v in values;
    }
  }

  /* ---------- reading ---------- */

  /** Where the values of a state lie. */
  method Places(bytes: array<byte>, c: Codec, ghost n: nat, ghost m: bool, ghost nodes: seq<Ranked>)
    returns (h: H.HeapViews)
    requires Holds(bytes, c, n, m, nodes)
    ensures h.isMaxN == m && h.heapSpace == n && LieAt(h.nodes, c, nodes)
  {
    h := H.Deserialize(bytes);
    forall i | 0 <= i < |h.nodes| ensures h.nodes[i] in h.nodes && LiesAt(h.nodes[i], c, nodes[i]) {
      assert H.Contents(h.nodes)[i] == Puts(c, nodes)[i];
    }
  }

  method ReadValues(views: seq<H.View>, c: Codec, ghost n: nat, ghost nodes: seq<Ranked>) returns (values: seq<Ranked>)
    requires IsCodec(c, n) && LieAt(views, c, nodes) && Covers(c, nodes)
    ensures values == nodes
  {
    values := [];
    for i := 0 to |views|
      invariant values == nodes[..i]
    {
      var v := views[i];
      assert v in views && LiesAt(v, c, nodes[i]);
      values := values + [c.get(v.buffer[v.start..v.start + v.length])];
    }
  }

  method Fill(heap: Heap, values: seq<Ranked>)
    requires heap.heapNodes.Length == heap.heapSpace && |values| <= heap.heapSpace && IsHeap(heap.isMaxN, values)
    modifies heap, heap.heapNodes
    ensures heap.Valid() && heap.Nodes() == values
  {
    for i := 0 to |values|
      invariant heap.heapNodes[..i] == values[..i]
    {
      heap.heapNodes[i] := values[i];
    }
    heap.heapSize := |values|;
  }

  method Load(bytes: array<byte>, c: Codec, ghost n: nat, ghost m: bool, ghost nodes: seq<Ranked>) returns (heap: Heap)
    requires IsCodec(c, n) && Holds(bytes, c, n, m, nodes)
    ensures fresh(heap) && fresh(heap.heapNodes) && IsState(heap, n, m) && heap.Nodes() == nodes
  {
    var h := Places(bytes, c, n, m, nodes);
    var values := ReadValues(h.nodes, c, n, nodes);
    heap := new Heap(h.heapSpace, h.isMaxN);
    Fill(heap, values);
  }

  /* ---------- writing ---------- */

  method FindView(value: Ranked, values: seq<Ranked>, views: seq<H.View>) returns (i: nat)
    requires value in values && |values| == |views|
    ensures i < |values| && values[i] == value
  {
    i := 0;
    while values[i] != value
      invariant i < |values| && value in values[i..]
      decreases |values| - i
    {
      assert values[i..] == [values[i]] + values[i + 1..];
      i := i + 1;
    }
  }

  /** Each node with the place its bytes lie at. */
  method Locate(nodes: seq<Ranked>, c: Codec, values: seq<Ranked>, views: seq<H.View>) returns (out: seq<H.View>)
    requires LieAt(views, c, values) && forall v :: v in nodes ==> v in values
    ensures LieAt(out, c, nodes)
  {
    out := [];
    for i := 0 to |nodes|
      invariant LieAt(out, c, nodes[..i])
    {
      assert nodes[i] in nodes;
      var j := FindView(nodes[i], values, views);
      assert views[j] in views && LiesAt(views[j], c, values[j]);
      out := out + [views[j]];
      assert nodes[..i + 1] == nodes[..i] + [nodes[i]];
    }
    assert nodes[..|nodes|] == nodes;
  }

  lemma MeaningOf(h: H.HeapViews, c: Codec, nodes: seq<Ranked>)
    requires LieAt(h.nodes, c, nodes)
    ensures H.InBounds(h.nodes) && H.Meaning(h) == H.State(h.isMaxN, h.heapSpace, Puts(c, nodes))
  {
    forall v | v in h.nodes ensures v.start + v.length <= v.buffer.Length {
      var i :| 0 <= i < |h.nodes| && h.nodes[i] == v;
      assert LiesAt(h.nodes[i], c, nodes[i]);
    }
    forall i | 0 <= i < |h.nodes| ensures H.Contents(h.nodes)[i] == Puts(c, nodes)[i] {
      assert LiesAt(h.nodes[i], c, nodes[i]);
    }
    assert H.Contents(h.nodes) == Puts(c, nodes);
  }

  /** The state is written, possibly over the bytes its own values lie in. */
  method Store(heap: Heap, c: Codec, ghost n: nat, views: seq<H.View>, byteArray: array?<byte>)
    returns (bytes: array<byte>)
    requires IsCodec(c, n) && IsState(heap, n, heap.isMaxN) && LieAt(views, c, heap.Nodes()) && Covers(c, heap.Nodes())
    requires byteArray != null ==> H.IsVarlena(byteArray)
    modifies byteArray
    ensures bytes == byteArray || fresh(bytes)
    ensures Holds(bytes, c, n, heap.isMaxN, old(heap.Nodes()))
  {
    var h := H.HeapViews(heap.isMaxN, heap.heapSpace, views);
    ghost var nodes := heap.Nodes();
    MeaningOf(h, c, nodes);
    assert FitsState(H.State(heap.isMaxN, n, Puts(c, nodes)));
    bytes := H.Serialize(h, byteArray);
  }

  /* ---------- the steps ---------- */

  method InputView(c: Codec, value: Ranked) returns (view: H.View)
    ensures fresh(view.buffer) && LiesAt(view, c, value)
  {
    var s := c.put(value);
    var buffer := new byte[|s|](i requires 0 <= i < |s| => s[i]);
    assert buffer[..] == s;
    view := H.View(buffer, 0, |s|);
    assert buffer[0..|s|] == buffer[..];
  }

  lemma InsertedFrom(m: bool, n: nat, s: seq<Ranked>, v: Ranked)
    requires n >= 1 && |s| <= n
    ensures forall x :: x in Inserted(m, n, s, v) ==> x in s + [v]
  {
    forall x | x in Inserted(m, n, s, v) ensures x in s + [v] {
      assert x in multiset(Inserted(m, n, s, v));
      PushedAdds(m, s, v);
      if |s| == n {
        PoppedRemoves(m, s);
        PushedAdds(m, Popped(m, s), v);
      }
    }
  }

  lemma {:induction false} CombinedFrom(m: bool, n: nat, left: seq<Ranked>, right: seq<Ranked>)
    requires n >= 1 && |right| <= n
    ensures forall x :: x in Combined(m, n, left, right) ==> x in left + right
    decreases |left|
  {
    if left != [] {
      var right' := Inserted(m, n, right, left[0]);
      InsertedFrom(m, n, right, left[0]);
      PoppedRemoves(m, left);
      CombinedFrom(m, n, Popped(m, left), right');
      forall x | x in Popped(m, left) ensures x in left { assert x in multiset(left); }
    }
  }

  lemma LieTogether(a: seq<H.View>, b: seq<H.View>, c: Codec, xs: seq<Ranked>, ys: seq<Ranked>)
    requires LieAt(a, c, xs) && LieAt(b, c, ys)
    ensures LieAt(a + b, c, xs + ys)
  {
    forall i | 0 <= i < |a + b| ensures (a + b)[i] in a + b && LiesAt((a + b)[i], c, (xs + ys)[i]) {
      if i < |a| { assert LiesAt(a[i], c, xs[i]); } else { assert LiesAt(b[i - |a|], c, ys[i - |a|]); }
    }
  }

  /** The first row: there are no bytes yet. */
  method FirstRow(input: Option<Ranked>, n: nat, m: bool, c: Codec) returns (next: array<byte>)
    requires n >= 1 && IsCodec(c, n) && CoversInput(c, input)
    ensures fresh(next)
    ensures Holds(next, c, n, m, if input.None? then [] else Inserted(m, n, [], input.value))
  {
    var heap := Transition(null, input, n, m);
    var views: seq<H.View> := [];
    if input.Some? {
      InsertedFrom(m, n, [], input.value);
      var view := InputView(c, input.value);
      assert LieAt([view], c, [input.value]);
      views := Locate(heap.heapNodes[..heap.heapSize], c, [input.value], [view]);
    }
    next := Store(heap, c, n, views, null);
  }

  /** A row on a state read from its bytes. */
  method NextRow(bytes: array<byte>, input: Option<Ranked>, n: nat, m: bool, c: Codec, ghost nodes: seq<Ranked>)
    returns (next: array<byte>)
    requires n >= 1 && IsCodec(c, n) && CoversInput(c, input) && Holds(bytes, c, n, m, nodes)
    modifies bytes
    ensures next == bytes || fresh(next)
    ensures Holds(next, c, n, m, if input.None? then nodes else Inserted(m, n, nodes, input.value))
  {
    var heap := Load(bytes, c, n, m, nodes);
    heap := Transition(heap, input, n, m);
    var located := PlacesAfterRow(bytes, input, c, n, m, nodes, heap.heapNodes[..heap.heapSize]);
    next := Store(heap, c, n, located, bytes);
  }

  /** A value that stayed lies where it was read; the input has its own place. */
  method PlacesAfterRow(bytes: array<byte>, input: Option<Ranked>, c: Codec, n: nat, m: bool,
                        ghost nodes: seq<Ranked>, after: seq<Ranked>)
    returns (located: seq<H.View>)
    requires n >= 1 && IsCodec(c, n) && CoversInput(c, input) && Holds(bytes, c, n, m, nodes)
    requires after == if input.None? then nodes else Inserted(m, n, nodes, input.value)
    ensures LieAt(located, c, after) && Covers(c, after)
  {
    var h := Places(bytes, c, n, m, nodes);
    if input.None? {
      located := h.nodes;
    } else {
      var values := ReadValues(h.nodes, c, n, nodes);
      var view := InputView(c, input.value);
      assert LieAt([view], c, [input.value]);
      LieTogether(h.nodes, [view], c, nodes, [input.value]);
      InsertedFrom(m, n, nodes, input.value);
      located := Locate(after, c, values + [input.value], h.nodes + [view]);
    }
  }

  /** A combine of two states; the values then lie in two buffers, and the right one is written to. */
  method CombineBytes(left: array<byte>, right: array<byte>, n: nat, m: bool, c: Codec,
                      ghost l: seq<Ranked>, ghost r: seq<Ranked>)
    returns (both: array<byte>)
    requires n >= 1 && IsCodec(c, n) && left != right && Holds(left, c, n, m, l) && Holds(right, c, n, m, r)
    modifies right
    ensures both == right || fresh(both)
    ensures Holds(both, c, n, m, Combined(m, n, l, r))
  {
    var heap := LoadBoth(left, right, n, m, c, l, r);
    var located := PlacesAfterCombine(left, right, c, n, m, l, r, heap.heapNodes[..heap.heapSize]);
    both := Store(heap, c, n, located, right);
  }

  method LoadBoth(left: array<byte>, right: array<byte>, n: nat, m: bool, c: Codec,
                  ghost l: seq<Ranked>, ghost r: seq<Ranked>)
    returns (heap: Heap)
    requires n >= 1 && IsCodec(c, n) && Holds(left, c, n, m, l) && Holds(right, c, n, m, r)
    ensures fresh(heap) && fresh(heap.heapNodes) && IsState(heap, n, m) && heap.Nodes() == Combined(m, n, l, r)
  {
    var leftHeap := Load(left, c, n, m, l);
    heap := Load(right, c, n, m, r);
    MergeInto(leftHeap, heap, n);
  }

  method PlacesAfterCombine(left: array<byte>, right: array<byte>, c: Codec, n: nat, m: bool,
                            ghost l: seq<Ranked>, ghost r: seq<Ranked>, after: seq<Ranked>)
    returns (located: seq<H.View>)
    requires n >= 1 && IsCodec(c, n) && Holds(left, c, n, m, l) && Holds(right, c, n, m, r)
    requires after == Combined(m, n, l, r)
    ensures LieAt(located, c, after) && Covers(c, after)
  {
    var h := Places(left, c, n, m, l);
    var h' := Places(right, c, n, m, r);
    var lefts := ReadValues(h.nodes, c, n, l);
    var rights := ReadValues(h'.nodes, c, n, r);
    LieTogether(h.nodes, h'.nodes, c, l, r);
    CombinedFrom(m, n, l, r);
    located := Locate(after, c, lefts + rights, h.nodes + h'.nodes);
  }

  /* ---------- whole runs ---------- */

  ghost predicate HoldsBest(bytes: array<byte>, c: Codec, n: nat, m: bool, inputs: multiset<Ranked>, nodes: seq<Ranked>)
    reads bytes
  {
    Holds(bytes, c, n, m, nodes) && IsTopN(m, n, inputs, multiset(nodes))
  }

  lemma NoInputs(m: bool, n: nat)
    ensures IsTopN(m, n, multiset{}, multiset([])) && IsHeap(m, [])
  {
  }

  method RunRowBytes(bytes: array?<byte>, input: Option<Ranked>, n: nat, m: bool, c: Codec,
                     ghost inputs: multiset<Ranked>, ghost nodes: seq<Ranked>)
    returns (next: array<byte>, ghost nodes': seq<Ranked>)
    requires n >= 1 && IsCodec(c, n) && CoversInput(c, input)
    requires if bytes == null then inputs == multiset{} && nodes == [] else HoldsBest(bytes, c, n, m, inputs, nodes)
    modifies bytes
    ensures next == bytes || fresh(next)
    ensures HoldsBest(next, c, n, m, if input.None? then inputs else inputs + multiset{input.value}, nodes')
  {
    NoInputs(m, n);
    nodes' := if input.None? then nodes else Inserted(m, n, nodes, input.value);
    if input.Some? { InsertedIsTopN(m, n, inputs, nodes, input.value); }
    if bytes == null {
      next := FirstRow(input, n, m, c);
    } else {
      next := NextRow(bytes, input, n, m, c, nodes);
    }
  }

  method RunBothBytes(left: array?<byte>, right: array?<byte>, n: nat, m: bool, c: Codec, ghost l: multiset<Ranked>,
                      ghost r: multiset<Ranked>, ghost lefts: seq<Ranked>, ghost rights: seq<Ranked>)
    returns (both: array?<byte>, ghost nodes: seq<Ranked>)
    requires n >= 1 && IsCodec(c, n)
    requires if left == null then l == multiset{} && lefts == [] else HoldsBest(left, c, n, m, l, lefts)
    requires if right == null then r == multiset{} && rights == [] else HoldsBest(right, c, n, m, r, rights)
    requires left != null ==> left != right
    modifies right
    ensures both == left || both == right || (both != null && fresh(both))
    ensures both == null <==> left == null && right == null
    ensures if both == null then l + r == multiset{} && nodes == [] else HoldsBest(both, c, n, m, l + r, nodes)
  {
    if left == null {
      both, nodes := right, rights;
      assert l + r == r;
    } else if right == null {
      both, nodes := left, lefts;
      assert l + r == l;
    } else {
      CombinedIsTopN(m, n, l, lefts, r, rights);
      nodes := Combined(m, n, lefts, rights);
      both := CombineBytes(left, right, n, m, c, lefts, rights);
    }
  }

  /** Whatever the split, after a write and a read between every two steps the bytes hold the best n of the
      inputs. */
  method RunBytes(p: Plan, n: nat, m: bool, c: Codec) returns (bytes: array?<byte>, ghost nodes: seq<Ranked>)
    requires n >= 1 && IsCodec(c, n) && forall v :: v in Inputs(p) ==> v in c.values
    ensures bytes != null <==> HasRow(p)
    ensures bytes == null ==> Inputs(p) == multiset{} && nodes == []
    ensures bytes != null ==> fresh(bytes) && HoldsBest(bytes, c, n, m, Inputs(p), nodes)
  {
    match p
    case NoRows => bytes, nodes := null, [];
    case Row(q, input) =>
      var before;
      before, nodes := RunBytes(q, n, m, c);
      bytes, nodes := RunRowBytes(before, input, n, m, c, Inputs(q), nodes);
    case Both(l, r) =>
      ghost var lefts, rights;
      var left, right;
      left, lefts := RunBytes(l, n, m, c);
      right, rights := RunBytes(r, n, m, c);
      bytes, nodes := RunBothBytes(left, right, n, m, c, Inputs(l), Inputs(r), lefts, rights);
  }

  /** The operator, with its state as bytes: the same result. */
  method StoredMaxMinN(p: Plan, n: nat, m: bool, c: Codec) returns (values: seq<Ranked>)
    requires n >= 1 && IsCodec(c, n) && forall v :: v in Inputs(p) ==> v in c.values
    ensures AreBest(m, n, Inputs(p), values) && RankLikeInputs(m, Inputs(p), values)
  {
    ghost var nodes;
    var bytes;
    bytes, nodes := RunBytes(p, n, m, c);
    if bytes == null {
      values := Final(null);
      NoInputs(m, n);
    } else {
      var heap := Load(bytes, c, n, m, nodes);
      values := Final(heap);
    }
    InRanks(m, n, Inputs(p), values);
  }
}

/**
 The maxN/minN state as bytes. Between two rows the state is a varlena:

   | 4 bytes size | isMaxN | 8 bytes heapSize | 8 bytes heapSpace | heapSize documents |

 Reading it back copies no value: a value read from the bytes points into them. Writing may go
 into the very buffer the values point into, and that buffer may be longer than needed.
 */
module HeapState {
  import opened Options
  import opened Bytes

  /* ---------- the format ---------- */

  /** What the bytes stand for: each node is the content of its document. */
  datatype State = State(isMaxN: bool, heapSpace: nat, nodes: seq<seq<byte>>)

  const VARHDRSZ: nat := 4
  const SIZEOF_INT64: nat := 8
  const LIMIT: nat := 0x4000_0000  // VARSIZE has 30 bits

  /** A varlena header holds four times the size, header included. */
  function Header(size: nat): (s: seq<byte>)
    ensures |s| == VARHDRSZ
  {
    Put(4 * size, VARHDRSZ)
  }

  function VarSize(s: seq<byte>): nat
    requires |s| >= VARHDRSZ
  {
    Get(s[..VARHDRSZ]) / 4
  }

  lemma {:induction false} VarSizeOfHeader(size: nat, rest: seq<byte>)
    requires size < LIMIT
    ensures VarSize(Header(size) + rest) == size
  {
    Word();
    GetPut(4 * size, VARHDRSZ);
    assert (Header(size) + rest)[..VARHDRSZ] == Header(size);
  }

  /** BsonValueToDocumentPgbson. */
  function Document(content: seq<byte>): seq<byte> {
    Header(VARHDRSZ + |content|) + content
  }

  function Documents(nodes: seq<seq<byte>>): seq<byte> {
    if nodes == [] then [] else Documents(nodes[..|nodes| - 1]) + Document(nodes[|nodes| - 1])
  }

  function Flag(b: bool): seq<byte> {
    if b then [1] else [0]
  }

  function Head(isMaxN: bool, heapSize: nat, heapSpace: nat): (s: seq<byte>)
    ensures |s| == 17
  {
    Flag(isMaxN) + Put(heapSize, SIZEOF_INT64) + Put(heapSpace, SIZEOF_INT64)
  }

  /** The bytes after the header. */
  function Encode(st: State): (s: seq<byte>)
    ensures |s| == 17 + |Documents(st.nodes)|
  {
    Head(st.isMaxN, |st.nodes|, st.heapSpace) + Documents(st.nodes)
  }

  /** Reads n documents off the front; None if the bytes end too soon. */
  function ReadDocuments(s: seq<byte>, n: nat): Option<seq<seq<byte>>>
    decreases n
  {
    if n == 0 then Some([])
    else if |s| < VARHDRSZ || !(VARHDRSZ <= VarSize(s) <= |s|) then None
    else match ReadDocuments(s[VarSize(s)..], n - 1)
         case None => None
         case Some(rest) => Some([s[VARHDRSZ..VarSize(s)]] + rest)
  }

  function Decode(s: seq<byte>): Option<State> {
    if |s| < 17 then None
    else match ReadDocuments(s[17..], Get(s[1..9]))
         case None => None
         case Some(nodes) => Some(State(s[0] != 0, Get(s[9..17]), nodes))
  }

  predicate Fits(st: State) {
    && st.heapSpace < LIMIT && |st.nodes| < LIMIT
    && forall i :: 0 <= i < |st.nodes| ==> VARHDRSZ + |st.nodes[i]| < LIMIT
  }

  lemma {:induction false} DocumentsCons(node: seq<byte>, nodes: seq<seq<byte>>)
    ensures Documents([node] + nodes) == Document(node) + Documents(nodes)
  {
    var all := [node] + nodes;
    if nodes == [] {
      assert all[..0] == [];
    } else {
      assert all[..|all| - 1] == [node] + nodes[..|nodes| - 1];
      DocumentsCons(node, nodes[..|nodes| - 1]);
    }
  }

  lemma {:induction false} ReadBackDocuments(nodes: seq<seq<byte>>, junk: seq<byte>)
    requires forall i :: 0 <= i < |nodes| ==> VARHDRSZ + |nodes[i]| < LIMIT
    ensures ReadDocuments(Documents(nodes) + junk, |nodes|) == Some(nodes)
  {
    if nodes != [] {
      var first, rest := nodes[0], nodes[1..];
      assert nodes == [first] + rest;
      DocumentsCons(first, rest);
      var tail := Documents(rest) + junk;
      var s := Documents(nodes) + junk;
      var header := Header(VARHDRSZ + |first|);
      assert s == header + (first + tail);
      VarSizeOfHeader(VARHDRSZ + |first|, first + tail);
      assert s[VARHDRSZ..VarSize(s)] == first;
      assert s[VarSize(s)..] == tail;
      ReadBackDocuments(rest, junk);
    }
  }

  lemma HeadFields(isMaxN: bool, heapSize: nat, heapSpace: nat)
    requires heapSize < LIMIT && heapSpace < LIMIT
    ensures var s := Head(isMaxN, heapSize, heapSpace);
            (s[0] != 0) == isMaxN && Get(s[1..9]) == heapSize && Get(s[9..17]) == heapSpace
  {
    Word();
    GetPut(heapSize, SIZEOF_INT64);
    GetPut(heapSpace, SIZEOF_INT64);
    var s := Head(isMaxN, heapSize, heapSpace);
    assert s[1..9] == Put(heapSize, SIZEOF_INT64);
    assert s[9..17] == Put(heapSpace, SIZEOF_INT64);
  }

  lemma {:induction false} Prefixed(head: seq<byte>, rest: seq<byte>)
    requires |head| == 17
    ensures (head + rest)[0] == head[0] && (head + rest)[1..9] == head[1..9] && (head + rest)[9..17] == head[9..17]
    ensures (head + rest)[17..] == rest
  {}

  /** Decoding an encoded state gives the state back, whatever bytes follow it. */
  lemma {:induction false} DecodeEncode(st: State, junk: seq<byte>)
    requires Fits(st)
    ensures Decode(Encode(st) + junk) == Some(st)
  {
    var head := Head(st.isMaxN, |st.nodes|, st.heapSpace);
    HeadFields(st.isMaxN, |st.nodes|, st.heapSpace);
    DecodeAfterHead(st, head, junk);
  }

  lemma {:induction false} DecodeAfterHead(st: State, head: seq<byte>, junk: seq<byte>)
    requires Fits(st) && |head| == 17 && (head[0] != 0) == st.isMaxN
    requires Get(head[1..9]) == |st.nodes| && Get(head[9..17]) == st.heapSpace
    ensures Decode((head + Documents(st.nodes)) + junk) == Some(st)
  {
    var rest := Documents(st.nodes) + junk;
    assert (head + Documents(st.nodes)) + junk == head + rest;
    Prefixed(head, rest);
    ReadBackDocuments(st.nodes, junk);
  }

  /* ---------- the code ---------- */

  /** A bson_value_t: its content lies in somebody's buffer. */
  datatype View = View(buffer: array<byte>, start: nat, length: nat)

  /** BinaryHeapState, as far as the bytes are concerned. */
  datatype HeapViews = HeapViews(isMaxN: bool, heapSpace: nat, nodes: seq<View>)

  function Buffers(nodes: seq<View>): set<object> {
    set v | v in nodes :: v.buffer
  }

  ghost predicate InBounds(nodes: seq<View>) {
    forall v :: v in nodes ==> v.start + v.length <= v.buffer.Length
  }

  ghost function Contents(nodes: seq<View>): (s: seq<seq<byte>>)
    requires InBounds(nodes)
    reads Buffers(nodes)
    ensures |s| == |nodes|
  {
    seq(|nodes|, i requires 0 <= i < |nodes| reads Buffers(nodes) =>
      assert nodes[i] in nodes;
      nodes[i].buffer[nodes[i].start..nodes[i].start + nodes[i].length])
  }

  ghost function Meaning(h: HeapViews): State
    requires InBounds(h.nodes)
    reads Buffers(h.nodes)
  {
    State(h.isMaxN, h.heapSpace, Contents(h.nodes))
  }

  ghost predicate IsVarlena(b: array<byte>)
    reads b
  {
    VARHDRSZ <= b.Length < LIMIT && b[..VARHDRSZ] == Header(b.Length)
  }

  method WriteAt(bytes: array<byte>, pos: nat, s: seq<byte>)
    requires pos + |s| <= bytes.Length
    modifies bytes
    ensures bytes[..pos + |s|] == old(bytes[..pos]) + s
  {
    forall i | 0 <= i < |s| { bytes[pos + i] := s[i]; }
  }

  ghost predicate Serializable(h: HeapViews)
    requires InBounds(h.nodes)
    reads Buffers(h.nodes)
  {
    Fits(Meaning(h)) && VARHDRSZ + |Encode(Meaning(h))| < LIMIT
  }

  /** SerializeBinaryHeapState. The documents are all made before the first byte is written, so it
      does not matter that writing may change what the values point to. */
  method Serialize(h: HeapViews, byteArray: array?<byte>) returns (bytes: array<byte>)
    requires InBounds(h.nodes) && Serializable(h)
    requires byteArray != null ==> IsVarlena(byteArray)
    modifies byteArray
    ensures bytes == byteArray || fresh(bytes)
    ensures IsVarlena(bytes)
    ensures Decode(bytes[VARHDRSZ..]) == Some(old(Meaning(h)))
  {
    ghost var st := Meaning(h);
    var heapNodeList, heapNodesSize := MakeDocuments(h.nodes, st.nodes);
    var requiredByteSize := VARHDRSZ + 1 + 8 + 8 + heapNodesSize;
    var existingByteSize := 0;
    if byteArray != null {
      existingByteSize := VarSize(byteArray[..]);
      StoredSize(byteArray);
    }
    if existingByteSize >= requiredByteSize {
      bytes := byteArray;
    } else {
      bytes := new byte[requiredByteSize];
      WriteAt(bytes, 0, Header(requiredByteSize));
    }
    WriteState(bytes, h.isMaxN, h.heapSpace, heapNodeList, st);
    ghost var written := bytes[VARHDRSZ..];
    var n: nat := |Encode(st)|;
    assert written == written[..n] + written[n..];
    DecodeEncode(st, written[n..]);
  }

  lemma {:induction false} StoredSize(b: array<byte>)
    requires IsVarlena(b)
    ensures VarSize(b[..]) == b.Length
  {
    VarSizeOfHeader(b.Length, b[VARHDRSZ..]);
    assert b[..] == b[..VARHDRSZ] + b[VARHDRSZ..];
  }

  /** Its first loop. */
  method MakeDocuments(nodes: seq<View>, ghost contents: seq<seq<byte>>) returns (list: seq<seq<byte>>, size: nat)
    requires InBounds(nodes) && contents == Contents(nodes)
    ensures |list| == |contents| && forall i :: 0 <= i < |list| ==> list[i] == Document(contents[i])
    ensures size == |Documents(contents)|
  {
    list, size := [], 0;
    for i := 0 to |nodes|
      invariant |list| == i && forall j :: 0 <= j < i ==> list[j] == Document(contents[j])
      invariant size == |Documents(contents[..i])|
    {
      var v := nodes[i];
      var document := Document(v.buffer[v.start..v.start + v.length]);
      assert document == Document(contents[i]);
      assert contents[..i + 1][..i] == contents[..i];
      list := list + [document];
      size := size + |document|;
    }
    assert contents[..|nodes|] == contents;
  }

  /** Its second loop, after the three fields in front. */
  method WriteState(bytes: array<byte>, isMaxN: bool, heapSpace: nat, list: seq<seq<byte>>, ghost st: State)
    requires st.isMaxN == isMaxN && st.heapSpace == heapSpace
    requires |list| == |st.nodes| && forall i :: 0 <= i < |list| ==> list[i] == Document(st.nodes[i])
    requires VARHDRSZ + |Encode(st)| <= bytes.Length
    modifies bytes
    ensures bytes[..VARHDRSZ] == old(bytes[..VARHDRSZ])
    ensures bytes[VARHDRSZ..][..|Encode(st)|] == Encode(st)
  {
    var head := Head(isMaxN, |list|, heapSpace);
    ghost var front := bytes[..VARHDRSZ];
    WriteAt(bytes, VARHDRSZ, head);
    WriteDocuments(bytes, VARHDRSZ + |head|, list, st.nodes);
    ghost var pos := VARHDRSZ + |Encode(st)|;
    assert bytes[..pos] == front + head + Documents(st.nodes);
    assert front + head + Documents(st.nodes) == front + Encode(st);
    Slices(bytes[..], pos, front, Encode(st));
  }

  method WriteDocuments(bytes: array<byte>, start: nat, list: seq<seq<byte>>, ghost nodes: seq<seq<byte>>)
    requires |list| == |nodes| && forall i :: 0 <= i < |list| ==> list[i] == Document(nodes[i])
    requires start + |Documents(nodes)| <= bytes.Length
    modifies bytes
    ensures bytes[..start + |Documents(nodes)|] == old(bytes[..start]) + Documents(nodes)
  {
    var pos := start;
    ghost var before := bytes[..start];
    for i := 0 to |list|
      invariant pos == start + |Documents(nodes[..i])| <= bytes.Length
      invariant bytes[..pos] == before + Documents(nodes[..i])
    {
      DocumentsGrow(nodes, i);
      WriteAt(bytes, pos, list[i]);
      pos := pos + |list[i]|;
      assert before + Documents(nodes[..i]) + list[i] == before + (Documents(nodes[..i]) + list[i]);
    }
    assert nodes[..|list|] == nodes;
  }

  lemma {:induction false} Slices(bytes: seq<byte>, pos: nat, front: seq<byte>, body: seq<byte>)
    requires pos <= |bytes| && |front| == VARHDRSZ && bytes[..pos] == front + body
    ensures bytes[..VARHDRSZ] == front && bytes[VARHDRSZ..][..|body|] == body
  {
    assert bytes[..VARHDRSZ] == bytes[..pos][..VARHDRSZ];
    assert bytes[VARHDRSZ..][..|body|] == bytes[..pos][VARHDRSZ..];
  }

  lemma {:induction false} DocumentsGrow(nodes: seq<seq<byte>>, i: nat)
    requires i < |nodes|
    ensures Documents(nodes[..i + 1]) == Documents(nodes[..i]) + Document(nodes[i])
    ensures |Documents(nodes[..i + 1])| <= |Documents(nodes)|
  {
    assert nodes[..i + 1][..i] == nodes[..i];
    DocumentsPrefix(nodes, i + 1);
  }

  lemma {:induction false} DocumentsPrefix(nodes: seq<seq<byte>>, k: nat)
    requires k <= |nodes|
    ensures |Documents(nodes[..k])| <= |Documents(nodes)|
  {
    if k < |nodes| {
      assert nodes[..|nodes| - 1][..k] == nodes[..k];
      DocumentsPrefix(nodes[..|nodes| - 1], k);
    } else {
      assert nodes[..k] == nodes;
    }
  }

  /** DeserializeBinaryHeapState. It trusts the bytes; the values it returns point into them. */
  method Deserialize(bytes: array<byte>) returns (h: HeapViews)
    requires bytes.Length >= VARHDRSZ && Decode(bytes[VARHDRSZ..]).Some?
    ensures InBounds(h.nodes) && forall v :: v in h.nodes ==> v.buffer == bytes
    ensures Meaning(h) == Decode(bytes[VARHDRSZ..]).value
  {
    ghost var body := bytes[VARHDRSZ..];
    ghost var st := Decode(body).value;
    var isMaxN := bytes[VARHDRSZ] != 0;
    assert bytes[VARHDRSZ + 1..VARHDRSZ + 9] == body[1..9];
    assert bytes[VARHDRSZ + 9..VARHDRSZ + 17] == body[9..17];
    var heapSize := Get(bytes[VARHDRSZ + 1..VARHDRSZ + 9]);
    var heapSpace := Get(bytes[VARHDRSZ + 9..VARHDRSZ + 17]);
    assert bytes[VARHDRSZ + 17..] == body[17..];
    var nodes := ReadViews(bytes, VARHDRSZ + 17, heapSize, st.nodes);
    assert forall i :: 0 <= i < |nodes| ==> Shows(nodes[i], bytes, st.nodes[i]);
    h := HeapViews(isMaxN, heapSpace, nodes);
    assert Contents(h.nodes) == st.nodes;
  }

  ghost predicate Shows(v: View, bytes: array<byte>, content: seq<byte>)
    reads bytes
  {
    v.buffer == bytes && v.start + v.length <= bytes.Length && bytes[v.start..v.start + v.length] == content
  }

  /** Its loop. */
  method ReadViews(bytes: array<byte>, start: nat, heapSize: nat, ghost contents: seq<seq<byte>>)
    returns (nodes: seq<View>)
    requires start <= bytes.Length && ReadDocuments(bytes[start..], heapSize) == Some(contents)
    ensures |nodes| == |contents| == heapSize
    ensures forall i :: 0 <= i < heapSize ==> Shows(nodes[i], bytes, contents[i])
  {
    nodes := [];
    var pos: nat := start;
    ReadLength(bytes[start..], heapSize);
    for i := 0 to heapSize
      invariant |nodes| == i <= |contents| == heapSize && pos <= bytes.Length
      invariant ReadDocuments(bytes[pos..], heapSize - i) == Some(contents[i..])
      invariant forall j :: 0 <= j < i ==> Shows(nodes[j], bytes, contents[j])
    {
      var v, next := ReadView(bytes, pos, heapSize - i, contents[i..]);
      assert contents[i..][1..] == contents[i + 1..];
      nodes := nodes + [v];
      pos := next;
    }
  }

  method ReadView(bytes: array<byte>, pos: nat, ghost n: nat, ghost contents: seq<seq<byte>>)
    returns (v: View, next: nat)
    requires pos <= bytes.Length && n > 0 && ReadDocuments(bytes[pos..], n) == Some(contents)
    ensures contents != [] && Shows(v, bytes, contents[0])
    ensures next <= bytes.Length && ReadDocuments(bytes[next..], n - 1) == Some(contents[1..])
  {
    ghost var rest := bytes[pos..];
    FirstDocument(rest, n, contents);
    assert bytes[pos..pos + VARHDRSZ][..VARHDRSZ] == rest[..VARHDRSZ];
    var size := VarSize(bytes[pos..pos + VARHDRSZ]);
    v, next := View(bytes, pos + VARHDRSZ, size - VARHDRSZ), pos + size;
    assert rest[VARHDRSZ..size] == bytes[pos + VARHDRSZ..pos + size];
    assert rest[size..] == bytes[next..];
  }

  lemma {:induction false} ReadLength(s: seq<byte>, n: nat)
    requires ReadDocuments(s, n).Some?
    ensures |ReadDocuments(s, n).value| == n
    decreases n
  {
    if n > 0 { ReadLength(s[VarSize(s)..], n - 1); }
  }

  lemma {:induction false} FirstDocument(s: seq<byte>, n: nat, contents: seq<seq<byte>>)
    requires n > 0 && ReadDocuments(s, n) == Some(contents)
    ensures |s| >= VARHDRSZ && VARHDRSZ <= VarSize(s) <= |s|
    ensures |contents| > 0 && contents[0] == s[VARHDRSZ..VarSize(s)]
    ensures ReadDocuments(s[VarSize(s)..], n - 1) == Some(contents[1..])
  {}

  /** What every transition and combine relies on: a state written, into no buffer or into a buffer
      its own values point into or any other, and read back is the same state. */
  method StateSurvives(h: HeapViews, byteArray: array?<byte>) returns (h': HeapViews)
    requires InBounds(h.nodes) && Serializable(h)
    requires byteArray != null ==> IsVarlena(byteArray)
    modifies byteArray
    ensures InBounds(h'.nodes) && Meaning(h') == old(Meaning(h))
  {
    var bytes := Serialize(h, byteArray);
    h' := Deserialize(bytes);
  }

  /* ---------- the bytes themselves ---------- */

  /** The flag, the number of nodes and the capacity in eight bytes each, and the nodes' documents; a document is four
      times its size in four bytes, and its content. */
  lemma LiteralLayout(isMaxN: bool, heapSpace: nat, node: seq<byte>, nodes: seq<seq<byte>>)
    requires heapSpace < LIMIT && |nodes| < LIMIT && |node| + 4 < LIMIT
    ensures Encode(State(isMaxN, heapSpace, nodes))
            == [if isMaxN then 1 else 0] + (Four(|nodes|) + [0, 0, 0, 0]) + (Four(heapSpace) + [0, 0, 0, 0])
               + Documents(nodes)
    ensures Documents([]) == [] && Documents(nodes + [node]) == Documents(nodes) + (Four(4 * (4 + |node|)) + node)
  {
    LiteralNumbers(|nodes|);
    LiteralNumbers(heapSpace);
    LiteralNumbers(4 * (4 + |node|));
    assert (nodes + [node])[..|nodes|] == nodes;
  }
}

/**
 Well-known binary geometries (clause 8.2 of OGC 06-103r4, in little-endian byte order), with the SRID
 flag of PostGIS: the buffer writers, the insertion of the SRID, and the bounds-checked traversal.
 */
module Wkb {
  import opened Bytes

  const WORD: nat := 4
  const POINT_SIZE: nat := 16
  const BYTE_ORDER: byte := 1
  const SRID_FLAG: nat := 0x2000_0000
  const DEFAULT_SRID: nat := 4326
  const COUNT_LIMIT: nat := 0x8000_0000  // counts are int32

  const GEOMETRY_COLLECTION: nat := 7

  type Point = s: seq<byte> | |s| == 16 witness seq(16, _ => 0)

  datatype Geometry =
    | PointOf(point: Point)
    | LineString(points: seq<Point>)
    | Polygon(rings: seq<seq<Point>>)
    | Collection(kind: nat, members: seq<Geometry>)

  /* ---------- the format ---------- */

  function Num(n: nat): (s: seq<byte>)
    ensures |s| == WORD
  {
    Put(n, WORD)
  }

  lemma {:induction false} NumBack(n: nat, rest: seq<byte>)
    requires n < 0x1_0000_0000
    ensures Get((Num(n) + rest)[..WORD]) == n && (Num(n) + rest)[WORD..] == rest
  {
    Word();
    GetPut(n, WORD);
    assert (Num(n) + rest)[..WORD] == Num(n);
  }

  function Header(kind: nat): (s: seq<byte>)
    ensures |s| == 5
  {
    [BYTE_ORDER] + Num(kind)
  }

  function Kind(g: Geometry): nat {
    match g
    case PointOf(_) => 1
    case LineString(_) => 2
    case Polygon(_) => 3
    case Collection(kind, _) => kind
  }

  function Points(ps: seq<Point>): seq<byte> {
    if ps == [] then [] else ps[0] + Points(ps[1..])
  }

  function Rings(rs: seq<seq<Point>>): seq<byte> {
    if rs == [] then [] else Num(|rs[0]|) + Points(rs[0]) + Rings(rs[1..])
  }

  function Body(g: Geometry): seq<byte>
    decreases g, 0
  {
    match g
    case PointOf(p) => p
    case LineString(ps) => Num(|ps|) + Points(ps)
    case Polygon(rs) => Num(|rs|) + Rings(rs)
    case Collection(_, ms) => Num(|ms|) + Members(ms)
  }

  function Encode(g: Geometry): seq<byte>
    decreases g, 1
  {
    Header(Kind(g)) + Body(g)
  }

  function Members(ms: seq<Geometry>): seq<byte>
    decreases ms, 0
  {
    if ms == [] then [] else Encode(ms[0]) + Members(ms[1..])
  }

  /** Counts fit an int32, and a collection has one of the four collection types. */
  predicate WellFormed(g: Geometry) {
    match g
    case PointOf(_) => true
    case LineString(ps) => |ps| < COUNT_LIMIT
    case Polygon(rs) => |rs| < COUNT_LIMIT && forall i :: 0 <= i < |rs| ==> |rs[i]| < COUNT_LIMIT
    case Collection(kind, ms) => 4 <= kind <= 7 && |ms| < COUNT_LIMIT && forall i :: 0 <= i < |ms| ==> WellFormed(ms[i])
  }

  /* ---------- the traversal, as a function of the bytes ---------- */

  datatype Read<+T> = Failed | Done(value: T, rest: seq<byte>)

  predicate HasSrid(kind: nat) {
    kind / SRID_FLAG % 2 == 1
  }

  function WithoutSrid(kind: nat): nat {
    if HasSrid(kind) then kind - SRID_FLAG else kind
  }

  function WithSrid(kind: nat): nat {
    if HasSrid(kind) then kind else kind + SRID_FLAG
  }

  // A negative int32 count runs a loop no times.
  function Count(s: seq<byte>): nat
    requires |s| >= WORD
  {
    var n := Get(s[..WORD]);
    if n < COUNT_LIMIT then n else 0
  }

  function ReadPoints(s: seq<byte>, n: nat): (r: Read<seq<Point>>)
    ensures r.Done? ==> |r.rest| <= |s|
    decreases n
  {
    if n == 0 then Done([], s)
    else if |s| < POINT_SIZE then Failed
    else match ReadPoints(s[POINT_SIZE..], n - 1)
         case Failed => Failed
         case Done(ps, rest) => var p: Point := s[..POINT_SIZE]; Done([p] + ps, rest)
  }

  function ReadRings(s: seq<byte>, n: nat): (r: Read<seq<seq<Point>>>)
    ensures r.Done? ==> |r.rest| <= |s|
    decreases n
  {
    if n == 0 then Done([], s)
    else if |s| < WORD then Failed
    else match ReadPoints(s[WORD..], Count(s))
         case Failed => Failed
         case Done(ring, rest) =>
           match ReadRings(rest, n - 1)
           case Failed => Failed
           case Done(rs, rest') => Done([ring] + rs, rest')
  }

  /** TraverseWKBBufferCore: byte order, type, SRID if the flag is set, then by type. */
  function Decode(s: seq<byte>): (r: Read<Geometry>)
    ensures r.Done? ==> |r.rest| < |s|
    decreases |s|, 0
  {
    if |s| < 1 + WORD then Failed
    else
      var kind := Get(s[1..1 + WORD]);
      if HasSrid(kind) && |s| < 1 + WORD + WORD then Failed
      else ReadBody(WithoutSrid(kind), s[if HasSrid(kind) then 1 + WORD + WORD else 1 + WORD..])
  }

  function ReadBody(kind: nat, s: seq<byte>): (r: Read<Geometry>)
    ensures r.Done? ==> |r.rest| <= |s|
    decreases |s|, 2
  {
    if kind == 1 then
      if |s| < POINT_SIZE then Failed else Done(PointOf(s[..POINT_SIZE]), s[POINT_SIZE..])
    else if kind < 1 || kind > 7 || |s| < WORD then Failed
    else if kind == 2 then
      match ReadPoints(s[WORD..], Count(s))
      case Failed => Failed
      case Done(ps, rest) => Done(LineString(ps), rest)
    else if kind == 3 then
      match ReadRings(s[WORD..], Count(s))
      case Failed => Failed
      case Done(rs, rest) => Done(Polygon(rs), rest)
    else
      match ReadMembers(s[WORD..], Count(s))
      case Failed => Failed
      case Done(ms, rest) => Done(Collection(kind, ms), rest)
  }

  function ReadMembers(s: seq<byte>, n: nat): (r: Read<seq<Geometry>>)
    ensures r.Done? ==> |r.rest| <= |s|
    decreases |s|, 1 + n
  {
    if n == 0 then Done([], s)
    else match Decode(s)
         case Failed => Failed
         case Done(g, rest) =>
           match ReadMembers(rest, n - 1)
           case Failed => Failed
           case Done(ms, rest') => Done([g] + ms, rest')
  }

  /* ---------- decoding undoes encoding ---------- */

  lemma {:induction false} ReadBackPoints(ps: seq<Point>, rest: seq<byte>)
    ensures ReadPoints(Points(ps) + rest, |ps|) == Done(ps, rest)
  {
    if ps == [] {
      assert Points(ps) + rest == rest;
    } else {
      var s := Points(ps) + rest;
      assert s == ps[0] + (Points(ps[1..]) + rest);
      assert s[..POINT_SIZE] == ps[0] && s[POINT_SIZE..] == Points(ps[1..]) + rest;
      ReadBackPoints(ps[1..], rest);
      assert ps == [ps[0]] + ps[1..];
    }
  }

  lemma {:induction false} CountBack(n: nat, rest: seq<byte>)
    requires n < COUNT_LIMIT
    ensures Count(Num(n) + rest) == n && (Num(n) + rest)[WORD..] == rest
  {
    NumBack(n, rest);
  }

  lemma {:induction false} RingsSplit(rs: seq<seq<Point>>, rest: seq<byte>)
    requires rs != []
    ensures Rings(rs) + rest == Num(|rs[0]|) + (Points(rs[0]) + (Rings(rs[1..]) + rest))
  {
  }

  lemma {:induction false} ReadsRings(rs: seq<seq<Point>>, tail: seq<byte>, rest: seq<byte>)
    requires rs != [] && |rs[0]| < COUNT_LIMIT && ReadRings(tail, |rs| - 1) == Done(rs[1..], rest)
    ensures ReadRings(Num(|rs[0]|) + (Points(rs[0]) + tail), |rs|) == Done(rs, rest)
  {
    CountBack(|rs[0]|, Points(rs[0]) + tail);
    ReadBackPoints(rs[0], tail);
    assert rs == [rs[0]] + rs[1..];
  }

  lemma {:induction false} ReadBackRings(rs: seq<seq<Point>>, rest: seq<byte>)
    requires forall i :: 0 <= i < |rs| ==> |rs[i]| < COUNT_LIMIT
    ensures ReadRings(Rings(rs) + rest, |rs|) == Done(rs, rest)
  {
    if rs == [] {
      assert Rings(rs) + rest == rest;
    } else {
      RingsSplit(rs, rest);
      ReadBackRings(rs[1..], rest);
      ReadsRings(rs, Rings(rs[1..]) + rest, rest);
    }
  }

  lemma {:induction false} DecodesHeader(kind: nat, s: seq<byte>)
    requires kind <= GEOMETRY_COLLECTION
    ensures Decode(Header(kind) + s) == ReadBody(kind, s)
  {
    var w := Header(kind) + s;
    NumBack(kind, s);
    assert w[1..] == Num(kind) + s;
    assert w[1..][..WORD] == w[1..1 + WORD] && w[1..][WORD..] == w[1 + WORD..];
  }

  /** The traversal of an encoded geometry, whatever follows it, sees that geometry, nested collections
      included, and stops at its end. */
  lemma {:induction false} DecodeEncode(g: Geometry, rest: seq<byte>)
    requires WellFormed(g)
    ensures Decode(Encode(g) + rest) == Done(g, rest)
    decreases g, 1
  {
    DecodesHeader(Kind(g), Body(g) + rest);
    assert Encode(g) + rest == Header(Kind(g)) + (Body(g) + rest);
    ReadBackBody(g, rest);
  }

  lemma {:induction false} ReadBackBody(g: Geometry, rest: seq<byte>)
    requires WellFormed(g)
    ensures ReadBody(Kind(g), Body(g) + rest) == Done(g, rest)
    decreases g, 0
  {
    match g
    case PointOf(p) =>
      assert (p + rest)[..POINT_SIZE] == p && (p + rest)[POINT_SIZE..] == rest;
    case LineString(ps) =>
      ReadBackPoints(ps, rest);
      ReadsCounted(g, |ps|, Points(ps), rest);
    case Polygon(rs) =>
      ReadBackRings(rs, rest);
      ReadsCounted(g, |rs|, Rings(rs), rest);
    case Collection(_, ms) =>
      ReadBackMembers(ms, rest);
      ReadsCounted(g, |ms|, Members(ms), rest);
  }

  // The body of any geometry other than a point is a count and the parts it counts.
  lemma {:induction false} ReadsCounted(g: Geometry, n: nat, parts: seq<byte>, rest: seq<byte>)
    requires !g.PointOf? && (g.Collection? ==> 4 <= g.kind <= 7) && n < COUNT_LIMIT
    requires g.LineString? ==> ReadPoints(parts + rest, n) == Done(g.points, rest)
    requires g.Polygon? ==> ReadRings(parts + rest, n) == Done(g.rings, rest)
    requires g.Collection? ==> ReadMembers(parts + rest, n) == Done(g.members, rest)
    ensures ReadBody(Kind(g), Num(n) + parts + rest) == Done(g, rest)
  {
    CountBack(n, parts + rest);
    assert Num(n) + parts + rest == Num(n) + (parts + rest);
    ReadsParts(g, Num(n) + (parts + rest), parts + rest, rest);
  }

  lemma {:induction false} ReadsParts(g: Geometry, s: seq<byte>, parts: seq<byte>, rest: seq<byte>)
    requires !g.PointOf? && (g.Collection? ==> 4 <= g.kind <= 7) && |s| >= WORD && s[WORD..] == parts
    requires g.LineString? ==> ReadPoints(parts, Count(s)) == Done(g.points, rest)
    requires g.Polygon? ==> ReadRings(parts, Count(s)) == Done(g.rings, rest)
    requires g.Collection? ==> ReadMembers(parts, Count(s)) == Done(g.members, rest)
    ensures ReadBody(Kind(g), s) == Done(g, rest)
  {
  }

  lemma {:induction false} MembersSplit(ms: seq<Geometry>, rest: seq<byte>)
    requires ms != []
    ensures Members(ms) + rest == Encode(ms[0]) + (Members(ms[1..]) + rest)
  {
  }

  lemma {:induction false} ReadsMembers(s: seq<byte>, ms: seq<Geometry>, tail: seq<byte>, rest: seq<byte>)
    requires ms != [] && Decode(s) == Done(ms[0], tail) && ReadMembers(tail, |ms| - 1) == Done(ms[1..], rest)
    ensures ReadMembers(s, |ms|) == Done(ms, rest)
  {
    assert ms == [ms[0]] + ms[1..];
  }

  lemma {:induction false} ReadBackMembers(ms: seq<Geometry>, rest: seq<byte>)
    requires forall i :: 0 <= i < |ms| ==> WellFormed(ms[i])
    ensures ReadMembers(Members(ms) + rest, |ms|) == Done(ms, rest)
    decreases ms, 0
  {
    if ms == [] {
      assert Members(ms) + rest == rest;
    } else {
      MembersSplit(ms, rest);
      var tail := Members(ms[1..]) + rest;
      DecodeEncode(ms[0], tail);
      ReadBackMembers(ms[1..], rest);
      ReadsMembers(Members(ms) + rest, ms, tail, rest);
    }
  }

  /* ---------- the SRID ---------- */

  /** WKBBufferGetByteaWithSRID, without the varlena header. */
  function InsertSrid(wkb: seq<byte>): seq<byte>
    requires |wkb| >= 5
  {
    wkb[..1] + Num(WithSrid(Get(wkb[1..5]))) + Num(DEFAULT_SRID) + wkb[5..]
  }

  /** Taking the flag and the SRID out again. */
  function StripSrid(ewkb: seq<byte>): seq<byte>
    requires |ewkb| >= 9
  {
    ewkb[..1] + Num(WithoutSrid(Get(ewkb[1..5]))) + ewkb[9..]
  }

  lemma FlagIsSet(kind: nat)
    requires kind < 0x1_0000_0000
    ensures HasSrid(WithSrid(kind)) && WithSrid(kind) < 0x1_0000_0000
    ensures WithoutSrid(WithSrid(kind)) == WithoutSrid(kind) < 0x1_0000_0000
  {
    if !HasSrid(kind) {
      assert (kind + SRID_FLAG) / SRID_FLAG == kind / SRID_FLAG + 1;
    }
  }

  lemma {:induction false} FieldsInOrder(a: seq<byte>, b: seq<byte>, c: seq<byte>, d: seq<byte>)
    requires |a| == 1 && |b| == WORD && |c| == WORD
    ensures var e := a + b + c + d; e[..1] == a && e[1..5] == b && e[5..9] == c && e[9..] == d
  {
  }

  lemma {:induction false} SridFields(wkb: seq<byte>)
    requires |wkb| >= 5
    ensures var e := InsertSrid(wkb);
            && |e| == |wkb| + 4 && e[..1] == wkb[..1] && e[9..] == wkb[5..]
            && Get(e[1..5]) == WithSrid(Get(wkb[1..5])) && Get(e[5..9]) == DEFAULT_SRID
  {
    var kind := Get(wkb[1..5]);
    PutGet(wkb[1..5]);
    Word();
    FlagIsSet(kind);
    GetPut(WithSrid(kind), WORD);
    GetPut(DEFAULT_SRID, WORD);
    FieldsInOrder(wkb[..1], Num(WithSrid(kind)), Num(DEFAULT_SRID), wkb[5..]);
  }

  lemma {:induction false} StripFields(wkb: seq<byte>)
    requires |wkb| >= 5
    ensures StripSrid(InsertSrid(wkb)) == wkb[..1] + Num(WithoutSrid(Get(wkb[1..5]))) + wkb[5..]
  {
    SridFields(wkb);
    PutGet(wkb[1..5]);
    Word();
    FlagIsSet(Get(wkb[1..5]));
  }

  /** The insertion can be undone exactly when the flag was clear before. */
  lemma {:induction false} StripInsert(wkb: seq<byte>)
    requires |wkb| >= 5
    ensures StripSrid(InsertSrid(wkb)) == wkb <==> !HasSrid(Get(wkb[1..5]))
  {
    var kind := Get(wkb[1..5]);
    StripFields(wkb);
    PutGet(wkb[1..5]);
    Word();
    var w := Num(WithoutSrid(kind));
    GetPut(WithoutSrid(kind), WORD);
    assert (wkb[..1] + w + wkb[5..])[1..5] == w;
    assert wkb == wkb[..1] + wkb[1..5] + wkb[5..];
  }

  lemma HeaderFields(g: Geometry)
    requires WellFormed(g)
    ensures var w := Encode(g);
            |w| >= 5 && w[..1] == [BYTE_ORDER] && Get(w[1..5]) == Kind(g) && w[5..] == Body(g)
  {
    var w := Encode(g);
    NumBack(Kind(g), Body(g));
    assert w[1..] == Num(Kind(g)) + Body(g);
    assert w[1..][..WORD] == w[1..5] && w[1..][WORD..] == w[5..];
  }

  lemma {:induction false} DecodesWithSrid(e: seq<byte>, kind: nat, rest: seq<byte>)
    requires |e| >= 9 && HasSrid(Get(e[1..5])) && WithoutSrid(Get(e[1..5])) == kind
    ensures Decode(e + rest) == ReadBody(kind, e[9..] + rest)
  {
    assert (e + rest)[1..5] == e[1..5] && (e + rest)[9..] == e[9..] + rest;
  }

  /** The traversal sees the same geometry with the SRID as without it. */
  lemma {:induction false} DecodeWithSrid(g: Geometry, rest: seq<byte>)
    requires WellFormed(g)
    ensures Decode(InsertSrid(Encode(g)) + rest) == Done(g, rest)
  {
    HeaderFields(g);
    SridFields(Encode(g));
    FlagIsSet(Kind(g));
    DecodesWithSrid(InsertSrid(Encode(g)), Kind(g), rest);
    ReadBackBody(g, rest);
  }

  /** WKBBufferGetCollectionByteaWithSRID: a collection around a buffer of encoded geometries. */
  function WrapCollection(wkb: seq<byte>, kind: nat, totalNum: nat): seq<byte>
    requires |wkb| >= 1
  {
    wkb[..1] + Num(WithSrid(kind)) + Num(DEFAULT_SRID) + Num(totalNum) + wkb
  }

  lemma MembersStart(ms: seq<Geometry>)
    requires ms != []
    ensures |Members(ms)| >= 1 && Members(ms)[..1] == [BYTE_ORDER]
  {
    assert Members(ms) == [BYTE_ORDER] + (Num(Kind(ms[0])) + Body(ms[0]) + Members(ms[1..]));
  }

  /** A wrapped buffer of encoded geometries decodes to the collection of exactly those, in order. */
  lemma {:induction false} DecodeCollection(ms: seq<Geometry>, kind: nat, rest: seq<byte>)
    requires ms != [] && WellFormed(Collection(kind, ms))
    ensures |Members(ms)| >= 1
    ensures Decode(WrapCollection(Members(ms), kind, |ms|) + rest) == Done(Collection(kind, ms), rest)
  {
    var g := Collection(kind, ms);
    MembersStart(ms);
    HeaderFields(g);
    assert InsertSrid(Encode(g)) == WrapCollection(Members(ms), kind, |ms|);
    DecodeWithSrid(g, rest);
  }

  /* ---------- the bytes themselves ---------- */

  lemma {:induction false} LiteralNum(n: nat)
    requires n < 0x1_0000_0000
    ensures Num(n) == Four(n)
  {
    LiteralNumbers(n);
  }

  /** Point k of a list is its sixteen bytes from 16 * k on. */
  lemma {:induction false} PointsByPlace(ps: seq<Point>, k: nat)
    ensures |Points(ps)| == 16 * |ps|
    ensures k < |ps| ==> Points(ps)[16 * k..16 * k + 16] == ps[k]
  {
    if ps != [] {
      PointsByPlace(ps[1..], if k > 0 then k - 1 else 0);
      if 0 < k < |ps| {
        assert Points(ps)[16 * k..16 * k + 16] == Points(ps[1..])[16 * (k - 1)..16 * (k - 1) + 16];
      }
    }
  }

  lemma {:induction false} SmallNumber(kind: nat)
    requires kind < 256
    ensures Four(kind) == [kind, 0, 0, 0] && Four(kind + 0x2000_0000) == [kind, 0, 0, 0x20]
  {
  }

  lemma {:induction false} LiteralHeader(kind: nat)
    requires kind < 256
    ensures Header(kind) == [1, kind, 0, 0, 0]
  {
    LiteralNum(kind);
    SmallNumber(kind);
  }

  /** The first bytes of each kind of geometry: byte order 1, the type in four bytes, and but for a point the number
      of its parts. */
  lemma {:induction false} LiteralBytes(g: Geometry)
    requires WellFormed(g)
    ensures
      match g
      case PointOf(p) => Encode(g) == [1, 1, 0, 0, 0] + p
      case LineString(ps) => Encode(g) == [1, 2, 0, 0, 0] + (Four(|ps|) + Points(ps))
      case Polygon(rs) => Encode(g) == [1, 3, 0, 0, 0] + (Four(|rs|) + Rings(rs))
      case Collection(kind, ms) => Encode(g) == [1, kind, 0, 0, 0] + (Four(|ms|) + Members(ms))
  {
    LiteralHeader(Kind(g));
    match g
    case PointOf(_) =>
    case LineString(ps) => LiteralNum(|ps|);
    case Polygon(rs) => LiteralNum(|rs|);
    case Collection(_, ms) => LiteralNum(|ms|);
  }

  lemma {:induction false} LiteralFlag(kind: nat)
    requires kind <= 7
    ensures Num(WithSrid(kind)) == [kind, 0, 0, 0x20] && Num(DEFAULT_SRID) == [0xE6, 0x10, 0, 0]
  {
    LiteralNum(kind + 0x2000_0000);
    SmallNumber(kind);
    LiteralNum(4326);
  }

  lemma {:induction false} FirstNine(a: byte, kind: byte, rest: seq<byte>)
    ensures [a] + [kind, 0, 0, 0x20] + [0xE6, 0x10, 0, 0] + rest == [a, kind, 0, 0, 0x20, 0xE6, 0x10, 0, 0] + rest
  {
  }

  /** With the SRID the flag is bit 5 of the last type byte, and 4326 follows, as E6 10 00 00. */
  lemma {:induction false} LiteralSrid(g: Geometry)
    requires WellFormed(g)
    ensures 1 <= Kind(g) <= 7 && |Encode(g)| >= 5
    ensures InsertSrid(Encode(g)) == [1, Kind(g), 0, 0, 0x20, 0xE6, 0x10, 0, 0] + Body(g)
  {
    HeaderFields(g);
    LiteralFlag(Kind(g));
    FirstNine(1, Kind(g), Body(g));
  }

  /** So it is around a collection, where the number of members comes next and then the buffer. */
  lemma {:induction false} LiteralCollection(wkb: seq<byte>, kind: nat, totalNum: nat)
    requires |wkb| >= 1 && kind <= 7 && totalNum < 0x1_0000_0000
    ensures WrapCollection(wkb, kind, totalNum)
            == [wkb[0], kind, 0, 0, 0x20, 0xE6, 0x10, 0, 0] + (Four(totalNum) + wkb)
  {
    LiteralFlag(kind);
    LiteralNum(totalNum);
    FirstNine(wkb[0], kind, Four(totalNum) + wkb);
    var front := wkb[..1] + Num(WithSrid(kind)) + Num(DEFAULT_SRID);
    assert front + Four(totalNum) + wkb == front + (Four(totalNum) + wkb);
  }
}

/**
 The bounds-checked walk over a well-known binary geometry that visits each of its points.
 */
module WkbIterator {
  import opened Bytes
  import opened Wkb

  /* ---------- the points of a geometry, in order ---------- */

  function RingPoints(rs: seq<seq<Point>>): seq<Point> {
    if rs == [] then [] else RingPoints(rs[..|rs| - 1]) + rs[|rs| - 1]
  }

  function PointsOf(g: Geometry): seq<Point>
    decreases g, 1
  {
    match g
    case PointOf(p) => [p]
    case LineString(ps) => ps
    case Polygon(rs) => RingPoints(rs)
    case Collection(_, ms) => MemberPoints(ms, |ms|)
  }

  // The points of the first k members.
  function MemberPoints(ms: seq<Geometry>, k: nat): seq<Point>
    requires k <= |ms|
    decreases ms, 0, k
  {
    if k == 0 then [] else MemberPoints(ms, k - 1) + PointsOf(ms[k - 1])
  }

  lemma RingPointsAppend(rs: seq<seq<Point>>, ring: seq<Point>)
    ensures RingPoints(rs + [ring]) == RingPoints(rs) + ring
  {
    assert (rs + [ring])[..|rs|] == rs;
  }

  lemma {:induction false} MemberPointsAppend(ms: seq<Geometry>, g: Geometry, k: nat)
    requires k <= |ms|
    ensures MemberPoints(ms + [g], k) == MemberPoints(ms, k)
  {
    if k > 0 {
      MemberPointsAppend(ms, g, k - 1);
    }
  }

  /* ---------- a reading in progress ---------- */

  function Prepend<T>(xs: seq<T>, r: Read<seq<T>>): Read<seq<T>> {
    match r
    case Failed => Failed
    case Done(ys, rest) => Done(xs + ys, rest)
  }

  lemma PrependTwice<T>(xs: seq<T>, x: T, r: Read<seq<T>>)
    ensures Prepend(xs, Prepend([x], r)) == Prepend(xs + [x], r)
  {
    if r.Done? {
      assert xs + ([x] + r.value) == xs + [x] + r.value;
    }
  }

  lemma PrependNone<T>(xs: seq<T>, r: Read<seq<T>>)
    ensures Prepend([], r) == r && (r.Done? && r.value == [] ==> Prepend(xs, r) == Done(xs, r.rest))
  {
    if r.Done? {
      assert [] + r.value == r.value && xs + [] == xs;
    }
  }

  class Iterator {
    const data: seq<byte>
    var pos: nat
    var visited: seq<Point>

    ghost predicate Valid()
      reads this
    {
      pos <= |data|
    }

    ghost function Rest(): seq<byte>
      requires Valid()
      reads this
    {
      data[pos..]
    }

    constructor (data: seq<byte>)
      ensures Valid() && this.data == data && Rest() == data && visited == []
    {
      this.data, pos, visited := data, 0, [];
    }

    /** No increment, of any length, moves the iterator out of the buffer. */
    method Increment(n: nat) returns (ok: bool)
      requires Valid()
      modifies `pos
      ensures Valid() && old(pos) <= pos
      ensures ok <==> n <= |old(Rest())|
      ensures ok ==> pos == old(pos) + n && Rest() == old(Rest())[n..]
      ensures !ok ==> pos == old(pos)
    {
      var remaining := |data| - pos;
      ok := remaining >= n;
      if ok {
        pos := pos + n;
      }
    }

    method ReadWord() returns (ok: bool, n: nat)
      requires Valid()
      modifies `pos
      ensures Valid() && old(pos) <= pos
      ensures ok <==> WORD <= |old(Rest())|
      ensures ok ==> n == Get(old(Rest())[..WORD]) && pos == old(pos) + WORD && Rest() == old(Rest())[WORD..]
    {
      var start := pos;
      ok := Increment(WORD);
      n := 0;
      if ok {
        n := Get(data[start..start + WORD]);
        assert data[start..start + WORD] == old(Rest())[..WORD];
      }
    }

    method ReadCount() returns (ok: bool, n: nat)
      requires Valid()
      modifies `pos
      ensures Valid() && old(pos) <= pos
      ensures ok <==> WORD <= |old(Rest())|
      ensures ok ==> n == Count(old(Rest())) && Rest() == old(Rest())[WORD..]
    {
      ok, n := ReadWord();
      if n >= COUNT_LIMIT {
        n := 0;
      }
    }

    method VisitPoint() returns (ok: bool)
      requires Valid()
      modifies this
      ensures Valid() && old(pos) <= pos
      ensures ok <==> POINT_SIZE <= |old(Rest())|
      ensures ok ==> Rest() == old(Rest())[POINT_SIZE..] && visited == old(visited) + [old(Rest())[..POINT_SIZE]]
    {
      var start := pos;
      ok := Increment(POINT_SIZE);
      if ok {
        var p: Point := data[start..start + POINT_SIZE];
        assert p == old(Rest())[..POINT_SIZE];
        visited := visited + [p];
      }
    }

    method VisitPoints(n: nat) returns (ok: bool, ghost points: seq<Point>)
      requires Valid()
      modifies this
      ensures Valid() && old(pos) <= pos
      ensures ok <==> ReadPoints(old(Rest()), n).Done?
      ensures ok ==> ReadPoints(old(Rest()), n) == Done(points, Rest())
      ensures ok ==> visited == old(visited) + points
    {
      points := [];
      var i := 0;
      PrependNone([], ReadPoints(Rest(), n));
      while i < n
        invariant 0 <= i <= n
        invariant Valid() && old(pos) <= pos
        invariant visited == old(visited) + points
        invariant ReadPoints(old(Rest()), n) == Prepend(points, ReadPoints(Rest(), n - i))
      {
        ghost var s := Rest();
        ok := VisitPoint();
        if !ok {
          return;
        }
        ghost var p: Point := s[..POINT_SIZE];
        PrependTwice(points, p, ReadPoints(Rest(), n - i - 1));
        points := points + [p];
        i := i + 1;
      }
      PrependNone(points, ReadPoints(Rest(), 0));
      ok := true;
    }

    method VisitRings(n: nat) returns (ok: bool, ghost rings: seq<seq<Point>>)
      requires Valid()
      modifies this
      ensures Valid() && old(pos) <= pos
      ensures ok <==> ReadRings(old(Rest()), n).Done?
      ensures ok ==> ReadRings(old(Rest()), n) == Done(rings, Rest())
      ensures ok ==> visited == old(visited) + RingPoints(rings)
    {
      rings := [];
      var i := 0;
      PrependNone([], ReadRings(Rest(), n));
      while i < n
        invariant 0 <= i <= n
        invariant Valid() && old(pos) <= pos
        invariant visited == old(visited) + RingPoints(rings)
        invariant ReadRings(old(Rest()), n) == Prepend(rings, ReadRings(Rest(), n - i))
      {
        ghost var ring;
        ok, ring := VisitRing();
        if !ok {
          return;
        }
        PrependTwice(rings, ring, ReadRings(Rest(), n - i - 1));
        RingPointsAppend(rings, ring);
        rings := rings + [ring];
        i := i + 1;
      }
      PrependNone(rings, ReadRings(Rest(), 0));
      ok := true;
    }

    method VisitRing() returns (ok: bool, ghost ring: seq<Point>)
      requires Valid()
      modifies this
      ensures Valid() && old(pos) <= pos
      ensures ok <==> |old(Rest())| >= WORD && ReadPoints(old(Rest())[WORD..], Count(old(Rest()))).Done?
      ensures ok ==> ReadPoints(old(Rest())[WORD..], Count(old(Rest()))) == Done(ring, Rest())
      ensures ok ==> visited == old(visited) + ring
    {
      ring := [];
      var n;
      ok, n := ReadCount();
      if ok {
        ok, ring := VisitPoints(n);
      }
    }

    /**
     The walk accepts exactly the byte strings that decode, ends where the geometry ends, and visits
     every point of the geometry once, in order.
     */
    method Traverse() returns (ok: bool, ghost g: Geometry)
      requires Valid()
      modifies this
      ensures Valid() && old(pos) <= pos
      ensures ok <==> Decode(old(Rest())).Done?
      ensures ok ==> Decode(old(Rest())) == Done(g, Rest()) && visited == old(visited) + PointsOf(g)
      decreases |data| - pos, 0
    {
      g := LineString([]);
      ghost var s := Rest();
      var kind;
      ok := Increment(1);
      if !ok {
        return;
      }
      ok, kind := ReadWord();
      if !ok {
        return;
      }
      assert s[1..][..WORD] == s[1..1 + WORD] && s[1..][WORD..] == s[1 + WORD..];
      if HasSrid(kind) {
        kind := WithoutSrid(kind);
        ok := Increment(WORD);
        if !ok {
          return;
        }
        assert s[1 + WORD..][WORD..] == s[1 + WORD + WORD..];
      }
      ok, g := VisitBody(kind);
    }

    method VisitBody(kind: nat) returns (ok: bool, ghost g: Geometry)
      requires Valid()
      modifies this
      ensures Valid() && old(pos) <= pos
      ensures ok <==> ReadBody(kind, old(Rest())).Done?
      ensures ok ==> ReadBody(kind, old(Rest())) == Done(g, Rest()) && visited == old(visited) + PointsOf(g)
      decreases |data| - pos, 2
    {
      g := LineString([]);
      if kind == 1 {
        ghost var s := Rest();
        ok := VisitPoint();
        if ok {
          g := PointOf(s[..POINT_SIZE]);
        }
        return;
      }
      if kind < 1 || kind > 7 {
        ok := false;
        return;
      }
      var n;
      ok, n := ReadCount();
      if !ok {
        return;
      }
      if kind == 2 {
        ghost var points;
        ok, points := VisitPoints(n);
        g := LineString(points);
      } else if kind == 3 {
        ghost var rings;
        ok, rings := VisitRings(n);
        g := Polygon(rings);
      } else {
        ghost var members;
        ok, members := VisitMembers(n);
        g := Collection(kind, members);
      }
    }

    method VisitMembers(n: nat) returns (ok: bool, ghost members: seq<Geometry>)
      requires Valid()
      modifies this
      ensures Valid() && old(pos) <= pos
      ensures ok <==> ReadMembers(old(Rest()), n).Done?
      ensures ok ==> ReadMembers(old(Rest()), n) == Done(members, Rest())
      ensures ok ==> visited == old(visited) + MemberPoints(members, |members|)
      decreases |data| - pos, 1
    {
      members := [];
      var i := 0;
      PrependNone([], ReadMembers(Rest(), n));
      while i < n
        invariant 0 <= i <= n
        invariant Valid() && old(pos) <= pos
        invariant visited == old(visited) + MemberPoints(members, |members|)
        invariant ReadMembers(old(Rest()), n) == Prepend(members, ReadMembers(Rest(), n - i))
      {
        ghost var g;
        ok, g := Traverse();
        if !ok {
          return;
        }
        PrependTwice(members, g, ReadMembers(Rest(), n - i - 1));
        MemberPointsAppend(members, g, |members|);
        members := members + [g];
        i := i + 1;
      }
      PrependNone(members, ReadMembers(Rest(), 0));
      ok := true;
    }
  }

  /* ---------- passing over a ring ---------- */

  /** A walk that visits no points passes over a ring in one increment of numPoints * 16 bytes: an int32
      product, which wraps, widened to an unsigned 64-bit length. */
  function RingLength(n: nat): (length: nat)
    requires n < 0x1_0000_0000
  {
    var product := n * POINT_SIZE % 0x1_0000_0000;
    if product < COUNT_LIMIT then product else 0x1_0000_0000_0000_0000 + product - 0x1_0000_0000
  }

  function SkipRing(s: seq<byte>, n: nat): Read<()>
    requires n < 0x1_0000_0000
  {
    if RingLength(n) <= |s| then Done((), s[RingLength(n)..]) else Failed
  }

  function WalkRing(s: seq<byte>, n: nat): Read<()>
  {
    match ReadPoints(s, if n < COUNT_LIMIT then n else 0)
    case Failed => Failed
    case Done(_, rest) => Done((), rest)
  }

  lemma {:induction false} WalkEnds(s: seq<byte>, n: nat)
    ensures ReadPoints(s, n).Done? <==> n * POINT_SIZE <= |s|
    ensures ReadPoints(s, n).Done? ==> ReadPoints(s, n).rest == s[n * POINT_SIZE..]
    decreases n
  {
    if n > 0 && |s| >= POINT_SIZE {
      WalkEnds(s[POINT_SIZE..], n - 1);
    }
  }

  /** Passing over a ring and visiting its points end alike exactly when the count is below 2^27, or the
      product of a larger count still overruns the buffer, or that of a negative one wraps to zero. */
  lemma {:induction false} SkipIsWalk(s: seq<byte>, n: nat)
    requires n < 0x1_0000_0000 && |s| < 0x8000_0000
    ensures SkipRing(s, n) == WalkRing(s, n) <==>
            if n < 0x800_0000 then true else if n < 0x8000_0000 then RingLength(n) > |s| else RingLength(n) == 0
  {
    WalkEnds(s, if n < COUNT_LIMIT then n else 0);
  }

  lemma SkipAcceptsAMissingRing()
    ensures SkipRing([], 0x1000_0000).Done? && WalkRing([], 0x1000_0000).Failed?
    ensures RingLength(0x1000_0000) == 0 && RingLength(0x800_0000) == 0xFFFF_FFFF_8000_0000
  {
    WalkEnds([], 0x1000_0000);
  }

  /* ---------- the order of the points ---------- */

  lemma {:induction false} RingByRing(a: seq<seq<Point>>, b: seq<seq<Point>>)
    ensures RingPoints(a + b) == RingPoints(a) + RingPoints(b)
  {
    if b == [] {
      assert a + b == a;
    } else {
      RingByRing(a, b[..|b| - 1]);
      assert (a + b)[..|a + b| - 1] == a + b[..|b| - 1];
    }
  }

  /** The points of a polygon are those of its rings in turn, and of a collection those of its members. */
  lemma {:induction false} PointsInTurn(ring: seq<Point>, kind: nat, ms: seq<Geometry>, g: Geometry)
    ensures PointsOf(Polygon([])) == [] && PointsOf(Polygon([ring])) == ring
    ensures PointsOf(Collection(kind, [])) == []
    ensures PointsOf(Collection(kind, ms + [g])) == PointsOf(Collection(kind, ms)) + PointsOf(g)
  {
    assert [ring][..0] == [];
    MemberPointsAppend(ms, g, |ms|);
  }

  /** A count is a signed number: one from 2^31 on counts nothing. */
  lemma {:induction false} CountIsSigned(n: nat, rest: seq<byte>)
    requires n < 0x1_0000_0000
    ensures Count(Four(n) + rest) == if n < 0x8000_0000 then n else 0
  {
    LiteralNum(n);
    NumBack(n, rest);
  }
}

/**
 Writing a geometry into a growing buffer: a count is left empty, the parts are appended, and the count
 is filled in afterwards, at every level of a nested geometry.
 */
module WkbBuffer {
  import opened Bytes
  import opened Wkb

  /** Filling a hole in place gives the bytes of writing the number first. */
  lemma {:induction false} HoleIsFilled(before: seq<byte>, hole: seq<byte>, parts: seq<byte>, after: seq<byte>, n: nat)
    requires |hole| == WORD && |after| == |before + hole + parts|
    requires after[..|before|] == (before + hole + parts)[..|before|]
    requires after[|before|..|before| + WORD] == Num(n)
    requires after[|before| + WORD..] == (before + hole + parts)[|before| + WORD..]
    ensures after == before + (Num(n) + parts)
  {
    assert (before + hole + parts)[..|before|] == before && (before + hole + parts)[|before| + WORD..] == parts;
    assert after == after[..|before|] + after[|before|..|before| + WORD] + after[|before| + WORD..];
  }

  lemma {:induction false} PointsAppend(ps: seq<Point>, p: Point)
    ensures Points(ps + [p]) == Points(ps) + p
  {
    if ps == [] {
      assert ps + [p] == [p] && [p][1..] == [];
    } else {
      assert (ps + [p])[1..] == ps[1..] + [p];
      PointsAppend(ps[1..], p);
    }
  }

  lemma {:induction false} RingsAppend(rs: seq<seq<Point>>, ring: seq<Point>)
    ensures Rings(rs + [ring]) == Rings(rs) + (Num(|ring|) + Points(ring))
  {
    if rs == [] {
      assert rs + [ring] == [ring] && [ring][1..] == [];
    } else {
      assert (rs + [ring])[1..] == rs[1..] + [ring];
      RingsAppend(rs[1..], ring);
    }
  }

  lemma {:induction false} MembersAppend(ms: seq<Geometry>, g: Geometry)
    ensures Members(ms + [g]) == Members(ms) + Encode(g)
  {
    if ms == [] {
      assert ms + [g] == [g] && [g][1..] == [];
    } else {
      assert (ms + [g])[1..] == ms[1..] + [g];
      MembersAppend(ms[1..], g);
    }
  }

  /** What is written after validation: no line, ring, polygon or collection is empty. */
  predicate Filled(g: Geometry) {
    match g
    case PointOf(_) => true
    case LineString(ps) => ps != []
    case Polygon(rs) => rs != [] && forall i :: 0 <= i < |rs| ==> rs[i] != []
    case Collection(_, ms) => ms != [] && forall i :: 0 <= i < |ms| ==> Filled(ms[i])
  }

  class Buffer {
    var bytes: seq<byte>

    constructor ()
      ensures bytes == []
    {
      bytes := [];
    }

    method WriteHeader(kind: nat)
      modifies this
      ensures bytes == old(bytes) + Header(kind)
    {
      bytes := bytes + [BYTE_ORDER];
      bytes := bytes + Num(kind);
    }

    method AppendEmptyForNum() returns (pos: nat)
      modifies this
      ensures pos == |old(bytes)| && bytes == old(bytes) + Num(0)
    {
      pos := |bytes|;
      bytes := bytes + Num(0);
    }

    /** The number can be read at pos, in the layout of a number that is appended, and no other byte moves or
        changes. */
    method WriteNumAt(pos: nat, n: nat)
      requires pos + WORD < |bytes|
      modifies this
      ensures |bytes| == |old(bytes)|
      ensures bytes[..pos] == old(bytes)[..pos] && bytes[pos + WORD..] == old(bytes)[pos + WORD..]
      ensures bytes[pos..pos + WORD] == Num(n) && (n < 0x1_0000_0000 ==> Get(bytes[pos..pos + WORD]) == n)
    {
      bytes := bytes[..pos] + Num(n) + bytes[pos + WORD..];
      if n < 0x1_0000_0000 {
        NumBack(n, []);
        assert Num(n) + [] == Num(n);
      }
    }

    method WritePoints(ps: seq<Point>)
      requires ps != []
      modifies this
      ensures bytes == old(bytes) + (Num(|ps|) + Points(ps))
    {
      ghost var before := bytes;
      var pos := AppendEmptyForNum();
      var i := 0;
      while i < |ps|
        invariant 0 <= i <= |ps|
        invariant bytes == before + Num(0) + Points(ps[..i])
      {
        PointsAppend(ps[..i], ps[i]);
        assert ps[..i + 1] == ps[..i] + [ps[i]];
        bytes := bytes + ps[i];
        i := i + 1;
      }
      assert ps[..i] == ps;
      WriteNumAt(pos, i);
      HoleIsFilled(before, Num(0), Points(ps), bytes, i);
    }

    method WriteRings(rs: seq<seq<Point>>)
      requires rs != [] && forall i :: 0 <= i < |rs| ==> rs[i] != []
      modifies this
      ensures bytes == old(bytes) + (Num(|rs|) + Rings(rs))
    {
      ghost var before := bytes;
      var pos := AppendEmptyForNum();
      var i := 0;
      while i < |rs|
        invariant 0 <= i <= |rs|
        invariant bytes == before + Num(0) + Rings(rs[..i])
      {
        RingsAppend(rs[..i], rs[i]);
        assert rs[..i + 1] == rs[..i] + [rs[i]];
        WritePoints(rs[i]);
        i := i + 1;
      }
      assert rs[..i] == rs;
      WriteNumAt(pos, i);
      HoleIsFilled(before, Num(0), Rings(rs), bytes, i);
    }

    /** However deep the geometry, the counts filled in afterwards are its own, and nothing else moves. */
    method WriteGeometry(g: Geometry)
      requires Filled(g)
      modifies this
      ensures bytes == old(bytes) + Encode(g)
      decreases g, 1
    {
      WriteHeader(Kind(g));
      match g
      case PointOf(p) => bytes := bytes + p;
      case LineString(ps) => WritePoints(ps);
      case Polygon(rs) => WriteRings(rs);
      case Collection(kind, ms) => WriteMembers(kind, ms);
    }

    // The members of a GeometryCollection are written to a buffer of their own first.
    method WriteMembers(kind: nat, ms: seq<Geometry>)
      requires ms != [] && forall i :: 0 <= i < |ms| ==> Filled(ms[i])
      modifies this
      ensures bytes == old(bytes) + (Num(|ms|) + Members(ms))
      decreases ms, 0
    {
      ghost var before := bytes;
      var pos := AppendEmptyForNum();
      var i := 0;
      while i < |ms|
        invariant 0 <= i <= |ms|
        invariant bytes == before + Num(0) + Members(ms[..i])
      {
        MembersAppend(ms[..i], ms[i]);
        assert ms[..i + 1] == ms[..i] + [ms[i]];
        if kind == GEOMETRY_COLLECTION {
          var nested := new Buffer();
          nested.WriteGeometry(ms[i]);
          bytes := bytes + nested.bytes;
        } else {
          WriteGeometry(ms[i]);
        }
        i := i + 1;
      }
      assert ms[..i] == ms;
      WriteNumAt(pos, i);
      HoleIsFilled(before, Num(0), Members(ms), bytes, i);
    }
  }
}

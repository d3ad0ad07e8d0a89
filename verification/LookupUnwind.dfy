/**
 `$lookup` followed by `$unwind` of the field it writes: run as one join without building the array.
 */
module LookupUnwind {

  import opened Documents
  import opened Picking

  /* ---------- the two stages ---------- */

  type Join = (Doc, Doc) -> bool

  function Matches(l: Doc, right: seq<Doc>, joins: Join): seq<Doc> {
    if right == [] then []
    else (if joins(l, right[0]) then [right[0]] else []) + Matches(l, right[1..], joins)
  }

  /** `$lookup` without a pipeline, on one document: the matches as an array at the `as` path. */
  function Looked(l: Doc, matches: seq<Doc>, p: Path): Doc {
    SetPath(l, p, Array(ArrayItems(matches)))
  }

  /** The fused stage on one document: an outer join without aggregation. Without a match the
      right side is coalesced to {} or the row is filtered out. */
  function Fused(l: Doc, matches: seq<Doc>, p: Path, preserve: bool): seq<Doc> {
    if matches == [] then (if preserve then [MergedAt(l, [], p)] else []) else MergedEach(l, matches, p)
  }

  /** bson_dollar_merge_documents_at_path. */
  function MergedAt(l: Doc, r: Doc, p: Path): Doc {
    if r == [] then l else SetPath(l, p, Object(r))
  }

  function MergedEach(l: Doc, matches: seq<Doc>, p: Path): (out: seq<Doc>)
    ensures |out| == |matches|
    ensures forall i :: 0 <= i < |matches| ==> out[i] == MergedAt(l, matches[i], p)
  {
    if matches == [] then [] else [MergedAt(l, matches[0], p)] + MergedEach(l, matches[1..], p)
  }

  /** The two stages on one document. */
  function TwoStages(l: Doc, matches: seq<Doc>, p: Path, preserve: bool): seq<Doc> {
    Unwind(Looked(l, matches, p), p, preserve)
  }

  /** When fusing is right for one left document. A preserved document without a match, or with a single empty
      one, must lack the `as` field (its parent present); otherwise no match may be empty. */
  predicate FusionIsRight(l: Doc, matches: seq<Doc>, p: Path, preserve: bool) {
    if preserve && |matches| <= 1 && NonEmpty(matches) == [] then Lacks(l, p) else NoneEmpty(matches)
  }

  lemma {:induction false} TwoStagesAre(l: Doc, matches: seq<Doc>, p: Path, preserve: bool)
    ensures var rest, out := NonEmpty(matches), TwoStages(l, matches, p, preserve);
            if rest == [] && preserve then |out| == 1 && (out == [l] <==> Lacks(l, p))
            else out == MergedEach(l, rest, p)
  {
    var rest, d := NonEmpty(matches), Looked(l, matches, p);
    GetSetPath(l, p, Array(Objects(rest)));
    if rest == [] && preserve {
      RemoveSetPath(l, p, Array([]));
    } else {
      var out := Elements(d, p, Objects(rest));
      forall i | 0 <= i < |rest| ensures out[i] == MergedEach(l, rest, p)[i] {
        SetSetPath(l, p, Array(Objects(rest)), Object(rest[i]));
      }
    }
  }

  /** The fused stage never has fewer rows, and has the same ones exactly when fusing is right. */
  lemma {:induction false} FusedOne(l: Doc, matches: seq<Doc>, p: Path, preserve: bool)
    ensures |Fused(l, matches, p, preserve)| >= |TwoStages(l, matches, p, preserve)|
    ensures Fused(l, matches, p, preserve) == TwoStages(l, matches, p, preserve)
            <==> FusionIsRight(l, matches, p, preserve)
  {
    TwoStagesAre(l, matches, p, preserve);
    NonEmptyIsAll(matches);
    if |matches| == 1 { assert MergedEach(l, matches, p) == [MergedAt(l, matches[0], p)]; }
  }

  /* ---------- whole collections ---------- */

  function LookupThenUnwind(left: seq<Doc>, right: seq<Doc>, joins: Join, p: Path, preserve: bool): seq<Doc> {
    if left == [] then []
    else TwoStages(left[0], Matches(left[0], right, joins), p, preserve)
         + LookupThenUnwind(left[1..], right, joins, p, preserve)
  }

  function LookupUnwindFused(left: seq<Doc>, right: seq<Doc>, joins: Join, p: Path, preserve: bool): seq<Doc> {
    if left == [] then []
    else Fused(left[0], Matches(left[0], right, joins), p, preserve)
         + LookupUnwindFused(left[1..], right, joins, p, preserve)
  }

  predicate RightFor(l: Doc, right: seq<Doc>, joins: Join, p: Path, preserve: bool) {
    FusionIsRight(l, Matches(l, right, joins), p, preserve)
  }

  /** For all collections, joins, `as` paths and both settings: the fused stage yields the same
      sequence as the two stages exactly when fusing is right for every left document. */
  lemma {:induction false} FusionIsExact(left: seq<Doc>, right: seq<Doc>, joins: Join, p: Path, preserve: bool)
    ensures |LookupUnwindFused(left, right, joins, p, preserve)| >= |LookupThenUnwind(left, right, joins, p, preserve)|
    ensures LookupUnwindFused(left, right, joins, p, preserve) == LookupThenUnwind(left, right, joins, p, preserve)
            <==> forall l :: l in left ==> RightFor(l, right, joins, p, preserve)
  {
    if left != [] {
      var l := left[0];
      var m := Matches(l, right, joins);
      FusedOne(l, m, p, preserve);
      FusionIsExact(left[1..], right, joins, p, preserve);
      SamePieces(Fused(l, m, p, preserve), TwoStages(l, m, p, preserve),
                 LookupUnwindFused(left[1..], right, joins, p, preserve),
                 LookupThenUnwind(left[1..], right, joins, p, preserve));
      assert forall d :: d in left <==> d == l || d in left[1..];
      assert (forall d :: d in left ==> RightFor(d, right, joins, p, preserve))
        <==> RightFor(l, right, joins, p, preserve)
             && forall d :: d in left[1..] ==> RightFor(d, right, joins, p, preserve);
    }
  }

  lemma SamePieces(a: seq<Doc>, b: seq<Doc>, s: seq<Doc>, t: seq<Doc>)
    requires |a| >= |b| && |s| >= |t|
    ensures a + s == b + t <==> a == b && s == t
  {
    if a + s == b + t {
      assert |a + s| == |a| + |s| && |b + t| == |b| + |t|;
      assert a == (a + s)[..|a|] && b == (b + t)[..|a|];
      assert s == (a + s)[|a|..] && t == (b + t)[|a|..];
    }
  }

  /** In a collection every document has an `_id`, so no match is empty; then fusing without preserve
      is always right. */
  lemma {:induction false} FusionWithoutPreserve(left: seq<Doc>, right: seq<Doc>, joins: Join, p: Path)
    requires forall r :: r in right ==> r != []
    ensures LookupUnwindFused(left, right, joins, p, false) == LookupThenUnwind(left, right, joins, p, false)
  {
    forall l | l in left ensures RightFor(l, right, joins, p, false) {
      MatchesAreRight(l, right, joins);
      var matches := Matches(l, right, joins);
      forall i | 0 <= i < |matches| ensures matches[i] != [] { assert matches[i] in matches; }
    }
    FusionIsExact(left, right, joins, p, false);
  }

  lemma {:induction false} MatchesAreRight(l: Doc, right: seq<Doc>, joins: Join)
    ensures forall r :: r in Matches(l, right, joins) ==> r in right
  {
    if right != [] { MatchesAreRight(l, right[1..], joins); }
  }

  /** With preserve it is not: a left document that already has the `as` field and no match keeps it
      when fused, and loses it in two stages. */
  lemma PreservedFieldDiffers()
    ensures var l := [Field("as", Scalar("x"))];
            LookupUnwindFused([l], [], (_, _) => true, ["as"], true) == [l]
            && LookupThenUnwind([l], [], (_, _) => true, ["as"], true) == [[]]
  {
    var l := [Field("as", Scalar("x"))];
    var joins: Join := (_, _) => true;
    var d := Looked(l, [], ["as"]);
    assert d == [Field("as", Array([]))];
    assert d[1..] == [];
    assert Unwind(d, ["as"], true) == [[]];
    assert LookupThenUnwind([l][1..], [], joins, ["as"], true) == [];
    assert LookupUnwindFused([l][1..], [], joins, ["as"], true) == [];
  }

  /** An empty match is a row when fused, and none in two stages. */
  lemma EmptyMatchDiffers()
    ensures var right: seq<Doc> := [[]];
            LookupUnwindFused([[]], right, (_, _) => true, ["as"], false) == [[]]
            && LookupThenUnwind([[]], right, (_, _) => true, ["as"], false) == []
  {
    var right: seq<Doc> := [[]];
    var joins: Join := (_, _) => true;
    assert right[1..] == [];
    assert Matches([], right, joins) == right;
    assert NonEmpty(right) == [];
    TwoStagesAre([], right, ["as"], false);
    assert LookupThenUnwind(right[1..], right, joins, ["as"], false) == [];
    assert LookupUnwindFused(right[1..], right, joins, ["as"], false) == [];
  }

  /* ---------- the rows, by places ---------- */

  /** The matches are all the right documents that join, in their order. */
  lemma {:induction false} MatchesArePicked(l: Doc, right: seq<Doc>, joins: Join) returns (at: seq<nat>)
    ensures Picks(right, r => joins(l, r), Matches(l, right, joins), at)
  {
    if right == [] {
      at := [];
    } else {
      at := MatchesArePicked(l, right[1..], joins);
      at := PicksFirst(right, r => joins(l, r), Matches(l, right[1..], joins), at);
    }
  }

  /** A left document has a row with every right document that joins. Place |right| stands for the row
      without a right document. */
  predicate IsRowFor(l: Doc, right: seq<Doc>, joins: Join, preserve: bool, j: nat) {
    if j < |right| then joins(l, right[j])
    else j == |right| && preserve && forall m :: 0 <= m < |right| ==> !joins(l, right[m])
  }

  function RowOf(l: Doc, right: seq<Doc>, p: Path, j: nat): Doc {
    if j >= |right| || right[j] == [] then l else SetPath(l, p, Object(right[j]))
  }

  /** Row k is that of the left document with right document js[k], they ascend, and every one that joins has
      its row. */
  ghost predicate OneDocsRows(l: Doc, right: seq<Doc>, joins: Join, p: Path, preserve: bool, out: seq<Doc>,
                              js: seq<nat>) {
    && |js| == |out|
    && (forall k :: 0 <= k < |js| ==>
          IsRowFor(l, right, joins, preserve, js[k]) && out[k] == RowOf(l, right, p, js[k]))
    && (forall k, m :: 0 <= k < m < |js| ==> js[k] < js[m])
    && forall j: nat :: IsRowFor(l, right, joins, preserve, j) ==> j in js
  }

  lemma {:induction false} UnmatchedRows(l: Doc, right: seq<Doc>, joins: Join, p: Path, preserve: bool)
    requires forall m :: 0 <= m < |right| ==> !joins(l, right[m])
    ensures OneDocsRows(l, right, joins, p, preserve, if preserve then [l] else [], if preserve then [|right|] else [])
  {
  }

  lemma {:induction false} MatchedRows(l: Doc, right: seq<Doc>, joins: Join, p: Path, preserve: bool,
                                       matches: seq<Doc>, at: seq<nat>)
    requires matches != [] && Picks(right, r => joins(l, r), matches, at)
    ensures OneDocsRows(l, right, joins, p, preserve, MergedEach(l, matches, p), at)
  {
    assert joins(l, right[at[0]]);
    forall j: nat | IsRowFor(l, right, joins, preserve, j) ensures j in at {
    }
  }

  lemma {:induction false} FusedOneRows(l: Doc, right: seq<Doc>, joins: Join, p: Path, preserve: bool)
    returns (js: seq<nat>)
    ensures OneDocsRows(l, right, joins, p, preserve, Fused(l, Matches(l, right, joins), p, preserve), js)
  {
    js := MatchesArePicked(l, right, joins);
    var matches := Matches(l, right, joins);
    if matches == [] {
      assert forall m :: 0 <= m < |right| && joins(l, right[m]) ==> m in js;
      UnmatchedRows(l, right, joins, p, preserve);
      js := if preserve then [|right|] else [];
    } else {
      MatchedRows(l, right, joins, p, preserve, matches, js);
    }
  }

  ghost predicate IsRowAt(left: seq<Doc>, right: seq<Doc>, joins: Join, p: Path, preserve: bool, row: Doc, i: nat,
                          j: nat) {
    i < |left| && IsRowFor(left[i], right, joins, preserve, j) && row == RowOf(left[i], right, p, j)
  }

  /** They go through the left documents in order, and for each through the right ones in order. */
  predicate Ascend(ls: seq<nat>, js: seq<nat>)
    requires |ls| == |js|
  {
    forall k, m :: 0 <= k < m < |ls| ==> Before(ls, js, k, m)
  }

  predicate HasPair(ls: seq<nat>, js: seq<nat>, i: nat, j: nat) {
    |ls| == |js| && exists k :: 0 <= k < |ls| && ls[k] == i && js[k] == j
  }

  ghost predicate HasEveryPair(left: seq<Doc>, right: seq<Doc>, joins: Join, preserve: bool, ls: seq<nat>,
                               js: seq<nat>) {
    forall i: nat, j: nat :: i < |left| && IsRowFor(left[i], right, joins, preserve, j) ==> HasPair(ls, js, i, j)
  }

  /** All the rows: row k is that of left document ls[k] with right document js[k], in order, and every pair that
      joins has its row. */
  ghost predicate AllRows(left: seq<Doc>, right: seq<Doc>, joins: Join, p: Path, preserve: bool, out: seq<Doc>,
                          ls: seq<nat>, js: seq<nat>) {
    && |ls| == |js| == |out|
    && (forall k :: 0 <= k < |out| ==> IsRowAt(left, right, joins, p, preserve, out[k], ls[k], js[k]))
    && Ascend(ls, js)
    && HasEveryPair(left, right, joins, preserve, ls, js)
  }

  function Zeros(n: nat): (z: seq<nat>)
    ensures |z| == n && forall k :: 0 <= k < n ==> z[k] == 0
  {
    if n == 0 then [] else [0] + Zeros(n - 1)
  }

  lemma {:induction false} AscendInFront(js: seq<nat>, ls': seq<nat>, js': seq<nat>)
    requires |ls'| == |js'| && Ascend(ls', js') && forall k, m :: 0 <= k < m < |js| ==> js[k] < js[m]
    ensures Ascend(Zeros(|js|) + Shifted(ls'), js + js')
  {
    var n, ls, all := |js|, Zeros(|js|) + Shifted(ls'), js + js';
    forall k, m | 0 <= k < m < |ls| ensures Before(ls, all, k, m) {
      InFront(js, ls', js', k);
      InFront(js, ls', js', m);
      if k < n {
        assert m < n ==> js[k] < js[m];
      } else {
        assert Before(ls', js', k - n, m - n);
      }
    }
  }

  predicate Before(ls: seq<nat>, js: seq<nat>, k: nat, m: nat)
    requires k < |ls| == |js| && m < |ls|
  {
    ls[k] < ls[m] || (ls[k] == ls[m] && js[k] < js[m])
  }

  lemma {:induction false} InFront(js: seq<nat>, ls': seq<nat>, js': seq<nat>, k: nat)
    requires |ls'| == |js'| && k < |js| + |js'|
    ensures var ls, all, n := Zeros(|js|) + Shifted(ls'), js + js', |js|;
            if k < n then ls[k] == 0 && all[k] == js[k] else ls[k] == ls'[k - n] + 1 && all[k] == js'[k - n]
  {
  }

  lemma {:induction false} RowsInFront(left: seq<Doc>, right: seq<Doc>, joins: Join, p: Path, preserve: bool,
                                       first: seq<Doc>, js: seq<nat>, out: seq<Doc>, ls': seq<nat>, js': seq<nat>)
    requires left != [] && OneDocsRows(left[0], right, joins, p, preserve, first, js)
    requires AllRows(left[1..], right, joins, p, preserve, out, ls', js')
    ensures AllRows(left, right, joins, p, preserve, first + out, Zeros(|js|) + Shifted(ls'), js + js')
  {
    var n, ls, all, rows := |js|, Zeros(|js|) + Shifted(ls'), js + js', first + out;
    forall k | 0 <= k < |rows| ensures IsRowAt(left, right, joins, p, preserve, rows[k], ls[k], all[k]) {
      if k >= n {
        assert IsRowAt(left[1..], right, joins, p, preserve, out[k - n], ls'[k - n], js'[k - n]);
        assert ls[k] == ls'[k - n] + 1 && left[ls[k]] == left[1..][ls'[k - n]];
      } else {
        assert ls[k] == 0;
      }
    }
    AscendInFront(js, ls', js');
    forall i: nat, j: nat | i < |left| && IsRowFor(left[i], right, joins, preserve, j) ensures HasPair(ls, all, i, j) {
      if i > 0 { assert left[1..][i - 1] == left[i]; }
      PairStays(left, right, joins, preserve, js, ls', js', i, j);
    }
  }

  lemma {:induction false} PairStays(left: seq<Doc>, right: seq<Doc>, joins: Join, preserve: bool, js: seq<nat>,
                                     ls': seq<nat>, js': seq<nat>, i: nat, j: nat)
    requires i < |left| && IsRowFor(left[i], right, joins, preserve, j) && |ls'| == |js'|
    requires i == 0 ==> j in js
    requires i > 0 ==> HasPair(ls', js', i - 1, j)
    ensures HasPair(Zeros(|js|) + Shifted(ls'), js + js', i, j)
  {
    var ls, all := Zeros(|js|) + Shifted(ls'), js + js';
    if i == 0 {
      var k :| 0 <= k < |js| && js[k] == j;
      assert ls[k] == 0 && all[k] == j;
    } else {
      var k :| 0 <= k < |ls'| && ls'[k] == i - 1 && js'[k] == j;
      assert ls[|js| + k] == i && all[|js| + k] == j;
    }
  }

  /** The fused stage, for all collections, joins and both settings: one row per pair that joins, in the order of
      left and then right; with preserve, one for each left document that nothing joins. */
  lemma {:induction false} FusedRows(left: seq<Doc>, right: seq<Doc>, joins: Join, p: Path, preserve: bool)
    returns (ls: seq<nat>, js: seq<nat>)
    ensures AllRows(left, right, joins, p, preserve, LookupUnwindFused(left, right, joins, p, preserve), ls, js)
  {
    if left == [] {
      ls, js := [], [];
    } else {
      var first := FusedOneRows(left[0], right, joins, p, preserve);
      ls, js := FusedRows(left[1..], right, joins, p, preserve);
      RowsInFront(left, right, joins, p, preserve, Fused(left[0], Matches(left[0], right, joins), p, preserve), first,
                  LookupUnwindFused(left[1..], right, joins, p, preserve), ls, js);
      ls, js := Zeros(|first|) + Shifted(ls), first + js;
    }
  }
}

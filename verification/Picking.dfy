/** Picking elements out of a sequence, said by places. */
module Picking {

  /** `out` holds exactly the elements of s that `keep` accepts, in their order: out[k] is the one at place
      at[k]. */
  ghost predicate Picks<T>(s: seq<T>, keep: T -> bool, out: seq<T>, at: seq<nat>) {
    && |at| == |out|
    && (forall k :: 0 <= k < |at| ==> at[k] < |s| && keep(s[at[k]]) && out[k] == s[at[k]])
    && (forall j, k :: 0 <= j < k < |at| ==> at[j] < at[k])
    && forall i :: 0 <= i < |s| && keep(s[i]) ==> i in at
  }

  lemma {:induction false} PicksLast<T>(s: seq<T>, keep: T -> bool, out: seq<T>, at: seq<nat>) returns (at': seq<nat>)
    requires s != [] && Picks(s[..|s| - 1], keep, out, at)
    ensures Picks(s, keep, out + if keep(s[|s| - 1]) then [s[|s| - 1]] else [], at')
  {
    var n := |s| - 1;
    at' := at + if keep(s[n]) then [n] else [];
    forall i | 0 <= i < |s| && keep(s[i]) ensures i in at' {
      if i < n { assert keep(s[..n][i]); }
    }
  }

  function Shifted(at: seq<nat>): (r: seq<nat>)
    ensures |r| == |at| && forall k :: 0 <= k < |at| ==> r[k] == at[k] + 1
  {
    if at == [] then [] else [at[0] + 1] + Shifted(at[1..])
  }

  /** The same for the elements after the first. */
  ghost predicate PicksAfterFirst<T>(s: seq<T>, keep: T -> bool, out: seq<T>, at: seq<nat>) {
    && |at| == |out|
    && (forall k :: 0 <= k < |at| ==> 0 < at[k] < |s| && keep(s[at[k]]) && out[k] == s[at[k]])
    && (forall j, k :: 0 <= j < k < |at| ==> at[j] < at[k])
    && forall i :: 0 < i < |s| && keep(s[i]) ==> i in at
  }

  lemma {:induction false} ShiftedPicks<T>(s: seq<T>, keep: T -> bool, out: seq<T>, at: seq<nat>)
    requires s != [] && Picks(s[1..], keep, out, at)
    ensures PicksAfterFirst(s, keep, out, Shifted(at))
  {
    forall i | 0 < i < |s| && keep(s[i]) ensures i in Shifted(at) {
      assert s[1..][i - 1] == s[i];
      var k :| 0 <= k < |at| && at[k] == i - 1;
      assert Shifted(at)[k] == i;
    }
  }

  lemma {:induction false} FirstToo<T>(s: seq<T>, keep: T -> bool, out: seq<T>, at: seq<nat>)
    requires s != [] && keep(s[0]) && PicksAfterFirst(s, keep, out, at)
    ensures Picks(s, keep, [s[0]] + out, [0] + at)
  {
    var all, at' := [s[0]] + out, [0] + at;
    forall k | 0 <= k < |at'| ensures at'[k] < |s| && keep(s[at'[k]]) && all[k] == s[at'[k]] {
      if k > 0 { assert at'[k] == at[k - 1] && all[k] == out[k - 1]; }
    }
    forall j, k | 0 <= j < k < |at'| ensures at'[j] < at'[k] {
      assert at'[k] == at[k - 1];
      if j > 0 { assert at'[j] == at[j - 1]; }
    }
  }

  lemma {:induction false} PicksFirst<T>(s: seq<T>, keep: T -> bool, out: seq<T>, at: seq<nat>) returns (at': seq<nat>)
    requires s != [] && Picks(s[1..], keep, out, at)
    ensures Picks(s, keep, (if keep(s[0]) then [s[0]] else []) + out, at')
  {
    ShiftedPicks(s, keep, out, at);
    at' := Shifted(at);
    if keep(s[0]) {
      FirstToo(s, keep, out, at');
      at' := [0] + at';
    } else {
      OnlyAfterFirst(s, keep, out, at');
      assert [] + out == out;
    }
  }

  lemma {:induction false} OnlyAfterFirst<T>(s: seq<T>, keep: T -> bool, out: seq<T>, at: seq<nat>)
    requires s != [] && !keep(s[0]) && PicksAfterFirst(s, keep, out, at)
    ensures Picks(s, keep, out, at)
  {
  }
}

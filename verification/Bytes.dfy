/** Bytes, and numbers as bytes in little-endian order. */
module Bytes {

  type byte = x: int | 0 <= x < 256

  function Pow256(k: nat): (p: nat)
    ensures p >= 1
  {
    if k == 0 then 1 else 256 * Pow256(k - 1)
  }

  function Put(n: nat, k: nat): (s: seq<byte>)
    ensures |s| == k
  {
    if k == 0 then [] else [n % 256] + Put(n / 256, k - 1)
  }

  function Get(s: seq<byte>): nat {
    if s == [] then 0 else s[0] + 256 * Get(s[1..])
  }

  lemma {:induction false} GetPut(n: nat, k: nat)
    requires n < Pow256(k)
    ensures Get(Put(n, k)) == n
  {
    if k > 0 {
      assert Put(n, k)[1..] == Put(n / 256, k - 1);
      GetPut(n / 256, k - 1);
    }
  }

  lemma Word()
    ensures Pow256(4) == 0x1_0000_0000
    ensures Pow256(8) > 0x1_0000_0000
  {
    assert Pow256(1) == 256 * Pow256(0);
    assert Pow256(3) == 256 * Pow256(2);
    assert Pow256(5) == 256 * Pow256(4);
    assert Pow256(7) == 256 * Pow256(6);
  }

  lemma {:induction false} PutGet(s: seq<byte>)
    ensures Get(s) < Pow256(|s|) && Put(Get(s), |s|) == s
  {
    if s != [] {
      PutGet(s[1..]);
      assert s == [s[0]] + s[1..];
    }
  }

  /** A number as four bytes, and as eight, the least significant one first. */
  function Four(n: nat): seq<byte>
    requires n < 0x1_0000_0000
  {
    [n % 0x100, n / 0x100 % 0x100, n / 0x1_0000 % 0x100, n / 0x100_0000]
  }

  lemma {:induction false} PutOne(n: nat, k: nat)
    requires k > 0
    ensures Put(n, k) == [n % 256] + Put(n / 256, k - 1)
  {
  }

  lemma {:induction false} PutZeros()
    ensures Put(0, 4) == [0, 0, 0, 0]
  {
    PutOne(0, 4);
    PutOne(0, 3);
    PutOne(0, 2);
    PutOne(0, 1);
    assert Put(0, 0) == [];
  }

  lemma {:induction false} PutFour(n: nat, k: nat)
    requires n < 0x1_0000_0000 && k >= 4
    ensures Put(n, k) == Four(n) + Put(0, k - 4)
  {
    var a := n / 256;
    var b := a / 256;
    var c := b / 256;
    PutOne(n, k);
    PutOne(a, k - 1);
    PutOne(b, k - 2);
    PutOne(c, k - 3);
    Quotients(n);
  }

  lemma {:induction false} Quotients(n: nat)
    requires n < 0x1_0000_0000
    ensures n / 256 / 256 == n / 0x1_0000 && n / 256 / 256 / 256 == n / 0x100_0000 < 256
    ensures n / 256 / 256 / 256 / 256 == 0
  {
  }

  lemma {:induction false} LiteralNumbers(n: nat)
    requires n < 0x1_0000_0000
    ensures Put(n, 4) == Four(n) && Put(n, 8) == Four(n) + [0, 0, 0, 0]
  {
    PutFour(n, 4);
    PutFour(n, 8);
    PutZeros();
    assert Four(n) + [] == Four(n);
  }
}

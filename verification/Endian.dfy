/** Numbers as bytes, in both byte orders. */
module Endian {
  import opened Common

  function Pow256(n: nat): (p: nat)
    ensures p > 0
  {
    if n == 0 then 1 else 256 * Pow256(n - 1)
  }

  function BE(n: nat, x: nat): (s: seq<Byte>)
    ensures |s| == n
  {
    if n == 0 then [] else BE(n - 1, x / 256) + [x % 256]
  }

  function FromBE(s: seq<Byte>): nat {
    if s == [] then 0 else FromBE(s[..|s| - 1]) * 256 + s[|s| - 1]
  }

  function LE(n: nat, x: nat): (s: seq<Byte>)
    ensures |s| == n
  {
    if n == 0 then [] else [x % 256] + LE(n - 1, x / 256)
  }

  function FromLE(s: seq<Byte>): nat {
    if s == [] then 0 else s[0] + 256 * FromLE(s[1..])
  }

  lemma {:induction false} BERoundTrip(n: nat, x: nat)
    requires x < Pow256(n)
    ensures FromBE(BE(n, x)) == x
  {
    if n > 0 {
      BERoundTrip(n - 1, x / 256);
      assert BE(n, x)[..n - 1] == BE(n - 1, x / 256);
    }
  }

  lemma {:induction false} LERoundTrip(n: nat, x: nat)
    requires x < Pow256(n)
    ensures FromLE(LE(n, x)) == x
  {
    if n > 0 {
      LERoundTrip(n - 1, x / 256);
      assert LE(n, x)[1..] == LE(n - 1, x / 256);
    }
  }

  /** Little-endian: byte `i` counts 256^i. */
  lemma {:induction false} LEDigit(n: nat, x: nat, i: nat)
    requires i < n
    ensures LE(n, x)[i] == x / Pow256(i) % 256
  {
    if i > 0 {
      LEDigit(n - 1, x / 256, i - 1);
      DivideTwice(x, Pow256(i - 1));
    }
  }

  lemma DivideTwice(x: nat, p: nat)
    requires p > 0
    ensures x / 256 / p == x / (256 * p)
  {
    var q, r := x / 256 / p, x / 256 % p;
    assert x / 256 == q * p + r && x == x / 256 * 256 + x % 256;
    assert x == q * (256 * p) + (r * 256 + x % 256);
    Quotient(x, 256 * p, q, r * 256 + x % 256);
  }

  lemma Quotient(x: nat, m: nat, q: nat, r: nat)
    requires m > 0 && x == q * m + r && r < m
    ensures x / m == q
  {
    var d := x / m - q;
    assert d * m == r - x % m;
  }

  /** Big-endian is little-endian reversed. */
  lemma {:induction false} BEIsReversed(n: nat, x: nat, i: nat)
    requires i < n
    ensures BE(n, x)[n - 1 - i] == LE(n, x)[i]
  {
    if i > 0 {
      BEIsReversed(n - 1, x / 256, i - 1);
      assert BE(n, x)[n - 1 - i] == BE(n - 1, x / 256)[n - 1 - i];
    }
  }

  lemma FromLEFirst(b: Byte, s: seq<Byte>)
    ensures FromLE([b] + s) == b + 256 * FromLE(s)
  {
    assert ([b] + s)[1..] == s;
  }

  lemma FromBELast(s: seq<Byte>, b: Byte)
    ensures FromBE(s + [b]) == FromBE(s) * 256 + b
  {
    assert (s + [b])[..|s|] == s;
  }

  lemma WordSizes()
    ensures Pow256(1) == 0x100 && Pow256(2) == 0x1_0000 && Pow256(4) == 0x1_0000_0000
    ensures Pow256(8) == 0x1_0000_0000_0000_0000
  {
    assert Pow256(5) == 0x100_0000_0000;
  }
}

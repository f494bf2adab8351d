/** Octets, NUL-free C strings and fixed-width big-endian integers. */
module Bytes {

  type byte = x: int | 0 <= x < 0x100

  /** A byte of a C string: anything but the terminator. */
  type cbyte = x: int | 1 <= x < 0x100 witness 1

  /** A C string, without its terminator. */
  type cstr = seq<cbyte>

  const WORD32 := 0x1_0000_0000
  const WORD64 := 0x1_0000_0000_0000_0000

  function Pow256(n: nat): (p: nat)
    ensures p >= 1
  {
    if n == 0 then 1 else 0x100 * Pow256(n - 1)
  }

  /** The n low octets of v, most significant first (network order). */
  function BigEndian(n: nat, v: nat): (s: seq<byte>)
    ensures |s| == n
  {
    if n == 0 then [] else BigEndian(n - 1, v / 0x100) + [v % 0x100]
  }

  function FromBigEndian(s: seq<byte>): (v: nat)
    ensures v < Pow256(|s|)
  {
    if s == [] then 0 else 0x100 * FromBigEndian(s[..|s| - 1]) + s[|s| - 1]
  }

  /** Reading back an encoded word gives the value reduced to the width of the word. */
  lemma {:induction false} BigEndianRoundTrip(n: nat, v: nat)
    ensures FromBigEndian(BigEndian(n, v)) == v % Pow256(n)
  {
    if n > 0 {
      var s := BigEndian(n, v);
      assert s[..n - 1] == BigEndian(n - 1, v / 0x100);
      BigEndianRoundTrip(n - 1, v / 0x100);
      ModSplit(v, Pow256(n - 1));
    }
  }

  /** The first octet is the most significant one. */
  lemma {:induction false} BigEndianAt(n: nat, v: nat, i: nat)
    requires i < n
    ensures BigEndian(n, v)[i] == v / Pow256(n - 1 - i) % 0x100
  {
    if i < n - 1 {
      BigEndianAt(n - 1, v / 0x100, i);
      assert Pow256(n - 1 - i) == 0x100 * Pow256(n - 2 - i);
      DivTwice(v, Pow256(n - 2 - i));
    }
  }

  lemma DivTwice(v: nat, p: nat)
    requires p >= 1
    ensures v / 0x100 / p == v / (0x100 * p)
  {
    var q, r := v / 0x100 / p, v / 0x100 % p;
    assert v / 0x100 == p * q + r;
    var w := 0x100 * r + v % 0x100;
    assert v == (0x100 * p) * q + w by { assert 0x100 * (p * q) == (0x100 * p) * q; }
    ModUnique(v, 0x100 * p, q, w);
  }

  /** Two octets and four octets as a number. */
  lemma FromTwo(s: seq<byte>)
    requires |s| == 2
    ensures var a: int, b: int := s[0], s[1]; FromBigEndian(s) == 0x100 * a + b
  {
    assert s[..1] == [s[0]] && s[..1][..0] == [];
    assert FromBigEndian([s[0]]) == s[0];
  }

  lemma FromFour(s: seq<byte>)
    requires |s| == 4
    ensures var a: int, b: int, c: int, d: int := s[0], s[1], s[2], s[3];
            FromBigEndian(s) == 0x100_0000 * a + 0x1_0000 * b + 0x100 * c + d
  {
    FromTwo(s[..2]);
    assert s[..3][..2] == s[..2];
    assert FromBigEndian(s[..3]) == 0x100 * FromBigEndian(s[..2]) + s[2];
    assert FromBigEndian(s) == 0x100 * FromBigEndian(s[..3]) + s[3];
  }

  lemma ModSplit(v: nat, p: nat)
    requires p >= 1
    ensures v % (0x100 * p) == 0x100 * ((v / 0x100) % p) + v % 0x100
  {
    var q, r := (v / 0x100) / p, (v / 0x100) % p;
    assert v / 0x100 == p * q + r;
    var w := 0x100 * r + v % 0x100;
    assert v == (0x100 * p) * q + w by {
      assert v == 0x100 * (p * q + r) + v % 0x100;
      assert 0x100 * (p * q) == (0x100 * p) * q;
    }
    assert 0 <= w < 0x100 * p by { assert r <= p - 1; }
    ModUnique(v, 0x100 * p, q, w);
  }

  lemma ModUnique(v: int, m: nat, q: int, r: int)
    requires m >= 1 && 0 <= r < m && v == m * q + r
    ensures v % m == r && v / m == q
  {
    var q', r' := v / m, v % m;
    var d := q - q';
    assert m * d == m * q - m * q';
    MulBound(m, d);
  }

  lemma MulBound(m: nat, d: int)
    requires m >= 1
    ensures d >= 1 ==> m * d >= m
    ensures d <= -1 ==> m * d + m <= 0
  {
    if d >= 1 {
      assert m * d == m * (d - 1) + m;
    } else if d <= -1 {
      assert m * d == m * (d + 1) - m;
      assert m * (-d - 1) >= 0;
    }
  }

  lemma MulMonotone(a: nat, b: nat, m: nat)
    requires a <= b
    ensures 0 <= a * m <= b * m
  {
    assert b * m == a * m + (b - a) * m;
  }

  lemma Pow256Values()
    ensures Pow256(1) == 0x100 && Pow256(2) == 0x1_0000 && Pow256(4) == WORD32 && Pow256(8) == WORD64
  {
    assert Pow256(3) == 0x100_0000;
    assert Pow256(4) == WORD32;
    assert Pow256(5) == 0x100 * WORD32;
    assert Pow256(6) == 0x1_0000 * WORD32;
    assert Pow256(7) == 0x100_0000 * WORD32;
  }
}

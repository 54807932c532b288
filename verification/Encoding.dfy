/** Big-endian integers and length-prefixed fields, as `u32::to_be_bytes` and
    `push_lp` write them. */
module Encoding {
  import opened Hashing

  function Pow256(width: nat): (p: nat)
    ensures p >= 1
  {
    if width == 0 then 1 else 256 * Pow256(width - 1)
  }

  /** The low `width` bytes of `v`, most significant first. */
  function BigEndian(width: nat, v: nat): (s: seq<byte>)
    ensures |s| == width
  {
    if width == 0 then [] else BigEndian(width - 1, v / 256) + [v % 256]
  }

  function FromBigEndian(s: seq<byte>): nat {
    if s == [] then 0 else 256 * FromBigEndian(s[..|s| - 1]) + s[|s| - 1]
  }

  /** Reading back gives the value modulo the width: nothing is lost below it. */
  lemma {:induction false} BigEndianRoundTrip(width: nat, v: nat)
    ensures FromBigEndian(BigEndian(width, v)) == v % Pow256(width)
  {
    if width > 0 {
      var s, p := BigEndian(width, v), Pow256(width - 1);
      BigEndianRoundTrip(width - 1, v / 256);
      assert s[..width - 1] == BigEndian(width - 1, v / 256);
      DivModByBoth(v, p);
    }
  }

  lemma DivModByBoth(v: nat, p: nat)
    requires p >= 1
    ensures 256 * (v / 256 % p) + v % 256 == v % (256 * p)
  {
    var q, r := v / 256 / p, v / 256 % p;
    assert v / 256 == q * p + r;
    assert v == q * (256 * p) + (256 * r + v % 256);
    ModUnique(v, 256 * p, q, 256 * r + v % 256);
  }

  lemma ModUnique(v: nat, d: nat, q: nat, r: nat)
    requires v == q * d + r && r < d
    ensures v % d == r
  {
    var t := v / d;
    assert v == t * d + v % d;
    assert t <= q - 1 ==> t * d <= (q - 1) * d;
    assert t >= q + 1 ==> t * d >= (q + 1) * d;
  }

  lemma BigEndianInjective(width: nat, a: nat, b: nat)
    requires BigEndian(width, a) == BigEndian(width, b)
    ensures a % Pow256(width) == b % Pow256(width)
  {
    BigEndianRoundTrip(width, a);
    BigEndianRoundTrip(width, b);
  }

  const U16_SPAN: nat := 0x1_0000
  const U32_SPAN: nat := 0x1_0000_0000
  const U64_SPAN: nat := 0x1_0000_0000_0000_0000

  lemma Pow256Values()
    ensures Pow256(2) == U16_SPAN && Pow256(4) == U32_SPAN && Pow256(8) == U64_SPAN
  {
    assert Pow256(1) == 256;
    assert Pow256(2) == 256 * Pow256(1);
    assert Pow256(3) == 256 * Pow256(2);
    assert Pow256(4) == 256 * Pow256(3);
    assert Pow256(5) == 256 * Pow256(4);
    assert Pow256(6) == 256 * Pow256(5);
    assert Pow256(7) == 256 * Pow256(6);
    assert Pow256(8) == 256 * Pow256(7);
  }

  function Zeros(n: nat): (s: seq<byte>)
    ensures |s| == n && forall i :: 0 <= i < n ==> s[i] == 0
  {
    seq(n, i => 0)
  }

  /** `u32_be(len) || bytes`: the length is taken modulo 2^32, as the cast does. */
  function LengthPrefixed(field: seq<byte>): (s: seq<byte>)
    ensures |s| == 4 + |field|
  {
    BigEndian(4, |field|) + field
  }

  /** A length-prefixed field can be cut from whatever follows it in one way only. */
  lemma LengthPrefixIsPrefixFree(a: seq<byte>, x: seq<byte>, b: seq<byte>, y: seq<byte>)
    requires |a| < U32_SPAN && |b| < U32_SPAN
    requires LengthPrefixed(a) + x == LengthPrefixed(b) + y
    ensures a == b && x == y
  {
    hide BigEndian, Pow256;
    assert LengthPrefixed(a) + x == BigEndian(4, |a|) + (a + x);
    assert LengthPrefixed(b) + y == BigEndian(4, |b|) + (b + y);
    SplitEqual(BigEndian(4, |a|), a + x, BigEndian(4, |b|), b + y);
    BigEndianInjective(4, |a|, |b|);
    Pow256Values();
    SplitEqual(a, x, b, y);
  }

  /** Fixed-width fields cut the same way. */
  lemma SplitEqual<T>(a: seq<T>, x: seq<T>, b: seq<T>, y: seq<T>)
    requires |a| == |b| && a + x == b + y
    ensures a == b && x == y
  {
    assert (a + x)[..|a|] == a && (b + y)[..|b|] == b;
    assert (a + x)[|a|..] == x && (b + y)[|b|..] == y;
  }
}

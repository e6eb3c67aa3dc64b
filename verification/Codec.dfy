/** The wire format that the generated packets and messages read and write. */
module Codecs {
  import opened Fragments

  // ---------------------------------------------------------------- integers

  function Pow256(n: nat): (p: int)
    ensures p >= 1
  {
    if n == 0 then 1 else 256 * Pow256(n - 1)
  }

  /** `x` as a signed integer of `w` bytes: two's complement, dropping what does not fit. */
  function Wrap(w: nat, x: int): (r: int)
    ensures w > 0 ==> InRange(w, r)
    ensures w > 0 && InRange(w, x) ==> r == x
  {
    if w == 0 then 0 else WrapBy(Pow256(w), x)
  }

  function WrapBy(p: int, x: int): (r: int)
    requires p >= 1
    ensures p % 2 == 0 ==> -(p / 2) <= r < p / 2
    ensures p % 2 == 0 && -(p / 2) <= x < p / 2 ==> r == x
  {
    WrapUnique(p, x);
    var u := x % p;
    if u >= p / 2 && p > 1 then u - p else u
  }

  lemma WrapUnique(p: int, x: int)
    requires p >= 1
    ensures 0 <= x < p ==> x % p == x
    ensures -p <= x < 0 ==> x % p == x + p
  {
    if 0 <= x < p {
      assert x / p == 0;
    } else if -p <= x < 0 {
      assert x / p == -1;
    }
  }

  predicate InRange(w: nat, x: int)
    requires w > 0
  {
    -(Pow256(w) / 2) <= x < Pow256(w) / 2
  }

  /** Low byte first. */
  function LittleEndian(u: int, w: nat): (s: seq<byte>)
    ensures |s| == w
    decreases w
  {
    if w == 0 then [] else [u % 256] + LittleEndian(u / 256, w - 1)
  }

  function Unsigned(s: seq<byte>): (u: int)
    ensures 0 <= u < Pow256(|s|)
  {
    if s == [] then 0 else s[0] + 256 * Unsigned(s[1..])
  }

  function EncodeInt(w: nat, x: int): (s: seq<byte>)
    ensures |s| == w
  {
    LittleEndian(x, w)
  }

  function DecodeInt(s: seq<byte>): (x: int) {
    Wrap(|s|, Unsigned(s))
  }

  lemma {:induction false} UnsignedOf(u: int, w: nat)
    ensures Unsigned(LittleEndian(u, w)) == u % Pow256(w)
    decreases w
  {
    if w > 0 {
      UnsignedOf(u / 256, w - 1);
      ModSplit(u, Pow256(w - 1));
      assert LittleEndian(u, w)[1..] == LittleEndian(u / 256, w - 1);
    }
  }

  lemma ModSplit(u: int, p: int)
    requires p >= 1
    ensures u % (256 * p) == u % 256 + 256 * (u / 256 % p)
  {
    var a, b := u / 256, u % 256;
    var c, d := a / p, a % p;
    assert u == 256 * (p * c + d) + b;
    assert u == (256 * p) * c + (256 * d + b);
    ModUnique(u, 256 * p, c, 256 * d + b);
  }

  lemma ModUnique(u: int, m: int, q: int, r: int)
    requires m >= 1 && u == m * q + r && 0 <= r < m
    ensures u % m == r
  {
    DivisionUnique(m, u / m, u % m, q, r);
  }

  lemma DivisionUnique(m: int, q: int, r: int, q': int, r': int)
    requires m >= 1 && m * q + r == m * q' + r' && 0 <= r < m && 0 <= r' < m
    ensures r == r'
  {
    var d := q - q';
    assert m * d == m * q - m * q' && m * -d == -(m * d);
    if d >= 1 {
      AtLeastOnce(m, d);
    } else if d <= -1 {
      AtLeastOnce(m, -d);
    }
  }

  lemma AtLeastOnce(m: int, d: int)
    requires m >= 1 && d >= 1
    ensures m * d >= m
  {
    assert m * (d - 1) >= 0;
  }

  /** Reading an integer back gives it, cut to its width. */
  lemma IntRoundTrip(w: nat, x: int)
    requires w > 0
    ensures DecodeInt(EncodeInt(w, x)) == Wrap(w, x)
  {
    UnsignedOf(x, w);
    ModUnique(x % Pow256(w), Pow256(w), 0, x % Pow256(w));
  }
}

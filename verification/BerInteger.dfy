/** Big-endian and two's-complement integers: the INTEGER contents octets of X.690 section 8.3. */
module BerInteger {
  import opened Wrappers

  type byte = b: int | 0 <= b < 256
  type int32 = i: int | -0x8000_0000 <= i < 0x8000_0000
  type int64 = i: int | -0x8000_0000_0000_0000 <= i < 0x8000_0000_0000_0000

  const TWO_TO_64: int := 0x1_0000_0000_0000_0000

  function Pow256(n: nat): nat {
    if n == 0 then 1 else 256 * Pow256(n - 1)
  }

  /** The value of a string of bytes, most significant byte first. */
  function Unsigned(s: seq<byte>): nat {
    if s == [] then 0 else 256 * Unsigned(s[..|s| - 1]) + s[|s| - 1]
  }

  /** The two's-complement value of a string of bytes; the empty string counts as zero. */
  function Signed(s: seq<byte>): int {
    if s != [] && s[0] >= 128 then Unsigned(s) - Pow256(|s|) else Unsigned(s)
  }

  /** `i` has a two's-complement form of `n` bytes. */
  predicate Fits(i: int, n: nat)
    requires n >= 1
  {
    -128 * Pow256(n - 1) <= i < 128 * Pow256(n - 1)
  }

  /** Arithmetic shift right by `n` bytes. */
  function Shift(i: int, n: nat): int
    decreases n
  {
    if n == 0 then i else Shift(i / 256, n - 1)
  }

  /** The `n` low-order bytes of the two's-complement form of `i`. */
  function Low(i: int, n: nat): (s: seq<byte>)
    ensures |s| == n
    decreases n
  {
    if n == 0 then [] else Low(i / 256, n - 1) + [i % 256]
  }

  function MinLength(i: int): (n: nat)
    ensures n >= 1
    decreases if i < 0 then -i else i
  {
    if -128 <= i <= 127 then 1 else 1 + MinLength(i / 256)
  }

  /** The shortest two's-complement form of `i`. */
  function IntBytes(i: int): seq<byte> {
    Low(i, MinLength(i))
  }

  lemma FitsShift(i: int, n: nat)
    requires n >= 1
    ensures Fits(i, n + 1) <==> Fits(i / 256, n)
  {
    assert Pow256(n) == 256 * Pow256(n - 1);
  }

  /** The computed length is the least one that holds the value (X.690 section 8.3.2). */
  lemma {:induction false} MinLengthLeast(i: int, n: nat)
    requires n >= 1
    ensures Fits(i, n) <==> MinLength(i) <= n
    decreases if i < 0 then -i else i
  {
    if -128 <= i <= 127 {
      FitsMonotone(i, 1, n);
    } else if n > 1 {
      FitsShift(i, n - 1);
      MinLengthLeast(i / 256, n - 1);
    }
  }

  lemma FitsMonotone(i: int, m: nat, n: nat)
    requires 1 <= m <= n && Fits(i, m)
    ensures Fits(i, n)
    decreases n - m
  {
    if m < n {
      assert Pow256(m) == 256 * Pow256(m - 1);
      FitsMonotone(i, m + 1, n);
    }
  }

  lemma {:induction false} LowByte(i: int, n: nat, j: nat)
    requires j < n
    ensures Low(i, n)[j] == Shift(i, n - 1 - j) % 256
    decreases n
  {
    if j < n - 1 {
      LowByte(i / 256, n - 1, j);
    }
  }

  lemma {:induction false} LowSplits(i: int, n: nat)
    ensures i == Shift(i, n) * Pow256(n) + Unsigned(Low(i, n))
    decreases n
  {
    if n > 0 {
      LowSplits(i / 256, n - 1);
      assert Low(i, n)[..n - 1] == Low(i / 256, n - 1);
      var q, p, u := Shift(i, n), Pow256(n - 1), Unsigned(Low(i / 256, n - 1));
      assert i == 256 * (q * p + u) + i % 256;
      assert 256 * (q * p) == q * (256 * p);
    }
  }

  /** The first byte fixes which of 256 equal stretches of the range the value lies in. */
  lemma {:induction false} UnsignedBound(s: seq<byte>)
    requires s != []
    ensures s[0] * Pow256(|s| - 1) <= Unsigned(s) < (s[0] + 1) * Pow256(|s| - 1)
  {
    var init := s[..|s| - 1];
    if init != [] {
      UnsignedBound(init);
      NextDigit(s[0], Pow256(|s| - 2), Unsigned(init), s[|s| - 1]);
    }
  }

  lemma NextDigit(b: int, p: nat, u: nat, last: byte)
    requires b * p <= u < (b + 1) * p
    ensures b * (256 * p) <= 256 * u + last < (b + 1) * (256 * p)
  {
    MulSwap(b, p);
    MulSwap(b + 1, p);
  }

  lemma MulSwap(a: int, p: int)
    ensures a * (256 * p) == 256 * (a * p)
  {
  }

  /** Writing a value that fits in `n` bytes and reading it back gives the value. */
  lemma {:induction false} SignedLow(i: int, n: nat)
    requires n >= 1 && Fits(i, n)
    ensures Signed(Low(i, n)) == i
  {
    var s, p := Low(i, n), Pow256(n - 1);
    LowSplits(i, n);
    UnsignedBound(s);
    var b: int, q, u := s[0], Shift(i, n), Unsigned(s);
    assert Pow256(n) == 256 * p && 0 <= u;
    MulMono(b + 1, 256, p);
    assert q == 0 || q == -1 by {
      if q >= 1 { MulMono(1, q, 256 * p); }
      if q <= -2 { MulMono(q, -2, 256 * p); }
    }
    if b >= 128 { MulMono(128, b, p); } else { MulMono(b + 1, 128, p); }
  }

  lemma MulMono(a: int, b: int, c: nat)
    requires a <= b
    ensures a * c <= b * c
  {
  }

  /** The encoding of an integer determines it, and no shorter string has the same value. */
  lemma {:induction false} IntBytesRoundTrip(i: int, s: seq<byte>)
    ensures Signed(IntBytes(i)) == i
    ensures s != [] && Signed(s) == i ==> |IntBytes(i)| <= |s|
  {
    MinLengthLeast(i, MinLength(i));
    SignedLow(i, MinLength(i));
    if s != [] {
      SignedFits(s);
      MinLengthLeast(Signed(s), |s|);
    }
  }

  lemma {:induction false} SignedFits(s: seq<byte>)
    requires s != []
    ensures Fits(Signed(s), |s|)
  {
    UnsignedBound(s);
    var b: int, p := s[0], Pow256(|s| - 1);
    assert Pow256(|s|) == 256 * p;
    MulMono(b + 1, 256, p);
    if b >= 128 { MulMono(128, b, p); } else { MulMono(b + 1, 128, p); }
  }

  /** `sizeInt64`: counts the shifts that bring the value into one byte. */
  method SizeInt64(v: int64) returns (n: nat)
    ensures n == MinLength(v) && n <= 8
  {
    n := 1;
    var i: int := v;
    while i > 127
      invariant v > 127 ==> i >= 0
      invariant v <= 127 ==> i == v && n == 1
      invariant n >= 1 && MinLength(v) == n - 1 + MinLength(i)
      decreases i
    {
      n, i := n + 1, i / 256;
    }
    while i < -128
      invariant i <= 127
      invariant n >= 1 && MinLength(v) == n - 1 + MinLength(i)
      decreases -i
    {
      n, i := n + 1, i / 256;
    }
    assert Fits(v, 8) by { PowersOf256(); }
    MinLengthLeast(v, 8);
  }

  lemma PowersOf256()
    ensures Pow256(1) == 0x100 && Pow256(2) == 0x1_0000 && Pow256(3) == 0x100_0000
    ensures Pow256(4) == 0x1_0000_0000 && Pow256(5) == 0x100_0000_0000
    ensures Pow256(6) == 0x1_0000_0000_0000 && Pow256(7) == 0x100_0000_0000_0000
    ensures Pow256(8) == TWO_TO_64
  {
    assert Pow256(1) == 256 * Pow256(0);
    assert Pow256(2) == 256 * Pow256(1);
    assert Pow256(3) == 256 * Pow256(2);
    assert Pow256(4) == 256 * Pow256(3);
    assert Pow256(5) == 256 * Pow256(4);
    assert Pow256(6) == 256 * Pow256(5);
    assert Pow256(7) == 256 * Pow256(6);
    assert Pow256(8) == 256 * Pow256(7);
  }

  /** The 64-bit register holding `x`. */
  function Wrap64(x: int): int64 {
    (x + TWO_TO_64 / 2) % TWO_TO_64 - TWO_TO_64 / 2
  }

  /** `parseInt64`: accumulates in a 64-bit register, then shifts up and down to extend the sign. */
  method ParseInt64(s: seq<byte>) returns (r: Option<int64>)
    ensures |s| > 8 ==> r == None
    ensures |s| <= 8 ==> r == Some(Signed(s))
  {
    if |s| > 8 {
      return None;
    }
    var ret: int64 := 0;
    for k := 0 to |s|
      invariant ret == Wrap64(Unsigned(s[..k]))
    {
      assert s[..k + 1][..k] == s[..k];
      WrapStep(Unsigned(s[..k]), s[k]);
      ret := Wrap64(Wrap64(ret * 256) + s[k]);
    }
    assert s[..|s|] == s;
    SignExtend(s);
    var unused := Pow256(8 - |s|);
    return Some(Wrap64(ret * unused) / unused);
  }

  /** The bytes shifted in never carry, so the register holds the value read so far, modulo 2^64. */
  lemma WrapStep(u: nat, b: byte)
    ensures Wrap64(Wrap64(Wrap64(u) * 256) + b) == Wrap64(256 * u + b)
  {
    var q := (u + TWO_TO_64 / 2) / TWO_TO_64;
    assert Wrap64(u) == u - q * TWO_TO_64;
    WrapPeriod(256 * u, 256 * q);
    var q' := (256 * u + TWO_TO_64 / 2) / TWO_TO_64;
    assert Wrap64(256 * u) == 256 * u - q' * TWO_TO_64;
    WrapPeriod(256 * u + b, q');
  }

  lemma WrapPeriod(x: int, q: int)
    ensures Wrap64(x - q * TWO_TO_64) == Wrap64(x)
  {
    var y := x + TWO_TO_64 / 2;
    assert y - q * TWO_TO_64 == (y / TWO_TO_64 - q) * TWO_TO_64 + y % TWO_TO_64;
  }

  /** Shifting the register left and then arithmetically right by the unused bytes extends the sign. */
  lemma {:induction false} SignExtend(s: seq<byte>)
    requires |s| <= 8
    ensures var p := Pow256(8 - |s|);
      p > 0 && var x := Wrap64(Wrap64(Unsigned(s)) * p) / p; x == Signed(s) && -TWO_TO_64 / 2 <= x < TWO_TO_64 / 2
  {
    var u, m, p := Unsigned(s), Pow256(|s|), Pow256(8 - |s|);
    Complement(|s|);
    SignBit(s);
    hide Unsigned, Pow256;
    if |s| == 8 {
      assert m == TWO_TO_64;
      WrapHalf(u);
    } else {
      WrapHalf(u);
      ExtendBy(u, m, p);
    }
  }

  lemma Complement(n: nat)
    requires n <= 8
    ensures Pow256(n) * Pow256(8 - n) == TWO_TO_64 && Pow256(8 - n) > 0
    ensures n < 8 ==> 2 * Pow256(n) < TWO_TO_64
    ensures n == 8 ==> Pow256(8 - n) == 1
  {
    PowersOf256();
    if n == 1 || n == 7 {
    } else if n == 2 || n == 6 {
    } else if n == 3 || n == 5 {
    } else if n == 4 {
    }
  }

  /** The leading bit tells which half of the range the value lies in. */
  lemma SignBit(s: seq<byte>)
    ensures Unsigned(s) < Pow256(|s|)
    ensures s != [] ==> (s[0] >= 128 <==> 2 * Unsigned(s) >= Pow256(|s|))
    ensures s == [] ==> 2 * Unsigned(s) < Pow256(|s|)
  {
    if s != [] {
      UnsignedBound(s);
      var b: int, h := s[0], Pow256(|s| - 1);
      assert Pow256(|s|) == 256 * h;
      MulMono(b + 1, 256, h);
      if b >= 128 { MulMono(128, b, h); } else { MulMono(b + 1, 128, h); }
    }
  }

  /** The register reads the upper half of the range as negative. */
  lemma WrapHalf(x: nat)
    requires x < TWO_TO_64
    ensures Wrap64(x) == if 2 * x >= TWO_TO_64 then x - TWO_TO_64 else x
    ensures Wrap64(Wrap64(x)) == Wrap64(x)
  {
  }

  lemma ExtendBy(u: nat, m: nat, p: nat)
    requires m * p == TWO_TO_64 && u < m && p > 0
    ensures Wrap64(u * p) / p == if 2 * u >= m then u - m else u
  {
    Difference(u, m, p);
    MulMono(u + 1, m, p);
    var x := if 2 * u >= m then u - m else u;
    if 2 * u >= m { MulMono(m, 2 * u, p); } else { MulMono(2 * u + 1, m, p); }
    WrapHalf(u * p);
    hide Wrap64;
    assert Wrap64(u * p) == x * p;
    Quotient(x, p);
  }

  lemma Difference(u: int, m: int, p: int)
    ensures (u - m) * p == u * p - m * p && (2 * u) * p == 2 * (u * p) && (2 * u + 1) * p == 2 * (u * p) + p
    ensures (u + 1) * p == u * p + p
  {
  }

  lemma Quotient(x: int, p: nat)
    requires p > 0
    ensures x * p / p == x
  {
    var q, r := x * p / p, x * p % p;
    assert x * p == q * p + r;
    if q > x { MulMono(x + 1, q, p); Difference(x, 0, p); }
    if q < x { MulMono(q + 1, x, p); Difference(q, 0, p); }
  }
}

/** Strings as Go has them: bytes, compared byte by byte. */
module Text {
  import opened BerInteger

  type Str = seq<byte>

  /** The UTF-8 form of the last code point, U+10FFFF. */
  const MAX_RUNE: Str := [0xF4, 0x8F, 0xBF, 0xBF]

  predicate Less(a: Str, b: Str) {
    b != [] && (a == [] || a[0] < b[0] || (a[0] == b[0] && Less(a[1..], b[1..])))
  }

  predicate HasPrefix(s: Str, p: Str) {
    p <= s
  }

  lemma {:induction false} LessTransitive(a: Str, b: Str, c: Str)
    requires Less(a, b) && Less(b, c)
    ensures Less(a, c)
  {
    if a != [] && a[0] == b[0] == c[0] {
      LessTransitive(a[1..], b[1..], c[1..]);
    }
  }

  lemma {:induction false} LessTotal(a: Str, b: Str)
    ensures a == b <==> !Less(a, b) && !Less(b, a)
    ensures !(Less(a, b) && Less(b, a))
  {
    if a != [] && b != [] {
      LessTotal(a[1..], b[1..]);
      if a[0] == b[0] && a[1..] == b[1..] {
        assert a == [a[0]] + a[1..] && b == [b[0]] + b[1..];
      }
    }
  }

  /**
   * A scan from `p` up to `p` followed by `m` meets exactly the strings that start with `p` and whose
   * remainder sorts below `m`.
   */
  lemma {:induction false} RangeScan(p: Str, m: Str, k: Str)
    ensures !Less(k, p) && Less(k, p + m) <==> HasPrefix(k, p) && Less(k[|p|..], m)
  {
    if p == [] {
      assert p + m == m && k[0..] == k;
    } else {
      assert (p + m)[1..] == p[1..] + m && (p + m)[0] == p[0];
      if k != [] && k[0] == p[0] {
        RangeScan(p[1..], m, k[1..]);
        assert HasPrefix(k, p) <==> HasPrefix(k[1..], p[1..]) by {
          assert p == [p[0]] + p[1..] && k == [k[0]] + k[1..];
        }
        if HasPrefix(k, p) { assert k[|p|..] == k[1..][|p[1..]|..]; }
      }
    }
  }
}

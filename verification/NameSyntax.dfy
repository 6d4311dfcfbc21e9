/** The syntax of names, character by character: what is read as a name, and how names and keys are written. */
module NameSyntax {
  import opened Wrappers
  import opened BerInteger
  import opened Text
  import opened Names

  predicate Blank(b: byte) {
    b in {0x09, 0x0A, 0x0B, 0x0C, 0x0D, 0x20}
  }

  function LowerLetter(b: byte): byte {
    if 0x41 <= b <= 0x5A then b + 0x20 else b
  }

  /** What is left between blanks, in lower case. */
  ghost predicate Trimmed(s: Str, r: Str) {
    exists i: nat, j: nat :: Between(s, r, i, j)
  }

  ghost predicate Between(s: Str, r: Str, i: nat, j: nat) {
    && i <= j <= |s| && |r| == j - i
    && (forall k | 0 <= k < i :: Blank(s[k])) && (forall k | j <= k < |s| :: Blank(s[k]))
    && (i < j ==> !Blank(s[i]) && !Blank(s[j - 1]))
    && forall k | i <= k < j :: r[k - i] == LowerLetter(s[k])
  }

  /** A type, one equals sign and a value. */
  ghost predicate IsComponent(s: Str, c: Component) {
    exists t, v :: HasHalves(s, t, v) && Trimmed(t, c.typ) && Trimmed(v, c.value)
  }

  ghost predicate HasHalves(s: Str, t: Str, v: Str) {
    s == t + [0x3D] + v && 0x3D !in t && 0x3D !in v
  }

  /** Components with a separator between them. */
  ghost predicate IsList(raw: Str, sep: byte, cs: seq<Component>) {
    exists pieces :: HasPieces(raw, sep, pieces, cs)
  }

  ghost predicate HasPieces(raw: Str, sep: byte, pieces: seq<Str>, cs: seq<Component>) {
    && |pieces| == |cs| > 0 && raw == Join(pieces, sep)
    && forall i | 0 <= i < |cs| :: sep !in pieces[i] && IsComponent(pieces[i], cs[i])
  }

  /******* Trimming *******/

  lemma {:induction false} TrimLeftAt(s: Str, i: nat)
    requires i <= |s| && (forall k | 0 <= k < i :: Blank(s[k])) && (i < |s| ==> !Blank(s[i]))
    ensures TrimLeft(s) == s[i..]
  {
    if i > 0 {
      assert forall k | 1 <= k < |s| :: s[1..][k - 1] == s[k];
      TrimLeftAt(s[1..], i - 1);
    }
  }

  lemma {:induction false} TrimRightAt(s: Str, j: nat)
    requires j <= |s| && (forall k | j <= k < |s| :: Blank(s[k])) && (j > 0 ==> !Blank(s[j - 1]))
    ensures TrimRight(s) == s[..j]
  {
    if j < |s| { TrimRightAt(s[..|s| - 1], j); }
  }

  lemma {:induction false} LeftEnd(s: Str) returns (i: nat)
    ensures i <= |s| && (forall k | 0 <= k < i :: Blank(s[k])) && (i < |s| ==> !Blank(s[i]))
  {
    i := 0;
    while i < |s| && Blank(s[i])
      invariant i <= |s| && forall k | 0 <= k < i :: Blank(s[k])
    {
      i := i + 1;
    }
  }

  lemma {:induction false} RightEnd(s: Str, i: nat) returns (j: nat)
    requires i <= |s| && (i < |s| ==> !Blank(s[i]))
    ensures i <= j <= |s| && (forall k | j <= k < |s| :: Blank(s[k])) && (i < j ==> !Blank(s[j - 1]))
  {
    j := |s|;
    while j > i && Blank(s[j - 1])
      invariant i <= j <= |s| && forall k | j <= k < |s| :: Blank(s[k])
    {
      j := j - 1;
    }
  }

  lemma NormBetween(s: Str, r: Str, i: nat, j: nat)
    requires Between(s, r, i, j)
    ensures Norm(s) == r
  {
    if i == j {
      TrimLeftAt(s, |s|);
    } else {
      TrimLeftAt(s, i);
      var t := s[i..];
      assert forall k | 0 <= k < |t| :: t[k] == s[i + k];
      TrimRightAt(t, j - i);
    }
  }

  lemma NormIs(s: Str, r: Str)
    ensures Norm(s) == r <==> Trimmed(s, r)
  {
    var i := LeftEnd(s);
    var j := RightEnd(s, i);
    var given := seq<byte>(j - i, k requires 0 <= k < j - i => LowerLetter(s[i + k]));
    assert Between(s, given, i, j);
    NormBetween(s, given, i, j);
    if i: nat, j: nat :| Between(s, r, i, j) { NormBetween(s, r, i, j); }
    hide Norm, Between;
  }

  /******* Components and lists of them *******/

  lemma {:induction false} JoinSplit(s: Str, sep: byte)
    ensures Join(Split(s, sep), sep) == s
  {
    if s != [] {
      JoinSplit(s[1..], sep);
      var rest := Split(s[1..], sep);
      assert s == [s[0]] + s[1..];
      if s[0] == sep {
        assert ([[]] + rest)[1..] == rest;
      } else if |rest| > 1 {
        assert ([[s[0]] + rest[0]] + rest[1..])[1..] == rest[1..];
        assert [s[0]] + (rest[0] + [sep] + Join(rest[1..], sep)) == ([s[0]] + rest[0]) + [sep] + Join(rest[1..], sep);
      }
    }
  }

  lemma Halves(s: Str, t: Str, v: Str)
    ensures HasHalves(s, t, v) <==> Split(s, EQUALS) == [t, v]
  {
    if HasHalves(s, t, v) {
      SplitAt(t, EQUALS, v);
      SplitNone(t, EQUALS);
      SplitNone(v, EQUALS);
    }
    if Split(s, EQUALS) == [t, v] {
      JoinSplit(s, EQUALS);
      SplitPieces(s, EQUALS, EQUALS);
      assert Split(s, EQUALS)[0] == t && Split(s, EQUALS)[1] == v;
      assert Join([t, v], EQUALS) == t + [EQUALS] + v by { assert [t, v][1..] == [v]; }
    }
    hide Split, Join;
  }

  lemma ComponentIs(s: Str, c: Component)
    ensures ParseComponent(s) == Some(c) <==> IsComponent(s, c)
  {
    hide Split, Trimmed, Norm, HasHalves;
    forall t, v { Halves(s, t, v); }
    forall t { NormIs(t, c.typ); }
    forall t { NormIs(t, c.value); }
    var parts := Split(s, EQUALS);
    if |parts| == 2 { assert parts == [parts[0], parts[1]]; }
  }

  lemma {:induction false} AllAre(strs: seq<Str>, cs: seq<Component>)
    ensures ParseAll(strs) == Some(cs) <==> |strs| == |cs| && forall i | 0 <= i < |cs| :: IsComponent(strs[i], cs[i])
  {
    hide ParseComponent, IsComponent;
    if strs != [] && cs != [] {
      AllAre(strs[1..], cs[1..]);
      ComponentIs(strs[0], cs[0]);
      assert forall i | 1 <= i < |strs| :: strs[i] == strs[1..][i - 1];
      assert forall i | 1 <= i < |cs| :: cs[i] == cs[1..][i - 1];
      assert cs == [cs[0]] + cs[1..];
      Tail(strs, cs);
    }
  }

  lemma Tail(strs: seq<Str>, cs: seq<Component>)
    requires strs != [] && cs != []
    ensures |strs| == |cs| && (forall i | 0 <= i < |cs| :: IsComponent(strs[i], cs[i]))
            <==> && IsComponent(strs[0], cs[0]) && |strs[1..]| == |cs[1..]|
                 && forall i | 0 <= i < |cs[1..]| :: IsComponent(strs[1..][i], cs[1..][i])
  {
    hide IsComponent;
    if IsComponent(strs[0], cs[0]) && |strs[1..]| == |cs[1..]|
       && forall i | 0 <= i < |cs[1..]| :: IsComponent(strs[1..][i], cs[1..][i]) {
      forall i | 0 <= i < |cs|
        ensures IsComponent(strs[i], cs[i])
      {
        if i > 0 { assert IsComponent(strs[1..][i - 1], cs[1..][i - 1]); }
      }
    }
  }

  lemma ListIs(raw: Str, sep: byte, cs: seq<Component>)
    ensures ParseComponents(raw, sep) == Some(cs) <==> IsList(raw, sep, cs)
  {
    hide ParseAll, IsComponent, Join, Split;
    AllAre(Split(raw, sep), cs);
    if ParseComponents(raw, sep) == Some(cs) {
      JoinSplit(raw, sep);
      SplitPieces(raw, sep, sep);
      assert HasPieces(raw, sep, Split(raw, sep), cs);
    }
    if pieces :| HasPieces(raw, sep, pieces, cs) { SplitJoin(pieces, sep); }
  }

  /** What is read as a name: components between commas. */
  lemma NameIs(raw: Str, dn: DN)
    ensures ParseDN(raw) == Some(dn) <==> IsList(raw, 0x2C, dn)
  {
    ListIs(raw, COMMA, dn);
    hide ParseComponents, IsList;
  }

  /******* Writing *******/

  lemma JoinFirst(c: Component, rest: seq<Component>, sep: byte)
    requires rest != []
    ensures JoinComponents([c] + rest, sep) == c.typ + [0x3D] + c.value + [sep] + JoinComponents(rest, sep)
  {
    assert PrintAll([c] + rest) == [Print(c)] + PrintAll(rest);
    assert ([Print(c)] + PrintAll(rest))[1..] == PrintAll(rest);
  }

  /** A name is written from the entry up, its key from the top down. */
  lemma NameWritten(c: Component, rest: DN)
    ensures rest == [] ==> DNString([c]) == Key([c]) == c.typ + [0x3D] + c.value
    ensures rest != [] ==> DNString([c] + rest) == c.typ + [0x3D] + c.value + [0x2C] + DNString(rest)
    ensures rest != [] ==> Key([c] + rest) == Key(rest) + [0x2F] + c.typ + [0x3D] + c.value
  {
    if rest == [] {
      assert Reverse([c]) == [c] && PrintAll([c]) == [Print(c)];
    } else {
      JoinFirst(c, rest, COMMA);
      assert Reverse([c] + rest) == Reverse(rest) + [c];
      assert PrintAll(Reverse(rest) + [c]) == PrintAll(Reverse(rest)) + [Print(c)];
      JoinAppend(PrintAll(Reverse(rest)), [Print(c)], SLASH);
      assert Key([c] + rest) == Key(rest) + [SLASH] + Print(c);
    }
  }

  /** The order of the keys: the first byte that differs decides, and a shorter string comes before its extensions. */
  lemma {:induction false} LessIs(a: Str, b: Str)
    ensures Less(a, b) <==>
              || (|a| < |b| && b[..|a|] == a)
              || exists i :: 0 <= i < |a| && i < |b| && a[..i] == b[..i] && a[i] < b[i]
  {
    if a != [] && b != [] {
      LessIs(a[1..], b[1..]);
      assert a == [a[0]] + a[1..] && b == [b[0]] + b[1..];
      if a[0] < b[0] { assert a[..0] == b[..0]; }
      if a[0] == b[0] {
        LessTail(a, b);
      }
    }
  }

  lemma LessTail(a: Str, b: Str)
    requires a != [] && b != [] && a[0] == b[0]
    ensures (|a| < |b| && b[..|a|] == a) <==> (|a[1..]| < |b[1..]| && b[1..][..|a[1..]|] == a[1..])
    ensures (exists i :: 0 <= i < |a| && i < |b| && a[..i] == b[..i] && a[i] < b[i])
            <==> (exists i :: 0 <= i < |a[1..]| && i < |b[1..]| && a[1..][..i] == b[1..][..i] && a[1..][i] < b[1..][i])
  {
    var x, y := a[1..], b[1..];
    if i :| 0 <= i < |a| && i < |b| && a[..i] == b[..i] && a[i] < b[i] {
      assert x[..i - 1] == a[..i][1..] && y[..i - 1] == b[..i][1..] && x[i - 1] < y[i - 1];
    }
    if i :| 0 <= i < |x| && i < |y| && x[..i] == y[..i] && x[i] < y[i] {
      assert a[..i + 1] == [a[0]] + x[..i] && b[..i + 1] == [b[0]] + y[..i] && a[i + 1] < b[i + 1];
    }
    if |a| < |b| && b[..|a|] == a { assert y[..|x|] == b[..|a|][1..]; }
    if |x| < |y| && y[..|x|] == x { assert b[..|a|] == [b[0]] + y[..|x|] && a == [a[0]] + x; }
  }
}

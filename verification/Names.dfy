/** Distinguished names: parsing, printing, and the string keys under which the directory stores them. */
module Names {
  import opened BerInteger
  import opened Text
  import opened Wrappers

  const EQUALS: byte := 0x3D
  const COMMA: byte := 0x2C
  const SLASH: byte := 0x2F

  /******* Trimming and lower-casing, over ASCII *******/

  function Lower(b: byte): byte {
    if 0x41 <= b <= 0x5A then b + 0x20 else b
  }

  predicate Space(b: byte) {
    b == 0x20 || 0x09 <= b <= 0x0D
  }

  function TrimLeft(s: Str): (r: Str)
    ensures r == [] || !Space(r[0])
    ensures forall b | b in r :: b in s
  {
    if s != [] && Space(s[0]) then TrimLeft(s[1..]) else s
  }

  function TrimRight(s: Str): (r: Str)
    ensures r <= s && (r != [] ==> !Space(r[|r| - 1]))
  {
    if s != [] && Space(s[|s| - 1]) then TrimRight(s[..|s| - 1]) else s
  }

  function LowerAll(s: Str): Str {
    seq(|s|, i requires 0 <= i < |s| => Lower(s[i]))
  }

  predicate Normal(s: Str) {
    && (forall b | b in s :: Lower(b) == b)
    && (s != [] ==> !Space(s[0]) && !Space(s[|s| - 1]))
  }

  /** Normalising gives a normal string, keeps a normal string, and brings in no separator. */
  function Norm(s: Str): (r: Str)
    ensures Normal(r)
    ensures Normal(s) ==> r == s
    ensures forall b | b in {EQUALS, COMMA, SLASH} && b in r :: b in s
  {
    var trimmed := TrimRight(TrimLeft(s));
    assert forall b | b in LowerAll(trimmed) :: exists a :: a in trimmed && b == Lower(a);
    LowerAll(trimmed)
  }

  /** An attribute key: lower-cased only. */
  function AttributeKey(s: Str): Str {
    LowerAll(s)
  }

  /******* Splitting and joining *******/

  function Split(s: Str, sep: byte): (pieces: seq<Str>)
    ensures pieces != []
  {
    if s == [] then [[]]
    else
      var rest := Split(s[1..], sep);
      if s[0] == sep then [[]] + rest else [[s[0]] + rest[0]] + rest[1..]
  }

  function Join(pieces: seq<Str>, sep: byte): Str {
    if pieces == [] then []
    else if |pieces| == 1 then pieces[0]
    else pieces[0] + [sep] + Join(pieces[1..], sep)
  }

  /** No piece holds the separator, and no piece holds a byte the string does not. */
  lemma {:induction false} SplitPieces(s: Str, sep: byte, b: byte)
    ensures forall i | 0 <= i < |Split(s, sep)| :: sep !in Split(s, sep)[i] && (b !in s ==> b !in Split(s, sep)[i])
  {
    if s != [] {
      SplitPieces(s[1..], sep, b);
      assert s == [s[0]] + s[1..];
    }
  }

  lemma {:induction false} SplitAt(a: Str, sep: byte, b: Str)
    ensures Split(a + [sep] + b, sep) == Split(a, sep) + Split(b, sep)
  {
    if a == [] {
      SplitCons(sep, b, sep);
      assert [] + [sep] + b == [sep] + b;
      assert Split([], sep) == [[]];
    } else {
      hide Split;
      var x, s := a[0], a[1..];
      assert a == [x] + s;
      SplitAt(s, sep, b);
      SplitCons(x, s, sep);
      SplitCons(x, s + [sep] + b, sep);
      assert a + [sep] + b == [x] + (s + [sep] + b) by { Shift(x, s, sep, b); }
      Regroup(x, Split(s, sep), Split(b, sep));
    }
  }

  lemma Shift(x: byte, s: Str, sep: byte, b: Str)
    ensures [x] + s + [sep] + b == [x] + (s + [sep] + b)
  {
  }

  lemma Regroup(x: byte, rest: seq<Str>, tail: seq<Str>)
    requires rest != []
    ensures [[x] + rest[0]] + (rest + tail)[1..] == ([[x] + rest[0]] + rest[1..]) + tail
    ensures [[]] + (rest + tail) == ([[]] + rest) + tail
  {
  }

  lemma SplitCons(x: byte, s: Str, sep: byte)
    ensures Split([x] + s, sep) == if x == sep then [[]] + Split(s, sep)
                                   else [[x] + Split(s, sep)[0]] + Split(s, sep)[1..]
  {
    assert ([x] + s)[1..] == s;
  }

  lemma {:induction false} SplitNone(a: Str, sep: byte)
    requires sep !in a
    ensures Split(a, sep) == [a]
  {
    if a != [] {
      SplitNone(a[1..], sep);
      assert [a[0]] + a[1..] == a;
    }
  }

  lemma {:induction false} SplitJoin(pieces: seq<Str>, sep: byte)
    requires pieces != [] && forall i | 0 <= i < |pieces| :: sep !in pieces[i]
    ensures Split(Join(pieces, sep), sep) == pieces
  {
    SplitNone(pieces[0], sep);
    if |pieces| > 1 {
      SplitJoin(pieces[1..], sep);
      SplitAt(pieces[0], sep, Join(pieces[1..], sep));
    }
  }

  lemma {:induction false} JoinAppend(a: seq<Str>, b: seq<Str>, sep: byte)
    requires a != [] && b != []
    ensures Join(a + b, sep) == Join(a, sep) + [sep] + Join(b, sep)
  {
    if |a| == 1 {
      assert (a + b)[1..] == b;
    } else {
      assert (a + b)[1..] == a[1..] + b;
      JoinAppend(a[1..], b, sep);
      var rest := Join(a[1..], sep);
      assert a[0] + [sep] + (rest + [sep] + Join(b, sep)) == (a[0] + [sep] + rest) + [sep] + Join(b, sep);
    }
  }

  /******* Components *******/

  datatype Component = Component(typ: Str, value: Str)

  function Print(c: Component): Str {
    c.typ + [EQUALS] + c.value
  }

  function ParseComponent(raw: Str): Option<Component> {
    var parts := Split(raw, EQUALS);
    if |parts| != 2 then None else Some(Component(Norm(parts[0]), Norm(parts[1])))
  }

  function ParseAll(strs: seq<Str>): Option<seq<Component>> {
    if strs == [] then Some([])
    else
      match ParseComponent(strs[0])
      case None => None
      case Some(c) => (match ParseAll(strs[1..]) case None => None case Some(cs) => Some([c] + cs))
  }

  function ParseComponents(raw: Str, sep: byte): Option<seq<Component>> {
    ParseAll(Split(raw, sep))
  }

  function PrintAll(cs: seq<Component>): (strs: seq<Str>)
    ensures |strs| == |cs|
  {
    seq(|cs|, i requires 0 <= i < |cs| => Print(cs[i]))
  }

  function JoinComponents(cs: seq<Component>, sep: byte): Str {
    Join(PrintAll(cs), sep)
  }

  /** What a parsed component is: trimmed, lower-case, and without an equals sign in its halves. */
  predicate Canonical(c: Component) {
    Normal(c.typ) && Normal(c.value) && EQUALS !in c.typ && EQUALS !in c.value
  }

  predicate Free(c: Component, sep: byte) {
    sep !in c.typ && sep !in c.value
  }

  predicate AllCanonical(cs: seq<Component>) {
    forall i | 0 <= i < |cs| :: Canonical(cs[i])
  }

  predicate AllFree(cs: seq<Component>, sep: byte) {
    forall i | 0 <= i < |cs| :: Free(cs[i], sep)
  }

  lemma ComponentInverts(c: Component)
    ensures ParseComponent(Print(c)) == Some(c) <==> Canonical(c)
  {
    SplitPieces(Print(c), EQUALS, EQUALS);
    if Canonical(c) {
      SplitAt(c.typ, EQUALS, c.value);
      SplitNone(c.typ, EQUALS);
      SplitNone(c.value, EQUALS);
    }
  }

  lemma {:induction false} ParseAllCanonical(strs: seq<Str>, sep: byte)
    requires ParseAll(strs).Some? && sep in {COMMA, SLASH}
    ensures |ParseAll(strs).value| == |strs| && AllCanonical(ParseAll(strs).value)
    ensures (forall i | 0 <= i < |strs| :: sep !in strs[i]) ==> AllFree(ParseAll(strs).value, sep)
  {
    if strs != [] {
      ParseAllCanonical(strs[1..], sep);
      SplitPieces(strs[0], EQUALS, sep);
    }
  }

  lemma {:induction false} ParseAllInverts(cs: seq<Component>)
    ensures ParseAll(PrintAll(cs)) == Some(cs) <==> AllCanonical(cs)
  {
    if cs != [] {
      hide ParseComponent, Print, Canonical;
      ParseAllInverts(cs[1..]);
      ComponentInverts(cs[0]);
      assert PrintAll(cs)[1..] == PrintAll(cs[1..]);
      AllCanonicalTail(cs);
      hide PrintAll, AllCanonical;
      assert cs == [cs[0]] + cs[1..];
    }
  }

  lemma AllCanonicalTail(cs: seq<Component>)
    requires cs != []
    ensures AllCanonical(cs) <==> Canonical(cs[0]) && AllCanonical(cs[1..])
  {
    assert forall i | 1 <= i < |cs| :: cs[i] == cs[1..][i - 1];
  }

  /**
   * Parsing inverts printing for exactly the non-empty names whose components are canonical and free of
   * the separator.
   */
  lemma ParsePrint(cs: seq<Component>, sep: byte)
    requires sep in {COMMA, SLASH}
    ensures ParseComponents(JoinComponents(cs, sep), sep) == Some(cs)
            <==> cs != [] && AllCanonical(cs) && AllFree(cs, sep)
  {
    if cs == [] {
      assert Split([], sep) == [[]] && Split([], EQUALS) == [[]];
    } else if AllFree(cs, sep) {
      SplitJoin(PrintAll(cs), sep);
      ParseAllInverts(cs);
    } else if ParseComponents(JoinComponents(cs, sep), sep) == Some(cs) {
      SplitPieces(JoinComponents(cs, sep), sep, sep);
      ParseAllCanonical(Split(JoinComponents(cs, sep), sep), sep);
    }
  }

  /** Whatever is parsed is canonical: printing and parsing it again gives the same name. */
  lemma ParsedCanonical(raw: Str, sep: byte)
    requires sep in {COMMA, SLASH} && ParseComponents(raw, sep).Some?
    ensures var cs := ParseComponents(raw, sep).value;
            && cs != [] && AllCanonical(cs) && AllFree(cs, sep)
            && ParseComponents(JoinComponents(cs, sep), sep) == Some(cs)
            && (SLASH !in raw ==> AllFree(cs, SLASH))
  {
    var cs := ParseComponents(raw, sep).value;
    SplitPieces(raw, sep, SLASH);
    ParseAllCanonical(Split(raw, sep), sep);
    ParseAllCanonical(Split(raw, sep), SLASH);
    ParsePrint(cs, sep);
  }

  /******* Names *******/

  type DN = seq<Component>

  /** The most specific component comes last. */
  type Prefix = seq<Component>

  function Reverse(cs: seq<Component>): (r: seq<Component>)
    ensures |r| == |cs|
  {
    seq(|cs|, i requires 0 <= i < |cs| => cs[|cs| - 1 - i])
  }

  function ParseDN(raw: Str): Option<DN> {
    ParseComponents(raw, COMMA)
  }

  function DNString(dn: DN): Str {
    JoinComponents(dn, COMMA)
  }

  function PrefixString(p: Prefix): Str {
    JoinComponents(p, SLASH)
  }

  /** The key an entry is stored under. */
  function Key(dn: DN): Str {
    PrefixString(Reverse(dn))
  }

  predicate IsPrefixOf(p: Prefix, q: Prefix) {
    |p| <= |q| && q[..|p|] == p
  }

  /** `dn` is `base` or below it. */
  predicate Under(dn: DN, base: DN) {
    IsPrefixOf(Reverse(base), Reverse(dn))
  }

  lemma UnderSuffix(dn: DN, base: DN)
    ensures Under(dn, base) <==> |base| <= |dn| && dn[|dn| - |base|..] == base
  {
    var n, m := |dn|, |base|;
    if m <= n {
      if Under(dn, base) {
        forall i | 0 <= i < m
          ensures dn[n - m..][i] == base[i]
        {
          assert Reverse(dn)[..m][m - 1 - i] == Reverse(base)[m - 1 - i];
        }
      }
      if dn[n - m..] == base {
        forall i | 0 <= i < m
          ensures Reverse(dn)[..m][i] == Reverse(base)[i]
        {
          assert dn[n - m..][m - 1 - i] == base[m - 1 - i];
        }
      }
    }
  }

  /** A name that parsing yields and whose key says all about it. */
  predicate Clean(dn: DN) {
    dn != [] && AllCanonical(dn) && AllFree(dn, COMMA) && AllFree(dn, SLASH)
  }

  lemma CleanReverse(dn: DN)
    requires AllCanonical(dn) && AllFree(dn, SLASH)
    ensures AllCanonical(Reverse(dn)) && AllFree(Reverse(dn), SLASH)
    ensures Reverse(Reverse(dn)) == dn
  {
  }

  /** Keys and comma-separated names both tell clean names apart. */
  lemma StringsTellApart(a: DN, b: DN)
    requires Clean(a) && Clean(b)
    ensures Key(a) == Key(b) <==> a == b
    ensures DNString(a) == DNString(b) <==> a == b
    ensures ParseDN(DNString(a)) == Some(a)
  {
    CleanReverse(a);
    CleanReverse(b);
    ParsePrint(Reverse(a), SLASH);
    ParsePrint(Reverse(b), SLASH);
    ParsePrint(a, COMMA);
    ParsePrint(b, COMMA);
  }

  lemma PrintAllPrefix(p: Prefix, q: Prefix)
    requires |p| <= |q|
    requires AllCanonical(p) && AllCanonical(q)
    ensures PrintAll(q)[..|p|] == PrintAll(p) <==> IsPrefixOf(p, q)
  {
    if PrintAll(q)[..|p|] == PrintAll(p) {
      forall i | 0 <= i < |p|
        ensures q[i] == p[i]
      {
        assert PrintAll(q)[..|p|][i] == PrintAll(p)[i];
        ComponentInverts(p[i]);
        ComponentInverts(q[i]);
      }
      assert q[..|p|] == p;
    }
    if IsPrefixOf(p, q) {
      assert forall i | 0 <= i < |p| :: q[i] == q[..|p|][i];
    }
  }

  lemma PrintedFree(p: Prefix, i: nat)
    requires i < |p| && AllFree(p, SLASH)
    ensures SLASH !in PrintAll(p)[i]
  {
  }

  lemma PrefixExtends(p: Prefix, q: Prefix)
    requires p != [] && AllCanonical(p) && AllCanonical(q) && IsPrefixOf(p, q)
    ensures var s, t := PrefixString(p), PrefixString(q);
            s <= t && (|t| == |s| || t[|s|] == SLASH)
  {
    hide Canonical, Print;
    if |p| < |q| {
      PrintAllPrefix(p, q);
      var rest := PrintAll(q)[|p|..];
      assert PrintAll(q) == PrintAll(p) + rest;
      JoinAppend(PrintAll(p), rest, SLASH);
      var s := PrefixString(p);
      assert PrefixString(q) == s + ([SLASH] + Join(rest, SLASH));
    } else {
      assert p == q;
    }
  }

  lemma ExtensionPrefix(p: Prefix, q: Prefix)
    requires p != [] && q != [] && AllCanonical(p) && AllCanonical(q) && AllFree(p, SLASH) && AllFree(q, SLASH)
    requires var s, t := PrefixString(p), PrefixString(q);
             s <= t && (|t| == |s| || t[|s|] == SLASH)
    ensures IsPrefixOf(p, q)
  {
    hide Canonical, Print, Free;
    var s, t := PrefixString(p), PrefixString(q);
    forall i | 0 <= i < |p| { PrintedFree(p, i); }
    forall i | 0 <= i < |q| { PrintedFree(q, i); }
    SplitJoin(PrintAll(p), SLASH);
    SplitJoin(PrintAll(q), SLASH);
    hide Join, PrintAll;
    if |t| == |s| {
      assert s == t;
      assert PrintAll(q)[..|p|] == PrintAll(p);
    } else {
      var rest := t[|s| + 1..];
      assert t == s + [SLASH] + rest;
      SplitAt(s, SLASH, rest);
      assert (PrintAll(p) + Split(rest, SLASH))[..|p|] == PrintAll(p);
    }
    PrintAllPrefix(p, q);
  }

  /**
   * One name is above another exactly when its key starts the other key and what follows is nothing or
   * begins with a slash. A key that merely starts the other is not enough.
   */
  lemma PrefixOnKeys(p: Prefix, q: Prefix)
    requires p != [] && q != [] && AllCanonical(p) && AllCanonical(q) && AllFree(p, SLASH) && AllFree(q, SLASH)
    ensures var s, t := PrefixString(p), PrefixString(q);
            IsPrefixOf(p, q) <==> s <= t && (|t| == |s| || t[|s|] == SLASH)
  {
    hide PrefixString, IsPrefixOf, AllCanonical, AllFree;
    if IsPrefixOf(p, q) {
      PrefixExtends(p, q);
    } else {
      var s, t := PrefixString(p), PrefixString(q);
      if s <= t && (|t| == |s| || t[|s|] == SLASH) { ExtensionPrefix(p, q); }
    }
  }

  /** The comment on prefixes says a string prefix suffices; these two siblings show that it does not. */
  lemma StringPrefixMisleads()
    ensures exists p: Prefix, q: Prefix ::
              && p != [] && q != [] && AllCanonical(p) && AllCanonical(q) && AllFree(p, SLASH) && AllFree(q, SLASH)
              && HasPrefix(PrefixString(q), PrefixString(p)) && !IsPrefixOf(p, q)
  {
    var a, ab := Component([0x75], [0x61]), Component([0x75], [0x61, 0x62]);
    var p, q: Prefix := [a], [ab];
    assert PrefixString(p) == Print(a) == [0x75, 0x3D, 0x61];
    assert PrefixString(q) == Print(ab) == [0x75, 0x3D, 0x61, 0x62];
    assert q[..1][0] == ab != p[0];
    assert AllCanonical(p) && AllCanonical(q) && AllFree(p, SLASH) && AllFree(q, SLASH);
  }

  /******* The range of keys that stands for a subtree *******/

  function PrefixEnd(p: Prefix): Prefix {
    if p == [] then []
    else
      var last := p[|p| - 1];
      p[|p| - 1 := Component(last.typ, last.value + MAX_RUNE)]
  }

  lemma PrefixEndString(p: Prefix)
    requires p != []
    ensures PrefixString(PrefixEnd(p)) == PrefixString(p) + MAX_RUNE
  {
    var n := |p| - 1;
    var front := PrintAll(p)[..n];
    assert PrintAll(p) == front + [Print(p[n])];
    assert Print(PrefixEnd(p)[n]) == Print(p[n]) + MAX_RUNE;
    assert PrintAll(PrefixEnd(p)) == front + [Print(p[n]) + MAX_RUNE];
    if n > 0 {
      JoinAppend(front, [Print(p[n])], SLASH);
      JoinAppend(front, [Print(p[n]) + MAX_RUNE], SLASH);
    }
  }

  predicate Scanned(p: Prefix, key: Str) {
    !Less(key, PrefixString(p)) && Less(key, PrefixString(PrefixEnd(p)))
  }

  /** What the scan below a name meets, for any key; the scan of the empty prefix meets nothing. */
  lemma ScannedExactly(p: Prefix, key: Str)
    ensures Scanned(p, key) <==>
            p != [] && HasPrefix(key, PrefixString(p)) && Less(key[|PrefixString(p)|..], MAX_RUNE)
  {
    if p == [] {
      assert PrintAll(p) == [];
    } else {
      PrefixEndString(p);
      RangeScan(PrefixString(p), MAX_RUNE, key);
    }
  }

  /** The scan below a name meets the name and everything below it. */
  lemma ScanCovers(dn: DN, below: DN)
    requires dn != [] && AllCanonical(dn) && AllFree(dn, SLASH)
    requires AllCanonical(below) && AllFree(below, SLASH) && Under(below, dn)
    ensures Scanned(Reverse(dn), Key(below))
  {
    CleanReverse(dn);
    CleanReverse(below);
    PrefixOnKeys(Reverse(dn), Reverse(below));
    ScannedExactly(Reverse(dn), Key(below));
  }
}

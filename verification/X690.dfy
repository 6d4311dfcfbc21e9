/**
 * X.690 in its own terms: which strings of octets stand for a tree, and which one is written for it.
 * Nothing here is taken from the reader or the writer; both are compared with it below.
 */
module X690 {
  import opened Wrappers
  import opened BerInteger
  import opened Ber

  /** The identifier octet of an element whose tag fits into it: class, form and number. */
  function Octet(n: Node): byte {
    0x40 * n.class_ + (if n.Branch? then 0x20 else 0) + n.tag
  }

  /** The number that base-256 digits go on to spell, most significant first. */
  function Horner(s: seq<byte>, sofar: int): int {
    if s == [] then sofar else Horner(s[1..], 256 * sofar + s[0])
  }

  /** The same of the seven lower bits of each. */
  function Horner7(s: seq<byte>, sofar: nat): nat {
    if s == [] then sofar else Horner7(s[1..], 128 * sofar + s[0] % 128)
  }

  /** A two's-complement number; no octets at all are taken for zero. */
  function Twos(s: seq<byte>): int {
    if s == [] then 0 else Horner(s[1..], s[0] as int - if s[0] < 0x80 then 0 else 0x100)
  }

  /******* What may stand for a tree *******/

  /** Digits of seven bits, all but the last of them marked. */
  predicate Digits7(s: seq<byte>) {
    s != [] && s[|s| - 1] < 0x80 && forall i | 0 <= i < |s| - 1 :: s[i] >= 0x80
  }

  /** Section 8.1.2: one octet, or the long form, which may be used for small tags too. */
  predicate Identifies(id: seq<byte>, o: byte) {
    || id == [o]
    || (&& 2 <= |id| <= 6 && id[0] == o - o % 0x20 + 0x1F
        && Digits7(id[1..]) && Horner7(id[1..], 0) == o % 0x20)
  }

  /** Section 8.1.3, the definite forms; the long one, without a leading zero, may be used for small lengths too. */
  predicate Announce(l: seq<byte>, n: nat) {
    || (|l| == 1 && l[0] == n < 0x80)
    || (|l| >= 2 && l[0] == 0x80 + |l| - 1 && l[1] != 0 && Horner(l[1..], 0) == n)
  }

  /** The octets stand for the tree, at every level. */
  ghost predicate StandsFor(s: seq<byte>, n: Node)
    decreases n
  {
    exists i: nat, j: nat ::
      HeaderAt(s, Octet(n), i, j)
      && match n
         case Leaf(_, _, content) => s[j..] == content
         case Branch(_, _, kids) => StandForAll(s[j..], kids)
  }

  /** Identifier octets up to `i`, length octets from there to `j`, and less than 2^31 octets after them. */
  ghost predicate HeaderAt(s: seq<byte>, o: byte, i: nat, j: nat) {
    0 < i < j <= |s| && Identifies(s[..i], o) && Announce(s[i..j], |s| - j) && |s| - j < 0x8000_0000
  }

  /** One after the other. */
  ghost predicate StandForAll(s: seq<byte>, ns: seq<Node>)
    decreases ns
  {
    if ns == [] then s == []
    else exists k | 0 < k <= |s| :: StandsFor(s[..k], ns[0]) && StandForAll(s[k..], ns[1..])
  }

  /******* What is written for a tree *******/

  /** The shortest length octets, for lengths below 2^32. */
  function LengthOctets(n: nat): seq<byte> {
    if n < 0x80 then [n]
    else if n < 0x100 then [0x81, n]
    else if n < 0x1_0000 then [0x82, n / 0x100, n % 0x100]
    else if n < 0x100_0000 then [0x83, n / 0x1_0000, n / 0x100 % 0x100, n % 0x100]
    else [0x84, n / 0x100_0000 % 0x100, n / 0x1_0000 % 0x100, n / 0x100 % 0x100, n % 0x100]
  }

  /** An element: identifier, length, contents. */
  function Tlv(o: byte, content: seq<byte>): seq<byte> {
    [o] + LengthOctets(|content|) + content
  }

  /** The shortest two's-complement octets. */
  function IntOctets(i: int32): seq<byte> {
    if -0x80 <= i < 0x80 then [i % 0x100]
    else if -0x8000 <= i < 0x8000 then [i / 0x100 % 0x100, i % 0x100]
    else if -0x80_0000 <= i < 0x80_0000 then [i / 0x1_0000 % 0x100, i / 0x100 % 0x100, i % 0x100]
    else [i / 0x100_0000 % 0x100, i / 0x1_0000 % 0x100, i / 0x100 % 0x100, i % 0x100]
  }

  function Written(n: Node): seq<byte> {
    match n
    case Leaf(_, _, content) => Tlv(Octet(n), content)
    case Branch(_, _, kids) => Tlv(Octet(n), WrittenAll(kids))
  }

  function WrittenAll(ns: seq<Node>): seq<byte> {
    if ns == [] then [] else Written(ns[0]) + WrittenAll(ns[1..])
  }

  /******* The reader takes what stands for a tree *******/

  lemma OctetTells(n: Node, c: Class, compound: bool, t: Tag)
    ensures Octet(n) == 0x40 * c + (if compound then 0x20 else 0) + t <==> IsNode(n, compound, c, t)
  {
  }

  lemma {:induction false} ReadsBase128(s: seq<byte>, seen: nat, acc: nat, v: nat, n: nat)
    requires seen <= 4
    ensures ParseBase128(s, seen, acc) == Some((v, n))
            <==> seen < n <= 5 && n - seen <= |s| && Digits7(s[..n - seen]) && Horner7(s[..n - seen], acc) == v
  {
    if s != [] && s[0] >= 0x80 {
      if seen < 4 { ReadsBase128(s[1..], seen + 1, 128 * acc + s[0] - 128, v, n); }
      if seen + 1 < n <= 5 && n - seen <= |s| {
        Digits7Cons(s[..n - seen]);
        assert s[..n - seen][1..] == s[1..][..n - seen - 1];
        assert s[0] % 128 == s[0] - 128;
      }
    } else if s != [] {
      assert s[..1] == [s[0]] && [s[0]][1..] == [];
    }
  }

  lemma Digits7Cons(s: seq<byte>)
    requires |s| >= 2 && s[0] >= 0x80
    ensures Digits7(s) <==> Digits7(s[1..])
  {
    assert forall i | 1 <= i < |s| :: s[i] == s[1..][i - 1];
  }

  lemma ReadsTag(s: seq<byte>, i: nat, o: byte)
    requires s != [] && o % 0x20 != 0x1F
    ensures ParseTag(s) == Some((o % 0x20, i)) && s[0] / 0x20 == o / 0x20
            <==> i + 1 <= |s| && Identifies(s[..i + 1], o)
  {
    if s[0] % 0x20 == 0x1F {
      hide Digits7, Horner7, ParseBase128;
      ReadsBase128(s[1..], 0, 0, o % 0x20, i);
      if 1 <= i < |s| {
        assert s[..i + 1][1..] == s[1..i + 1] == s[1..][..i];
        assert s[..i + 1][0] == s[0];
      }
    } else if i + 1 <= |s| {
      assert s[..i + 1][0] == s[0];
    }
  }

  lemma {:induction false} HornerGrows(s: seq<byte>, acc: nat)
    ensures Horner(s, acc) >= acc && (s != [] ==> Horner(s, acc) >= 256 * acc)
  {
    if s != [] { HornerGrows(s[1..], 256 * acc + s[0]); }
  }

  lemma {:induction false} ReadsLength(s: seq<byte>, count: nat, acc: nat)
    requires acc < LENGTH_LIMIT
    ensures ParseLength(s, count, acc)
            == if count <= |s| && (acc == 0 && count > 0 ==> s[0] != 0) && Horner(s[..count], acc) < LENGTH_LIMIT
               then Some((Horner(s[..count], acc), s[count..])) else None
  {
    if count > 0 && s != [] {
      if count <= |s| {
        assert s[..count][1..] == s[1..][..count - 1] && s[..count][0] == s[0];
        HornerGrows(s[..count], acc);
      }
      if acc < LENGTH_GUARD && 256 * acc + s[0] != 0 {
        ReadsLength(s[1..], count - 1, 256 * acc + s[0]);
      }
    }
  }

  lemma ReadsLengthField(s: seq<byte>, n: nat, k: nat)
    ensures ParseLengthField(s) == Some((n, k)) <==> 1 <= k <= |s| && Announce(s[..k], n) && n < LENGTH_LIMIT
  {
    if s != [] && s[0] > 0x80 {
      ReadsLength(s[1..], s[0] - 128, 0);
    }
    if 1 <= k <= |s| {
      assert s[..k][0] == s[0] && s[..k][1..] == s[1..][..k - 1];
    }
  }

  lemma HeaderParts(s: seq<byte>, i: nat, n: nat, k: nat, o: byte)
    requires s != [] && o % 0x20 != 0x1F
    requires ParseTag(s) == Some((o % 0x20, i)) && s[0] / 0x20 == o / 0x20
    requires ParseLengthField(s[1 + i..]) == Some((n, k))
    ensures ParseHeader(s) == Some(Head(o / 0x40, o / 0x20 % 2 == 1, o % 0x20, n, 1 + i + k))
  {
    hide ParseTag, ParseLengthField;
    assert s[0] / 64 == o / 64 && (s[0] / 32) % 2 == (o / 32) % 2;
  }

  lemma OctetParts(n: Node)
    ensures Octet(n) % 0x20 == n.tag != 0x1F && Octet(n) / 0x40 == n.class_ && (Octet(n) / 0x20 % 2 == 1 <==> n.Branch?)
  {
  }

  lemma HeaderIs(s: seq<byte>, n: Node, i: nat, j: nat, l: nat)
    requires 0 < i < j <= |s| && Identifies(s[..i], Octet(n)) && Announce(s[i..j], l) && l < LENGTH_LIMIT
    ensures ParseHeader(s) == Some(Head(n.class_, n.Branch?, n.tag, l, j))
  {
    OctetParts(n);
    hide Identifies, Announce, Octet;
    ReadsTag(s, i - 1, Octet(n));
    ReadsLengthField(s[i..], l, j - i);
    assert s[i..][..j - i] == s[i..j];
    HeaderParts(s, i - 1, l, j - i, Octet(n));
  }

  lemma HeaderFound(s: seq<byte>, n: Node)
    requires ParseHeader(s).Some?
    requires var h := ParseHeader(s).value; h.class_ == n.class_ && h.compound == n.Branch? && h.tag == n.tag
    ensures var h := ParseHeader(s).value;
            exists i :: 0 < i < h.used <= |s| && Identifies(s[..i], Octet(n)) && Announce(s[i..h.used], h.length)
  {
    OctetParts(n);
    hide Identifies, Announce, ParseLengthField, ParseTag;
    var h := ParseHeader(s).value;
    var (tag, more) := ParseTag(s).value;
    var i := 1 + more;
    ReadsTag(s, more, Octet(n));
    SameUpper(s[0], Octet(n));
    ReadsLengthField(s[i..], h.length, h.used - i);
    assert s[i..][..h.used - i] == s[i..h.used];
  }

  lemma SameUpper(a: byte, b: byte)
    requires a / 64 == b / 64 && ((a / 32) % 2 == 1 <==> (b / 32) % 2 == 1)
    ensures a / 0x20 == b / 0x20
  {
  }

  /** The parser takes an element exactly where octets stand for it. */
  lemma {:induction false} ReadsOne(s: seq<byte>, n: Node, used: nat)
    ensures ParseOne(s) == Some((n, used)) <==> used <= |s| && StandsFor(s[..used], n)
    decreases |s|, 0
  {
    if ParseOne(s) == Some((n, used)) {
      OneStands(s, n, used);
    }
    if used <= |s| && StandsFor(s[..used], n) {
      StandsOne(s, n, used);
    }
  }

  lemma {:induction false} OneStands(s: seq<byte>, n: Node, used: nat)
    requires ParseOne(s) == Some((n, used))
    ensures used <= |s| && StandsFor(s[..used], n)
    decreases |s|, 0, 0
  {
    hide Identifies, Announce, Octet, StandForAll, ParseTag, ParseLengthField;
    HeaderFound(s, n);
    var h := ParseHeader(s).value;
    var i :| 0 < i < h.used <= |s| && Identifies(s[..i], Octet(n)) && Announce(s[i..h.used], h.length);
    var t := s[..used];
    assert t[..i] == s[..i] && t[i..h.used] == s[i..h.used] && t[h.used..] == s[h.used..used];
    if n.Branch? { ReadsForest(s[h.used..used], n.kids); }
    assert HeaderAt(t, Octet(n), i, h.used);
  }

  lemma {:induction false} StandsOne(s: seq<byte>, n: Node, used: nat)
    requires used <= |s| && StandsFor(s[..used], n)
    ensures ParseOne(s) == Some((n, used))
    decreases |s|, 0, 0
  {
    hide Identifies, Announce, Octet, StandForAll;
    var t := s[..used];
    var i: nat, j: nat :|
      && HeaderAt(t, Octet(n), i, j)
      && match n
         case Leaf(_, _, content) => t[j..] == content
         case Branch(_, _, kids) => StandForAll(t[j..], kids);
    assert t[..i] == s[..i] && t[i..j] == s[i..j] && t[j..] == s[j..used];
    HeaderIs(s, n, i, j, used - j);
    if n.Branch? { ReadsForest(s[j..used], n.kids); }
  }

  lemma {:induction false} ReadsForest(s: seq<byte>, ns: seq<Node>)
    ensures ParseForest(s) == Some(ns) <==> StandForAll(s, ns)
    decreases |s|, 1
  {
    hide ParseOne, StandsFor;
    if ParseForest(s) == Some(ns) && s != [] {
      var (n, k) := ParseOne(s).value;
      ReadsOne(s, n, k);
      ReadsForest(s[k..], ns[1..]);
    }
    if StandForAll(s, ns) && ns != [] {
      var k :| 0 < k <= |s| && StandsFor(s[..k], ns[0]) && StandForAll(s[k..], ns[1..]);
      ReadsOne(s, ns[0], k);
      ReadsForest(s[k..], ns[1..]);
      assert [ns[0]] + ns[1..] == ns;
    }
  }

  /******* The writer writes what is written for a tree *******/

  lemma WritesLength(n: nat, tail: seq<byte>)
    requires n < 0x1_0000_0000
    ensures LengthOnto(n, tail) == LengthOctets(n) + tail
  {
    hide DigitsOnto, DigitCount;
    if n >= 0x80 {
      OneDigit(n, tail);
      if n >= 0x100 { OneDigit(n / 0x100, [n % 0x100] + tail); }
      if n >= 0x1_0000 { OneDigit(n / 0x1_0000, [n / 0x100 % 0x100] + ([n % 0x100] + tail)); }
      if n >= 0x100_0000 {
        OneDigit(n / 0x100_0000, [n / 0x1_0000 % 0x100] + ([n / 0x100 % 0x100] + ([n % 0x100] + tail)));
      }
    }
  }

  lemma OneDigit(n: nat, tail: seq<byte>)
    requires n > 0
    ensures DigitsOnto(n, tail) == DigitsOnto(n / 0x100, [n % 0x100] + tail)
    ensures DigitCount(n) == 1 + DigitCount(n / 0x100) && DigitCount(0) == 0
    ensures forall t :: DigitsOnto(0, t) == t
  {
  }

  lemma EncodeParts(n: Node)
    ensures Encode(n) == [Octet(n)] + LengthOnto(ContentSize(n), ContentOnto(n, []))
  {
    hide LengthOnto, EncodeAllOnto, SizeAll;
    if n.Leaf? { assert n.content + [] == n.content; }
  }

  lemma WrittenParts(n: Node)
    ensures Written(n) == Tlv(Octet(n), if n.Leaf? then n.content else WrittenAll(n.kids))
  {
    hide Octet, Tlv, WrittenAll;
  }

  /** The octets of an element that may be read again. */
  lemma {:induction false} WritesOne(n: Node, tail: seq<byte>)
    requires ContentSize(n) < LENGTH_LIMIT
    ensures EncodeOnto(n, tail) == Written(n) + tail && |Written(n)| == Size(n)
    decreases n, 1
  {
    hide *;
    EncodeOntoShape(n, tail);
    EncodeParts(n);
    WrittenParts(n);
    ContentOntoShape(n, []);
    var content := ContentOnto(n, []);
    LimitIs();
    WritesLength(ContentSize(n), content);
    ContentIs(n);
    Tlvs(Octet(n), content);
    assert Encode(n) == Written(n);
  }

  lemma LimitIs()
    ensures LENGTH_LIMIT < 0x1_0000_0000
  {
  }

  lemma Tlvs(o: byte, content: seq<byte>)
    ensures Tlv(o, content) == [o] + (LengthOctets(|content|) + content)
  {
  }

  lemma {:induction false} ContentIs(n: Node)
    requires ContentSize(n) < LENGTH_LIMIT
    ensures ContentOnto(n, []) == if n.Leaf? then n.content else WrittenAll(n.kids)
    decreases n, 0
  {
    hide WrittenAll;
    if n.Leaf? {
      assert n.content + [] == n.content;
    } else {
      WritesAll(n.kids);
    }
  }

  lemma {:induction false} WritesAll(ns: seq<Node>)
    requires SizeAll(ns) < LENGTH_LIMIT
    ensures EncodeAllOnto(ns, []) == WrittenAll(ns)
  {
    hide EncodeOnto, Written;
    if ns != [] {
      WritesAll(ns[1..]);
      WritesOne(ns[0], EncodeAllOnto(ns[1..], []));
    }
  }

  /******* Numbers *******/

  lemma {:induction false} HornerIs(s: seq<byte>, sofar: int)
    ensures Horner(s, sofar) == sofar * Pow256(|s|) + Unsigned(s)
  {
    if s != [] {
      var n := |s| - 1;
      HornerIs(s[..n], sofar);
      HornerLast(s, sofar);
      MulSwap(sofar, Pow256(n));
    }
  }

  lemma {:induction false} HornerLast(s: seq<byte>, sofar: int)
    requires s != []
    ensures Horner(s, sofar) == 256 * Horner(s[..|s| - 1], sofar) + s[|s| - 1]
  {
    if |s| > 1 {
      HornerLast(s[1..], 256 * sofar + s[0]);
      assert s[..|s| - 1][1..] == s[1..][..|s| - 2];
    }
  }

  /** The reader's numbers are two's-complement ones. */
  lemma ReadsInt(s: seq<byte>)
    ensures Signed(s) == Twos(s)
  {
    if s != [] {
      var first := s[0] as int - if s[0] < 0x80 then 0 else 0x100;
      HornerIs(s, 0);
      HornerIs(s[1..], s[0]);
      HornerIs(s[1..], first);
      assert Pow256(|s|) == 256 * Pow256(|s| - 1);
      assert Horner(s, 0) == Horner(s[1..], s[0]);
      Distribute(s[0], Pow256(|s| - 1));
    }
  }

  lemma Distribute(a: int, p: int)
    ensures (a - 0x100) * p == a * p - 256 * p
  {
  }

  lemma WritesInt(i: int32)
    ensures IntBytes(i) == IntOctets(i)
  {
    LowStep(i, 1);
    LowStep(i / 0x100, 1);
    LowStep(i / 0x1_0000, 1);
    LowStep(i / 0x100_0000, 1);
    if !(-0x80 <= i < 0x80) {
      LowStep(i, 2);
      if !(-0x8000 <= i < 0x8000) {
        LowStep(i, 3);
        LowStep(i / 0x100, 2);
        if !(-0x80_0000 <= i < 0x80_0000) {
          LowStep(i, 4);
          LowStep(i / 0x100, 3);
          LowStep(i / 0x1_0000, 2);
        }
      }
    }
    hide Low, MinLength;
  }

  lemma LowStep(i: int, n: nat)
    requires n >= 1
    ensures Low(i, n) == Low(i / 0x100, n - 1) + [i % 0x100] && Low(i, 0) == [] == Low(i / 0x100, 0)
    ensures MinLength(i) == if -0x80 <= i < 0x80 then 1 else 1 + MinLength(i / 0x100)
  {
  }
}

/**
 * The tag-length-value layer of X.690 as a reference: a message is a tree of nodes, an encoding is a
 * string of bytes laid down in front of what follows it, and a parse recovers the tree.
 */
module Ber {
  import opened Wrappers
  import opened BerInteger

  type Class = c: nat | c < 4
  type Tag = t: nat | t <= 30

  const UNIVERSAL: Class := 0
  const APPLICATION: Class := 1
  const CONTEXT: Class := 2

  const BOOLEAN: Tag := 1
  const INTEGER: Tag := 2
  const OCTET_STRING: Tag := 4
  const ENUM: Tag := 10
  const SEQUENCE: Tag := 16
  const SET: Tag := 17

  /** The decoder refuses a length that has reached this value before its last byte is read. */
  const LENGTH_GUARD: nat := 0x80_0000
  /** The least length the decoder refuses. */
  const LENGTH_LIMIT: nat := 0x8000_0000
  /** Sizes are 64-bit integers below this value. */
  const INT_LIMIT: nat := 0x8000_0000_0000_0000

  datatype Node =
    | Leaf(class_: Class, tag: Tag, content: seq<byte>)
    | Branch(class_: Class, tag: Tag, kids: seq<Node>)

  /******* Encoding *******/

  /** The base-256 digits of `n`, in front of `tail`. */
  function DigitsOnto(n: nat, tail: seq<byte>): seq<byte> {
    if n == 0 then tail else DigitsOnto(n / 256, [n % 256] + tail)
  }

  function DigitCount(n: nat): nat {
    if n == 0 then 0 else 1 + DigitCount(n / 256)
  }

  function LengthOnto(length: nat, tail: seq<byte>): seq<byte> {
    if length < 128 then [length] + tail
    else [128 + DigitCount(length) % 128] + DigitsOnto(length, tail)
  }

  function HeaderOnto(class_: Class, compound: bool, tag: Tag, length: nat, tail: seq<byte>): seq<byte> {
    [64 * class_ + (if compound then 32 else 0) + tag] + LengthOnto(length, tail)
  }

  function HeaderSize(length: nat): nat {
    if length < 128 then 2 else 2 + DigitCount(length)
  }

  /** The encoding of `n` in front of `tail`. */
  function EncodeOnto(n: Node, tail: seq<byte>): seq<byte> {
    match n
    case Leaf(c, t, content) => HeaderOnto(c, false, t, |content|, content + tail)
    case Branch(c, t, kids) => HeaderOnto(c, true, t, SizeAll(kids), EncodeAllOnto(kids, tail))
  }

  function EncodeAllOnto(ns: seq<Node>, tail: seq<byte>): seq<byte> {
    if ns == [] then tail else EncodeOnto(ns[0], EncodeAllOnto(ns[1..], tail))
  }

  function ContentSize(n: Node): nat
    decreases n, 0
  {
    match n
    case Leaf(_, _, content) => |content|
    case Branch(_, _, kids) => SizeAll(kids)
  }

  function Size(n: Node): nat
    decreases n, 1
  {
    HeaderSize(ContentSize(n)) + ContentSize(n)
  }

  function SizeAll(ns: seq<Node>): nat
    decreases ns, 2
  {
    if ns == [] then 0 else Size(ns[0]) + SizeAll(ns[1..])
  }

  function Encode(n: Node): seq<byte> {
    EncodeOnto(n, [])
  }

  /******* Parsing *******/

  datatype Head = Head(class_: Class, compound: bool, tag: nat, length: nat, used: nat)

  /** At most five base-128 digits; `seen` of them are read and have the value `acc`. */
  function ParseBase128(s: seq<byte>, seen: nat, acc: nat): (r: Option<(nat, nat)>)
    ensures r.Some? ==> seen < r.value.1 <= seen + |s|
  {
    if s == [] || seen > 4 then None
    else if s[0] < 128 then Some((128 * acc + s[0], seen + 1))
    else ParseBase128(s[1..], seen + 1, 128 * acc + s[0] - 128)
  }

  /** `count` more length bytes follow those that made `acc`; gives the length and the bytes left. */
  function ParseLength(s: seq<byte>, count: nat, acc: nat): (r: Option<(nat, seq<byte>)>)
    ensures r.Some? ==> |r.value.1| == |s| - count && r.value.1 == s[count..]
    ensures r.Some? && acc < LENGTH_LIMIT ==> r.value.0 < LENGTH_LIMIT
  {
    if count == 0 then Some((acc, s))
    else if s == [] || acc >= LENGTH_GUARD || 256 * acc + s[0] == 0 then None
    else ParseLength(s[1..], count - 1, 256 * acc + s[0])
  }

  /** The tag in the first byte or in those after it, and the number of those. */
  function ParseTag(s: seq<byte>): (r: Option<(nat, nat)>)
    requires s != []
    ensures r.Some? ==> r.value.1 < |s|
  {
    if s[0] % 32 == 31 then ParseBase128(s[1..], 0, 0) else Some((s[0] % 32, 0))
  }

  /** The length at the front of `s`, and the number of bytes it takes. */
  function ParseLengthField(s: seq<byte>): (r: Option<(nat, nat)>)
    ensures r.Some? ==> 1 <= r.value.1 <= |s| && r.value.0 < LENGTH_LIMIT
  {
    if s == [] || s[0] == 128 then None
    else if s[0] < 128 then Some((s[0], 1))
    else
      match ParseLength(s[1..], s[0] - 128, 0)
      case None => None
      case Some((length, _)) => Some((length, s[0] - 127))
  }

  function ParseHeader(s: seq<byte>): (r: Option<Head>)
    ensures r.Some? ==> 2 <= r.value.used <= |s| && r.value.length < LENGTH_LIMIT
  {
    if s == [] || ParseTag(s).None? then None
    else
      var (tag, more) := ParseTag(s).value;
      match ParseLengthField(s[1 + more..])
      case None => None
      case Some((length, used)) => Some(Head(s[0] / 64, (s[0] / 32) % 2 == 1, tag, length, 1 + more + used))
  }

  /** Parses the node at the front of `s`; gives it and the number of bytes it takes. */
  function ParseOne(s: seq<byte>): (r: Option<(Node, nat)>)
    ensures r.Some? ==> 2 <= r.value.1 <= |s|
    decreases |s|, 0
  {
    match ParseHeader(s)
    case None => None
    case Some(h) =>
      if h.tag > 30 || h.used + h.length > |s| then None
      else
        var content := s[h.used..h.used + h.length];
        if h.compound then
          match ParseForest(content)
          case None => None
          case Some(kids) => Some((Branch(h.class_, h.tag, kids), h.used + h.length))
        else Some((Leaf(h.class_, h.tag, content), h.used + h.length))
  }

  /** Parses `s` as a string of nodes with nothing left over. */
  function ParseForest(s: seq<byte>): Option<seq<Node>>
    decreases |s|, 1
  {
    if s == [] then Some([])
    else
      match ParseOne(s)
      case None => None
      case Some((n, used)) => Cons(n, ParseForest(s[used..]))
  }

  /** `s` starts with a complete header that announces a node of this form and tag. */
  ghost predicate Announces(s: seq<byte>, compound: bool, c: Class, t: Tag) {
    match ParseHeader(s)
    case None => false
    case Some(h) => h.compound == compound && h.class_ == c && h.tag == t && h.used + h.length <= |s|
  }

  /** The contents of the announced node, and the bytes after it. */
  ghost function Cut(s: seq<byte>): (seq<byte>, seq<byte>)
    requires ParseHeader(s).Some? && ParseHeader(s).value.used + ParseHeader(s).value.length <= |s|
  {
    var h := ParseHeader(s).value;
    (s[h.used..h.used + h.length], s[h.used + h.length..])
  }

  /** The bytes the announced node takes. */
  ghost function Extent(s: seq<byte>): nat
    requires ParseHeader(s).Some?
  {
    ParseHeader(s).value.used + ParseHeader(s).value.length
  }

  predicate IsNode(n: Node, compound: bool, c: Class, t: Tag) {
    n.Branch? == compound && n.class_ == c && n.tag == t
  }

  ghost predicate HeadIs(ns: Option<seq<Node>>, compound: bool, c: Class, t: Tag) {
    ns.Some? && ns.value != [] && IsNode(ns.value[0], compound, c, t)
  }

  lemma OneAnnounced(s: seq<byte>, c: Class, t: Tag)
    requires Announces(s, true, c, t)
    ensures ParseOne(s) == match ParseForest(Cut(s).0)
                           case None => None
                           case Some(kids) => Some((Branch(c, t, kids), Extent(s)))
  {
  }

  lemma NoneAnnounced(s: seq<byte>, c: Class, t: Tag)
    requires !Announces(s, true, c, t)
    ensures ParseOne(s).Some? ==> !IsNode(ParseOne(s).value.0, true, c, t)
  {
  }

  lemma NotAnnounced(s: seq<byte>, compound: bool, c: Class, t: Tag)
    requires !Announces(s, compound, c, t)
    ensures !HeadIs(ParseForest(s), compound, c, t)
  {
  }

  lemma LeafAnnounced(s: seq<byte>, c: Class, t: Tag)
    requires Announces(s, false, c, t)
    ensures ParseForest(s) == Cons(Leaf(c, t, Cut(s).0), ParseForest(Cut(s).1))
  {
  }

  lemma BranchAnnounced(s: seq<byte>, c: Class, t: Tag)
    requires Announces(s, true, c, t)
    ensures ParseForest(s) == match ParseForest(Cut(s).0)
                              case None => None
                              case Some(kids) => Cons(Branch(c, t, kids), ParseForest(Cut(s).1))
  {
  }

  lemma NoNodes(s: seq<byte>)
    ensures ParseForest(s) == Some([]) <==> s == []
  {
  }

  /** A previewed header is that of the next node. */
  lemma Previewed(s: seq<byte>)
    requires ParseForest(s).Some? && s != []
    ensures ParseHeader(s).Some? && ParseForest(s).value != []
    ensures var h, n := ParseHeader(s).value, ParseForest(s).value[0]; h.class_ == n.class_ && h.tag == n.tag
  {
  }

  function Cons(n: Node, rest: Option<seq<Node>>): Option<seq<Node>> {
    match rest
    case None => None
    case Some(ns) => Some([n] + ns)
  }

  /******* The parse inverts the encoding *******/

  lemma Assoc(a: seq<byte>, b: seq<byte>, c: seq<byte>)
    ensures a + (b + c) == (a + b) + c
  {
  }

  /** Encoding in front of `tail` leaves `tail` at the end and takes exactly the announced size. */
  lemma {:induction false} EncodeOntoShape(n: Node, tail: seq<byte>)
    ensures EncodeOnto(n, tail) == Encode(n) + tail && |Encode(n)| == Size(n)
  {
    match n
    case Leaf(c, t, content) =>
      assert content + [] == content;
      HeaderOntoShape(c, false, t, |content|, content + tail);
      HeaderOntoShape(c, false, t, |content|, content);
      Assoc(HeaderOnto(c, false, t, |content|, []), content, tail);
    case Branch(c, t, kids) =>
      EncodeAllOntoShape(kids, tail);
      HeaderOntoShape(c, true, t, SizeAll(kids), EncodeAllOnto(kids, tail));
      HeaderOntoShape(c, true, t, SizeAll(kids), EncodeAllOnto(kids, []));
      Assoc(HeaderOnto(c, true, t, SizeAll(kids), []), EncodeAllOnto(kids, []), tail);
  }

  lemma {:induction false} EncodeAllOntoShape(ns: seq<Node>, tail: seq<byte>)
    ensures EncodeAllOnto(ns, tail) == EncodeAllOnto(ns, []) + tail
    ensures |EncodeAllOnto(ns, [])| == SizeAll(ns)
  {
    if ns == [] {
      assert [] + tail == tail;
    } else {
      var rest := EncodeAllOnto(ns[1..], []);
      EncodeAllOntoShape(ns[1..], tail);
      EncodeOntoShape(ns[0], EncodeAllOnto(ns[1..], tail));
      EncodeOntoShape(ns[0], rest);
      Assoc(Encode(ns[0]), rest, tail);
    }
  }

  lemma HeaderOntoShape(c: Class, compound: bool, t: Tag, length: nat, tail: seq<byte>)
    ensures HeaderOnto(c, compound, t, length, tail) == HeaderOnto(c, compound, t, length, []) + tail
    ensures |HeaderOnto(c, compound, t, length, [])| == HeaderSize(length)
  {
    LengthOntoShape(length, tail);
    Assoc([64 * c + (if compound then 32 else 0) + t], LengthOnto(length, []), tail);
  }

  lemma LengthOntoShape(length: nat, tail: seq<byte>)
    ensures LengthOnto(length, tail) == LengthOnto(length, []) + tail
    ensures |LengthOnto(length, [])| == HeaderSize(length) - 1
  {
    if length < 128 {
      assert [length] + [] == [length];
    } else {
      DigitsOntoShape(length, tail);
      Assoc([128 + DigitCount(length) % 128], DigitsOnto(length, []), tail);
    }
  }

  lemma {:induction false} DigitsOntoShape(n: nat, tail: seq<byte>)
    ensures DigitsOnto(n, tail) == DigitsOnto(n, []) + tail && |DigitsOnto(n, [])| == DigitCount(n)
  {
    if n == 0 {
      assert [] + tail == tail;
    } else {
      var d := [n % 256];
      DigitsOntoShape(n / 256, d + tail);
      DigitsOntoShape(n / 256, d);
      assert d + [] == d;
      Assoc(DigitsOnto(n / 256, []), d, tail);
    }
  }

  /** Writing goes backwards: the last node of a prefix is laid down first. */
  lemma {:induction false} Peel(ns: seq<Node>, k: nat, tail: seq<byte>)
    requires k < |ns|
    ensures EncodeAllOnto(ns[..k + 1], tail) == EncodeAllOnto(ns[..k], EncodeOnto(ns[k], tail))
    ensures SizeAll(ns[..k + 1]) == SizeAll(ns[..k]) + Size(ns[k])
  {
    hide EncodeOnto, Size;
    if k > 0 {
      Peel(ns[1..], k - 1, tail);
      assert ns[..k + 1][1..] == ns[1..][..k] && ns[..k][1..] == ns[1..][..k - 1];
    }
  }

  lemma {:induction false} EncodeAppend(xs: seq<Node>, ys: seq<Node>, tail: seq<byte>)
    ensures EncodeAllOnto(xs + ys, tail) == EncodeAllOnto(xs, EncodeAllOnto(ys, tail))
    ensures SizeAll(xs + ys) == SizeAll(xs) + SizeAll(ys)
  {
    hide EncodeOnto, Size;
    if xs == [] {
      assert xs + ys == ys;
    } else {
      EncodeAppend(xs[1..], ys, tail);
      assert (xs + ys)[1..] == xs[1..] + ys;
    }
  }

  lemma EncodeSingle(n: Node, tail: seq<byte>)
    ensures EncodeAllOnto([n], tail) == EncodeOnto(n, tail) && SizeAll([n]) == Size(n)
  {
    hide EncodeOnto, Size;
    assert EncodeAllOnto([n], tail) == EncodeOnto(n, EncodeAllOnto([], tail));
    assert SizeAll([n]) == Size(n) + SizeAll([]);
  }

  lemma EncodeNone(tail: seq<byte>)
    ensures EncodeAllOnto([], tail) == tail && SizeAll([]) == 0
  {
  }

  lemma EncodePair(x: Node, y: Node, tail: seq<byte>)
    ensures EncodeAllOnto([x, y], tail) == EncodeOnto(x, EncodeOnto(y, tail)) && SizeAll([x, y]) == Size(x) + Size(y)
  {
    hide EncodeOnto, Size;
    EncodeSingle(y, tail);
    assert [x, y][1..] == [y];
  }

  lemma EncodeTriple(x: Node, y: Node, z: Node, tail: seq<byte>)
    ensures EncodeAllOnto([x, y, z], tail) == EncodeOnto(x, EncodeOnto(y, EncodeOnto(z, tail)))
    ensures SizeAll([x, y, z]) == Size(x) + Size(y) + Size(z)
  {
    hide EncodeOnto, Size;
    EncodePair(y, z, tail);
    assert [x, y, z][1..] == [y, z];
  }

  lemma EncodeBranch(c: Class, t: Tag, kids: seq<Node>, tail: seq<byte>)
    ensures EncodeOnto(Branch(c, t, kids), tail) == HeaderOnto(c, true, t, SizeAll(kids), EncodeAllOnto(kids, tail))
    ensures Size(Branch(c, t, kids)) == HeaderSize(SizeAll(kids)) + SizeAll(kids)
  {
  }

  /** Reading the digits of a length gives it back exactly when it is below the limit. */
  lemma {:induction false} ParseLengthInverts(n: nat, more: nat, tail: seq<byte>)
    requires n > 0
    ensures ParseLength(DigitsOnto(n, tail), DigitCount(n) + more, 0)
         == if n < LENGTH_LIMIT then ParseLength(tail, more, n) else None
  {
    var d := [n % 256] + tail;
    assert d[1..] == tail;
    if n >= 256 {
      ParseLengthInverts(n / 256, more + 1, d);
    }
  }

  /** A 64-bit length takes at most eight digits. */
  lemma {:induction false} DigitCountBound(n: nat, k: nat)
    requires n < Pow256(k)
    ensures DigitCount(n) <= k
  {
    if n > 0 {
      DigitCountBound(n / 256, k - 1);
    }
  }

  lemma EightDigits(length: nat)
    requires 0 < length < INT_LIMIT
    ensures 0 < DigitCount(length) <= 8
  {
    PowersOf256();
    DigitCountBound(length, 8);
  }

  lemma LongForm(length: nat, tail: seq<byte>)
    requires 128 <= length < INT_LIMIT
    ensures var s := LengthOnto(length, tail);
      s != [] && s[0] == 128 + DigitCount(length) && 129 <= s[0] && s[1..] == DigitsOnto(length, tail)
  {
    EightDigits(length);
    hide DigitsOnto, DigitCount;
    var d := DigitsOnto(length, tail);
    assert ([128 + DigitCount(length) % 128] + d)[1..] == d;
  }

  lemma LengthFieldInverts(length: nat, tail: seq<byte>)
    requires length < INT_LIMIT
    ensures ParseLengthField(LengthOnto(length, tail))
         == if length < LENGTH_LIMIT then Some((length, HeaderSize(length) - 1)) else None
  {
    if length >= 128 {
      LongForm(length, tail);
      ParseLengthInverts(length, 0, tail);
      hide DigitsOnto, DigitCount, LengthOnto;
    }
  }

  /** Header parse inverts header write exactly when the length, a 64-bit integer, is below the limit. */
  lemma HeaderInverts(c: Class, compound: bool, t: Tag, length: nat, tail: seq<byte>)
    requires length < INT_LIMIT
    ensures ParseHeader(HeaderOnto(c, compound, t, length, tail))
         == if length < LENGTH_LIMIT then Some(Head(c, compound, t, length, HeaderSize(length))) else None
  {
    LengthFieldInverts(length, tail);
    hide ParseLengthField, LengthOnto, HeaderSize;
    FirstByte(c, compound, t);
    assert HeaderOnto(c, compound, t, length, tail)[1..] == LengthOnto(length, tail);
  }

  lemma FirstByte(c: Class, compound: bool, t: Tag)
    ensures var first := 64 * c + (if compound then 32 else 0) + t;
      first < 256 && first % 32 == t && first / 64 == c && ((first / 32) % 2 == 1 <==> compound)
  {
  }

  /**
   * Parsing an encoded node, whatever follows it, gives back the node and its size exactly when its
   * content is shorter than the limit; otherwise the parse is refused.
   */
  lemma {:induction false} ParseOneInverts(n: Node, tail: seq<byte>)
    requires Size(n) < INT_LIMIT
    ensures ParseOne(EncodeOnto(n, tail))
         == if ContentSize(n) < LENGTH_LIMIT then Some((n, Size(n))) else None
  {
    hide ParseHeader, HeaderOnto, HeaderSize;
    var s, size := EncodeOnto(n, tail), ContentSize(n);
    HeaderInverts(n.class_, n.Branch?, n.tag, size, ContentOnto(n, tail));
    if size < LENGTH_LIMIT {
      CutEncoded(n, tail);
      if n.Branch? {
        ParseForestInverts(n.kids);
      } else {
        assert n.content + [] == n.content;
      }
    }
  }

  /** The contents lie between the header and the tail. */
  lemma CutEncoded(n: Node, tail: seq<byte>)
    ensures |EncodeOnto(n, tail)| == Size(n) + |tail|
    ensures EncodeOnto(n, tail)[HeaderSize(ContentSize(n))..Size(n)] == ContentOnto(n, [])
  {
    hide HeaderOnto, HeaderSize;
    var size := ContentSize(n);
    HeaderOntoShape(n.class_, n.Branch?, n.tag, size, ContentOnto(n, tail));
    ContentOntoShape(n, tail);
    var h := HeaderOnto(n.class_, n.Branch?, n.tag, size, []);
    assert EncodeOnto(n, tail) == h + (ContentOnto(n, []) + tail);
    Middle(h, ContentOnto(n, []), tail);
  }

  lemma Middle(a: seq<byte>, b: seq<byte>, c: seq<byte>)
    ensures (a + (b + c))[|a|..|a| + |b|] == b && |a + (b + c)| == |a| + |b| + |c|
  {
  }

  function ContentOnto(n: Node, tail: seq<byte>): seq<byte> {
    match n
    case Leaf(_, _, content) => content + tail
    case Branch(_, _, kids) => EncodeAllOnto(kids, tail)
  }

  lemma ContentOntoShape(n: Node, tail: seq<byte>)
    ensures ContentOnto(n, tail) == ContentOnto(n, []) + tail && |ContentOnto(n, [])| == ContentSize(n)
  {
    match n
    case Leaf(_, _, content) => assert content + [] == content;
    case Branch(_, _, kids) => EncodeAllOntoShape(kids, tail);
  }

  lemma {:induction false} ParseForestInverts(ns: seq<Node>)
    requires SizeAll(ns) < LENGTH_LIMIT
    ensures ParseForest(EncodeAllOnto(ns, [])) == Some(ns)
  {
    if ns != [] {
      var rest := EncodeAllOnto(ns[1..], []);
      ParseOneInverts(ns[0], rest);
      ParseForestInverts(ns[1..]);
      EncodeOntoShape(ns[0], rest);
      assert EncodeOnto(ns[0], rest)[Size(ns[0])..] == rest;
      assert [ns[0]] + ns[1..] == ns;
    }
  }
}

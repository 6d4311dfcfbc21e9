/**
 * `Bytes`: a slice of a shared buffer and an offset into it. Readers move the offset towards the end
 * of the slice, writers fill the slice from its end and move the offset towards its beginning.
 */
module Cursor {
  import opened Wrappers
  import opened BerInteger
  import opened Ber

  /** The three kinds of primitive contents; INTEGER and ENUMERATED share one. */
  datatype Kind = KindBool | KindInt | KindOctets
  datatype Primitive = Bool(flag: bool) | Int(number: int32) | Octets(octets: seq<byte>)

  /******* Primitive contents as nodes *******/

  function KindOf(v: Primitive): Kind {
    match v
    case Bool(_) => KindBool
    case Int(_) => KindInt
    case Octets(_) => KindOctets
  }

  function PrimitiveBytes(v: Primitive): seq<byte> {
    match v
    case Bool(flag) => if flag then [255] else [0]
    case Int(number) => IntBytes(number)
    case Octets(octets) => octets
  }

  function PrimitiveNode(c: Class, t: Tag, v: Primitive): Node {
    Leaf(c, t, PrimitiveBytes(v))
  }

  function PrimitiveOfBytes(s: seq<byte>, kind: Kind): (r: Option<Primitive>)
    ensures r.Some? ==> KindOf(r.value) == kind
  {
    match kind
    case KindBool => if s == [0] then Some(Bool(false)) else if s == [255] then Some(Bool(true)) else None
    case KindInt =>
      if |s| <= 8 && -0x8000_0000 <= Signed(s) < 0x8000_0000 then Some(Int(Signed(s))) else None
    case KindOctets => Some(Octets(s))
  }

  function PrimitiveOf(n: Node, c: Class, t: Tag, kind: Kind): Option<Primitive> {
    if n.Leaf? && n.class_ == c && n.tag == t then PrimitiveOfBytes(n.content, kind) else None
  }

  /** A primitive written with some tag is read back with that tag and with no other. */
  lemma PrimitiveInverts(c: Class, t: Tag, v: Primitive, c': Class, t': Tag)
    ensures PrimitiveOf(PrimitiveNode(c, t, v), c', t', KindOf(v)) == if c == c' && t == t' then Some(v) else None
  {
    if v.Int? {
      IntBytesRoundTrip(v.number, []);
      PowersOf256();
      MinLengthLeast(v.number, 8);
    }
  }

  /** A read that succeeded took the first of the nodes that were left, if those can be told at all. */
  ghost predicate Took(before: Option<seq<Node>>, after: Option<seq<Node>>, ok: bool) {
    ok ==> match before
           case None => after == None
           case Some(ns) => ns != [] && after == Some(ns[1..])
  }

  ghost predicate HasFirst(ns: Option<seq<Node>>) {
    ns.Some? && ns.value != []
  }

  ghost function First(ns: Option<seq<Node>>): Node
    requires HasFirst(ns)
  {
    ns.value[0]
  }

  class Bytes {
    const buf: array<byte>
    const lo: nat
    const hi: nat
    var offset: nat

    constructor (buf: array<byte>, lo: nat, hi: nat, offset: nat)
      requires lo <= hi <= buf.Length && offset <= hi - lo
      ensures this.buf == buf && this.lo == lo && this.hi == hi && this.offset == offset
    {
      this.buf, this.lo, this.hi, this.offset := buf, lo, hi, offset;
    }

    ghost predicate Valid()
      reads this
    {
      lo <= hi <= buf.Length && offset <= hi - lo
    }

    /** The bytes from the offset to the end of the slice. */
    ghost function Rest(): seq<byte>
      requires Valid()
      reads this, buf
    {
      buf[lo + offset..hi]
    }

    /** The nodes those bytes hold, if they hold nothing else. */
    ghost function Forest(): Option<seq<Node>>
      requires Valid()
      reads this, buf
    {
      ParseForest(Rest())
    }

    /******* Reading *******/

    method HasMoreData() returns (more: bool)
      requires Valid()
      ensures more <==> Rest() != []
      ensures more <==> Forest() != Some([])
    {
      NoNodes(Rest());
      more := offset < hi - lo;
    }

    /** Reads an identifier and a length; running off the slice is an index panic or an error. */
    method ParseTagAndLength() returns (r: Option<Head>)
      requires Valid()
      modifies `offset
      ensures Valid() && r == ParseHeader(old(Rest()))
      ensures offset == old(offset) + if r.Some? then r.value.used else 0
    {
      hide ParseBase128, ParseLengthField;
      ghost var s := Rest();
      var at := lo + offset;
      if at >= hi {
        return None;
      }
      var first := buf[at];
      at := at + 1;
      assert s[1..] == buf[at..hi];
      var tag: nat := first % 32;
      if tag == 31 {
        var long := ParseBase128At(at);
        if long.None? {
          return None;
        }
        tag, at := long.value.0, at + long.value.1;
      }
      assert s[at - lo - offset..] == buf[at..hi];
      var length := ParseLengthFieldAt(at);
      if length.None? {
        return None;
      }
      at := at + length.value.1;
      r := Some(Head(first / 64, (first / 32) % 2 == 1, tag, length.value.0, at - lo - offset));
      offset := at - lo;
    }

    /** The length and the number of bytes it takes. */
    method ParseLengthFieldAt(at: nat) returns (r: Option<(nat, nat)>)
      requires Valid() && lo <= at <= hi
      ensures r == ParseLengthField(buf[at..hi])
    {
      if at >= hi {
        return None;
      }
      var b := buf[at];
      if b < 128 {
        return Some((b, 1));
      }
      if b == 128 {
        return None;
      }
      assert buf[at..hi][1..] == buf[at + 1..hi];
      var long := ParseLengthAt(at + 1, b - 128);
      return if long.None? then None else Some((long.value, b - 127));
    }

    /** `parseBase128Int`: the value and the number of bytes it takes. */
    method ParseBase128At(at: nat) returns (r: Option<(nat, nat)>)
      requires Valid() && lo <= at <= hi
      ensures r == ParseBase128(buf[at..hi], 0, 0)
    {
      var ret: nat, shifted: nat := 0, 0;
      while at + shifted < hi
        invariant at + shifted <= hi
        invariant ParseBase128(buf[at + shifted..hi], shifted, ret) == ParseBase128(buf[at..hi], 0, 0)
      {
        assert buf[at + shifted..hi][1..] == buf[at + shifted + 1..hi];
        if shifted > 4 {
          return None;
        }
        var b := buf[at + shifted];
        ret, shifted := 128 * ret + b % 128, shifted + 1;
        if b < 128 {
          return Some((ret, shifted));
        }
      }
      return None;
    }

    /** The length held by the next `numBytes` bytes. */
    method ParseLengthAt(at: nat, numBytes: nat) returns (r: Option<nat>)
      requires Valid() && lo <= at <= hi
      ensures var p := ParseLength(buf[at..hi], numBytes, 0);
        r == (if p.None? then None else Some(p.value.0)) && (r.Some? ==> at + numBytes <= hi)
    {
      var length: nat := 0;
      assert buf[at + 0..hi] == buf[at..hi];
      for k := 0 to numBytes
        invariant at + k <= hi
        invariant ParseLength(buf[at + k..hi], numBytes - k, length) == ParseLength(buf[at..hi], numBytes, 0)
      {
        if at + k >= hi {
          return None;
        }
        assert buf[at + k..hi][1..] == buf[at + k + 1..hi];
        if length >= LENGTH_GUARD {
          return None;
        }
        length := 256 * length + buf[at + k];
        if length == 0 {
          return None;
        }
      }
      return Some(length);
    }

    /** Reads an identifier and a length and moves the offset back. */
    method PreviewTagAndLength() returns (r: Option<Head>)
      requires Valid()
      modifies `offset
      ensures Valid() && offset == old(offset)
      ensures r == ParseHeader(Rest())
      ensures match Forest()
        case None => true
        case Some(ns) => if ns == [] then r == None else r.Some? && r.value.class_ == ns[0].class_ && r.value.tag == ns[0].tag
    {
      ghost var s := Rest();
      if s != [] && Forest().Some? { Previewed(s); }
      var previous := offset;
      r := ParseTagAndLength();
      offset := previous;
    }

    /** Checks a header and that the contents it announces are inside the slice; gives their length. */
    method ExpectSubBytes(compound: bool, c: Class, t: Tag) returns (r: Option<nat>)
      requires Valid()
      modifies `offset
      ensures Valid() && old(offset) <= offset
      ensures r.Some? <==> Announces(old(Rest()), compound, c, t)
      ensures r.Some? ==> old(offset) < offset && r.value <= hi - lo - offset
      ensures r.Some? ==> Cut(old(Rest())) == (Rest()[..r.value], Rest()[r.value..])
      ensures r.Some? ==> offset == old(offset) + ParseHeader(old(Rest())).value.used
                          && r.value == ParseHeader(old(Rest())).value.length
    {
      hide ParseForest, ParseHeader;
      ghost var s := Rest();
      var h := ParseTagAndLength();
      if h.None? || h.value.class_ != c || h.value.tag != t || h.value.compound != compound {
        return None;
      }
      if offset + h.value.length > hi - lo {
        return None;
      }
      assert Rest() == s[h.value.used..];
      assert Rest()[..h.value.length] == Cut(s).0 && Rest()[h.value.length..] == Cut(s).1;
      return Some(h.value.length);
    }

    /** `kind` selects how the contents are decoded. */
    method ReadPrimitiveSubBytes(c: Class, t: Tag, kind: Kind) returns (r: Option<Primitive>)
      requires Valid()
      modifies `offset
      ensures Valid() && old(offset) <= offset
      ensures Took(old(Forest()), Forest(), r.Some?)
      ensures HasFirst(old(Forest())) ==> r == PrimitiveOf(First(old(Forest())), c, t, kind)
      ensures r.Some? ==> KindOf(r.value) == kind && offset > old(offset)
    {
      hide ParseForest, ParseHeader, PrimitiveOfBytes;
      ghost var s := Rest();
      var length := ExpectSubBytes(false, c, t);
      if length.None? {
        NotAnnounced(s, false, c, t);
        return None;
      }
      LeafAnnounced(s, c, t);
      hide Announces, Cut;
      var end := offset + length.value;
      var content := buf[lo + offset..lo + end];
      assert content == Rest()[..length.value] && buf[lo + end..hi] == Rest()[length.value..];
      r := ParseContent(content, kind);
      if r.Some? {
        offset := end;
      }
    }

    /** Opens the sub-slice that holds the contents of a constructed value. */
    method EnterSubBytes(c: Class, t: Tag) returns (r: Option<Bytes>)
      requires Valid()
      modifies `offset
      ensures Valid() && old(offset) <= offset
      ensures r == None ==> !HeadIs(old(Forest()), true, c, t)
      ensures r.Some? <==> Announces(old(Rest()), true, c, t)
      ensures r.Some? ==> Opened(r.value) && fresh(r.value) && old(offset) < offset
      ensures r.Some? ==> r.value.Rest() == Cut(old(Rest())).0
                          && offset + (r.value.hi - r.value.lo) == old(offset) + Extent(old(Rest()))
      ensures r.Some? ==> old(Forest()) == match r.value.Forest()
                                           case None => None
                                           case Some(kids) => Cons(Branch(c, t, kids), After(r.value))
    {
      hide ParseForest, ParseHeader;
      ghost var s := Rest();
      var length := ExpectSubBytes(true, c, t);
      if length.None? {
        NotAnnounced(s, true, c, t);
        return None;
      }
      BranchAnnounced(s, c, t);
      var sub := new Bytes(buf, lo + offset, lo + offset + length.value, 0);
      assert sub.Rest() == Cut(s).0 && Rest()[sub.hi - sub.lo..] == Cut(s).1;
      return Some(sub);
    }

    /** `sub` was opened on the bytes at the offset. */
    ghost predicate Opened(sub: Bytes)
      reads this, sub
    {
      Valid() && sub.Valid() && sub != this && sub.buf == buf && sub.hi - sub.lo <= hi - lo - offset
    }

    /** The nodes after the sub-slice. */
    ghost function After(sub: Bytes): Option<seq<Node>>
      requires Opened(sub)
      reads this, sub, buf
    {
      ParseForest(Rest()[sub.hi - sub.lo..])
    }

    /** Refuses contents that were not all read, and moves past them. */
    method LeaveSubBytes(sub: Bytes) returns (ok: bool)
      requires Opened(sub)
      modifies `offset
      ensures Valid() && old(offset) <= offset
      ensures ok <==> sub.Forest() == Some([])
      ensures ok ==> Forest() == old(After(sub)) && offset == old(offset) + (sub.hi - sub.lo)
    {
      var more := sub.HasMoreData();
      if more {
        return false;
      }
      ghost var s := Rest();
      offset := offset + (sub.hi - sub.lo);
      assert Rest() == s[sub.hi - sub.lo..];
      return true;
    }

    /******* Writing *******/

    /** The slice now starts with what a writer put in `len` bytes in front of the old rest; all else is as before. */
    ghost predicate Wrote(was: seq<byte>, at: nat, len: nat, rest: seq<byte>)
      reads this, buf
    {
      && Valid() && offset + len == at && Rest() == rest && |was| == buf.Length
      && forall i | 0 <= i < lo + offset || hi <= i < buf.Length :: buf[i] == was[i]
    }

    /** Copies `s` in front of the offset. The caller must have left room: the original panics otherwise. */
    method WriteBytes(s: seq<byte>) returns (size: nat)
      requires Valid() && |s| <= offset
      modifies `offset, buf
      ensures size == |s| && Wrote(old(buf[..]), old(offset), size, s + old(Rest()))
    {
      size := |s|;
      var start := lo + offset - size;
      forall k | 0 <= k < size {
        buf[start + k] := s[k];
      }
      offset := offset - size;
      assert buf[start..hi] == s + old(Rest());
    }

    /** The length bytes, least significant first, as writing goes backwards. */
    method WriteDigits(length: nat) returns (lengthBytes: nat)
      requires Valid() && DigitCount(length) <= offset
      modifies `offset, buf
      ensures lengthBytes == DigitCount(length)
      ensures Wrote(old(buf[..]), old(offset), lengthBytes, DigitsOnto(length, old(Rest())))
    {
      ghost var rest := Rest();
      var val := length;
      lengthBytes := 0;
      while val > 0
        invariant Valid() && Wrote(old(buf[..]), old(offset), lengthBytes, Rest())
        invariant lengthBytes + DigitCount(val) == DigitCount(length)
        invariant DigitsOnto(val, Rest()) == DigitsOnto(length, rest)
      {
        var _ := WriteBytes([val % 256]);
        lengthBytes, val := lengthBytes + 1, val / 256;
      }
    }

    method WriteLength(length: nat) returns (size: nat)
      requires Valid() && HeaderSize(length) - 1 <= offset
      modifies `offset, buf
      ensures size == HeaderSize(length) - 1
      ensures Wrote(old(buf[..]), old(offset), size, LengthOnto(length, old(Rest())))
    {
      hide DigitsOnto, DigitCount;
      if length >= 128 {
        var lengthBytes := WriteDigits(length);
        size := WriteBytes([128 + lengthBytes % 128]);
        size := size + lengthBytes;
      } else {
        size := WriteBytes([length]);
      }
    }

    method WriteTagAndLength(c: Class, compound: bool, t: Tag, length: nat) returns (size: nat)
      requires Valid() && HeaderSize(length) <= offset
      modifies `offset, buf
      ensures size == HeaderSize(length)
      ensures Wrote(old(buf[..]), old(offset), size, HeaderOnto(c, compound, t, length, old(Rest())))
    {
      hide LengthOnto, DigitCount;
      size := WriteLength(length);
      var n := WriteBytes([64 * c + (if compound then 32 else 0) + t]);
      size := size + n;
    }

    /** `writeInt64`: the least number of two's-complement bytes, most significant first. */
    method WriteInt(i: int64) returns (size: nat)
      requires Valid() && MinLength(i) <= offset
      modifies `offset, buf
      ensures size == MinLength(i) && Wrote(old(buf[..]), old(offset), size, IntBytes(i) + old(Rest()))
    {
      size := SizeInt64(i);
      var digits := new byte[8];
      for j := 0 to size
        invariant forall k | 0 <= k < j :: digits[k] == Low(i, size)[k]
        invariant buf[..] == old(buf[..]) && offset == old(offset)
      {
        LowByte(i, size, j);
        digits[j] := Shift(i, size - 1 - j) % 256;
      }
      assert digits[..size] == IntBytes(i);
      var _ := WriteBytes(digits[..size]);
    }

    method WritePrimitiveSubBytes(c: Class, t: Tag, v: Primitive) returns (size: nat)
      requires Valid() && Size(PrimitiveNode(c, t, v)) <= offset
      modifies `offset, buf
      ensures size == Size(PrimitiveNode(c, t, v))
      ensures Wrote(old(buf[..]), old(offset), size, EncodeOnto(PrimitiveNode(c, t, v), old(Rest())))
    {
      match v {
        case Bool(flag) => size := WriteBytes(if flag then [255] else [0]);
        case Int(number) => size := WriteInt(number);
        case Octets(octets) => size := WriteBytes(octets);
      }
      var n := WriteTagAndLength(c, false, t, size);
      size := size + n;
    }
  }

  /** The typed decoding of primitive contents. */
  method ParseContent(s: seq<byte>, kind: Kind) returns (r: Option<Primitive>)
    ensures r == PrimitiveOfBytes(s, kind)
  {
    match kind {
      case KindBool =>
        if |s| != 1 {
          return None;
        }
        r := if s[0] == 0 then Some(Bool(false)) else if s[0] == 255 then Some(Bool(true)) else None;
      case KindInt =>
        var wide := ParseInt64(s);
        r := if wide.Some? && -0x8000_0000 <= wide.value < 0x8000_0000 then Some(Int(wide.value)) else None;
      case KindOctets =>
        r := Some(Octets(s));
    }
  }

  /******* Sizes *******/

  /** `sizeTagAndLength`, for tags that take one byte. */
  method SizeTagAndLength(length: nat) returns (size: nat)
    ensures size == HeaderSize(length)
  {
    size := 2;
    if length >= 128 {
      size := size + 1;
      var val := length;
      while val > 255
        invariant val > 0 && size - 3 + DigitCount(val) == DigitCount(length)
      {
        size, val := size + 1, val / 256;
      }
      assert val / 256 == 0;
    }
  }

  method SizePrimitiveSubBytes(v: Primitive) returns (size: nat)
    ensures forall c, t :: size == Size(PrimitiveNode(c, t, v))
  {
    match v {
      case Bool(_) => size := 1;
      case Int(number) => size := SizeInt64(number);
      case Octets(octets) => size := |octets|;
    }
    var n := SizeTagAndLength(size);
    size := size + n;
  }
}

/** How a connection is cut into messages, with a header parser of its own, and served. */
module Framing {
  import opened Wrappers
  import opened BerInteger
  import opened Ber
  import opened Cursor
  import opened Ldap
  import opened LdapTheory
  import opened LdapRead

  /** `count` more length bytes follow those that made `acc`. Unlike the decoder, leading zeros are let through. */
  function LenientLength(s: seq<byte>, count: nat, acc: nat): (r: Option<nat>)
    ensures r.Some? ==> count <= |s|
  {
    if count == 0 then Some(acc)
    else if s == [] || acc >= LENGTH_GUARD then None
    else LenientLength(s[1..], count - 1, 256 * acc + s[0])
  }

  /** The length the first header announces and the bytes the header takes. */
  function FrameHeader(s: seq<byte>): (r: Option<(nat, nat)>)
    ensures r.Some? ==> 2 <= r.value.1 <= |s|
  {
    if |s| < 2 || s[0] != 0x30 || s[1] == 128 then None
    else if s[1] < 128 then Some((s[1], 2))
    else
      match LenientLength(s[2..], s[1] - 128, 0)
      case None => None
      case Some(length) => Some((length, s[1] - 126))
  }

  /** The bytes of the first packet. */
  function Frame(s: seq<byte>): (r: Option<seq<byte>>)
    ensures r.Some? ==> 2 <= |r.value| <= |s| && r.value == s[..|r.value|]
  {
    match FrameHeader(s)
    case None => None
    case Some((length, used)) => if used + length <= |s| then Some(s[..used + length]) else None
  }

  /** The messages a connection handles: packets that do not decode are skipped, an unbind ends the session. */
  function Served(s: seq<byte>): seq<Message>
    decreases |s|
  {
    match Frame(s)
    case None => []
    case Some(packet) =>
      match DecodeMessage(packet)
      case None => Served(s[|packet|..])
      case Some(m) => if m.op.UnbindRequest? then [] else [m] + Served(s[|packet|..])
  }

  class Stream {
    var input: seq<byte>

    constructor (input: seq<byte>)
      ensures this.input == input
    {
      this.input := input;
    }

    /** Takes `length` bytes, all of which must have arrived. */
    method ReadBytes(length: nat) returns (r: Option<seq<byte>>)
      modifies this
      ensures r == if length <= |old(input)| then Some(old(input)[..length]) else None
      ensures r.Some? ==> input == old(input)[length..]
    {
      if length > |input| {
        input := [];
        return None;
      }
      r := Some(input[..length]);
      input := input[length..];
    }

    /** `readTagAndLength`: the length announced, and the bytes taken so far. */
    method ReadTagAndLength() returns (r: Option<(nat, seq<byte>)>)
      modifies this
      ensures r.Some? <==> FrameHeader(old(input)).Some?
      ensures r.Some? ==> FrameHeader(old(input)) == Some((r.value.0, |r.value.1|))
                          && r.value.1 + input == old(input)
    {
      ghost var s := input;
      var first := ReadBytes(1);
      if first.None? || first.value[0] != 0x30 {
        return None;
      }
      var second := ReadBytes(1);
      if second.None? {
        return None;
      }
      var taken, b := first.value + second.value, second.value[0];
      assert s == taken + input && s[2..] == input;
      if b < 128 {
        return Some((b, taken));
      }
      if b == 128 {
        return None;
      }
      var length: nat := 0;
      for k := 0 to b - 128
        invariant s == taken + input && |taken| == 2 + k
        invariant LenientLength(input, b - 128 - k, length) == LenientLength(s[2..], b - 128, 0)
      {
        var next := ReadBytes(1);
        if next.None? || length >= LENGTH_GUARD {
          return None;
        }
        taken, length := taken + next.value, 256 * length + next.value[0];
      }
      return Some((length, taken));
    }

    /** `readLdapMessageBytes`. */
    method ReadPacket() returns (r: Option<seq<byte>>)
      modifies this
      ensures r == Frame(old(input))
      ensures r.Some? ==> input == old(input)[|r.value|..]
    {
      hide FrameHeader;
      ghost var s := input;
      var header := ReadTagAndLength();
      if header.None? {
        return None;
      }
      assert s[|header.value.1|..] == input;
      var body := ReadBytes(header.value.0);
      if body.None? {
        return None;
      }
      assert header.value.1 + body.value == s[..|header.value.1| + header.value.0];
      return Some(header.value.1 + body.value);
    }

    /** `client.serve`, without the handling of each message. */
    method Serve() returns (handled: seq<Message>)
      modifies this
      ensures handled == Served(old(input))
    {
      hide Frame, DecodeMessage;
      handled := [];
      assert handled + Served(input) == Served(input);
      while true
        invariant handled + Served(input) == Served(old(input))
        decreases |input|
      {
        var packet := ReadPacket();
        if packet.None? {
          break;
        }
        var m := DecodePacket(packet.value);
        if m.Some? {
          if m.value.op.UnbindRequest? {
            break;
          }
          assert handled + ([m.value] + Served(input)) == (handled + [m.value]) + Served(input);
          handled := handled + [m.value];
        }
      }
    }
  }

  /** `decodeMessage`: reads a message from the bytes of a packet. */
  method DecodePacket(packet: seq<byte>) returns (r: Option<Message>)
    ensures r == DecodeMessage(packet)
  {
    hide DecodeMessage;
    var buf := new byte[|packet|];
    forall i | 0 <= i < |packet| { buf[i] := packet[i]; }
    var b := new Bytes(buf, 0, |packet|, 0);
    assert b.Rest() == packet;
    r := ReadMessage(b);
  }

  /******* The framing of encoded messages *******/

  lemma {:induction false} LenientAgrees(s: seq<byte>, count: nat, acc: nat)
    requires ParseLength(s, count, acc).Some?
    ensures LenientLength(s, count, acc) == Some(ParseLength(s, count, acc).value.0)
  {
    if count > 0 {
      LenientAgrees(s[1..], count - 1, 256 * acc + s[0]);
    }
  }

  /** On every 0x30 header the decoder accepts, the two header parsers find the same length and extent. */
  lemma HeadersAgree(s: seq<byte>)
    requires ParseHeader(s).Some? && s[0] == 0x30
    ensures FrameHeader(s) == Some((ParseHeader(s).value.length, ParseHeader(s).value.used))
  {
    assert ParseTag(s) == Some((16, 0));
    if s[1] > 128 {
      assert s[1..][1..] == s[2..];
      LenientAgrees(s[2..], s[1] - 128, 0);
    }
  }

  /** An encoded message below the length limit is exactly the first packet, whatever follows it. */
  lemma FrameOfMessage(m: Message, tail: seq<byte>)
    requires BodySize(m) < LENGTH_LIMIT
    ensures Frame(EncodeMessage(m) + tail) == Some(EncodeMessage(m))
  {
    hide FrameHeader, ParseHeader;
    var n, s := MessageNode(m), EncodeMessage(m) + tail;
    EncodeOntoShape(n, tail);
    assert s == HeaderOnto(UNIVERSAL, true, SEQUENCE, BodySize(m), ContentOnto(n, tail));
    HeaderInverts(UNIVERSAL, true, SEQUENCE, BodySize(m), ContentOnto(n, tail));
    HeadersAgree(s);
    assert s[..|EncodeMessage(m)|] == EncodeMessage(m);
  }

  /** The messages, one after another. */
  function EncodeStream(ms: seq<Message>): seq<byte> {
    if ms == [] then [] else EncodeMessage(ms[0]) + EncodeStream(ms[1..])
  }

  /** The messages that are handled: those the decoder accepts, up to the first unbind. */
  function Handled(ms: seq<Message>): seq<Message> {
    if ms == [] then []
    else if !WellFormed(ms[0]) || !Explicit(ms[0]) then Handled(ms[1..])
    else if ms[0].op.UnbindRequest? then []
    else [ms[0]] + Handled(ms[1..])
  }

  /**
   * A stream of encoded messages is cut into exactly those messages, in order: each one that is
   * well-formed is handled with the value it was sent with, up to an unbind, and one that the decoder
   * refuses does not disturb those after it.
   */
  lemma {:induction false} StreamRoundTrip(ms: seq<Message>)
    requires forall m | m in ms :: BodySize(m) < LENGTH_LIMIT
    ensures Served(EncodeStream(ms)) == Handled(ms)
  {
    hide Frame, DecodeMessage, EncodeMessage, BodySize, WellFormed, Explicit;
    if ms == [] {
      NoFrame();
    } else {
      var m, rest := ms[0], EncodeStream(ms[1..]);
      var s := EncodeMessage(m) + rest;
      FrameOfMessage(m, rest);
      MessageDecodes(m);
      StreamRoundTrip(ms[1..]);
      assert s[|EncodeMessage(m)|..] == rest;
    }
  }

  lemma NoFrame()
    ensures Frame([]) == None
  {
  }

  lemma MessageDecodes(m: Message)
    requires BodySize(m) < LENGTH_LIMIT
    ensures DecodeMessage(EncodeMessage(m)) == if WellFormed(m) && Explicit(m) then Some(m) else None
  {
    EncodeOntoShape(MessageNode(m), []);
    SmallHeader(BodySize(m));
    assert EncodeMessage(m) + [] == EncodeMessage(m);
    RoundTrip(m, []);
    hide DecodeMessage, WellFormed, Explicit, Size;
  }

  lemma SmallHeader(length: nat)
    requires length < LENGTH_LIMIT
    ensures HeaderSize(length) <= 6
  {
    PowersOf256();
    DigitCountBound(length, 4);
  }
}

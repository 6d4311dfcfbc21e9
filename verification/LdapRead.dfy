/**
 * The readers of the message types: a recursive descent over nested sub-slices. Each is proved to give
 * the value that the nodes at its cursor stand for, and to refuse when they stand for none.
 */
module LdapRead {
  import opened Wrappers
  import opened BerInteger
  import opened Ber
  import opened Cursor
  import opened Ldap
  import opened LdapTheory

  /** A read moved the cursor forward, over exactly one node if it succeeded. */
  ghost predicate Read(b: Bytes, at: nat, before: Option<seq<Node>>, ok: bool)
    reads b, b.buf
  {
    b.Valid() && at <= b.offset && (ok ==> at < b.offset) && Took(before, b.Forest(), ok)
  }

  /** A read that takes a number of nodes and leaves those of `left`. */
  ghost predicate Left(b: Bytes, at: nat, before: Option<seq<Node>>, ok: bool, left: seq<Node>)
    reads b, b.buf
  {
    && b.Valid() && at <= b.offset
    && (ok ==> b.Forest() == if before.Some? then Some(left) else None)
  }

  /** The components were all read and stand for `expected`, or they stand for nothing. */
  ghost predicate Complete<T>(b: Bytes, expected: Option<T>, r: Option<T>)
    requires b.Valid()
    reads b, b.buf
  {
    if expected.Some? then r == expected && b.Forest() == Some([])
    else r.Some? ==> b.Forest() != Some([])
  }

  function PrependAll<T>(acc: seq<T>, vs: Option<seq<T>>): Option<seq<T>> {
    if vs.Some? then Some(acc + vs.value) else None
  }

  lemma PrependStep<T>(acc: seq<T>, v: T, vs: Option<seq<T>>)
    ensures PrependAll(acc + [v], vs) == PrependAll(acc, Prepend(Some(v), vs))
  {
    if vs.Some? { assert acc + [v] + vs.value == acc + ([v] + vs.value); }
  }

  lemma PrependEnds<T>(acc: seq<T>, vs: Option<seq<T>>)
    ensures PrependAll([], vs) == vs && PrependAll(acc, Some([])) == Some(acc)
  {
    if vs.Some? { assert [] + vs.value == vs.value; }
    assert acc + [] == acc;
  }

  /******* Primitives *******/

  method ReadOctets(b: Bytes, c: Class, t: Tag) returns (r: Option<Str>)
    requires b.Valid()
    modifies b`offset
    ensures Read(b, old(b.offset), old(b.Forest()), r.Some?)
    ensures HasFirst(old(b.Forest())) ==> r == OctetsOf(First(old(b.Forest())), c, t)
  {
    hide ParseForest, PrimitiveOf;
    var v := b.ReadPrimitiveSubBytes(c, t, KindOctets);
    r := if v.Some? then Some(v.value.octets) else None;
  }

  method ReadString(b: Bytes) returns (r: Option<Str>)
    requires b.Valid()
    modifies b`offset
    ensures Read(b, old(b.offset), old(b.Forest()), r.Some?)
    ensures HasFirst(old(b.Forest())) ==> r == StringOf(First(old(b.Forest())))
  {
    hide ParseForest, OctetsOf;
    r := ReadOctets(b, UNIVERSAL, OCTET_STRING);
  }

  method ReadNumber(b: Bytes, c: Class, t: Tag) returns (r: Option<int32>)
    requires b.Valid()
    modifies b`offset
    ensures Read(b, old(b.offset), old(b.Forest()), r.Some?)
    ensures HasFirst(old(b.Forest())) ==> r == NumberOf(First(old(b.Forest())), c, t)
  {
    hide ParseForest, PrimitiveOf;
    var v := b.ReadPrimitiveSubBytes(c, t, KindInt);
    r := if v.Some? then Some(v.value.number) else None;
  }

  method ReadPositive(b: Bytes, c: Class, t: Tag) returns (r: Option<int32>)
    requires b.Valid()
    modifies b`offset
    ensures Read(b, old(b.offset), old(b.Forest()), r.Some?)
    ensures HasFirst(old(b.Forest())) ==> r == PositiveOf(First(old(b.Forest())), c, t)
  {
    hide ParseForest, NumberOf;
    r := ReadNumber(b, c, t);
    if r.Some? && r.value < 0 {
      return None;
    }
  }

  method ReadEnum(b: Bytes, allowed: int -> bool) returns (r: Option<int32>)
    requires b.Valid()
    modifies b`offset
    ensures Read(b, old(b.offset), old(b.Forest()), r.Some?)
    ensures HasFirst(old(b.Forest())) ==> r == EnumOf(First(old(b.Forest())), allowed)
  {
    hide ParseForest, NumberOf;
    r := ReadNumber(b, UNIVERSAL, ENUM);
    if r.Some? && !allowed(r.value) {
      return None;
    }
  }

  method ReadFlag(b: Bytes, c: Class, t: Tag) returns (r: Option<bool>)
    requires b.Valid()
    modifies b`offset
    ensures Read(b, old(b.offset), old(b.Forest()), r.Some?)
    ensures HasFirst(old(b.Forest())) ==> r == FlagOf(First(old(b.Forest())), c, t)
  {
    hide ParseForest, PrimitiveOf;
    var v := b.ReadPrimitiveSubBytes(c, t, KindBool);
    r := if v.Some? then Some(v.value.flag) else None;
  }

  /** Reads an octet string if the next tag, whatever its class, is `t`. Looking past the end is a panic. */
  method ReadIfTagged(b: Bytes, t: Tag) returns (r: Option<Option<Str>>)
    requires b.Valid()
    modifies b`offset
    ensures Left(b, old(b.offset), old(b.Forest()), r.Some?,
                 if HasFirst(old(b.Forest())) && First(old(b.Forest())).tag == t then old(b.Forest()).value[1..]
                 else if old(b.Forest()).Some? then old(b.Forest()).value else [])
    ensures HasFirst(old(b.Forest())) ==>
      r == if First(old(b.Forest())).tag != t then Some(None)
           else if TaggedOf(First(old(b.Forest())), t).None? then None else Some(TaggedOf(First(old(b.Forest())), t))
    ensures old(b.Forest()) == Some([]) ==> r == None
  {
    hide ParseForest, ParseHeader, OctetsOf;
    var h := b.PreviewTagAndLength();
    if h.None? {
      return None;
    }
    if h.value.tag != t {
      return Some(None);
    }
    var s := ReadOctets(b, CONTEXT, t);
    r := if s.None? then None else Some(s);
  }

  method ReadOptional(b: Bytes, t: Tag) returns (r: Option<Option<Str>>)
    requires b.Valid()
    modifies b`offset
    ensures b.Valid() && old(b.offset) <= b.offset
    ensures old(b.Forest()) == None && r.Some? ==> b.Forest() == None
    ensures old(b.Forest()).Some? ==>
      match TakeOptional(old(b.Forest()).value, t)
      case None => r == None
      case Some((s, left)) => r == Some(s) && b.Forest() == Some(left)
  {
    hide ParseForest, TaggedOf;
    var more := b.HasMoreData();
    if !more {
      return Some(None);
    }
    r := ReadIfTagged(b, t);
  }

  /******* Lists of strings *******/

  method ReadStrings(b: Bytes) returns (r: Option<seq<Str>>)
    requires b.Valid()
    modifies b`offset
    ensures b.Valid() && old(b.offset) <= b.offset && (r.Some? ==> b.Forest() == Some([]))
    ensures r == if old(b.Forest()).Some? then Values(StringOf, old(b.Forest()).value) else None
  {
    hide ParseForest, StringOf;
    var acc := [];
    var more := b.HasMoreData();
    if b.Forest().Some? { PrependEnds([], Values(StringOf, b.Forest().value)); }
    while more
      invariant b.Valid() && old(b.offset) <= b.offset && (more <==> b.Forest() != Some([]))
      invariant b.Forest().Some? <==> old(b.Forest()).Some?
      invariant b.Forest().Some? ==>
                  Values(StringOf, old(b.Forest()).value) == PrependAll(acc, Values(StringOf, b.Forest().value))
      decreases b.hi - b.lo - b.offset
    {
      ghost var before := b.Forest();
      var v := ReadString(b);
      if v.None? {
        return None;
      }
      if before.Some? { PrependStep(acc, v.value, Values(StringOf, before.value[1..])); }
      acc := acc + [v.value];
      more := b.HasMoreData();
    }
    PrependEnds(acc, Some(acc));
    r := Some(acc);
  }

  /** A SEQUENCE OF or SET OF strings. */
  method ReadStringList(b: Bytes, c: Class, t: Tag) returns (r: Option<seq<Str>>)
    requires b.Valid()
    modifies b`offset
    ensures Read(b, old(b.offset), old(b.Forest()), r.Some?)
    ensures HasFirst(old(b.Forest())) ==> r == StringsOf(First(old(b.Forest())), c, t)
  {
    hide ParseForest, Values;
    var sub := b.EnterSubBytes(c, t);
    if sub.None? {
      return None;
    }
    r := ReadStrings(sub.value);
    if r.Some? {
      var _ := b.LeaveSubBytes(sub.value);
    }
  }

  method ReadUris(b: Bytes, c: Class, t: Tag) returns (r: Option<seq<Str>>)
    requires b.Valid()
    modifies b`offset
    ensures Read(b, old(b.offset), old(b.Forest()), r.Some?)
    ensures HasFirst(old(b.Forest())) ==> r == UrisOf(First(old(b.Forest())), c, t)
  {
    hide ParseForest, StringsOf;
    r := ReadStringList(b, c, t);
    if r == Some([]) {
      return None;
    }
  }

  /******* Filters *******/

  method ReadAssertionComponents(b: Bytes) returns (r: Option<(Str, Str)>)
    requires b.Valid()
    modifies b`offset
    ensures b.Valid() && old(b.offset) <= b.offset
    ensures old(b.Forest()) == None && r.Some? ==> b.Forest() == None
    ensures old(b.Forest()).Some? ==> Complete(b, AssertionOf(old(b.Forest()).value), r)
  {
    hide ParseForest, StringOf;
    ghost var kids := b.Forest();
    var desc := ReadString(b);
    if desc.None? {
      return None;
    }
    var value := ReadString(b);
    if value.None? {
      return None;
    }
    assert kids.Some? ==> b.Forest() == Some(kids.value[2..]);
    return Some((desc.value, value.value));
  }

  /** An AttributeValueAssertion under some tag. */
  method ReadAssertion(b: Bytes, c: Class, t: Tag) returns (r: Option<(Str, Str)>)
    requires b.Valid()
    modifies b`offset
    ensures Read(b, old(b.offset), old(b.Forest()), r.Some?)
    ensures HasFirst(old(b.Forest())) ==>
      r == if IsNode(First(old(b.Forest())), true, c, t) then AssertionOf(First(old(b.Forest())).kids) else None
  {
    hide ParseForest, AssertionOf;
    var sub := b.EnterSubBytes(c, t);
    if sub.None? {
      return None;
    }
    r := ReadAssertionComponents(sub.value);
    if r.Some? {
      var ok := b.LeaveSubBytes(sub.value);
      r := if ok then r else None;
    }
  }

  method ReadFilters(b: Bytes) returns (r: Option<seq<Filter>>)
    requires b.Valid()
    modifies b`offset
    ensures b.Valid() && old(b.offset) <= b.offset && (r.Some? ==> b.Forest() == Some([]))
    ensures r == if old(b.Forest()).Some? then FiltersOf(old(b.Forest()).value) else None
    decreases b.hi - b.lo - b.offset, 2
  {
    hide ParseForest, FilterOf;
    var acc := [];
    var more := b.HasMoreData();
    if b.Forest().Some? { PrependEnds([], FiltersOf(b.Forest().value)); }
    while more
      invariant b.Valid() && old(b.offset) <= b.offset && (more <==> b.Forest() != Some([]))
      invariant b.Forest().Some? <==> old(b.Forest()).Some?
      invariant b.Forest().Some? ==>
                  FiltersOf(old(b.Forest()).value) == PrependAll(acc, FiltersOf(b.Forest().value))
      decreases b.hi - b.lo - b.offset
    {
      ghost var before := b.Forest();
      var v := ReadFilter(b);
      if v.None? {
        return None;
      }
      if before.Some? { PrependStep(acc, v.value, FiltersOf(before.value[1..])); }
      acc := acc + [v.value];
      more := b.HasMoreData();
    }
    PrependEnds(acc, Some(acc));
    r := Some(acc);
  }

  /** The components of an and-filter or an or-filter. */
  method ReadFilterSet(b: Bytes, t: Tag) returns (r: Option<seq<Filter>>)
    requires b.Valid()
    modifies b`offset
    ensures Read(b, old(b.offset), old(b.Forest()), r.Some?)
    ensures HasFirst(old(b.Forest())) ==>
      r == if IsNode(First(old(b.Forest())), true, CONTEXT, t) then NonEmpty(FiltersOf(First(old(b.Forest())).kids)) else None
    decreases b.hi - b.lo - b.offset, 0
  {
    hide ParseForest, FiltersOf;
    var sub := b.EnterSubBytes(CONTEXT, t);
    if sub.None? {
      return None;
    }
    r := ReadFilters(sub.value);
    if r == Some([]) {
      return None;
    }
    if r.Some? {
      var _ := b.LeaveSubBytes(sub.value);
    }
  }

  method ReadFilterNot(b: Bytes) returns (r: Option<Filter>)
    requires b.Valid()
    modifies b`offset
    ensures Read(b, old(b.offset), old(b.Forest()), r.Some?)
    ensures HasFirst(old(b.Forest())) ==>
      r == if IsNode(First(old(b.Forest())), true, CONTEXT, 2) && |First(old(b.Forest())).kids| == 1
           then FilterOf(First(old(b.Forest())).kids[0]) else None
    decreases b.hi - b.lo - b.offset, 0
  {
    hide ParseForest, FilterOf;
    var sub := b.EnterSubBytes(CONTEXT, 2);
    if sub.None? {
      return None;
    }
    r := ReadFilter(sub.value);
    if r.Some? {
      var ok := b.LeaveSubBytes(sub.value);
      r := if ok then r else None;
    }
  }

  lemma OccurrencesAppend(xs: seq<Substring>, ys: seq<Substring>, p: Position)
    ensures Occurrences(xs + ys, p) == Occurrences(xs, p) + Occurrences(ys, p)
  {
    if xs == [] {
      assert xs + ys == ys;
    } else {
      OccurrencesAppend(xs[1..], ys, p);
      assert (xs + ys)[1..] == xs[1..] + ys;
    }
  }

  /** What is already read is too much, whatever follows. */
  lemma TooMany(acc: seq<Substring>, s: Substring, vs: Option<seq<Substring>>)
    requires s.position != Any && Occurrences(acc, s.position) >= 1
    ensures var all := PrependAll(acc, Prepend(Some(s), vs)); all.Some? ==> !GoodSubstrings(all.value)
  {
    if vs.Some? {
      OccurrencesAppend(acc, [s] + vs.value, s.position);
      assert ([s] + vs.value)[0] == s;
    }
  }

  lemma OccurrencesNext(acc: seq<Substring>, s: Substring, p: Position)
    ensures Occurrences(acc + [s], p) == Occurrences(acc, p) + if s.position == p then 1 else 0
  {
    OccurrencesAppend(acc, [s], p);
    assert Occurrences([s], p) == (if s.position == p then 1 else 0) + Occurrences([s][1..], p);
  }

  function PositionOf(t: nat): Option<Position> {
    if t == 0 then Some(Initial) else if t == 1 then Some(Any) else if t == 2 then Some(Final) else None
  }

  /** The substrings; a second one at either end is refused before it is read. */
  method ReadSubstringList(b: Bytes) returns (r: Option<seq<Substring>>)
    requires b.Valid()
    modifies b`offset
    ensures b.Valid() && old(b.offset) <= b.offset && (r.Some? ==> b.Forest() == Some([]))
    ensures match if old(b.Forest()).Some? then Values(SubstringOf, old(b.Forest()).value) else None
      case None => r == None
      case Some(subs) => r == if GoodSubstrings(subs) then Some(subs) else None
  {
    hide ParseForest, ParseHeader, OctetsOf, Occurrences;
    var foundInitial, foundFinal, acc := 0, 0, [];
    var more := b.HasMoreData();
    if b.Forest().Some? { PrependEnds([], Values(SubstringOf, b.Forest().value)); }
    NoOccurrences();
    while more
      invariant b.Valid() && old(b.offset) <= b.offset && (more <==> b.Forest() != Some([]))
      invariant b.Forest().Some? <==> old(b.Forest()).Some?
      invariant b.Forest().Some? ==>
                  Values(SubstringOf, old(b.Forest()).value) == PrependAll(acc, Values(SubstringOf, b.Forest().value))
      invariant foundInitial == Occurrences(acc, Initial) <= 1 && foundFinal == Occurrences(acc, Final) <= 1
      decreases b.hi - b.lo - b.offset
    {
      ghost var before := b.Forest();
      var v := ReadSubstring(b, foundInitial > 0, foundFinal > 0);
      if v.None? {
        if before.Some? && SubstringOf(before.value[0]).Some? && SubstringOf(before.value[0]).value.position != Any {
          TooMany(acc, SubstringOf(before.value[0]).value, Values(SubstringOf, before.value[1..]));
        }
        return None;
      }
      if before.Some? { PrependStep(acc, v.value, Values(SubstringOf, before.value[1..])); }
      OccurrencesNext(acc, v.value, Initial);
      OccurrencesNext(acc, v.value, Final);
      foundInitial := foundInitial + if v.value.position == Initial then 1 else 0;
      foundFinal := foundFinal + if v.value.position == Final then 1 else 0;
      acc := acc + [v.value];
      more := b.HasMoreData();
    }
    PrependEnds(acc, Some(acc));
    r := if acc == [] then None else Some(acc);
  }

  lemma NoOccurrences()
    ensures Occurrences([], Initial) == 0 && Occurrences([], Final) == 0
  {
  }

  method ReadSubstring(b: Bytes, noInitial: bool, noFinal: bool) returns (r: Option<Substring>)
    requires b.Valid()
    modifies b`offset
    ensures Read(b, old(b.offset), old(b.Forest()), r.Some?)
    ensures HasFirst(old(b.Forest())) ==>
      var s := SubstringOf(First(old(b.Forest())));
      r == if s.Some? && ((s.value.position == Initial && noInitial) || (s.value.position == Final && noFinal)) then None else s
    ensures r.Some? ==> !(r.value.position == Initial && noInitial) && !(r.value.position == Final && noFinal)
  {
    hide ParseForest, ParseHeader, OctetsOf;
    var h := b.PreviewTagAndLength();
    if h.None? || PositionOf(h.value.tag).None? {
      return None;
    }
    var position := PositionOf(h.value.tag).value;
    if (position == Initial && noInitial) || (position == Final && noFinal) {
      return None;
    }
    var v := ReadOctets(b, CONTEXT, PositionTag(position));
    r := if v.Some? then Some(Substring(position, v.value)) else None;
  }

  method ReadSubstringSequence(b: Bytes) returns (r: Option<seq<Substring>>)
    requires b.Valid()
    modifies b`offset
    ensures Read(b, old(b.offset), old(b.Forest()), r.Some?)
    ensures HasFirst(old(b.Forest())) ==>
      r == match SubstringListOf(First(old(b.Forest())))
           case None => None
           case Some(subs) => if GoodSubstrings(subs) then Some(subs) else None
  {
    hide ParseForest, Values, GoodSubstrings;
    var sub := b.EnterSubBytes(UNIVERSAL, SEQUENCE);
    if sub.None? {
      return None;
    }
    r := ReadSubstringList(sub.value);
    if r.Some? {
      var _ := b.LeaveSubBytes(sub.value);
    }
  }

  method ReadSubstringsComponents(b: Bytes) returns (r: Option<Filter>)
    requires b.Valid()
    modifies b`offset
    ensures b.Valid() && old(b.offset) <= b.offset
    ensures old(b.Forest()) == None && r.Some? ==> b.Forest() == None
    ensures old(b.Forest()).Some? ==> Complete(b, SubstringsOf(old(b.Forest()).value), r)
  {
    hide ParseForest, StringOf, SubstringListOf, GoodSubstrings;
    ghost var kids := b.Forest();
    var type_ := ReadString(b);
    if type_.None? {
      return None;
    }
    var subs := ReadSubstringSequence(b);
    if subs.None? {
      return None;
    }
    assert kids.Some? ==> b.Forest() == Some(kids.value[2..]);
    return Some(Substrings(type_.value, subs.value));
  }

  method ReadExtensibleComponents(b: Bytes) returns (r: Option<Filter>)
    requires b.Valid()
    modifies b`offset
    ensures b.Valid() && old(b.offset) <= b.offset
    ensures old(b.Forest()) == None && r.Some? ==> b.Forest() == None
    ensures old(b.Forest()).Some? ==> Complete(b, ExtensibleOf(old(b.Forest()).value), r)
  {
    hide ParseForest, OctetsOf, FlagOf;
    var rule := ReadIfTagged(b, 1);
    if rule.None? {
      return None;
    }
    ghost var kids := b.Forest();
    var attribute := ReadIfTagged(b, 2);
    if attribute.None? {
      return None;
    }
    ghost var left := b.Forest();
    var value := ReadOctets(b, CONTEXT, 3);
    if value.None? {
      return None;
    }
    assert left.Some? && |left.value| >= 2 ==> First(b.Forest()) == left.value[1];
    var flag := ReadFlag(b, CONTEXT, 4);
    if flag.None? {
      return None;
    }
    assert left.Some? ==> b.Forest() == Some(left.value[2..]);
    return Some(ExtensibleMatch(rule.value, attribute.value, value.value, flag.value));
  }

  method ReadSubstrings(b: Bytes) returns (r: Option<Filter>)
    requires b.Valid()
    modifies b`offset
    ensures Read(b, old(b.offset), old(b.Forest()), r.Some?)
    ensures HasFirst(old(b.Forest())) ==>
      r == if IsNode(First(old(b.Forest())), true, CONTEXT, 4) then SubstringsOf(First(old(b.Forest())).kids) else None
  {
    hide ParseForest, SubstringsOf;
    var sub := b.EnterSubBytes(CONTEXT, 4);
    if sub.None? {
      return None;
    }
    r := ReadSubstringsComponents(sub.value);
    if r.Some? {
      var ok := b.LeaveSubBytes(sub.value);
      r := if ok then r else None;
    }
  }

  method ReadExtensible(b: Bytes) returns (r: Option<Filter>)
    requires b.Valid()
    modifies b`offset
    ensures Read(b, old(b.offset), old(b.Forest()), r.Some?)
    ensures HasFirst(old(b.Forest())) ==>
      r == if IsNode(First(old(b.Forest())), true, CONTEXT, 9) then ExtensibleOf(First(old(b.Forest())).kids) else None
  {
    hide ParseForest, ExtensibleOf;
    var sub := b.EnterSubBytes(CONTEXT, 9);
    if sub.None? {
      return None;
    }
    r := ReadExtensibleComponents(sub.value);
    if r.Some? {
      var ok := b.LeaveSubBytes(sub.value);
      r := if ok then r else None;
    }
  }

  /** `readFilter`: the next tag selects the alternative. */
  method ReadFilter(b: Bytes) returns (r: Option<Filter>)
    requires b.Valid()
    modifies b`offset
    ensures Read(b, old(b.offset), old(b.Forest()), r.Some?)
    ensures HasFirst(old(b.Forest())) ==> r == FilterOf(First(old(b.Forest())))
    decreases b.hi - b.lo - b.offset, 1
  {
    hide ParseForest, ParseHeader, OctetsOf, SubstringsOf, ExtensibleOf, AssertionOf, FiltersOf;
    var h := b.PreviewTagAndLength();
    if h.None? || h.value.class_ != CONTEXT {
      return None;
    }
    var tag := h.value.tag;
    if tag == 0 || tag == 1 {
      var fs := ReadFilterSet(b, tag);
      return if fs.None? then None else if tag == 0 then Some(And(fs.value)) else Some(Or(fs.value));
    } else if tag == 2 {
      var f := ReadFilterNot(b);
      return if f.None? then None else Some(Not(f.value));
    } else if tag == 4 {
      r := ReadSubstrings(b);
    } else if tag == 7 {
      var desc := ReadOctets(b, CONTEXT, 7);
      return if desc.None? then None else Some(Present(desc.value));
    } else if tag == 9 {
      r := ReadExtensible(b);
    } else if tag <= 30 && ComparisonOf(tag).Some? {
      var a := ReadAssertion(b, CONTEXT, tag);
      return if a.None? then None else Some(Compare(ComparisonOf(tag).value, a.value.0, a.value.1));
    } else {
      return None;
    }
  }

  /******* Parts of operations *******/

  /** `LDAPResult.readComponents`: reads a result and leaves what follows it. */
  method ReadResult(b: Bytes) returns (r: Option<Result>)
    requires b.Valid()
    modifies b`offset
    ensures b.Valid() && old(b.offset) <= b.offset
    ensures old(b.Forest()) == None && r.Some? ==> b.Forest() == None
    ensures old(b.Forest()).Some? ==>
      match TakeResult(old(b.Forest()).value)
      case None => r == None
      case Some((result, left)) => r == Some(result) && b.Forest() == Some(left)
  {
    hide ParseForest, ParseHeader, StringOf, EnumOf, UrisOf, ResultCode;
    ghost var kids := b.Forest();
    var code := ReadEnum(b, ResultCode);
    if code.None? {
      return None;
    }
    var matchedDN := ReadString(b);
    if matchedDN.None? {
      return None;
    }
    assert kids.Some? ==> b.Forest() == Some(kids.value[2..]);
    var diagnostic := ReadString(b);
    if diagnostic.None? {
      return None;
    }
    assert kids.Some? ==> b.Forest() == Some(kids.value[3..]);
    var result := Result(code.value, matchedDN.value, diagnostic.value, None);
    var more := b.HasMoreData();
    if !more {
      return Some(result);
    }
    var h := b.PreviewTagAndLength();
    if h.None? {
      return None;
    }
    if h.value.tag != 3 {
      return Some(result);
    }
    var uris := ReadUris(b, CONTEXT, 3);
    assert uris.Some? && kids.Some? ==> b.Forest() == Some(kids.value[4..]);
    r := if uris.None? then None else Some(result.(referral := uris));
  }

  method ReadPartialComponents(b: Bytes) returns (r: Option<PartialAttribute>)
    requires b.Valid()
    modifies b`offset
    ensures b.Valid() && old(b.offset) <= b.offset
    ensures old(b.Forest()) == None && r.Some? ==> b.Forest() == None
    ensures old(b.Forest()).Some? ==> Complete(b, PartialOfKids(old(b.Forest()).value), r)
  {
    hide ParseForest, StringOf, StringsOf;
    ghost var kids := b.Forest();
    var type_ := ReadString(b);
    if type_.None? {
      return None;
    }
    var vals := ReadStringList(b, UNIVERSAL, SET);
    if vals.None? {
      return None;
    }
    assert kids.Some? ==> b.Forest() == Some(kids.value[2..]);
    return Some(PartialAttribute(type_.value, vals.value));
  }

  method ReadPartial(b: Bytes) returns (r: Option<PartialAttribute>)
    requires b.Valid()
    modifies b`offset
    ensures Read(b, old(b.offset), old(b.Forest()), r.Some?)
    ensures HasFirst(old(b.Forest())) ==>
      r == if IsNode(First(old(b.Forest())), true, UNIVERSAL, SEQUENCE) then PartialOfKids(First(old(b.Forest())).kids) else None
  {
    hide ParseForest, PartialOfKids;
    var sub := b.EnterSubBytes(UNIVERSAL, SEQUENCE);
    if sub.None? {
      return None;
    }
    r := ReadPartialComponents(sub.value);
    if r.Some? {
      var ok := b.LeaveSubBytes(sub.value);
      r := if ok then r else None;
    }
  }

  method ReadAttribute(b: Bytes) returns (r: Option<PartialAttribute>)
    requires b.Valid()
    modifies b`offset
    ensures Read(b, old(b.offset), old(b.Forest()), r.Some?)
    ensures HasFirst(old(b.Forest())) ==> r == AttributeOf(First(old(b.Forest())))
  {
    hide ParseForest, PartialOfKids;
    r := ReadPartial(b);
    if r.Some? && r.value.vals == [] {
      return None;
    }
  }

  method ReadChangeComponents(b: Bytes) returns (r: Option<Change>)
    requires b.Valid()
    modifies b`offset
    ensures b.Valid() && old(b.offset) <= b.offset
    ensures old(b.Forest()) == None && r.Some? ==> b.Forest() == None
    ensures old(b.Forest()).Some? ==> Complete(b, ChangeOfKids(old(b.Forest()).value), r)
  {
    hide ParseForest, EnumOf, PartialOfKids;
    ghost var kids := b.Forest();
    var operation := ReadEnum(b, Operation);
    if operation.None? {
      return None;
    }
    var modification := ReadPartial(b);
    if modification.None? {
      return None;
    }
    assert kids.Some? ==> b.Forest() == Some(kids.value[2..]);
    return Some(Change(operation.value, modification.value));
  }

  method ReadChange(b: Bytes) returns (r: Option<Change>)
    requires b.Valid()
    modifies b`offset
    ensures Read(b, old(b.offset), old(b.Forest()), r.Some?)
    ensures HasFirst(old(b.Forest())) ==>
      r == if IsNode(First(old(b.Forest())), true, UNIVERSAL, SEQUENCE) then ChangeOfKids(First(old(b.Forest())).kids) else None
  {
    hide ParseForest, ChangeOfKids;
    var sub := b.EnterSubBytes(UNIVERSAL, SEQUENCE);
    if sub.None? {
      return None;
    }
    r := ReadChangeComponents(sub.value);
    if r.Some? {
      var ok := b.LeaveSubBytes(sub.value);
      r := if ok then r else None;
    }
  }

  method ReadControlComponents(b: Bytes) returns (r: Option<Control>)
    requires b.Valid()
    modifies b`offset
    ensures b.Valid() && old(b.offset) <= b.offset
    ensures old(b.Forest()) == None && r.Some? ==> b.Forest() == None
    ensures old(b.Forest()).Some? ==> Complete(b, ControlOfKids(old(b.Forest()).value), r)
  {
    hide ParseForest, ParseHeader, StringOf, FlagOf;
    ghost var kids := b.Forest();
    var type_ := ReadString(b);
    if type_.None? {
      return None;
    }
    var criticality := false;
    var more := b.HasMoreData();
    if more {
      var h := b.PreviewTagAndLength();
      if h.None? {
        return None;
      }
      if h.value.tag == BOOLEAN {
        var flag := ReadFlag(b, UNIVERSAL, BOOLEAN);
        if flag != Some(true) {
          return None;
        }
        criticality := true;
        assert kids.Some? ==> b.Forest() == Some(kids.value[2..]);
      }
    }
    more := b.HasMoreData();
    if !more {
      return Some(Control(type_.value, criticality, None));
    }
    ghost var left := b.Forest();
    var value := ReadString(b);
    if value.None? {
      return None;
    }
    assert left.Some? ==> b.Forest() == Some(left.value[1..]);
    return Some(Control(type_.value, criticality, value));
  }

  method ReadControl(b: Bytes) returns (r: Option<Control>)
    requires b.Valid()
    modifies b`offset
    ensures Read(b, old(b.offset), old(b.Forest()), r.Some?)
    ensures HasFirst(old(b.Forest())) ==>
      r == if IsNode(First(old(b.Forest())), true, UNIVERSAL, SEQUENCE) then ControlOfKids(First(old(b.Forest())).kids) else None
  {
    hide ParseForest, ControlOfKids;
    var sub := b.EnterSubBytes(UNIVERSAL, SEQUENCE);
    if sub.None? {
      return None;
    }
    r := ReadControlComponents(sub.value);
    if r.Some? {
      var ok := b.LeaveSubBytes(sub.value);
      r := if ok then r else None;
    }
  }

  method ReadPartials(b: Bytes) returns (r: Option<seq<PartialAttribute>>)
    requires b.Valid()
    modifies b`offset
    ensures b.Valid() && old(b.offset) <= b.offset && (r.Some? ==> b.Forest() == Some([]))
    ensures r == if old(b.Forest()).Some? then Values(PartialOf, old(b.Forest()).value) else None
  {
    hide ParseForest, PartialOfKids;
    var acc := [];
    var more := b.HasMoreData();
    if b.Forest().Some? { PrependEnds([], Values(PartialOf, b.Forest().value)); }
    while more
      invariant b.Valid() && old(b.offset) <= b.offset && (more <==> b.Forest() != Some([]))
      invariant b.Forest().Some? <==> old(b.Forest()).Some?
      invariant b.Forest().Some? ==>
                  Values(PartialOf, old(b.Forest()).value) == PrependAll(acc, Values(PartialOf, b.Forest().value))
      decreases b.hi - b.lo - b.offset
    {
      ghost var before := b.Forest();
      var v := ReadPartial(b);
      if v.None? {
        return None;
      }
      if before.Some? { PrependStep(acc, v.value, Values(PartialOf, before.value[1..])); }
      acc := acc + [v.value];
      more := b.HasMoreData();
    }
    PrependEnds(acc, Some(acc));
    r := Some(acc);
  }

  method ReadAttributes(b: Bytes) returns (r: Option<seq<PartialAttribute>>)
    requires b.Valid()
    modifies b`offset
    ensures b.Valid() && old(b.offset) <= b.offset && (r.Some? ==> b.Forest() == Some([]))
    ensures r == if old(b.Forest()).Some? then Values(AttributeOf, old(b.Forest()).value) else None
  {
    hide ParseForest, AttributeOf;
    var acc := [];
    var more := b.HasMoreData();
    if b.Forest().Some? { PrependEnds([], Values(AttributeOf, b.Forest().value)); }
    while more
      invariant b.Valid() && old(b.offset) <= b.offset && (more <==> b.Forest() != Some([]))
      invariant b.Forest().Some? <==> old(b.Forest()).Some?
      invariant b.Forest().Some? ==>
                  Values(AttributeOf, old(b.Forest()).value) == PrependAll(acc, Values(AttributeOf, b.Forest().value))
      decreases b.hi - b.lo - b.offset
    {
      ghost var before := b.Forest();
      var v := ReadAttribute(b);
      if v.None? {
        return None;
      }
      if before.Some? { PrependStep(acc, v.value, Values(AttributeOf, before.value[1..])); }
      acc := acc + [v.value];
      more := b.HasMoreData();
    }
    PrependEnds(acc, Some(acc));
    r := Some(acc);
  }

  method ReadChanges(b: Bytes) returns (r: Option<seq<Change>>)
    requires b.Valid()
    modifies b`offset
    ensures b.Valid() && old(b.offset) <= b.offset && (r.Some? ==> b.Forest() == Some([]))
    ensures r == if old(b.Forest()).Some? then Values(ChangeOf, old(b.Forest()).value) else None
  {
    hide ParseForest, ChangeOfKids;
    var acc := [];
    var more := b.HasMoreData();
    if b.Forest().Some? { PrependEnds([], Values(ChangeOf, b.Forest().value)); }
    while more
      invariant b.Valid() && old(b.offset) <= b.offset && (more <==> b.Forest() != Some([]))
      invariant b.Forest().Some? <==> old(b.Forest()).Some?
      invariant b.Forest().Some? ==>
                  Values(ChangeOf, old(b.Forest()).value) == PrependAll(acc, Values(ChangeOf, b.Forest().value))
      decreases b.hi - b.lo - b.offset
    {
      ghost var before := b.Forest();
      var v := ReadChange(b);
      if v.None? {
        return None;
      }
      if before.Some? { PrependStep(acc, v.value, Values(ChangeOf, before.value[1..])); }
      acc := acc + [v.value];
      more := b.HasMoreData();
    }
    PrependEnds(acc, Some(acc));
    r := Some(acc);
  }

  method ReadControls(b: Bytes) returns (r: Option<seq<Control>>)
    requires b.Valid()
    modifies b`offset
    ensures b.Valid() && old(b.offset) <= b.offset && (r.Some? ==> b.Forest() == Some([]))
    ensures r == if old(b.Forest()).Some? then Values(ControlOf, old(b.Forest()).value) else None
  {
    hide ParseForest, ControlOfKids;
    var acc := [];
    var more := b.HasMoreData();
    if b.Forest().Some? { PrependEnds([], Values(ControlOf, b.Forest().value)); }
    while more
      invariant b.Valid() && old(b.offset) <= b.offset && (more <==> b.Forest() != Some([]))
      invariant b.Forest().Some? <==> old(b.Forest()).Some?
      invariant b.Forest().Some? ==>
                  Values(ControlOf, old(b.Forest()).value) == PrependAll(acc, Values(ControlOf, b.Forest().value))
      decreases b.hi - b.lo - b.offset
    {
      ghost var before := b.Forest();
      var v := ReadControl(b);
      if v.None? {
        return None;
      }
      if before.Some? { PrependStep(acc, v.value, Values(ControlOf, before.value[1..])); }
      acc := acc + [v.value];
      more := b.HasMoreData();
    }
    PrependEnds(acc, Some(acc));
    r := Some(acc);
  }

  method ReadSaslComponents(b: Bytes) returns (r: Option<Authentication>)
    requires b.Valid()
    modifies b`offset
    ensures b.Valid() && old(b.offset) <= b.offset
    ensures old(b.Forest()) == None && r.Some? ==> b.Forest() == None
    ensures old(b.Forest()).Some? ==> Complete(b, SaslOf(old(b.Forest()).value), r)
  {
    hide ParseForest, StringOf;
    ghost var kids := b.Forest();
    var mechanism := ReadString(b);
    if mechanism.None? {
      return None;
    }
    var more := b.HasMoreData();
    if !more {
      return Some(Sasl(mechanism.value, None));
    }
    var credentials := ReadString(b);
    if credentials.None? {
      return None;
    }
    assert kids.Some? ==> b.Forest() == Some(kids.value[2..]);
    return Some(Sasl(mechanism.value, credentials));
  }

  method ReadSasl(b: Bytes) returns (r: Option<Authentication>)
    requires b.Valid()
    modifies b`offset
    ensures Read(b, old(b.offset), old(b.Forest()), r.Some?)
    ensures HasFirst(old(b.Forest())) ==>
      r == if IsNode(First(old(b.Forest())), true, CONTEXT, 3) then SaslOf(First(old(b.Forest())).kids) else None
  {
    hide ParseForest, SaslOf;
    var sub := b.EnterSubBytes(CONTEXT, 3);
    if sub.None? {
      return None;
    }
    r := ReadSaslComponents(sub.value);
    if r.Some? {
      var ok := b.LeaveSubBytes(sub.value);
      r := if ok then r else None;
    }
  }

  method ReadAuthentication(b: Bytes) returns (r: Option<Authentication>)
    requires b.Valid()
    modifies b`offset
    ensures Read(b, old(b.offset), old(b.Forest()), r.Some?)
    ensures HasFirst(old(b.Forest())) ==> r == AuthenticationOf(First(old(b.Forest())))
  {
    hide ParseForest, ParseHeader, OctetsOf, SaslOf;
    var h := b.PreviewTagAndLength();
    if h.None? || h.value.class_ != CONTEXT {
      return None;
    }
    if h.value.tag == 0 {
      var password := ReadOctets(b, CONTEXT, 0);
      return if password.None? then None else Some(Simple(password.value));
    } else if h.value.tag == 3 {
      r := ReadSasl(b);
    } else {
      return None;
    }
  }

  method ReadSearchHead(b: Bytes) returns (r: Option<(Str, int32, int32, int32, int32, bool)>)
    requires b.Valid()
    modifies b`offset
    ensures b.Valid() && old(b.offset) <= b.offset
    ensures old(b.Forest()) == None && r.Some? ==> b.Forest() == None
    ensures old(b.Forest()).Some? ==>
      r == SearchHeadOf(old(b.Forest()).value) && (r.Some? ==> b.Forest() == Some(old(b.Forest()).value[6..]))
  {
    hide ParseForest, StringOf, EnumOf, PositiveOf, FlagOf;
    ghost var kids := b.Forest();
    var baseObject := ReadString(b);
    if baseObject.None? {
      return None;
    }
    var scope := ReadEnum(b, Scope);
    if scope.None? {
      return None;
    }
    assert kids.Some? ==> b.Forest() == Some(kids.value[2..]);
    var deref := ReadEnum(b, DerefAliases);
    if deref.None? {
      return None;
    }
    assert kids.Some? ==> b.Forest() == Some(kids.value[3..]);
    var sizeLimit := ReadPositive(b, UNIVERSAL, INTEGER);
    if sizeLimit.None? {
      return None;
    }
    assert kids.Some? ==> b.Forest() == Some(kids.value[4..]);
    var timeLimit := ReadPositive(b, UNIVERSAL, INTEGER);
    if timeLimit.None? {
      return None;
    }
    assert kids.Some? ==> b.Forest() == Some(kids.value[5..]);
    var typesOnly := ReadFlag(b, UNIVERSAL, BOOLEAN);
    if typesOnly.None? {
      return None;
    }
    assert kids.Some? ==> b.Forest() == Some(kids.value[6..]);
    return Some((baseObject.value, scope.value, deref.value, sizeLimit.value, timeLimit.value, typesOnly.value));
  }

  method ReadSearchComponents(b: Bytes) returns (r: Option<Search>)
    requires b.Valid()
    modifies b`offset
    ensures b.Valid() && old(b.offset) <= b.offset
    ensures old(b.Forest()) == None && r.Some? ==> b.Forest() == None
    ensures old(b.Forest()).Some? ==> Complete(b, SearchOf(old(b.Forest()).value), r)
  {
    hide ParseForest, SearchHeadOf, FilterOf, StringsOf;
    ghost var kids := b.Forest();
    var head := ReadSearchHead(b);
    if head.None? {
      return None;
    }
    var filter := ReadFilter(b);
    if filter.None? {
      return None;
    }
    assert kids.Some? ==> b.Forest() == Some(kids.value[7..]);
    var attributes := ReadStringList(b, UNIVERSAL, SEQUENCE);
    if attributes.None? {
      return None;
    }
    assert kids.Some? ==> b.Forest() == Some(kids.value[8..]);
    return Some(Search(head.value.0, head.value.1, head.value.2, head.value.3, head.value.4, head.value.5,
                       filter.value, attributes.value));
  }

  /******* Operations *******/

  method ReadPartialSequence(b: Bytes) returns (r: Option<seq<PartialAttribute>>)
    requires b.Valid()
    modifies b`offset
    ensures Read(b, old(b.offset), old(b.Forest()), r.Some?)
    ensures HasFirst(old(b.Forest())) ==>
      r == if IsNode(First(old(b.Forest())), true, UNIVERSAL, SEQUENCE) then Values(PartialOf, First(old(b.Forest())).kids) else None
  {
    hide ParseForest, Values;
    var sub := b.EnterSubBytes(UNIVERSAL, SEQUENCE);
    if sub.None? {
      return None;
    }
    r := ReadPartials(sub.value);
    if r.Some? {
      var _ := b.LeaveSubBytes(sub.value);
    }
  }

  method ReadAttributeSequence(b: Bytes) returns (r: Option<seq<PartialAttribute>>)
    requires b.Valid()
    modifies b`offset
    ensures Read(b, old(b.offset), old(b.Forest()), r.Some?)
    ensures HasFirst(old(b.Forest())) ==>
      r == if IsNode(First(old(b.Forest())), true, UNIVERSAL, SEQUENCE) then Values(AttributeOf, First(old(b.Forest())).kids) else None
  {
    hide ParseForest, Values;
    var sub := b.EnterSubBytes(UNIVERSAL, SEQUENCE);
    if sub.None? {
      return None;
    }
    r := ReadAttributes(sub.value);
    if r.Some? {
      var _ := b.LeaveSubBytes(sub.value);
    }
  }

  method ReadChangeSequence(b: Bytes) returns (r: Option<seq<Change>>)
    requires b.Valid()
    modifies b`offset
    ensures Read(b, old(b.offset), old(b.Forest()), r.Some?)
    ensures HasFirst(old(b.Forest())) ==>
      r == if IsNode(First(old(b.Forest())), true, UNIVERSAL, SEQUENCE) then Values(ChangeOf, First(old(b.Forest())).kids) else None
  {
    hide ParseForest, Values;
    var sub := b.EnterSubBytes(UNIVERSAL, SEQUENCE);
    if sub.None? {
      return None;
    }
    r := ReadChanges(sub.value);
    if r.Some? {
      var _ := b.LeaveSubBytes(sub.value);
    }
  }

  method ReadBindRequest(b: Bytes) returns (r: Option<Op>)
    requires b.Valid()
    modifies b`offset
    ensures b.Valid() && old(b.offset) <= b.offset
    ensures old(b.Forest()) == None && r.Some? ==> b.Forest() == None
    ensures old(b.Forest()).Some? ==> Complete(b, BindRequestOf(old(b.Forest()).value), r)
  {
    hide ParseForest, StringOf, NumberOf, AuthenticationOf;
    ghost var kids := b.Forest();
    var version := ReadNumber(b, UNIVERSAL, INTEGER);
    if version.None? {
      return None;
    }
    if version.value < 1 || version.value > 127 {
      return None;
    }
    var name := ReadString(b);
    if name.None? {
      return None;
    }
    assert kids.Some? ==> b.Forest() == Some(kids.value[2..]);
    var authentication := ReadAuthentication(b);
    if authentication.None? {
      return None;
    }
    assert kids.Some? ==> b.Forest() == Some(kids.value[3..]);
    return Some(BindRequest(version.value, name.value, authentication.value));
  }

  method ReadBindResponse(b: Bytes) returns (r: Option<Op>)
    requires b.Valid()
    modifies b`offset
    ensures b.Valid() && old(b.offset) <= b.offset
    ensures old(b.Forest()) == None && r.Some? ==> b.Forest() == None
    ensures old(b.Forest()).Some? ==> Complete(b, BindResponseOf(old(b.Forest()).value), r)
  {
    hide ParseForest, TakeResult, TakeOptional;
    ghost var kids := b.Forest();
    var result := ReadResult(b);
    if result.None? {
      return None;
    }
    var creds := ReadOptional(b, 7);
    if creds.None? {
      return None;
    }
    return Some(BindResponse(result.value, creds.value));
  }

  method ReadSearchResultEntry(b: Bytes) returns (r: Option<Op>)
    requires b.Valid()
    modifies b`offset
    ensures b.Valid() && old(b.offset) <= b.offset
    ensures old(b.Forest()) == None && r.Some? ==> b.Forest() == None
    ensures old(b.Forest()).Some? ==> Complete(b, SearchResultEntryOf(old(b.Forest()).value), r)
  {
    hide ParseForest, StringOf, Values, PartialOf;
    ghost var kids := b.Forest();
    var name := ReadString(b);
    if name.None? {
      return None;
    }
    var list := ReadPartialSequence(b);
    if list.None? {
      return None;
    }
    assert kids.Some? ==> b.Forest() == Some(kids.value[2..]);
    return Some(SearchResultEntry(name.value, list.value));
  }

  method ReadModifyRequest(b: Bytes) returns (r: Option<Op>)
    requires b.Valid()
    modifies b`offset
    ensures b.Valid() && old(b.offset) <= b.offset
    ensures old(b.Forest()) == None && r.Some? ==> b.Forest() == None
    ensures old(b.Forest()).Some? ==> Complete(b, ModifyRequestOf(old(b.Forest()).value), r)
  {
    hide ParseForest, StringOf, Values, ChangeOf;
    ghost var kids := b.Forest();
    var name := ReadString(b);
    if name.None? {
      return None;
    }
    var list := ReadChangeSequence(b);
    if list.None? {
      return None;
    }
    assert kids.Some? ==> b.Forest() == Some(kids.value[2..]);
    return Some(ModifyRequest(name.value, list.value));
  }

  method ReadAddRequest(b: Bytes) returns (r: Option<Op>)
    requires b.Valid()
    modifies b`offset
    ensures b.Valid() && old(b.offset) <= b.offset
    ensures old(b.Forest()) == None && r.Some? ==> b.Forest() == None
    ensures old(b.Forest()).Some? ==> Complete(b, AddRequestOf(old(b.Forest()).value), r)
  {
    hide ParseForest, StringOf, Values, AttributeOf;
    ghost var kids := b.Forest();
    var name := ReadString(b);
    if name.None? {
      return None;
    }
    var list := ReadAttributeSequence(b);
    if list.None? {
      return None;
    }
    assert kids.Some? ==> b.Forest() == Some(kids.value[2..]);
    return Some(AddRequest(name.value, list.value));
  }

  method ReadModifyDNRequest(b: Bytes) returns (r: Option<Op>)
    requires b.Valid()
    modifies b`offset
    ensures b.Valid() && old(b.offset) <= b.offset
    ensures old(b.Forest()) == None && r.Some? ==> b.Forest() == None
    ensures old(b.Forest()).Some? ==> Complete(b, ModifyDNRequestOf(old(b.Forest()).value), r)
  {
    hide ParseForest, StringOf, FlagOf, TakeOptional;
    ghost var kids := b.Forest();
    var entry := ReadString(b);
    if entry.None? {
      return None;
    }
    var newrdn := ReadString(b);
    if newrdn.None? {
      return None;
    }
    assert kids.Some? ==> b.Forest() == Some(kids.value[2..]);
    var deleteoldrdn := ReadFlag(b, UNIVERSAL, BOOLEAN);
    if deleteoldrdn.None? {
      return None;
    }
    assert kids.Some? ==> b.Forest() == Some(kids.value[3..]);
    var newSuperior := ReadOptional(b, 0);
    if newSuperior.None? {
      return None;
    }
    return Some(ModifyDNRequest(entry.value, newrdn.value, deleteoldrdn.value, newSuperior.value));
  }

  method ReadCompareRequest(b: Bytes) returns (r: Option<Op>)
    requires b.Valid()
    modifies b`offset
    ensures b.Valid() && old(b.offset) <= b.offset
    ensures old(b.Forest()) == None && r.Some? ==> b.Forest() == None
    ensures old(b.Forest()).Some? ==> Complete(b, CompareRequestOf(old(b.Forest()).value), r)
  {
    hide ParseForest, StringOf, AssertionOf;
    ghost var kids := b.Forest();
    var entry := ReadString(b);
    if entry.None? {
      return None;
    }
    var ava := ReadAssertion(b, UNIVERSAL, SEQUENCE);
    if ava.None? {
      return None;
    }
    assert kids.Some? ==> b.Forest() == Some(kids.value[2..]);
    return Some(CompareRequest(entry.value, ava.value.0, ava.value.1));
  }

  method ReadExtendedRequest(b: Bytes) returns (r: Option<Op>)
    requires b.Valid()
    modifies b`offset
    ensures b.Valid() && old(b.offset) <= b.offset
    ensures old(b.Forest()) == None && r.Some? ==> b.Forest() == None
    ensures old(b.Forest()).Some? ==> Complete(b, ExtendedRequestOf(old(b.Forest()).value), r)
  {
    hide ParseForest, OctetsOf, TakeOptional;
    ghost var kids := b.Forest();
    var name := ReadOctets(b, CONTEXT, 0);
    if name.None? {
      return None;
    }
    var value := ReadOptional(b, 1);
    if value.None? {
      return None;
    }
    return Some(ExtendedRequest(name.value, value.value));
  }

  method ReadExtendedResponse(b: Bytes) returns (r: Option<Op>)
    requires b.Valid()
    modifies b`offset
    ensures b.Valid() && old(b.offset) <= b.offset
    ensures old(b.Forest()) == None && r.Some? ==> b.Forest() == None
    ensures old(b.Forest()).Some? ==> Complete(b, ExtendedResponseOf(old(b.Forest()).value), r)
  {
    hide ParseForest, TakeResult, TakeOptional;
    ghost var kids := b.Forest();
    var result := ReadResult(b);
    if result.None? {
      return None;
    }
    var name := ReadOptional(b, 10);
    if name.None? {
      return None;
    }
    var value := ReadOptional(b, 11);
    if value.None? {
      return None;
    }
    return Some(ExtendedResponse(result.value, name.value, value.value));
  }

  method ReadIntermediateResponse(b: Bytes) returns (r: Option<Op>)
    requires b.Valid()
    modifies b`offset
    ensures b.Valid() && old(b.offset) <= b.offset
    ensures old(b.Forest()) == None && r.Some? ==> b.Forest() == None
    ensures old(b.Forest()).Some? ==> Complete(b, IntermediateResponseOf(old(b.Forest()).value), r)
  {
    hide ParseForest, TakeOptional;
    ghost var kids := b.Forest();
    var name := ReadOptional(b, 0);
    if name.None? {
      return None;
    }
    var value := ReadOptional(b, 1);
    if value.None? {
      return None;
    }
    return Some(IntermediateResponse(name.value, value.value));
  }

  method ReadOpComponents(b: Bytes, t: Tag) returns (r: Option<Op>)
    requires b.Valid()
    modifies b`offset
    ensures b.Valid() && old(b.offset) <= b.offset
    ensures old(b.Forest()) == None && r.Some? ==> b.Forest() == None
    ensures old(b.Forest()).Some? ==> Complete(b, ConstructedOf(old(b.Forest()).value, t), r)
  {
    hide ParseForest, TakeResult, SearchOf, Values, BindRequestOf, BindResponseOf, SearchResultEntryOf,
         ModifyRequestOf, AddRequestOf, ModifyDNRequestOf, CompareRequestOf, ExtendedRequestOf, ExtendedResponseOf,
         IntermediateResponseOf;
    if t == 3 {
      var search := ReadSearchComponents(b);
      return if search.None? then None else Some(SearchRequest(search.value));
    } else if t == 19 {
      var uris := ReadStrings(b);
      return if uris.None? || uris.value == [] then None else Some(SearchResultReference(uris.value));
    } else if t == 0 {
      r := ReadBindRequest(b);
    } else if t == 1 {
      r := ReadBindResponse(b);
    } else if t == 4 {
      r := ReadSearchResultEntry(b);
    } else if t == 6 {
      r := ReadModifyRequest(b);
    } else if t == 8 {
      r := ReadAddRequest(b);
    } else if t == 12 {
      r := ReadModifyDNRequest(b);
    } else if t == 14 {
      r := ReadCompareRequest(b);
    } else if t == 23 {
      r := ReadExtendedRequest(b);
    } else if t == 24 {
      r := ReadExtendedResponse(b);
    } else if t == 25 {
      r := ReadIntermediateResponse(b);
    } else if ResponseKindOf(t).Some? {
      var result := ReadResult(b);
      return if result.None? then None else Some(Response(ResponseKindOf(t).value, result.value));
    } else {
      return None;
    }
  }

  method ReadConstructedOp(b: Bytes, t: Tag) returns (r: Option<Op>)
    requires b.Valid()
    modifies b`offset
    ensures Read(b, old(b.offset), old(b.Forest()), r.Some?)
    ensures HasFirst(old(b.Forest())) ==>
      r == if IsNode(First(old(b.Forest())), true, APPLICATION, t) then ConstructedOf(First(old(b.Forest())).kids, t) else None
  {
    hide ParseForest, ConstructedOf;
    var sub := b.EnterSubBytes(APPLICATION, t);
    if sub.None? {
      return None;
    }
    r := ReadOpComponents(sub.value, t);
    if r.Some? {
      var ok := b.LeaveSubBytes(sub.value);
      r := if ok then r else None;
    }
  }

  /** A NULL: its contents must be empty. */
  method ReadUnbind(b: Bytes) returns (r: Option<Op>)
    requires b.Valid()
    modifies b`offset
    ensures Read(b, old(b.offset), old(b.Forest()), r.Some?)
    ensures HasFirst(old(b.Forest())) ==>
      r == if First(old(b.Forest())) == Leaf(APPLICATION, 2, []) then Some(UnbindRequest) else None
  {
    hide ParseForest, ParseHeader;
    ghost var s := b.Rest();
    var length := b.ExpectSubBytes(false, APPLICATION, 2);
    if length.None? {
      NotAnnounced(s, false, APPLICATION, 2);
      return None;
    }
    LeafAnnounced(s, APPLICATION, 2);
    hide Announces, Cut;
    assert b.Rest()[0..] == b.Rest();
    return if length.value == 0 then Some(UnbindRequest) else None;
  }

  /** `readProtocolOp`: the next tag selects the operation. */
  method ReadOp(b: Bytes) returns (r: Option<Op>)
    requires b.Valid()
    modifies b`offset
    ensures Read(b, old(b.offset), old(b.Forest()), r.Some?)
    ensures HasFirst(old(b.Forest())) ==> r == OpOf(First(old(b.Forest())))
  {
    hide ParseForest, ParseHeader, PrimitiveOfBytes, ConstructedOf;
    var h := b.PreviewTagAndLength();
    if h.None? || h.value.tag > 30 {
      return None;
    }
    var tag := h.value.tag;
    if tag == 2 {
      r := ReadUnbind(b);
    } else if tag == 10 {
      var entry := ReadOctets(b, APPLICATION, 10);
      return if entry.None? then None else Some(DelRequest(entry.value));
    } else if tag == 16 {
      var id := ReadPositive(b, APPLICATION, 16);
      return if id.None? then None else Some(AbandonRequest(id.value));
    } else {
      r := ReadConstructedOp(b, tag);
    }
  }

  /******* Messages *******/

  method ReadControlSequence(b: Bytes) returns (r: Option<seq<Control>>)
    requires b.Valid()
    modifies b`offset
    ensures Read(b, old(b.offset), old(b.Forest()), r.Some?)
    ensures HasFirst(old(b.Forest())) ==>
      r == if IsNode(First(old(b.Forest())), true, CONTEXT, 0) then Values(ControlOf, First(old(b.Forest())).kids) else None
  {
    hide ParseForest, Values;
    var sub := b.EnterSubBytes(CONTEXT, 0);
    if sub.None? {
      return None;
    }
    r := ReadControls(sub.value);
    if r.Some? {
      var _ := b.LeaveSubBytes(sub.value);
    }
  }

  method ReadMessageComponents(b: Bytes) returns (r: Option<Message>)
    requires b.Valid()
    modifies b`offset
    ensures b.Valid() && old(b.offset) <= b.offset
    ensures old(b.Forest()) == None && r.Some? ==> b.Forest() == None
    ensures old(b.Forest()).Some? ==> Complete(b, MessageOfKids(old(b.Forest()).value), r)
  {
    hide ParseForest, ParseHeader, PositiveOf, OpOf, Values;
    ghost var kids := b.Forest();
    var id := ReadPositive(b, UNIVERSAL, INTEGER);
    if id.None? {
      return None;
    }
    var op := ReadOp(b);
    if op.None? {
      return None;
    }
    assert kids.Some? ==> b.Forest() == Some(kids.value[2..]);
    var m := Message(id.value, op.value, None);
    var more := b.HasMoreData();
    if !more {
      return Some(m);
    }
    var h := b.PreviewTagAndLength();
    if h.None? {
      return None;
    }
    if h.value.tag != 0 {
      return Some(m);
    }
    var controls := ReadControlSequence(b);
    if controls.None? {
      return None;
    }
    assert kids.Some? ==> b.Forest() == Some(kids.value[3..]);
    return Some(m.(controls := controls));
  }

  /** `ReadLDAPMessage`: what follows the message is left alone. */
  method ReadMessage(b: Bytes) returns (r: Option<Message>)
    requires b.Valid()
    modifies b`offset
    ensures r == DecodeMessage(old(b.Rest())) && b.Valid()
    ensures r.Some? ==> b.offset == old(b.offset) + ParseOne(old(b.Rest())).value.1
  {
    hide ParseForest, ParseHeader, ParseOne, MessageOfKids, Announces, Cut;
    ghost var s := b.Rest();
    var sub := b.EnterSubBytes(UNIVERSAL, SEQUENCE);
    if sub.None? {
      NoneAnnounced(s, UNIVERSAL, SEQUENCE);
      return None;
    }
    OneAnnounced(s, UNIVERSAL, SEQUENCE);
    r := ReadMessageComponents(sub.value);
    if r.Some? {
      var ok := b.LeaveSubBytes(sub.value);
      r := if ok then r else None;
    }
  }
}

/** The values that trees stand for are those RFC 4511 gives them, octet by octet. */
module WireReading {
  import opened Wrappers
  import opened BerInteger
  import opened Ber
  import opened Cursor
  import opened Ldap
  import opened LdapTheory
  import opened X690
  import opened Rfc4511

  /******* Leaves *******/

  lemma StrRead(n: Node, c: Class, t: Tag, s: Str)
    ensures OctetsOf(n, c, t) == Some(s) <==> HasStr(n, 0x40 * c + t, s)
  {
    OctetTells(n, c, false, t);
    hide Octet;
  }

  lemma Str04Read(n: Node, s: Str)
    ensures StringOf(n) == Some(s) <==> HasStr04(n, s)
  {
    StrRead(n, UNIVERSAL, OCTET_STRING, s);
    hide OctetsOf, HasStr;
  }

  lemma TaggedRead(n: Node, t: Tag, s: Str)
    ensures TaggedOf(n, t) == Some(s) <==> HasStr(n, 0x80 + t, s)
  {
    StrRead(n, CONTEXT, t, s);
    hide OctetsOf, HasStr;
  }

  lemma NumRead(n: Node, c: Class, t: Tag, i: int32)
    ensures NumberOf(n, c, t) == Some(i) <==> HasNum(n, 0x40 * c + t, i)
  {
    OctetTells(n, c, false, t);
    if n.Leaf? { ReadsInt(n.content); }
    hide Octet, Signed, Twos;
  }

  lemma FlagRead(n: Node, c: Class, t: Tag, b: bool)
    ensures FlagOf(n, c, t) == Some(b) <==> HasFlag(n, 0x40 * c + t, b)
  {
    OctetTells(n, c, false, t);
    hide Octet;
  }

  lemma BranchRead(n: Node, c: Class, t: Tag)
    ensures IsNode(n, true, c, t) <==> HasKids(n, 0x40 * c + 0x20 + t, if n.Branch? then |n.kids| else 0)
  {
    OctetTells(n, c, true, t);
    hide Octet;
  }

  /******* Lists *******/

  lemma {:induction false} EachRead<T(!new)>(of: Node -> Option<T>, has: (Node, T) -> bool, ns: seq<Node>, vs: seq<T>)
    requires forall n: Node, v: T :: of(n) == Some(v) <==> has(n, v)
    ensures Values(of, ns) == Some(vs) <==> |ns| == |vs| && forall i | 0 <= i < |vs| :: has(ns[i], vs[i])
  {
    if ns != [] && vs != [] {
      EachRead(of, has, ns[1..], vs[1..]);
      assert forall i | 1 <= i < |ns| :: ns[i] == ns[1..][i - 1];
      assert forall i | 1 <= i < |vs| :: vs[i] == vs[1..][i - 1];
      FirstAndRest(has, ns, vs);
      assert vs == [vs[0]] + vs[1..];
    }
  }

  lemma FirstAndRest<T(!new)>(has: (Node, T) -> bool, ns: seq<Node>, vs: seq<T>)
    requires |ns| == |vs| != 0 || (ns != [] && vs != [])
    ensures |ns| == |vs| && (forall i | 0 <= i < |vs| :: has(ns[i], vs[i]))
            <==> has(ns[0], vs[0]) && |ns[1..]| == |vs[1..]| && forall i | 0 <= i < |vs[1..]| :: has(ns[1..][i], vs[1..][i])
  {
    if has(ns[0], vs[0]) && |ns[1..]| == |vs[1..]| && forall i | 0 <= i < |vs[1..]| :: has(ns[1..][i], vs[1..][i]) {
      forall i | 0 <= i < |vs|
        ensures has(ns[i], vs[i])
      {
        if i > 0 { assert has(ns[1..][i - 1], vs[1..][i - 1]); }
      }
    }
  }

  lemma ListRead<T(!new)>(of: Node -> Option<T>, has: (Node, T) -> bool, n: Node, c: Class, t: Tag, vs: seq<T>)
    requires forall n: Node, v: T :: of(n) == Some(v) <==> has(n, v)
    ensures IsNode(n, true, c, t) && Values(of, n.kids) == Some(vs) <==> HasEach(n, 0x40 * c + 0x20 + t, has, vs)
  {
    BranchRead(n, c, t);
    hide Octet, Values;
    if n.Branch? { EachRead(of, has, n.kids, vs); }
  }

  lemma StringsRead(n: Node, c: Class, t: Tag, vs: seq<Str>)
    ensures StringsOf(n, c, t) == Some(vs) <==> HasEach(n, 0x40 * c + 0x20 + t, HasStr04, vs)
  {
    forall n, v { Str04Read(n, v); }
    hide StringOf, HasStr04, Values, HasEach;
    ListRead(StringOf, HasStr04, n, c, t, vs);
  }

  /******* Optional parts *******/

  lemma OptRead(ns: seq<Node>, at: nat, t: Tag, s: Option<Str>, rest: seq<Node>)
    requires at <= |ns| && (rest == [] || rest[0].tag != t)
    ensures TakeOptional(ns[at..], t) == Some((s, rest))
            <==> at + Count(s) <= |ns| && HasOpt(ns, at, 0x80 + t, s) && rest == ns[at + Count(s)..]
  {
    if at < |ns| {
      if s.Some? { TaggedRead(ns[at], t, s.value); }
      TagOf(ns[at], t);
      assert ns[at..][1..] == ns[at + 1..];
    }
    hide HasStr, TaggedOf;
  }

  lemma TagOf(n: Node, t: Tag)
    ensures TaggedOf(n, t).Some? ==> n.tag == t
    ensures Octet(n) == 0x80 + t ==> n.tag == t
  {
  }

  lemma LastRead(ns: seq<Node>, at: nat, t: Tag, s: Option<Str>)
    requires at <= |ns|
    ensures TakeOptional(ns[at..], t) == Some((s, [])) <==> |ns| == at + Count(s) && HasOpt(ns, at, 0x80 + t, s)
  {
    OptRead(ns, at, t, s, []);
    hide TakeOptional, HasOpt;
  }

  /** Two in a row, with nothing after them. */
  lemma TwoRead(ns: seq<Node>, at: nat, t: Tag, u: Tag, a: Option<Str>, b: Option<Str>)
    requires at <= |ns| && t != u
    ensures (exists rest :: TakeOptional(ns[at..], t) == Some((a, rest)) && TakeOptional(rest, u) == Some((b, [])))
            <==> && |ns| == at + Count(a) + Count(b)
                 && HasOpt(ns, at, 0x80 + t, a) && HasOpt(ns, at + Count(a), 0x80 + u, b)
  {
    if rest :| TakeOptional(ns[at..], t) == Some((a, rest)) && TakeOptional(rest, u) == Some((b, [])) {
      TookTag(rest, u, b, []);
      OptRead(ns, at, t, a, rest);
      LastRead(ns, at + Count(a), u, b);
    }
    if |ns| == at + Count(a) + Count(b) && HasOpt(ns, at, 0x80 + t, a) && HasOpt(ns, at + Count(a), 0x80 + u, b) {
      var rest := ns[at + Count(a)..];
      if b.Some? { TagOf(rest[0], u); }
      OptRead(ns, at, t, a, rest);
      LastRead(ns, at + Count(a), u, b);
      assert TakeOptional(ns[at..], t) == Some((a, rest));
    }
    hide TakeOptional, HasStr;
  }

  lemma TookTag(ns: seq<Node>, t: Tag, s: Option<Str>, rest: seq<Node>)
    requires TakeOptional(ns, t) == Some((s, rest))
    ensures if s.Some? then ns != [] && ns[0].tag == t && rest == ns[1..] else rest == ns
  {
    hide TaggedOf;
  }

  /******* Filters *******/

  lemma SubstringRead(n: Node, s: Substring)
    ensures SubstringOf(n) == Some(s) <==> IsSubstring(n, s)
  {
    TaggedRead(n, n.tag, s.value);
    OctetTells(n, CONTEXT, false, 0);
    OctetTells(n, CONTEXT, false, 1);
    OctetTells(n, CONTEXT, false, 2);
    hide Octet;
  }

  lemma {:induction false} OccurrencesAtMost(subs: seq<Substring>, p: Position)
    ensures Occurrences(subs, p) == 0 <==> forall i | 0 <= i < |subs| :: subs[i].position != p
    ensures Occurrences(subs, p) <= 1 <==> OnceAtMost(subs, p)
  {
    if subs != [] {
      var rest := subs[1..];
      OccurrencesAtMost(rest, p);
      assert forall i | 1 <= i < |subs| :: subs[i] == rest[i - 1];
      assert forall i | 0 <= i < |rest| :: rest[i] == subs[i + 1];
    }
  }

  lemma SubstringsRead(n: Node, f: Filter)
    requires f.Substrings? && n.Branch? && Octet(n) == 0xA4
    ensures SubstringsOf(n.kids) == Some(f) <==> IsFilter(n, f)
  {
    hide SubstringOf, IsSubstring, Values, Octet, HasStr04, StringOf, Occurrences, OnceAtMost, HasEach, IsNode;
    forall n, s { SubstringRead(n, s); }
    if |n.kids| == 2 {
      Str04Read(n.kids[0], f.type_);
      ListRead(SubstringOf, IsSubstring, n.kids[1], UNIVERSAL, SEQUENCE, f.substrings);
      OccurrencesAtMost(f.substrings, Initial);
      OccurrencesAtMost(f.substrings, Final);
    }
  }

  /** The two optional parts, and the two that follow. */
  predicate ExtensibleFrom(ns: seq<Node>, kids1: seq<Node>, kids2: seq<Node>, f: Filter)
    requires f.ExtensibleMatch?
  {
    && TakeOptional(ns, 1) == Some((f.rule, kids1)) && TakeOptional(kids1, 2) == Some((f.attribute, kids2))
    && |kids2| == 2 && TaggedOf(kids2[0], 3) == Some(f.value) && FlagOf(kids2[1], CONTEXT, 4) == Some(f.dnAttributes)
  }

  lemma ExtensibleParts(ns: seq<Node>, f: Filter)
    requires f.ExtensibleMatch?
    ensures ExtensibleOf(ns) == Some(f) <==> exists kids1, kids2 :: ExtensibleFrom(ns, kids1, kids2, f)
  {
    hide TakeOptional, TaggedOf, FlagOf;
    if ExtensibleOf(ns) == Some(f) {
      var kids1 := TakeOptional(ns, 1).value.1;
      assert ExtensibleFrom(ns, kids1, TakeOptional(kids1, 2).value.1, f);
    }
  }

  lemma ExtensibleTaken(ns: seq<Node>, f: Filter, kids1: seq<Node>, kids2: seq<Node>)
    requires f.ExtensibleMatch? && ExtensibleFrom(ns, kids1, kids2, f)
    ensures Count(f.rule) + Count(f.attribute) <= |ns|
    ensures kids1 == ns[Count(f.rule)..] && kids2 == ns[Count(f.rule) + Count(f.attribute)..]
    ensures HasOpt(ns, 0, 0x81, f.rule) && HasOpt(ns, Count(f.rule), 0x82, f.attribute)
  {
    hide TakeOptional, HasOpt, TaggedOf, FlagOf;
    TookTag(kids1, 2, f.attribute, kids2);
    TagOf(kids2[0], 3);
    assert ns[0..] == ns;
    OptRead(ns, 0, 1, f.rule, kids1);
    OptRead(ns, Count(f.rule), 2, f.attribute, kids2);
  }

  lemma ExtensibleGiven(ns: seq<Node>, f: Filter, i: nat, j: nat)
    requires f.ExtensibleMatch? && i == Count(f.rule) && j == i + Count(f.attribute) && |ns| == j + 2
    requires HasOpt(ns, 0, 0x81, f.rule) && HasOpt(ns, i, 0x82, f.attribute)
    requires TaggedOf(ns[j], 3) == Some(f.value) && FlagOf(ns[j + 1], CONTEXT, 4) == Some(f.dnAttributes)
    ensures ExtensibleFrom(ns, ns[i..], ns[j..], f)
  {
    hide TakeOptional, HasOpt, TaggedOf, FlagOf;
    TagOf(ns[j], 3);
    if f.attribute.Some? { OptTag(ns, i, 2, f.attribute); }
    assert ns[0..] == ns;
    OptRead(ns, i, 2, f.attribute, ns[j..]);
    OptRead(ns, 0, 1, f.rule, ns[i..]);
  }

  lemma ExtensibleRead(n: Node, f: Filter)
    requires f.ExtensibleMatch? && n.Branch? && Octet(n) == 0xA9
    ensures ExtensibleOf(n.kids) == Some(f) <==> IsFilter(n, f)
  {
    hide TakeOptional, HasOpt, Octet, TaggedOf, HasStr, FlagOf, HasFlag, ExtensibleOf, ExtensibleFrom, IsFilter;
    var ns := n.kids;
    var i, j := Count(f.rule), Count(f.rule) + Count(f.attribute);
    ExtensibleParts(ns, f);
    IsExtensible(n, f);
    if j + 1 < |ns| {
      TaggedRead(ns[j], 3, f.value);
      FlagRead(ns[j + 1], CONTEXT, 4, f.dnAttributes);
    }
    if kids1, kids2 :| ExtensibleFrom(ns, kids1, kids2, f) {
      ExtensibleTaken(ns, f, kids1, kids2);
      FromLast(ns, kids1, kids2, f, j);
    }
    if IsFilter(n, f) { ExtensibleGiven(ns, f, i, j); }
  }

  lemma FromLast(ns: seq<Node>, kids1: seq<Node>, kids2: seq<Node>, f: Filter, j: nat)
    requires f.ExtensibleMatch? && ExtensibleFrom(ns, kids1, kids2, f) && j <= |ns| && kids2 == ns[j..]
    ensures |ns| == j + 2
    ensures TaggedOf(ns[j], 3) == Some(f.value) && FlagOf(ns[j + 1], CONTEXT, 4) == Some(f.dnAttributes)
  {
    hide TakeOptional, TaggedOf, FlagOf;
  }

  lemma IsExtensible(n: Node, f: Filter)
    requires f.ExtensibleMatch? && n.Branch? && Octet(n) == 0xA9
    ensures var i, j := Count(f.rule), Count(f.rule) + Count(f.attribute);
            IsFilter(n, f) <==>
              && |n.kids| == j + 2 && HasOpt(n.kids, 0, 0x81, f.rule) && HasOpt(n.kids, i, 0x82, f.attribute)
              && HasStr(n.kids[j], 0x83, f.value) && HasFlag(n.kids[j + 1], 0x84, f.dnAttributes)
  {
    hide Octet, HasOpt, HasStr, HasFlag;
  }

  lemma OptTag(ns: seq<Node>, at: nat, t: Tag, s: Option<Str>)
    requires s.Some? && HasOpt(ns, at, 0x80 + t, s)
    ensures at < |ns| && ns[at].tag == t
  {
    TagOf(ns[at], t);
  }

  lemma AssertionRead(n: Node, c: Class, t: Tag, desc: Str, value: Str)
    ensures IsNode(n, true, c, t) && AssertionOf(n.kids) == Some((desc, value))
            <==> IsAssertion(n, 0x40 * c + 0x20 + t, desc, value)
  {
    BranchRead(n, c, t);
    if n.Branch? && |n.kids| == 2 {
      Str04Read(n.kids[0], desc);
      Str04Read(n.kids[1], value);
    }
    hide Octet, StringOf, HasStr04;
  }

  /** Which alternative a tree may stand for. */
  lemma FilterDispatch(n: Node, f: Filter)
    ensures f.And? ==> (FilterOf(n) == Some(f) <==>
                          IsNode(n, true, CONTEXT, 0) && f.filters != [] && FiltersOf(n.kids) == Some(f.filters))
    ensures f.Or? ==> (FilterOf(n) == Some(f) <==>
                         IsNode(n, true, CONTEXT, 1) && f.filters != [] && FiltersOf(n.kids) == Some(f.filters))
    ensures f.Not? ==> (FilterOf(n) == Some(f) <==>
                          IsNode(n, true, CONTEXT, 2) && |n.kids| == 1 && FilterOf(n.kids[0]) == Some(f.filter))
    ensures f.Substrings? ==> (FilterOf(n) == Some(f) <==> IsNode(n, true, CONTEXT, 4) && SubstringsOf(n.kids) == Some(f))
    ensures f.Present? ==> (FilterOf(n) == Some(f) <==> TaggedOf(n, 7) == Some(f.desc))
    ensures f.ExtensibleMatch? ==>
              (FilterOf(n) == Some(f) <==> IsNode(n, true, CONTEXT, 9) && ExtensibleOf(n.kids) == Some(f))
  {
    TagOf(n, 7);
    if n.Branch? { FilterKinds(n); }
    hide SubstringsOf, ExtensibleOf, CompareOf, FiltersOf, TaggedOf;
    assert TaggedOf(n, 7).Some? ==> n.class_ == CONTEXT by { TaggedClass(n); }
  }

  lemma TaggedClass(n: Node)
    ensures TaggedOf(n, 7).Some? ==> n.class_ == CONTEXT
  {
  }

  lemma FilterKinds(n: Node)
    requires n.Branch?
    ensures SubstringsOf(n.kids).Some? ==> SubstringsOf(n.kids).value.Substrings?
    ensures ExtensibleOf(n.kids).Some? ==> ExtensibleOf(n.kids).value.ExtensibleMatch?
    ensures CompareOf(n.kids, n.tag).Some? ==> CompareOf(n.kids, n.tag).value.Compare?
  {
    hide TakeOptional, StringOf, Values, GoodSubstrings, TaggedOf, FlagOf;
  }

  lemma CompareRead(n: Node, f: Filter)
    requires f.Compare?
    ensures FilterOf(n) == Some(f) <==> IsNode(n, true, CONTEXT, ComparisonTag(f.comparison))
                                        && AssertionOf(n.kids) == Some((f.desc, f.value))
  {
    if n.Branch? { FilterKinds(n); }
    hide SubstringsOf, ExtensibleOf, FiltersOf, TaggedOf, AssertionOf;
  }

  /** A tree stands for a filter exactly when it is one of the standard's for it. */
  lemma {:induction false} FilterRead(n: Node, f: Filter)
    ensures FilterOf(n) == Some(f) <==> IsFilter(n, f)
    decreases n
  {
    hide TaggedOf, HasStr, Octet, SubstringsOf, ExtensibleOf, CompareOf, FiltersOf, FilterOf, HasEach, Values, IsNode,
         AssertionOf, IsAssertion;
    FilterDispatch(n, f);
    match f {
      case And(fs) =>
        BranchRead(n, CONTEXT, 0);
        if n.Branch? { FiltersRead(n.kids, fs); }
      case Or(fs) =>
        BranchRead(n, CONTEXT, 1);
        if n.Branch? { FiltersRead(n.kids, fs); }
      case Not(g) =>
        BranchRead(n, CONTEXT, 2);
        if n.Branch? && |n.kids| == 1 { FilterRead(n.kids[0], g); }
      case Compare(comparison, desc, value) =>
        CompareRead(n, f);
        AssertionRead(n, CONTEXT, ComparisonTag(comparison), desc, value);
      case Substrings(_, _) =>
        BranchRead(n, CONTEXT, 4);
        if n.Branch? && Octet(n) == 0xA4 { SubstringsRead(n, f); }
      case Present(desc) => TaggedRead(n, 7, desc);
      case ExtensibleMatch(_, _, _, _) =>
        BranchRead(n, CONTEXT, 9);
        if n.Branch? && Octet(n) == 0xA9 { ExtensibleRead(n, f); }
    }
  }

  lemma {:induction false} FiltersRead(ns: seq<Node>, fs: seq<Filter>)
    ensures FiltersOf(ns) == Some(fs) <==> |ns| == |fs| && forall i | 0 <= i < |fs| :: IsFilter(ns[i], fs[i])
    decreases ns
  {
    hide FilterOf, IsFilter;
    if ns != [] && fs != [] {
      FilterRead(ns[0], fs[0]);
      FiltersRead(ns[1..], fs[1..]);
      assert forall i | 1 <= i < |ns| :: ns[i] == ns[1..][i - 1];
      assert forall i | 1 <= i < |fs| :: fs[i] == fs[1..][i - 1];
      FirstAndRest((n: Node, f: Filter) => IsFilter(n, f), ns, fs);
      assert fs == [fs[0]] + fs[1..];
    }
  }
}

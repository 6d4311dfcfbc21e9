/**
 * The messages of RFC 4511 Appendix B, octet by octet: for every value the octets that are written for it,
 * and for every tree of elements the value it stands for. Identifier octets, ranges and the order of the
 * fields are spelled out here once more, as the standard has them.
 */
module Rfc4511 {
  import opened Wrappers
  import opened BerInteger
  import opened Ber
  import opened Ldap
  import opened X690

  /******* What is written *******/

  function Str04(s: Str): Str { Tlv(0x04, s) }
  function Opt(o: byte, s: Option<Str>): Str { if s.None? then [] else Tlv(o, s.value) }
  function Flag(o: byte, b: bool): Str { Tlv(o, [if b then 0xFF else 0x00]) }
  function Num(o: byte, i: int32): Str { Tlv(o, IntOctets(i)) }

  /** One after the other. */
  function Each<T>(write: T -> Str, vs: seq<T>): Str {
    if vs == [] then [] else write(vs[0]) + Each(write, vs[1..])
  }

  function SubstringOctets(s: Substring): Str {
    Tlv(match s.position case Initial => 0x80 case Any => 0x81 case Final => 0x82, s.value)
  }

  function FilterOctets(f: Filter): Str {
    match f
    case And(fs) => Tlv(0xA0, FiltersOctets(fs))
    case Or(fs) => Tlv(0xA1, FiltersOctets(fs))
    case Not(g) => Tlv(0xA2, FilterOctets(g))
    case Compare(Equality, desc, value) => Tlv(0xA3, Str04(desc) + Str04(value))
    case Substrings(type_, subs) => Tlv(0xA4, Str04(type_) + Tlv(0x30, Each(SubstringOctets, subs)))
    case Compare(GreaterOrEqual, desc, value) => Tlv(0xA5, Str04(desc) + Str04(value))
    case Compare(LessOrEqual, desc, value) => Tlv(0xA6, Str04(desc) + Str04(value))
    case Present(desc) => Tlv(0x87, desc)
    case Compare(Approx, desc, value) => Tlv(0xA8, Str04(desc) + Str04(value))
    case ExtensibleMatch(rule, attribute, value, dnAttributes) =>
      Tlv(0xA9, Opt(0x81, rule) + Opt(0x82, attribute) + Tlv(0x83, value)
                + if dnAttributes then Flag(0x84, true) else [])
  }

  function FiltersOctets(fs: seq<Filter>): Str {
    if fs == [] then [] else FilterOctets(fs[0]) + FiltersOctets(fs[1..])
  }

  function ResultOctets(r: Result): Str {
    Num(0x0A, r.code) + Str04(r.matchedDN) + Str04(r.diagnostic)
    + if r.referral.None? then [] else Tlv(0xA3, Each(Str04, r.referral.value))
  }

  function ControlOctets(c: Control): Str {
    Tlv(0x30, Str04(c.type_) + (if c.criticality then Flag(0x01, true) else []) + Opt(0x04, c.value))
  }

  function PartialOctets(a: PartialAttribute): Str {
    Tlv(0x30, Str04(a.type_) + Tlv(0x31, Each(Str04, a.vals)))
  }

  function ChangeOctets(c: Change): Str {
    Tlv(0x30, Num(0x0A, c.operation) + PartialOctets(c.modification))
  }

  function AuthenticationOctets(a: Authentication): Str {
    match a
    case Simple(password) => Tlv(0x80, password)
    case Sasl(mechanism, credentials) => Tlv(0xA3, Str04(mechanism) + Opt(0x04, credentials))
  }

  function SearchOctets(s: Search): Str {
    (Str04(s.baseObject) + Num(0x0A, s.scope) + Num(0x0A, s.derefAliases))
    + (Num(0x02, s.sizeLimit) + Num(0x02, s.timeLimit) + Flag(0x01, s.typesOnly))
    + (FilterOctets(s.filter) + Tlv(0x30, Each(Str04, s.attributes)))
  }

  function OpOctets(op: Op): Str {
    match op
    case BindRequest(version, name, auth) => Tlv(0x60, Num(0x02, version) + Str04(name) + AuthenticationOctets(auth))
    case BindResponse(result, creds) => Tlv(0x61, ResultOctets(result) + Opt(0x87, creds))
    case UnbindRequest => Tlv(0x42, [])
    case SearchRequest(search) => Tlv(0x63, SearchOctets(search))
    case SearchResultEntry(name, attributes) => Tlv(0x64, Str04(name) + Tlv(0x30, Each(PartialOctets, attributes)))
    case Response(SearchDone, result) => Tlv(0x65, ResultOctets(result))
    case ModifyRequest(target, changes) => Tlv(0x66, Str04(target) + Tlv(0x30, Each(ChangeOctets, changes)))
    case Response(ModifyDone, result) => Tlv(0x67, ResultOctets(result))
    case AddRequest(entry, attributes) => Tlv(0x68, Str04(entry) + Tlv(0x30, Each(PartialOctets, attributes)))
    case Response(AddDone, result) => Tlv(0x69, ResultOctets(result))
    case DelRequest(entry) => Tlv(0x4A, entry)
    case Response(DelDone, result) => Tlv(0x6B, ResultOctets(result))
    case ModifyDNRequest(entry, newrdn, deleteoldrdn, newSuperior) =>
      Tlv(0x6C, Str04(entry) + Str04(newrdn) + Flag(0x01, deleteoldrdn) + Opt(0x80, newSuperior))
    case Response(ModifyDNDone, result) => Tlv(0x6D, ResultOctets(result))
    case CompareRequest(entry, desc, value) => Tlv(0x6E, Str04(entry) + Tlv(0x30, Str04(desc) + Str04(value)))
    case Response(CompareDone, result) => Tlv(0x6F, ResultOctets(result))
    case AbandonRequest(id) => Num(0x50, id)
    case SearchResultReference(uris) => Tlv(0x73, Each(Str04, uris))
    case ExtendedRequest(name, value) => Tlv(0x77, Tlv(0x80, name) + Opt(0x81, value))
    case ExtendedResponse(result, name, value) => Tlv(0x78, ResultOctets(result) + Opt(0x8A, name) + Opt(0x8B, value))
    case IntermediateResponse(name, value) => Tlv(0x79, Opt(0x80, name) + Opt(0x81, value))
  }

  function MessageOctets(m: Message): Str {
    Tlv(0x30, Num(0x02, m.id) + OpOctets(m.op)
              + if m.controls.None? then [] else Tlv(0xA0, Each(ControlOctets, m.controls.value)))
  }

  /******* What is accepted *******/

  predicate HasStr(n: Node, o: byte, s: Str) {
    n.Leaf? && Octet(n) == o && n.content == s
  }

  predicate HasNum(n: Node, o: byte, i: int) {
    n.Leaf? && Octet(n) == o && |n.content| <= 8 && Twos(n.content) == i
  }

  predicate HasFlag(n: Node, o: byte, b: bool) {
    n.Leaf? && Octet(n) == o && n.content == [if b then 0xFF else 0x00]
  }

  predicate HasKids(n: Node, o: byte, count: nat) {
    n.Branch? && Octet(n) == o && |n.kids| == count
  }

  ghost predicate HasEach<T>(n: Node, o: byte, has: (Node, T) -> bool, vs: seq<T>) {
    HasKids(n, o, |vs|) && forall i | 0 <= i < |vs| :: has(n.kids[i], vs[i])
  }

  predicate HasStr04(n: Node, s: Str) {
    HasStr(n, 0x04, s)
  }

  /** At this place, if there is a value at all. */
  predicate HasOpt(ns: seq<Node>, at: nat, o: byte, s: Option<Str>) {
    s.Some? ==> at < |ns| && HasStr(ns[at], o, s.value)
  }

  function Count<T>(s: Option<T>): nat {
    if s.Some? then 1 else 0
  }

  predicate IsSubstring(n: Node, s: Substring) {
    HasStr(n, match s.position case Initial => 0x80 case Any => 0x81 case Final => 0x82, s.value)
  }

  predicate OnceAtMost(subs: seq<Substring>, p: Position) {
    forall i, j | 0 <= i < j < |subs| :: !(subs[i].position == p && subs[j].position == p)
  }

  ghost predicate IsFilter(n: Node, f: Filter) {
    match f
    case And(fs) => fs != [] && HasKids(n, 0xA0, |fs|) && forall i | 0 <= i < |fs| :: IsFilter(n.kids[i], fs[i])
    case Or(fs) => fs != [] && HasKids(n, 0xA1, |fs|) && forall i | 0 <= i < |fs| :: IsFilter(n.kids[i], fs[i])
    case Not(g) => HasKids(n, 0xA2, 1) && IsFilter(n.kids[0], g)
    case Compare(Equality, desc, value) => IsAssertion(n, 0xA3, desc, value)
    case Substrings(type_, subs) =>
      && HasKids(n, 0xA4, 2) && HasStr04(n.kids[0], type_) && HasEach(n.kids[1], 0x30, IsSubstring, subs)
      && subs != [] && OnceAtMost(subs, Initial) && OnceAtMost(subs, Final)
    case Compare(GreaterOrEqual, desc, value) => IsAssertion(n, 0xA5, desc, value)
    case Compare(LessOrEqual, desc, value) => IsAssertion(n, 0xA6, desc, value)
    case Present(desc) => HasStr(n, 0x87, desc)
    case Compare(Approx, desc, value) => IsAssertion(n, 0xA8, desc, value)
    case ExtensibleMatch(rule, attribute, value, dnAttributes) =>
      var i := Count(rule) + Count(attribute);
      && HasKids(n, 0xA9, i + 2) && HasOpt(n.kids, 0, 0x81, rule) && HasOpt(n.kids, Count(rule), 0x82, attribute)
      && HasStr(n.kids[i], 0x83, value) && HasFlag(n.kids[i + 1], 0x84, dnAttributes)
  }

  predicate IsAssertion(n: Node, o: byte, desc: Str, value: Str) {
    HasKids(n, o, 2) && HasStr04(n.kids[0], desc) && HasStr04(n.kids[1], value)
  }

  const RESULT_CODES: set<int> :=
    {0, 1, 2, 3, 4, 5, 6, 7, 8, 10, 11, 12, 13, 14, 16, 17, 18, 19, 20, 21, 32, 33, 34, 36,
     48, 49, 50, 51, 52, 53, 54, 64, 65, 66, 67, 68, 69, 71, 80}

  /** A result in front; its referral is the fourth element if there is one. */
  ghost predicate IsResult(ns: seq<Node>, r: Result) {
    && |ns| >= 3 + Count(r.referral)
    && HasNum(ns[0], 0x0A, r.code) && r.code in RESULT_CODES
    && HasStr04(ns[1], r.matchedDN) && HasStr04(ns[2], r.diagnostic)
    && (r.referral.Some? ==> r.referral.value != [] && HasEach(ns[3], 0xA3, HasStr04, r.referral.value))
  }

  /** A criticality of FALSE must be left out. */
  predicate IsControl(n: Node, c: Control) {
    var i := if c.criticality then 2 else 1;
    && HasKids(n, 0x30, i + Count(c.value)) && HasStr04(n.kids[0], c.type_)
    && (c.criticality ==> HasFlag(n.kids[1], 0x01, true)) && HasOpt(n.kids, i, 0x04, c.value)
  }

  ghost predicate IsPartial(n: Node, a: PartialAttribute) {
    HasKids(n, 0x30, 2) && HasStr04(n.kids[0], a.type_) && HasEach(n.kids[1], 0x31, HasStr04, a.vals)
  }

  ghost predicate IsAttribute(n: Node, a: PartialAttribute) {
    IsPartial(n, a) && a.vals != []
  }

  ghost predicate IsChange(n: Node, c: Change) {
    HasKids(n, 0x30, 2) && HasNum(n.kids[0], 0x0A, c.operation) && c.operation in {0, 1, 2} && IsPartial(n.kids[1], c.modification)
  }

  predicate IsAuthentication(n: Node, a: Authentication) {
    match a
    case Simple(password) => HasStr(n, 0x80, password)
    case Sasl(mechanism, credentials) =>
      HasKids(n, 0xA3, 1 + Count(credentials)) && HasStr04(n.kids[0], mechanism) && HasOpt(n.kids, 1, 0x04, credentials)
  }

  ghost predicate IsSearch(ns: seq<Node>, s: Search) {
    && |ns| == 8
    && HasStr04(ns[0], s.baseObject)
    && HasNum(ns[1], 0x0A, s.scope) && s.scope in {0, 1, 2}
    && HasNum(ns[2], 0x0A, s.derefAliases) && s.derefAliases in {0, 1, 2, 3}
    && HasNum(ns[3], 0x02, s.sizeLimit) && s.sizeLimit >= 0
    && HasNum(ns[4], 0x02, s.timeLimit) && s.timeLimit >= 0
    && HasFlag(ns[5], 0x01, s.typesOnly)
    && IsFilter(ns[6], s.filter)
    && HasEach(ns[7], 0x30, HasStr04, s.attributes)
  }

  ghost predicate IsOp(n: Node, op: Op) {
    match op
    case BindRequest(version, name, auth) =>
      && HasKids(n, 0x60, 3) && HasNum(n.kids[0], 0x02, version) && 1 <= version <= 127
      && HasStr04(n.kids[1], name) && IsAuthentication(n.kids[2], auth)
    case BindResponse(result, creds) =>
      var i := 3 + Count(result.referral);
      HasKids(n, 0x61, i + Count(creds)) && IsResult(n.kids, result) && HasOpt(n.kids, i, 0x87, creds)
    case UnbindRequest => HasStr(n, 0x42, [])
    case SearchRequest(search) => HasKids(n, 0x63, 8) && IsSearch(n.kids, search)
    case SearchResultEntry(name, attributes) => IsNamed(n, 0x64, name) && HasEach(n.kids[1], 0x30, IsPartial, attributes)
    case Response(SearchDone, result) => IsResponse(n, 0x65, result)
    case ModifyRequest(target, changes) => IsNamed(n, 0x66, target) && HasEach(n.kids[1], 0x30, IsChange, changes)
    case Response(ModifyDone, result) => IsResponse(n, 0x67, result)
    case AddRequest(entry, attributes) => IsNamed(n, 0x68, entry) && HasEach(n.kids[1], 0x30, IsAttribute, attributes)
    case Response(AddDone, result) => IsResponse(n, 0x69, result)
    case DelRequest(entry) => HasStr(n, 0x4A, entry)
    case Response(DelDone, result) => IsResponse(n, 0x6B, result)
    case ModifyDNRequest(entry, newrdn, deleteoldrdn, newSuperior) =>
      && HasKids(n, 0x6C, 3 + Count(newSuperior)) && HasStr04(n.kids[0], entry) && HasStr04(n.kids[1], newrdn)
      && HasFlag(n.kids[2], 0x01, deleteoldrdn) && HasOpt(n.kids, 3, 0x80, newSuperior)
    case Response(ModifyDNDone, result) => IsResponse(n, 0x6D, result)
    case CompareRequest(entry, desc, value) => IsNamed(n, 0x6E, entry) && IsAssertion(n.kids[1], 0x30, desc, value)
    case Response(CompareDone, result) => IsResponse(n, 0x6F, result)
    case AbandonRequest(id) => HasNum(n, 0x50, id) && id >= 0
    case SearchResultReference(uris) => uris != [] && HasEach(n, 0x73, HasStr04, uris)
    case ExtendedRequest(name, value) =>
      HasKids(n, 0x77, 1 + Count(value)) && HasStr(n.kids[0], 0x80, name) && HasOpt(n.kids, 1, 0x81, value)
    case ExtendedResponse(result, name, value) =>
      var i := 3 + Count(result.referral);
      && HasKids(n, 0x78, i + Count(name) + Count(value)) && IsResult(n.kids, result)
      && HasOpt(n.kids, i, 0x8A, name) && HasOpt(n.kids, i + Count(name), 0x8B, value)
    case IntermediateResponse(name, value) =>
      && HasKids(n, 0x79, Count(name) + Count(value))
      && HasOpt(n.kids, 0, 0x80, name) && HasOpt(n.kids, Count(name), 0x81, value)
  }

  /** A name in front, and one element after it. */
  predicate IsNamed(n: Node, o: byte, name: Str) {
    HasKids(n, o, 2) && HasStr04(n.kids[0], name)
  }

  ghost predicate IsResponse(n: Node, o: byte, r: Result) {
    HasKids(n, o, 3 + Count(r.referral)) && IsResult(n.kids, r)
  }

  ghost predicate IsMessage(n: Node, m: Message) {
    && HasKids(n, 0x30, 2 + Count(m.controls))
    && HasNum(n.kids[0], 0x02, m.id) && m.id >= 0 && IsOp(n.kids[1], m.op)
    && (m.controls.Some? ==> HasEach(n.kids[2], 0xA0, IsControl, m.controls.value))
  }
}

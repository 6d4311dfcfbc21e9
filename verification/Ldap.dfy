/**
 * The messages of RFC 4511 Appendix B as values, the tree of nodes each stands for, and the value a
 * tree of nodes stands for.
 */
module Ldap {
  import opened Wrappers
  import opened BerInteger
  import opened Ber
  import opened Cursor

  type Str = seq<byte>

  datatype Comparison = Equality | GreaterOrEqual | LessOrEqual | Approx

  datatype Position = Initial | Any | Final

  datatype Substring = Substring(position: Position, value: Str)

  datatype Filter =
    | And(filters: seq<Filter>)
    | Or(filters: seq<Filter>)
    | Not(filter: Filter)
    | Compare(comparison: Comparison, desc: Str, value: Str)
    | Substrings(type_: Str, substrings: seq<Substring>)
    | Present(desc: Str)
    | ExtensibleMatch(rule: Option<Str>, attribute: Option<Str>, value: Str, dnAttributes: bool)

  datatype Result = Result(code: int32, matchedDN: Str, diagnostic: Str, referral: Option<seq<Str>>)

  datatype Control = Control(type_: Str, criticality: bool, value: Option<Str>)

  datatype PartialAttribute = PartialAttribute(type_: Str, vals: seq<Str>)

  datatype Change = Change(operation: int32, modification: PartialAttribute)

  datatype Authentication = Simple(password: Str) | Sasl(mechanism: Str, credentials: Option<Str>)

  /** The operations that carry a result and nothing else. */
  datatype ResponseKind = SearchDone | ModifyDone | AddDone | DelDone | ModifyDNDone | CompareDone

  datatype Search = Search(baseObject: Str, scope: int32, derefAliases: int32, sizeLimit: int32,
                           timeLimit: int32, typesOnly: bool, filter: Filter, attributes: seq<Str>)

  datatype Op =
    | BindRequest(version: int32, name: Str, authentication: Authentication)
    | BindResponse(result: Result, serverSaslCreds: Option<Str>)
    | UnbindRequest
    | SearchRequest(search: Search)
    | SearchResultEntry(objectName: Str, attributes: seq<PartialAttribute>)
    | SearchResultReference(uris: seq<Str>)
    | ModifyRequest(target: Str, changes: seq<Change>)
    | AddRequest(entry: Str, attributes: seq<PartialAttribute>)
    | DelRequest(entry: Str)
    | ModifyDNRequest(entry: Str, newrdn: Str, deleteoldrdn: bool, newSuperior: Option<Str>)
    | CompareRequest(entry: Str, desc: Str, value: Str)
    | AbandonRequest(id: int32)
    | ExtendedRequest(requestName: Str, requestValue: Option<Str>)
    | ExtendedResponse(result: Result, responseName: Option<Str>, responseValue: Option<Str>)
    | IntermediateResponse(responseName: Option<Str>, responseValue: Option<Str>)
    | Response(kind: ResponseKind, result: Result)

  datatype Message = Message(id: int32, op: Op, controls: Option<seq<Control>>)

  /******* Leaves and lists *******/

  function StringNode(s: Str): (n: Node)
    ensures StringOf(n) == Some(s) && n.tag == OCTET_STRING
  {
    PrimitiveNode(UNIVERSAL, OCTET_STRING, Octets(s))
  }

  function TaggedNode(t: Tag, s: Str): (n: Node)
    ensures TaggedOf(n, t) == Some(s) && n.tag == t
  {
    PrimitiveNode(CONTEXT, t, Octets(s))
  }

  function NumberNode(c: Class, t: Tag, i: int32): (n: Node)
    ensures NumberOf(n, c, t) == Some(i) && n.Leaf? && n.class_ == c && n.tag == t
  {
    PrimitiveInverts(c, t, Int(i), c, t);
    PrimitiveNode(c, t, Int(i))
  }

  function IntNode(i: int32): (n: Node)
    ensures IntOf(n) == Some(i)
  {
    NumberNode(UNIVERSAL, INTEGER, i)
  }

  function EnumNode(i: int32): (n: Node)
    ensures NumberOf(n, UNIVERSAL, ENUM) == Some(i)
  {
    NumberNode(UNIVERSAL, ENUM, i)
  }

  function BoolNode(b: bool): (n: Node)
    ensures BoolOf(n) == Some(b) && n.tag == BOOLEAN
  {
    PrimitiveNode(UNIVERSAL, BOOLEAN, Bool(b))
  }

  function OctetsOf(n: Node, c: Class, t: Tag): Option<Str> {
    match PrimitiveOf(n, c, t, KindOctets)
    case Some(Octets(s)) => Some(s)
    case _ => None
  }

  function NumberOf(n: Node, c: Class, t: Tag): Option<int32> {
    match PrimitiveOf(n, c, t, KindInt)
    case Some(Int(i)) => Some(i)
    case _ => None
  }

  function FlagOf(n: Node, c: Class, t: Tag): Option<bool> {
    match PrimitiveOf(n, c, t, KindBool)
    case Some(Bool(b)) => Some(b)
    case _ => None
  }

  function StringOf(n: Node): Option<Str> { OctetsOf(n, UNIVERSAL, OCTET_STRING) }
  function TaggedOf(n: Node, t: Tag): Option<Str> { OctetsOf(n, CONTEXT, t) }
  function IntOf(n: Node): Option<int32> { NumberOf(n, UNIVERSAL, INTEGER) }
  function BoolOf(n: Node): Option<bool> { FlagOf(n, UNIVERSAL, BOOLEAN) }

  function PositiveOf(n: Node, c: Class, t: Tag): Option<int32> {
    var i := NumberOf(n, c, t);
    if i.Some? && i.value >= 0 then i else None
  }

  function EnumOf(n: Node, allowed: int -> bool): Option<int32> {
    var i := NumberOf(n, UNIVERSAL, ENUM);
    if i.Some? && allowed(i.value) then i else None
  }

  function Nodes<T>(node: T -> Node, vs: seq<T>): (ns: seq<Node>)
    ensures |ns| == |vs|
  {
    if vs == [] then [] else [node(vs[0])] + Nodes(node, vs[1..])
  }

  function Values<T>(of: Node -> Option<T>, ns: seq<Node>): (vs: Option<seq<T>>)
    ensures vs.Some? ==> |vs.value| == |ns|
  {
    if ns == [] then Some([]) else Prepend(of(ns[0]), Values(of, ns[1..]))
  }

  function Prepend<T>(v: Option<T>, vs: Option<seq<T>>): Option<seq<T>> {
    if v.Some? && vs.Some? then Some([v.value] + vs.value) else None
  }

  function NonEmpty<T>(vs: Option<seq<T>>): Option<seq<T>> {
    if vs.Some? && vs.value != [] then vs else None
  }

  function Optional(t: Tag, s: Option<Str>): (ns: seq<Node>)
    ensures ns != [] ==> ns[0].tag == t
  {
    match s
    case None => []
    case Some(value) => [TaggedNode(t, value)]
  }

  /** The value a node with this tag holds if it comes next, and the nodes left; None if it is malformed. */
  function TakeOptional(ns: seq<Node>, t: Tag): Option<(Option<Str>, seq<Node>)> {
    if ns == [] || ns[0].tag != t then Some((None, ns))
    else
      match TaggedOf(ns[0], t)
      case None => None
      case Some(s) => Some((Some(s), ns[1..]))
  }

  /******* Filters *******/

  function ComparisonTag(c: Comparison): Tag {
    match c
    case Equality => 3
    case GreaterOrEqual => 5
    case LessOrEqual => 6
    case Approx => 8
  }

  function PositionTag(p: Position): Tag {
    match p
    case Initial => 0
    case Any => 1
    case Final => 2
  }

  function SubstringNode(s: Substring): Node {
    TaggedNode(PositionTag(s.position), s.value)
  }

  function FilterNode(f: Filter): Node {
    match f
    case And(fs) => Branch(CONTEXT, 0, FilterNodes(fs))
    case Or(fs) => Branch(CONTEXT, 1, FilterNodes(fs))
    case Not(g) => Branch(CONTEXT, 2, [FilterNode(g)])
    case Compare(c, desc, value) => Branch(CONTEXT, ComparisonTag(c), [StringNode(desc), StringNode(value)])
    case Substrings(type_, subs) =>
      Branch(CONTEXT, 4, [StringNode(type_), Branch(UNIVERSAL, SEQUENCE, Nodes(SubstringNode, subs))])
    case Present(desc) => TaggedNode(7, desc)
    case ExtensibleMatch(_, _, _, _) => Branch(CONTEXT, 9, ExtensibleNodes(f))
  }

  function FilterNodes(fs: seq<Filter>): (ns: seq<Node>)
    ensures |ns| == |fs|
  {
    if fs == [] then [] else [FilterNode(fs[0])] + FilterNodes(fs[1..])
  }

  /** dnAttributes has a default, so it is written only when true. */
  function ExtensibleNodes(f: Filter): seq<Node>
    requires f.ExtensibleMatch?
  {
    Optional(1, f.rule) + Optional(2, f.attribute) + [TaggedNode(3, f.value)]
    + if f.dnAttributes then [PrimitiveNode(CONTEXT, 4, Bool(true))] else []
  }

  function FilterOf(n: Node): Option<Filter> {
    if n.class_ != CONTEXT then None
    else if n.tag == 7 then
      match TaggedOf(n, 7)
      case None => None
      case Some(desc) => Some(Present(desc))
    else if n.Leaf? then None
    else if n.tag == 0 then
      match NonEmpty(FiltersOf(n.kids))
      case None => None
      case Some(fs) => Some(And(fs))
    else if n.tag == 1 then
      match NonEmpty(FiltersOf(n.kids))
      case None => None
      case Some(fs) => Some(Or(fs))
    else if n.tag == 2 then
      if |n.kids| != 1 then None
      else
        match FilterOf(n.kids[0])
        case None => None
        case Some(f) => Some(Not(f))
    else if n.tag == 4 then SubstringsOf(n.kids)
    else if n.tag == 9 then ExtensibleOf(n.kids)
    else CompareOf(n.kids, n.tag)
  }

  function FiltersOf(ns: seq<Node>): (fs: Option<seq<Filter>>)
    ensures fs.Some? ==> |fs.value| == |ns|
  {
    if ns == [] then Some([]) else Prepend(FilterOf(ns[0]), FiltersOf(ns[1..]))
  }

  function ComparisonOf(t: Tag): Option<Comparison> {
    if t == 3 then Some(Equality)
    else if t == 5 then Some(GreaterOrEqual)
    else if t == 6 then Some(LessOrEqual)
    else if t == 8 then Some(Approx)
    else None
  }

  /** The description and the value of an AttributeValueAssertion. */
  function AssertionOf(kids: seq<Node>): Option<(Str, Str)> {
    if |kids| == 2 && StringOf(kids[0]).Some? && StringOf(kids[1]).Some?
    then Some((StringOf(kids[0]).value, StringOf(kids[1]).value))
    else None
  }

  function CompareOf(kids: seq<Node>, t: Tag): Option<Filter> {
    var c, a := ComparisonOf(t), AssertionOf(kids);
    if c.Some? && a.Some? then Some(Compare(c.value, a.value.0, a.value.1)) else None
  }

  function SubstringOf(n: Node): Option<Substring> {
    var p := if n.tag == 0 then Some(Initial) else if n.tag == 1 then Some(Any)
             else if n.tag == 2 then Some(Final) else None;
    var s := TaggedOf(n, n.tag);
    if p.Some? && s.Some? then Some(Substring(p.value, s.value)) else None
  }

  /** How many of the substrings stand at the position. */
  function Occurrences(subs: seq<Substring>, p: Position): nat {
    if subs == [] then 0 else (if subs[0].position == p then 1 else 0) + Occurrences(subs[1..], p)
  }

  /** What the decoder checks: at least one substring, at most one initial and at most one final, anywhere. */
  predicate GoodSubstrings(subs: seq<Substring>) {
    subs != [] && Occurrences(subs, Initial) <= 1 && Occurrences(subs, Final) <= 1
  }

  function SubstringListOf(n: Node): Option<seq<Substring>> {
    if IsNode(n, true, UNIVERSAL, SEQUENCE) then Values(SubstringOf, n.kids) else None
  }

  function SubstringsOf(kids: seq<Node>): Option<Filter> {
    if |kids| != 2 || StringOf(kids[0]).None? then None
    else
      match SubstringListOf(kids[1])
      case None => None
      case Some(subs) => if GoodSubstrings(subs) then Some(Substrings(StringOf(kids[0]).value, subs)) else None
  }

  /** dnAttributes is read as if it were mandatory. */
  function ExtensibleOf(kids: seq<Node>): Option<Filter> {
    match TakeOptional(kids, 1)
    case None => None
    case Some((rule, kids1)) =>
      match TakeOptional(kids1, 2)
      case None => None
      case Some((attribute, kids2)) =>
        if |kids2| == 2 && TaggedOf(kids2[0], 3).Some? && FlagOf(kids2[1], CONTEXT, 4).Some?
        then Some(ExtensibleMatch(rule, attribute, TaggedOf(kids2[0], 3).value, FlagOf(kids2[1], CONTEXT, 4).value))
        else None
  }

  /** What the decoder checks of a filter: the sizes of its sets and the numbers of its substrings. */
  predicate WellFormedFilter(f: Filter) {
    match f
    case And(fs) => fs != [] && forall g | g in fs :: WellFormedFilter(g)
    case Or(fs) => fs != [] && forall g | g in fs :: WellFormedFilter(g)
    case Not(g) => WellFormedFilter(g)
    case Substrings(_, subs) => GoodSubstrings(subs)
    case _ => true
  }

  /** Section 4.5.1.7.2 of RFC 4511: an initial substring comes first and a final one last, one of each at most. */
  predicate StandardSubstrings(subs: seq<Substring>) {
    && subs != [] && Occurrences(subs, Initial) <= 1 && Occurrences(subs, Final) <= 1
    && forall i | 0 <= i < |subs| ::
         (subs[i].position == Initial ==> i == 0) && (subs[i].position == Final ==> i == |subs| - 1)
  }

  /** Section 4.5.1.7 of RFC 4511; by 4.5.1.7.7, a match without a rule has a type. */
  predicate StandardFilter(f: Filter) {
    match f
    case And(fs) => fs != [] && forall g | g in fs :: StandardFilter(g)
    case Or(fs) => fs != [] && forall g | g in fs :: StandardFilter(g)
    case Not(g) => StandardFilter(g)
    case Substrings(_, subs) => StandardSubstrings(subs)
    case ExtensibleMatch(rule, attribute, _, _) => rule.Some? || attribute.Some?
    case _ => true
  }

  /** No initial substring comes after another substring, and no final one before another. */
  predicate Ordered(subs: seq<Substring>) {
    forall i, j | 0 <= i < j < |subs| :: subs[i].position != Final && subs[j].position != Initial
  }

  /** Every list of substrings in the filter is ordered, and every match in it has a rule or a type. */
  predicate Orderly(f: Filter) {
    match f
    case And(fs) => forall g | g in fs :: Orderly(g)
    case Or(fs) => forall g | g in fs :: Orderly(g)
    case Not(g) => Orderly(g)
    case Substrings(_, subs) => Ordered(subs)
    case ExtensibleMatch(rule, attribute, _, _) => rule.Some? || attribute.Some?
    case _ => true
  }

  /** No extensible match leaves dnAttributes to its default. */
  predicate ExplicitFilter(f: Filter) {
    match f
    case And(fs) => forall g | g in fs :: ExplicitFilter(g)
    case Or(fs) => forall g | g in fs :: ExplicitFilter(g)
    case Not(g) => ExplicitFilter(g)
    case ExtensibleMatch(_, _, _, dnAttributes) => dnAttributes
    case _ => true
  }

  /******* Parts of operations *******/

  function ResultNodes(r: Result): seq<Node> {
    [EnumNode(r.code), StringNode(r.matchedDN), StringNode(r.diagnostic)]
    + match r.referral
      case None => []
      case Some(uris) => [Branch(CONTEXT, 3, Nodes(StringNode, uris))]
  }

  predicate ResultCode(i: int) {
    0 <= i <= 8 || 10 <= i <= 14 || 16 <= i <= 21 || 32 <= i <= 34 || i == 36
    || 48 <= i <= 54 || 64 <= i <= 69 || i == 71 || i == 80
  }

  predicate Scope(i: int) { 0 <= i <= 2 }
  predicate DerefAliases(i: int) { 0 <= i <= 3 }
  predicate Operation(i: int) { 0 <= i <= 2 }

  /** A result at the front of the nodes, and the nodes left. */
  function TakeResult(ns: seq<Node>): Option<(Result, seq<Node>)> {
    if |ns| < 3 || EnumOf(ns[0], ResultCode).None? || StringOf(ns[1]).None? || StringOf(ns[2]).None? then None
    else
      var r := Result(EnumOf(ns[0], ResultCode).value, StringOf(ns[1]).value, StringOf(ns[2]).value, None);
      if |ns| == 3 || ns[3].tag != 3 then Some((r, ns[3..]))
      else
        match UrisOf(ns[3], CONTEXT, 3)
        case None => None
        case Some(uris) => Some((r.(referral := Some(uris)), ns[4..]))
  }

  function StringsOf(n: Node, c: Class, t: Tag): Option<seq<Str>> {
    if IsNode(n, true, c, t) then Values(StringOf, n.kids) else None
  }

  function UrisOf(n: Node, c: Class, t: Tag): Option<seq<Str>> {
    NonEmpty(StringsOf(n, c, t))
  }

  predicate WellFormedResult(r: Result) {
    ResultCode(r.code) && (r.referral.Some? ==> r.referral.value != [])
  }

  function ControlNode(c: Control): Node {
    Branch(UNIVERSAL, SEQUENCE,
           [StringNode(c.type_)]
           + (if c.criticality then [BoolNode(true)] else [])
           + match c.value
             case None => []
             case Some(value) => [StringNode(value)])
  }

  /** A criticality of false may not be spelled out. */
  function ControlOf(n: Node): Option<Control> {
    if IsNode(n, true, UNIVERSAL, SEQUENCE) then ControlOfKids(n.kids) else None
  }

  function ControlOfKids(kids: seq<Node>): Option<Control> {
    if kids == [] || StringOf(kids[0]).None? then None
    else
      var type_, critical := StringOf(kids[0]).value, |kids| > 1 && kids[1].tag == BOOLEAN;
      if critical && BoolOf(kids[1]) != Some(true) then None
      else
        var rest := if critical then kids[2..] else kids[1..];
        if rest == [] then Some(Control(type_, critical, None))
        else if |rest| == 1 && StringOf(rest[0]).Some? then Some(Control(type_, critical, StringOf(rest[0])))
        else None
  }

  function PartialNode(a: PartialAttribute): Node {
    Branch(UNIVERSAL, SEQUENCE, [StringNode(a.type_), Branch(UNIVERSAL, SET, Nodes(StringNode, a.vals))])
  }

  function PartialOf(n: Node): Option<PartialAttribute> {
    if IsNode(n, true, UNIVERSAL, SEQUENCE) then PartialOfKids(n.kids) else None
  }

  function PartialOfKids(kids: seq<Node>): Option<PartialAttribute> {
    if |kids| == 2 && StringOf(kids[0]).Some? && StringsOf(kids[1], UNIVERSAL, SET).Some?
    then Some(PartialAttribute(StringOf(kids[0]).value, StringsOf(kids[1], UNIVERSAL, SET).value))
    else None
  }

  /** An Attribute is a PartialAttribute that has a value. */
  function AttributeOf(n: Node): Option<PartialAttribute> {
    var a := PartialOf(n);
    if a.Some? && a.value.vals != [] then a else None
  }

  function ChangeNode(c: Change): Node {
    Branch(UNIVERSAL, SEQUENCE, [EnumNode(c.operation), PartialNode(c.modification)])
  }

  function ChangeOf(n: Node): Option<Change> {
    if IsNode(n, true, UNIVERSAL, SEQUENCE) then ChangeOfKids(n.kids) else None
  }

  function ChangeOfKids(kids: seq<Node>): Option<Change> {
    if |kids| == 2 && EnumOf(kids[0], Operation).Some? && PartialOf(kids[1]).Some?
    then Some(Change(EnumOf(kids[0], Operation).value, PartialOf(kids[1]).value))
    else None
  }

  function AuthenticationNode(a: Authentication): Node {
    match a
    case Simple(password) => TaggedNode(0, password)
    case Sasl(mechanism, credentials) =>
      Branch(CONTEXT, 3, [StringNode(mechanism)] + match credentials
                                                   case None => []
                                                   case Some(s) => [StringNode(s)])
  }

  function AuthenticationOf(n: Node): Option<Authentication> {
    if n.class_ != CONTEXT then None
    else if n.tag == 0 then
      match TaggedOf(n, 0)
      case None => None
      case Some(password) => Some(Simple(password))
    else if IsNode(n, true, CONTEXT, 3) then SaslOf(n.kids)
    else None
  }

  function SaslOf(kids: seq<Node>): Option<Authentication> {
    if 1 <= |kids| <= 2 && StringOf(kids[0]).Some? && (|kids| == 2 ==> StringOf(kids[1]).Some?)
    then Some(Sasl(StringOf(kids[0]).value, if |kids| == 2 then StringOf(kids[1]) else None))
    else None
  }

  function SearchNodes(s: Search): seq<Node> {
    [StringNode(s.baseObject), EnumNode(s.scope), EnumNode(s.derefAliases), IntNode(s.sizeLimit),
     IntNode(s.timeLimit), BoolNode(s.typesOnly), FilterNode(s.filter),
     Branch(UNIVERSAL, SEQUENCE, Nodes(StringNode, s.attributes))]
  }

  /** The six fields before the filter. */
  function SearchHeadOf(kids: seq<Node>): (r: Option<(Str, int32, int32, int32, int32, bool)>)
    ensures r.Some? ==> |kids| >= 6
  {
    if |kids| < 6 then None
    else
      var baseObject, scope, deref := StringOf(kids[0]), EnumOf(kids[1], Scope), EnumOf(kids[2], DerefAliases);
      var sizeLimit, timeLimit := PositiveOf(kids[3], UNIVERSAL, INTEGER), PositiveOf(kids[4], UNIVERSAL, INTEGER);
      var typesOnly := BoolOf(kids[5]);
      if baseObject.Some? && scope.Some? && deref.Some? && sizeLimit.Some? && timeLimit.Some? && typesOnly.Some?
      then Some((baseObject.value, scope.value, deref.value, sizeLimit.value, timeLimit.value, typesOnly.value))
      else None
  }

  function SearchOf(kids: seq<Node>): Option<Search> {
    if |kids| != 8 then None
    else
      var head, filter, attributes := SearchHeadOf(kids), FilterOf(kids[6]), StringsOf(kids[7], UNIVERSAL, SEQUENCE);
      if head.Some? && filter.Some? && attributes.Some?
      then Some(Search(head.value.0, head.value.1, head.value.2, head.value.3, head.value.4, head.value.5,
                       filter.value, attributes.value))
      else None
  }

  predicate WellFormedSearch(s: Search) {
    && Scope(s.scope) && DerefAliases(s.derefAliases)
    && s.sizeLimit >= 0 && s.timeLimit >= 0 && WellFormedFilter(s.filter)
  }

  /******* Operations *******/

  function ResponseTag(k: ResponseKind): Tag {
    match k
    case SearchDone => 5
    case ModifyDone => 7
    case AddDone => 9
    case DelDone => 11
    case ModifyDNDone => 13
    case CompareDone => 15
  }

  function ResponseKindOf(t: Tag): Option<ResponseKind> {
    if t == 5 then Some(SearchDone)
    else if t == 7 then Some(ModifyDone)
    else if t == 9 then Some(AddDone)
    else if t == 11 then Some(DelDone)
    else if t == 13 then Some(ModifyDNDone)
    else if t == 15 then Some(CompareDone)
    else None
  }

  function OpTag(op: Op): Tag {
    match op
    case BindRequest(_, _, _) => 0
    case BindResponse(_, _) => 1
    case UnbindRequest => 2
    case SearchRequest(_) => 3
    case SearchResultEntry(_, _) => 4
    case SearchResultReference(_) => 19
    case ModifyRequest(_, _) => 6
    case AddRequest(_, _) => 8
    case DelRequest(_) => 10
    case ModifyDNRequest(_, _, _, _) => 12
    case CompareRequest(_, _, _) => 14
    case AbandonRequest(_) => 16
    case ExtendedRequest(_, _) => 23
    case ExtendedResponse(_, _, _) => 24
    case IntermediateResponse(_, _) => 25
    case Response(kind, _) => ResponseTag(kind)
  }

  function OpNode(op: Op): Node {
    match op
    case UnbindRequest => Leaf(APPLICATION, 2, [])
    case DelRequest(entry) => PrimitiveNode(APPLICATION, 10, Octets(entry))
    case AbandonRequest(id) => NumberNode(APPLICATION, 16, id)
    case _ => Branch(APPLICATION, OpTag(op), OpNodes(op))
  }

  function OpNodes(op: Op): seq<Node>
    requires !op.UnbindRequest? && !op.DelRequest? && !op.AbandonRequest?
  {
    match op
    case BindRequest(version, name, auth) => [IntNode(version), StringNode(name), AuthenticationNode(auth)]
    case BindResponse(result, creds) => ResultNodes(result) + Optional(7, creds)
    case SearchRequest(search) => SearchNodes(search)
    case SearchResultEntry(name, attributes) =>
      [StringNode(name), Branch(UNIVERSAL, SEQUENCE, Nodes(PartialNode, attributes))]
    case SearchResultReference(uris) => Nodes(StringNode, uris)
    case ModifyRequest(target, changes) =>
      [StringNode(target), Branch(UNIVERSAL, SEQUENCE, Nodes(ChangeNode, changes))]
    case AddRequest(entry, attributes) =>
      [StringNode(entry), Branch(UNIVERSAL, SEQUENCE, Nodes(PartialNode, attributes))]
    case ModifyDNRequest(entry, newrdn, deleteoldrdn, newSuperior) =>
      [StringNode(entry), StringNode(newrdn), BoolNode(deleteoldrdn)] + Optional(0, newSuperior)
    case CompareRequest(entry, desc, value) =>
      [StringNode(entry), Branch(UNIVERSAL, SEQUENCE, [StringNode(desc), StringNode(value)])]
    case ExtendedRequest(name, value) => [TaggedNode(0, name)] + Optional(1, value)
    case ExtendedResponse(result, name, value) => ResultNodes(result) + Optional(10, name) + Optional(11, value)
    case IntermediateResponse(name, value) => Optional(0, name) + Optional(1, value)
    case Response(_, result) => ResultNodes(result)
  }

  function OpOf(n: Node): Option<Op> {
    if n.class_ != APPLICATION then None
    else if n.tag == 2 then if n == Leaf(APPLICATION, 2, []) then Some(UnbindRequest) else None
    else if n.tag == 10 then
      match OctetsOf(n, APPLICATION, 10)
      case None => None
      case Some(entry) => Some(DelRequest(entry))
    else if n.tag == 16 then
      match PositiveOf(n, APPLICATION, 16)
      case None => None
      case Some(id) => Some(AbandonRequest(id))
    else if n.Leaf? then None
    else ConstructedOf(n.kids, n.tag)
  }

  function ConstructedOf(kids: seq<Node>, t: Tag): Option<Op> {
    if t == 0 then BindRequestOf(kids)
    else if t == 1 then BindResponseOf(kids)
    else if t == 3 then
      match SearchOf(kids)
      case None => None
      case Some(search) => Some(SearchRequest(search))
    else if t == 4 then SearchResultEntryOf(kids)
    else if t == 19 then
      match NonEmpty(Values(StringOf, kids))
      case None => None
      case Some(uris) => Some(SearchResultReference(uris))
    else if t == 6 then ModifyRequestOf(kids)
    else if t == 8 then AddRequestOf(kids)
    else if t == 12 then ModifyDNRequestOf(kids)
    else if t == 14 then CompareRequestOf(kids)
    else if t == 23 then ExtendedRequestOf(kids)
    else if t == 24 then ExtendedResponseOf(kids)
    else if t == 25 then IntermediateResponseOf(kids)
    else ResponseOf(kids, t)
  }

  function BindRequestOf(kids: seq<Node>): Option<Op> {
    if |kids| == 3 && IntOf(kids[0]).Some? && 1 <= IntOf(kids[0]).value <= 127
       && StringOf(kids[1]).Some? && AuthenticationOf(kids[2]).Some?
    then Some(BindRequest(IntOf(kids[0]).value, StringOf(kids[1]).value, AuthenticationOf(kids[2]).value))
    else None
  }

  function BindResponseOf(kids: seq<Node>): Option<Op> {
    match TakeResult(kids)
    case None => None
    case Some((result, rest)) =>
      match TakeOptional(rest, 7)
      case None => None
      case Some((creds, rest1)) => if rest1 == [] then Some(BindResponse(result, creds)) else None
  }

  function SearchResultEntryOf(kids: seq<Node>): Option<Op> {
    if |kids| != 2 || StringOf(kids[0]).None? || !IsNode(kids[1], true, UNIVERSAL, SEQUENCE) then None
    else
      match Values(PartialOf, kids[1].kids)
      case None => None
      case Some(attributes) => Some(SearchResultEntry(StringOf(kids[0]).value, attributes))
  }

  function ModifyRequestOf(kids: seq<Node>): Option<Op> {
    if |kids| != 2 || StringOf(kids[0]).None? || !IsNode(kids[1], true, UNIVERSAL, SEQUENCE) then None
    else
      match Values(ChangeOf, kids[1].kids)
      case None => None
      case Some(changes) => Some(ModifyRequest(StringOf(kids[0]).value, changes))
  }

  function AddRequestOf(kids: seq<Node>): Option<Op> {
    if |kids| != 2 || StringOf(kids[0]).None? || !IsNode(kids[1], true, UNIVERSAL, SEQUENCE) then None
    else
      match Values(AttributeOf, kids[1].kids)
      case None => None
      case Some(attributes) => Some(AddRequest(StringOf(kids[0]).value, attributes))
  }

  function ModifyDNRequestOf(kids: seq<Node>): Option<Op> {
    if |kids| < 3 || StringOf(kids[0]).None? || StringOf(kids[1]).None? || BoolOf(kids[2]).None? then None
    else
      match TakeOptional(kids[3..], 0)
      case None => None
      case Some((newSuperior, rest)) =>
        if rest != [] then None
        else Some(ModifyDNRequest(StringOf(kids[0]).value, StringOf(kids[1]).value, BoolOf(kids[2]).value, newSuperior))
  }

  function CompareRequestOf(kids: seq<Node>): Option<Op> {
    if |kids| != 2 || StringOf(kids[0]).None? || !IsNode(kids[1], true, UNIVERSAL, SEQUENCE) then None
    else
      match AssertionOf(kids[1].kids)
      case None => None
      case Some((desc, value)) => Some(CompareRequest(StringOf(kids[0]).value, desc, value))
  }

  function ExtendedRequestOf(kids: seq<Node>): Option<Op> {
    if kids == [] || TaggedOf(kids[0], 0).None? then None
    else
      match TakeOptional(kids[1..], 1)
      case None => None
      case Some((value, rest)) => if rest == [] then Some(ExtendedRequest(TaggedOf(kids[0], 0).value, value)) else None
  }

  function ExtendedResponseOf(kids: seq<Node>): Option<Op> {
    match TakeResult(kids)
    case None => None
    case Some((result, rest)) =>
      match TakeOptional(rest, 10)
      case None => None
      case Some((name, rest1)) =>
        match TakeOptional(rest1, 11)
        case None => None
        case Some((value, rest2)) => if rest2 == [] then Some(ExtendedResponse(result, name, value)) else None
  }

  function IntermediateResponseOf(kids: seq<Node>): Option<Op> {
    match TakeOptional(kids, 0)
    case None => None
    case Some((name, rest)) =>
      match TakeOptional(rest, 1)
      case None => None
      case Some((value, rest1)) => if rest1 == [] then Some(IntermediateResponse(name, value)) else None
  }

  function ResponseOf(kids: seq<Node>, t: Tag): Option<Op> {
    match TakeResult(kids)
    case None => None
    case Some((result, rest)) =>
      if ResponseKindOf(t).Some? && rest == [] then Some(Response(ResponseKindOf(t).value, result)) else None
  }

  predicate WellFormedOp(op: Op) {
    match op
    case BindRequest(version, _, _) => 1 <= version <= 127
    case BindResponse(result, _) => WellFormedResult(result)
    case SearchRequest(search) => WellFormedSearch(search)
    case SearchResultReference(uris) => uris != []
    case ModifyRequest(_, changes) => forall c | c in changes :: Operation(c.operation)
    case AddRequest(_, attributes) => forall a | a in attributes :: a.vals != []
    case AbandonRequest(id) => id >= 0
    case ExtendedResponse(result, _, _) => WellFormedResult(result)
    case Response(_, result) => WellFormedResult(result)
    case _ => true
  }

  /******* Messages *******/

  function MessageNode(m: Message): Node {
    Branch(UNIVERSAL, SEQUENCE, [IntNode(m.id), OpNode(m.op)] + ControlsNodes(m.controls))
  }

  function ControlsNodes(controls: Option<seq<Control>>): seq<Node> {
    match controls
    case None => []
    case Some(cs) => [Branch(CONTEXT, 0, Nodes(ControlNode, cs))]
  }

  function MessageOf(n: Node): Option<Message> {
    if IsNode(n, true, UNIVERSAL, SEQUENCE) then MessageOfKids(n.kids) else None
  }

  function MessageOfKids(kids: seq<Node>): Option<Message> {
    if |kids| < 2 || PositiveOf(kids[0], UNIVERSAL, INTEGER).None? || OpOf(kids[1]).None? then None
    else
      var m := Message(PositiveOf(kids[0], UNIVERSAL, INTEGER).value, OpOf(kids[1]).value, None);
      if |kids| == 2 then Some(m)
      else if |kids| > 3 || !IsNode(kids[2], true, CONTEXT, 0) then None
      else
        match Values(ControlOf, kids[2].kids)
        case None => None
        case Some(cs) => Some(m.(controls := Some(cs)))
  }

  /** The constraints on the values of a message that the decoder checks. */
  predicate WellFormed(m: Message) {
    m.id >= 0 && WellFormedOp(m.op)
  }

  /** The same with a filter as RFC 4511 has it. */
  predicate Standard(m: Message) {
    WellFormed(m) && (m.op.SearchRequest? ==> StandardFilter(m.op.search.filter))
  }

  predicate Explicit(m: Message) {
    m.op.SearchRequest? ==> ExplicitFilter(m.op.search.filter)
  }
}

/** What encoding and decoding a message do to each other. */
module LdapTheory {
  import opened Wrappers
  import opened BerInteger
  import opened Ber
  import opened Cursor
  import opened Ldap

  /******* A tree built from a value stands for that value *******/

  lemma {:induction false} ListInverts<T(!new)>(of: Node -> Option<T>, node: T -> Node, good: T -> bool, vs: seq<T>)
    requires forall v :: of(node(v)) == if good(v) then Some(v) else None
    ensures Values(of, Nodes(node, vs)) == if forall v | v in vs :: good(v) then Some(vs) else None
  {
    if vs != [] {
      ListInverts(of, node, good, vs[1..]);
      assert Nodes(node, vs)[1..] == Nodes(node, vs[1..]);
      assert [vs[0]] + vs[1..] == vs;
    }
  }

  lemma StringsInvert(vs: seq<Str>)
    ensures Values(StringOf, Nodes(StringNode, vs)) == Some(vs)
  {
    ListInverts(StringOf, StringNode, (s: Str) => true, vs);
  }

  lemma OptionalInverts(t: Tag, s: Option<Str>, rest: seq<Node>)
    requires rest != [] ==> rest[0].tag != t
    ensures TakeOptional(Optional(t, s) + rest, t) == Some((s, rest))
  {
    if s.Some? {
      assert (Optional(t, s) + rest)[1..] == rest;
    } else {
      assert Optional(t, s) + rest == rest;
    }
  }

  predicate GoodFilter(f: Filter) {
    WellFormedFilter(f) && ExplicitFilter(f)
  }

  lemma ExtensibleInverts(f: Filter)
    requires f.ExtensibleMatch?
    ensures ExtensibleOf(ExtensibleNodes(f)) == if f.dnAttributes then Some(f) else None
  {
    var last := [TaggedNode(3, f.value)] + if f.dnAttributes then [PrimitiveNode(CONTEXT, 4, Bool(true))] else [];
    assert ExtensibleNodes(f) == Optional(1, f.rule) + (Optional(2, f.attribute) + last);
    OptionalInverts(1, f.rule, Optional(2, f.attribute) + last);
    OptionalInverts(2, f.attribute, last);
    hide TakeOptional, Optional;
    if f.dnAttributes { PrimitiveInverts(CONTEXT, 4, Bool(true), CONTEXT, 4); }
  }

  lemma SubstringInverts(s: Substring)
    ensures SubstringOf(SubstringNode(s)) == Some(s)
  {
  }

  lemma SubstringListInverts(subs: seq<Substring>)
    ensures Values(SubstringOf, Nodes(SubstringNode, subs)) == Some(subs)
  {
    forall s { SubstringInverts(s); }
    hide SubstringOf, SubstringNode, Values, Nodes;
    ListInverts(SubstringOf, SubstringNode, (s: Substring) => true, subs);
  }

  lemma SubstringsInvert(f: Filter)
    requires f.Substrings?
    ensures SubstringsOf(FilterNode(f).kids) == if GoodSubstrings(f.substrings) then Some(f) else None
  {
    hide GoodSubstrings;
    SubstringListInverts(f.substrings);
    hide Values, Nodes, SubstringOf, SubstringNode;
  }

  /** The tree of a filter stands for it exactly when it is well-formed and spells out its defaults. */
  lemma {:induction false} FilterInverts(f: Filter)
    ensures FilterOf(FilterNode(f)) == if GoodFilter(f) then Some(f) else None
  {
    match f {
      case And(fs) => FiltersInvert(fs);
      case Or(fs) => FiltersInvert(fs);
      case Not(g) => FilterInverts(g);
      case Compare(_, _, _) =>
      case Present(_) =>
      case Substrings(_, _) => SubstringsInvert(f);
      case ExtensibleMatch(_, _, _, _) => ExtensibleInverts(f);
    }
    hide SubstringsOf, ExtensibleOf, ExtensibleNodes, FiltersOf, FilterNodes, GoodSubstrings;
  }

  lemma {:induction false} FiltersInvert(fs: seq<Filter>)
    ensures FiltersOf(FilterNodes(fs)) == if forall f | f in fs :: GoodFilter(f) then Some(fs) else None
  {
    if fs != [] {
      FilterInverts(fs[0]);
      FiltersInvert(fs[1..]);
      assert FilterNodes(fs)[1..] == FilterNodes(fs[1..]);
      assert [fs[0]] + fs[1..] == fs;
    }
  }

  lemma ResultInverts(r: Result, rest: seq<Node>)
    requires rest != [] ==> rest[0].tag != 3
    ensures TakeResult(ResultNodes(r) + rest) == if WellFormedResult(r) then Some((r, rest)) else None
  {
    hide ResultCode, Values, Nodes, StringNode, StringOf, NumberOf, EnumNode;
    var ns := ResultNodes(r) + rest;
    match r.referral {
      case None => assert ns[3..] == rest;
      case Some(uris) =>
        StringsInvert(uris);
        assert ns[4..] == rest;
    }
  }

  lemma ControlInverts(c: Control)
    ensures ControlOf(ControlNode(c)) == Some(c)
  {
    hide PrimitiveOf, PrimitiveNode, BoolOf, StringOf;
    var kids := ControlNode(c).kids;
    var tail := match c.value case None => [] case Some(value) => [StringNode(value)];
    assert kids[if c.criticality then 2 else 1..] == tail;
    assert tail != [] ==> tail[0].tag == OCTET_STRING;
  }

  lemma ControlListInverts(cs: seq<Control>)
    ensures Values(ControlOf, Nodes(ControlNode, cs)) == Some(cs)
  {
    forall c { ControlInverts(c); }
    hide ControlOf, ControlNode, Values, Nodes;
    ListInverts(ControlOf, ControlNode, (c: Control) => true, cs);
  }

  lemma PartialInverts(a: PartialAttribute)
    ensures PartialOf(PartialNode(a)) == Some(a)
    ensures AttributeOf(PartialNode(a)) == if a.vals != [] then Some(a) else None
  {
    StringsInvert(a.vals);
  }

  lemma ChangeInverts(c: Change)
    ensures ChangeOf(ChangeNode(c)) == if Operation(c.operation) then Some(c) else None
  {
    PartialInverts(c.modification);
  }

  lemma AuthenticationInverts(a: Authentication)
    ensures AuthenticationOf(AuthenticationNode(a)) == Some(a)
  {
  }

  lemma SearchInverts(s: Search)
    ensures SearchOf(SearchNodes(s))
         == if WellFormedSearch(s) && ExplicitFilter(s.filter) then Some(s) else None
  {
    FilterInverts(s.filter);
    StringsInvert(s.attributes);
    hide FilterOf, FilterNode, WellFormedFilter, ExplicitFilter, Values, Nodes;
  }

  predicate ExplicitOp(op: Op) {
    op.SearchRequest? ==> ExplicitFilter(op.search.filter)
  }

  /** The tree of an operation stands for it exactly when it is well-formed and spells out its defaults. */
  predicate Inverts(op: Op) {
    OpOf(OpNode(op)) == if WellFormedOp(op) && ExplicitOp(op) then Some(op) else None
  }

  lemma BindRequestInverts(op: Op)
    requires op.BindRequest?
    ensures Inverts(op)
  {
    AuthenticationInverts(op.authentication);
    hide AuthenticationOf, AuthenticationNode;
  }

  lemma BindResponseInverts(op: Op)
    requires op.BindResponse?
    ensures Inverts(op)
  {
    hide TakeResult, TakeOptional, Optional, ResultNodes, WellFormedResult;
    var rest := Optional(7, op.serverSaslCreds);
    OptionalInverts(7, op.serverSaslCreds, []);
    assert rest + [] == rest;
    ResultInverts(op.result, rest);
  }

  lemma PrimitiveOpInverts(op: Op)
    requires op.UnbindRequest? || op.DelRequest? || op.AbandonRequest?
    ensures Inverts(op)
  {
  }

  lemma SearchRequestInverts(op: Op)
    requires op.SearchRequest?
    ensures Inverts(op)
  {
    SearchInverts(op.search);
    hide SearchOf, SearchNodes, WellFormedSearch, ExplicitFilter;
  }

  lemma SearchResultEntryInverts(op: Op)
    requires op.SearchResultEntry?
    ensures Inverts(op)
  {
    forall a { PartialInverts(a); }
    hide Values, Nodes, PartialOf, PartialNode;
    ListInverts(PartialOf, PartialNode, (a: PartialAttribute) => true, op.attributes);
  }

  lemma SearchResultReferenceInverts(op: Op)
    requires op.SearchResultReference?
    ensures Inverts(op)
  {
    StringsInvert(op.uris);
    hide Values, Nodes;
  }

  lemma ModifyRequestInverts(op: Op)
    requires op.ModifyRequest?
    ensures Inverts(op)
  {
    forall c { ChangeInverts(c); }
    hide Values, Nodes, ChangeOf, ChangeNode, Operation;
    ListInverts(ChangeOf, ChangeNode, (c: Change) => Operation(c.operation), op.changes);
  }

  lemma AddRequestInverts(op: Op)
    requires op.AddRequest?
    ensures Inverts(op)
  {
    forall a { PartialInverts(a); }
    hide Values, Nodes, AttributeOf, PartialNode;
    ListInverts(AttributeOf, PartialNode, (a: PartialAttribute) => a.vals != [], op.attributes);
  }

  lemma ModifyDNRequestInverts(op: Op)
    requires op.ModifyDNRequest?
    ensures Inverts(op)
  {
    hide TakeOptional, Optional, StringNode, StringOf, BoolNode, BoolOf;
    var rest := Optional(0, op.newSuperior) + [];
    OptionalInverts(0, op.newSuperior, []);
    assert OpNodes(op)[3..] == rest;
  }

  lemma CompareRequestInverts(op: Op)
    requires op.CompareRequest?
    ensures Inverts(op)
  {
  }

  lemma ExtendedKidsInvert(name: Str, value: Option<Str>)
    ensures ExtendedRequestOf([TaggedNode(0, name)] + Optional(1, value)) == Some(ExtendedRequest(name, value))
  {
    OptionalInverts(1, value, []);
    assert Optional(1, value) + [] == Optional(1, value);
    assert ([TaggedNode(0, name)] + Optional(1, value))[1..] == Optional(1, value);
    assert TaggedOf(TaggedNode(0, name), 0) == Some(name);
    hide TakeOptional, Optional, TaggedNode, TaggedOf;
  }

  lemma ExtendedRequestInverts(op: Op)
    requires op.ExtendedRequest?
    ensures Inverts(op)
  {
    ExtendedKidsInvert(op.requestName, op.requestValue);
    hide ExtendedRequestOf, Optional, TaggedNode;
  }

  lemma ExtendedResponseInverts(op: Op)
    requires op.ExtendedResponse?
    ensures Inverts(op)
  {
    hide Optional, ResultNodes, TakeResult, TakeOptional, WellFormedResult;
    var rest := Optional(11, op.responseValue) + [];
    var rest1 := Optional(10, op.responseName) + rest;
    assert OpNodes(op) == ResultNodes(op.result) + rest1;
    ResultInverts(op.result, rest1);
    OptionalInverts(10, op.responseName, rest);
    OptionalInverts(11, op.responseValue, []);
  }

  lemma IntermediateResponseInverts(op: Op)
    requires op.IntermediateResponse?
    ensures Inverts(op)
  {
    hide TakeOptional, Optional;
    var rest := Optional(1, op.responseValue) + [];
    assert OpNodes(op) == Optional(0, op.responseName) + rest;
    OptionalInverts(0, op.responseName, rest);
    OptionalInverts(1, op.responseValue, []);
  }

  lemma ResponseInverts(op: Op)
    requires op.Response?
    ensures Inverts(op)
  {
    hide TakeResult, ResultNodes, WellFormedResult;
    ResultInverts(op.result, []);
    assert ResultNodes(op.result) + [] == ResultNodes(op.result);
  }

  lemma OpInverts(op: Op)
    ensures Inverts(op)
  {
    hide Inverts;
    match op {
      case BindRequest(_, _, _) => BindRequestInverts(op);
      case BindResponse(_, _) => BindResponseInverts(op);
      case UnbindRequest => PrimitiveOpInverts(op);
      case SearchRequest(_) => SearchRequestInverts(op);
      case SearchResultEntry(_, _) => SearchResultEntryInverts(op);
      case SearchResultReference(_) => SearchResultReferenceInverts(op);
      case ModifyRequest(_, _) => ModifyRequestInverts(op);
      case AddRequest(_, _) => AddRequestInverts(op);
      case DelRequest(_) => PrimitiveOpInverts(op);
      case ModifyDNRequest(_, _, _, _) => ModifyDNRequestInverts(op);
      case CompareRequest(_, _, _) => CompareRequestInverts(op);
      case AbandonRequest(_) => PrimitiveOpInverts(op);
      case ExtendedRequest(_, _) => ExtendedRequestInverts(op);
      case ExtendedResponse(_, _, _) => ExtendedResponseInverts(op);
      case IntermediateResponse(_, _) => IntermediateResponseInverts(op);
      case Response(_, _) => ResponseInverts(op);
    }
  }

  lemma ControlsInvert(id: Node, op: Node, controls: Option<seq<Control>>)
    ensures var kids := [id, op] + ControlsNodes(controls);
            match controls
            case None => |kids| == 2
            case Some(cs) => |kids| == 3 && IsNode(kids[2], true, CONTEXT, 0) && Values(ControlOf, kids[2].kids) == Some(cs)
  {
    if controls.Some? { ControlListInverts(controls.value); }
    hide ControlOf, ControlNode, Values, Nodes;
  }

  lemma MessageInverts(m: Message)
    ensures MessageOf(MessageNode(m)) == if WellFormed(m) && Explicit(m) then Some(m) else None
  {
    OpInverts(m.op);
    ControlsInvert(IntNode(m.id), OpNode(m.op), m.controls);
    hide OpOf, OpNode, WellFormedOp, Values, Nodes, ControlOf, ControlNode, ControlsNodes;
  }

  /******* A tree that stands for a value stands for a well-formed one *******/

  lemma {:induction false} FilterAccepted(n: Node)
    ensures FilterOf(n).Some? ==> WellFormedFilter(FilterOf(n).value)
  {
    if n.Branch? {
      if n.tag == 2 && |n.kids| == 1 {
        FilterAccepted(n.kids[0]);
      } else if n.tag < 2 {
        FiltersAccepted(n.kids);
      }
    }
  }

  lemma {:induction false} FiltersAccepted(ns: seq<Node>)
    ensures FiltersOf(ns).Some? ==> forall f | f in FiltersOf(ns).value :: WellFormedFilter(f)
  {
    if ns != [] {
      FilterAccepted(ns[0]);
      FiltersAccepted(ns[1..]);
    }
  }

  lemma {:induction false} ListAccepted<T>(of: Node -> Option<T>, good: T -> bool, ns: seq<Node>)
    requires forall n: Node :: of(n).Some? ==> good(of(n).value)
    ensures Values(of, ns).Some? ==> forall v | v in Values(of, ns).value :: good(v)
  {
    if ns != [] {
      ListAccepted(of, good, ns[1..]);
    }
  }

  lemma ResultAccepted(ns: seq<Node>)
    ensures TakeResult(ns).Some? ==> WellFormedResult(TakeResult(ns).value.0)
  {
  }

  lemma OpAccepted(n: Node)
    ensures OpOf(n).Some? ==> WellFormedOp(OpOf(n).value)
  {
    hide FilterOf, TakeResult, WellFormedResult, WellFormedFilter, Values, ChangeOf, AttributeOf, PartialOf;
    if n.Branch? {
      ResultAccepted(n.kids);
      if |n.kids| == 8 { FilterAccepted(n.kids[6]); }
      if |n.kids| == 2 && n.kids[1].Branch? {
        ListsAccepted(n.kids[1].kids);
      }
    }
  }

  lemma ListsAccepted(ns: seq<Node>)
    ensures Values(ChangeOf, ns).Some? ==> forall c | c in Values(ChangeOf, ns).value :: Operation(c.operation)
    ensures Values(AttributeOf, ns).Some? ==> forall a | a in Values(AttributeOf, ns).value :: a.vals != []
  {
    ListAccepted(ChangeOf, (c: Change) => Operation(c.operation), ns);
    ListAccepted(AttributeOf, (a: PartialAttribute) => a.vals != [], ns);
  }

  lemma MessageAccepted(n: Node)
    ensures MessageOf(n).Some? ==> WellFormed(MessageOf(n).value)
  {
    if n.Branch? && |n.kids| >= 2 {
      OpAccepted(n.kids[1]);
    }
    hide OpOf;
  }

  /******* What the standard asks beyond that *******/

  lemma {:induction false} OrderedFirst(subs: seq<Substring>)
    requires GoodSubstrings(subs)
    ensures StandardSubstrings(subs) <==> Ordered(subs)
  {
    hide Occurrences;
    if Ordered(subs) {
      forall i | 0 <= i < |subs|
        ensures subs[i].position == Initial ==> i == 0
        ensures subs[i].position == Final ==> i == |subs| - 1
      {
        if i > 0 { OrderedAt(subs, 0, i); }
        if i < |subs| - 1 { OrderedAt(subs, i, i + 1); }
      }
    }
  }

  lemma OrderedAt(subs: seq<Substring>, i: nat, j: nat)
    requires Ordered(subs) && i < j < |subs|
    ensures subs[i].position != Final && subs[j].position != Initial
  {
  }

  lemma {:induction false} StandardOrderly(f: Filter)
    requires WellFormedFilter(f)
    ensures StandardFilter(f) <==> Orderly(f)
  {
    match f {
      case And(fs) => forall g | g in fs ensures StandardFilter(g) <==> Orderly(g) { StandardOrderly(g); }
      case Or(fs) => forall g | g in fs ensures StandardFilter(g) <==> Orderly(g) { StandardOrderly(g); }
      case Not(g) => StandardOrderly(g);
      case Substrings(_, subs) => OrderedFirst(subs);
      case ExtensibleMatch(_, _, _, _) =>
      case Compare(_, _, _) =>
      case Present(_) =>
    }
    hide StandardSubstrings, Ordered, GoodSubstrings;
  }

  /**
   * A filter that is accepted is one that RFC 4511 allows exactly when its substrings are in order and
   * its extensible matches name a rule or a type: the decoder checks neither.
   */
  lemma AcceptedStandard(n: Node)
    requires FilterOf(n).Some?
    ensures StandardFilter(FilterOf(n).value) <==> Orderly(FilterOf(n).value)
  {
    FilterAccepted(n);
    StandardOrderly(FilterOf(n).value);
  }

  lemma AcceptedStandardMessage(n: Node)
    requires MessageOf(n).Some?
    ensures var m := MessageOf(n).value; Standard(m) <==> (m.op.SearchRequest? ==> Orderly(m.op.search.filter))
  {
    MessageAccepted(n);
    var m := MessageOf(n).value;
    if m.op.SearchRequest? { StandardOrderly(m.op.search.filter); }
    hide MessageOf, StandardFilter, Orderly, WellFormedFilter;
  }

  lemma OccurrencesOfTwo(a: Substring, b: Substring, p: Position)
    ensures Occurrences([a, b], p) == (if a.position == p then 1 else 0) + (if b.position == p then 1 else 0)
  {
    var last := [b];
    assert [a, b][1..] == last && last[1..] == [];
    assert Occurrences(last, p) == (if b.position == p then 1 else 0) + Occurrences([], p);
  }

  /** A final substring before an initial one, and a match with neither rule nor type, are both accepted. */
  lemma DisorderAccepted(desc: Str, a: Str, b: Str)
    ensures var f := Substrings(desc, [Substring(Final, a), Substring(Initial, b)]);
            FilterOf(FilterNode(f)) == Some(f) && !StandardFilter(f)
    ensures var f := ExtensibleMatch(None, None, a, true); FilterOf(FilterNode(f)) == Some(f) && !StandardFilter(f)
  {
    var subs := [Substring(Final, a), Substring(Initial, b)];
    OccurrencesOfTwo(subs[0], subs[1], Initial);
    OccurrencesOfTwo(subs[0], subs[1], Final);
    assert GoodSubstrings(subs) && GoodFilter(Substrings(desc, subs));
    FilterInverts(Substrings(desc, subs));
    FilterInverts(ExtensibleMatch(None, None, a, true));
    assert subs[1].position == Initial;
    hide FilterOf, FilterNode;
  }

  /******* Bytes *******/

  function EncodeMessage(m: Message): seq<byte> {
    Encode(MessageNode(m))
  }

  /** The message at the front of `s`; what follows it is not looked at. */
  function DecodeMessage(s: seq<byte>): Option<Message> {
    match ParseOne(s)
    case None => None
    case Some((n, _)) => MessageOf(n)
  }

  /** The length announced by the outermost header. */
  function BodySize(m: Message): nat {
    ContentSize(MessageNode(m))
  }

  /**
   * Decoding what was written gives back the same message, whatever follows it, exactly when the message
   * is well-formed, leaves no dnAttributes to its default and is shorter than the limit. Otherwise the
   * decoder refuses.
   */
  lemma RoundTrip(m: Message, tail: seq<byte>)
    requires |EncodeMessage(m)| < INT_LIMIT
    ensures DecodeMessage(EncodeMessage(m) + tail)
         == if WellFormed(m) && Explicit(m) && BodySize(m) < LENGTH_LIMIT then Some(m) else None
  {
    EncodeOntoShape(MessageNode(m), tail);
    ParseOneInverts(MessageNode(m), tail);
    MessageInverts(m);
    hide MessageOf, MessageNode, ParseOne;
  }

  /**
   * Whatever bytes are accepted, the message is well-formed, and writing it gives bytes that are accepted
   * as the same message exactly when it leaves no default out and its encoding is not too long.
   */
  lemma DecodeEncodeDecode(s: seq<byte>)
    ensures var r := DecodeMessage(s);
            r.Some? ==>
              && WellFormed(r.value)
              && (|EncodeMessage(r.value)| < INT_LIMIT ==>
                    (DecodeMessage(EncodeMessage(r.value)) == r <==> Explicit(r.value) && BodySize(r.value) < LENGTH_LIMIT))
  {
    hide MessageOf, MessageNode, ParseOne, EncodeMessage, BodySize, WellFormed, Explicit;
    if DecodeMessage(s).Some? {
      var m := DecodeMessage(s).value;
      MessageAccepted(ParseOne(s).value.0);
      if |EncodeMessage(m)| < INT_LIMIT { RoundTrip(m, []); }
      assert EncodeMessage(m) + [] == EncodeMessage(m);
    }
  }
}

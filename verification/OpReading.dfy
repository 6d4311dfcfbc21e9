/** The same of the operations and of the whole message. */
module OpReading {
  import opened Wrappers
  import opened BerInteger
  import opened Ber
  import opened Cursor
  import opened Ldap
  import opened LdapTheory
  import opened X690
  import opened Rfc4511
  import opened WireReading

  lemma EnumRead(n: Node, allowed: int -> bool, i: int32)
    ensures EnumOf(n, allowed) == Some(i) <==> HasNum(n, 0x0A, i) && allowed(i)
  {
    NumRead(n, UNIVERSAL, ENUM, i);
    hide NumberOf, HasNum;
  }

  lemma PositiveRead(n: Node, c: Class, t: Tag, i: int32)
    ensures PositiveOf(n, c, t) == Some(i) <==> HasNum(n, 0x40 * c + t, i) && i >= 0
  {
    NumRead(n, c, t, i);
    hide NumberOf, HasNum;
  }

  lemma CodesAre(i: int)
    ensures ResultCode(i) <==> i in RESULT_CODES
    ensures Scope(i) <==> i in {0, 1, 2}
    ensures DerefAliases(i) <==> i in {0, 1, 2, 3}
    ensures Operation(i) <==> i in {0, 1, 2}
  {
  }

  lemma UrisRead(n: Node, vs: seq<Str>)
    ensures UrisOf(n, CONTEXT, 3) == Some(vs) <==> vs != [] && HasEach(n, 0xA3, HasStr04, vs)
    ensures UrisOf(n, CONTEXT, 3).Some? ==> n.tag == 3
  {
    StringsRead(n, CONTEXT, 3, vs);
    hide Values, HasEach;
  }

  lemma ResultRead(ns: seq<Node>, r: Result, rest: seq<Node>)
    requires rest == [] || rest[0].tag != 3
    ensures TakeResult(ns) == Some((r, rest)) <==> IsResult(ns, r) && rest == ns[3 + Count(r.referral)..]
  {
    hide ResultCode, RESULT_CODES, EnumOf, HasNum, StringOf, HasStr04, UrisOf, HasEach;
    if |ns| >= 3 {
      EnumRead(ns[0], ResultCode, r.code);
      CodesAre(r.code);
      Str04Read(ns[1], r.matchedDN);
      Str04Read(ns[2], r.diagnostic);
    }
    if |ns| >= 4 {
      if r.referral.Some? { UrisRead(ns[3], r.referral.value); }
    }
  }

  lemma OptStrRead(ns: seq<Node>, at: nat, s: Option<Str>)
    requires at <= |ns|
    ensures (if |ns| == at then s == None else |ns| == at + 1 && s.Some? && StringOf(ns[at]) == s)
            <==> |ns| == at + Count(s) && HasOpt(ns, at, 0x04, s)
  {
    if s.Some? && at < |ns| { StrRead(ns[at], UNIVERSAL, OCTET_STRING, s.value); }
    hide HasStr, OctetsOf;
  }

  lemma ControlRead(n: Node, c: Control)
    ensures ControlOf(n) == Some(c) <==> IsControl(n, c)
  {
    hide Octet, StringOf, HasStr04, HasStr, BoolOf, HasFlag, HasOpt;
    BranchRead(n, UNIVERSAL, SEQUENCE);
    if n.Branch? && n.kids != [] {
      var ns := n.kids;
      Str04Read(ns[0], c.type_);
      OptStrRead(ns, 1, c.value);
      if |ns| > 1 {
        FlagTag(ns[1]);
        StrTag(ns, 1, c.value);
        OptStrRead(ns, 2, c.value);
      }
    }
  }

  lemma FlagTag(n: Node)
    ensures HasFlag(n, 0x01, true) ==> n.tag == BOOLEAN
    ensures BoolOf(n) == Some(true) <==> HasFlag(n, 0x01, true)
  {
    FlagRead(n, UNIVERSAL, BOOLEAN, true);
  }

  lemma StrTag(ns: seq<Node>, at: nat, s: Option<Str>)
    ensures at < |ns| && StringOf(ns[at]).Some? ==> ns[at].tag == OCTET_STRING
    ensures s.Some? && HasOpt(ns, at, 0x04, s) ==> at < |ns| && ns[at].tag == OCTET_STRING
  {
  }

  lemma PartialRead(n: Node, a: PartialAttribute)
    ensures PartialOf(n) == Some(a) <==> IsPartial(n, a)
  {
    BranchRead(n, UNIVERSAL, SEQUENCE);
    if n.Branch? && |n.kids| == 2 {
      Str04Read(n.kids[0], a.type_);
      StringsRead(n.kids[1], UNIVERSAL, SET, a.vals);
    }
    hide Octet, StringOf, HasStr04, StringsOf, HasEach;
  }

  lemma AttributeRead(n: Node, a: PartialAttribute)
    ensures AttributeOf(n) == Some(a) <==> IsAttribute(n, a)
  {
    PartialRead(n, a);
    hide PartialOf, IsPartial;
  }

  lemma ChangeRead(n: Node, c: Change)
    ensures ChangeOf(n) == Some(c) <==> IsChange(n, c)
  {
    BranchRead(n, UNIVERSAL, SEQUENCE);
    if n.Branch? && |n.kids| == 2 {
      EnumRead(n.kids[0], Operation, c.operation);
      CodesAre(c.operation);
      PartialRead(n.kids[1], c.modification);
    }
    hide Octet, EnumOf, HasNum, PartialOf, IsPartial, Operation;
  }

  lemma AuthenticationRead(n: Node, a: Authentication)
    ensures AuthenticationOf(n) == Some(a) <==> IsAuthentication(n, a)
  {
    BranchRead(n, CONTEXT, 3);
    match a {
      case Simple(password) =>
        TaggedRead(n, 0, password);
        OctetTells(n, CONTEXT, false, 0);
      case Sasl(mechanism, credentials) =>
        if n.Branch? && n.kids != [] {
          Str04Read(n.kids[0], mechanism);
          OptStrRead(n.kids, 1, credentials);
        }
    }
    hide Octet, StringOf, HasStr04, TaggedOf, HasStr;
  }

  lemma PartialsRead(n: Node, vs: seq<PartialAttribute>)
    ensures IsNode(n, true, UNIVERSAL, SEQUENCE) && Values(PartialOf, n.kids) == Some(vs) <==> HasEach(n, 0x30, IsPartial, vs)
  {
    forall n, v { PartialRead(n, v); }
    hide PartialOf, IsPartial, Values, HasEach;
    ListRead(PartialOf, IsPartial, n, UNIVERSAL, SEQUENCE, vs);
  }

  lemma AttributesRead(n: Node, vs: seq<PartialAttribute>)
    ensures IsNode(n, true, UNIVERSAL, SEQUENCE) && Values(AttributeOf, n.kids) == Some(vs)
            <==> HasEach(n, 0x30, IsAttribute, vs)
  {
    forall n, v { AttributeRead(n, v); }
    hide AttributeOf, IsAttribute, Values, HasEach;
    ListRead(AttributeOf, IsAttribute, n, UNIVERSAL, SEQUENCE, vs);
  }

  lemma ChangesRead(n: Node, vs: seq<Change>)
    ensures IsNode(n, true, UNIVERSAL, SEQUENCE) && Values(ChangeOf, n.kids) == Some(vs) <==> HasEach(n, 0x30, IsChange, vs)
  {
    forall n, v { ChangeRead(n, v); }
    hide ChangeOf, IsChange, Values, HasEach;
    ListRead(ChangeOf, IsChange, n, UNIVERSAL, SEQUENCE, vs);
  }

  lemma ControlsRead(n: Node, vs: seq<Control>)
    ensures IsNode(n, true, CONTEXT, 0) && Values(ControlOf, n.kids) == Some(vs) <==> HasEach(n, 0xA0, IsControl, vs)
  {
    forall n, v { ControlRead(n, v); }
    hide ControlOf, IsControl, Values, HasEach;
    ListRead(ControlOf, IsControl, n, CONTEXT, 0, vs);
  }

  lemma SearchRead(ns: seq<Node>, s: Search)
    ensures SearchOf(ns) == Some(s) <==> IsSearch(ns, s)
  {
    hide StringOf, HasStr04, EnumOf, HasNum, PositiveOf, BoolOf, HasFlag, FilterOf, IsFilter, StringsOf, HasEach, Scope,
         DerefAliases;
    if |ns| == 8 {
      Str04Read(ns[0], s.baseObject);
      EnumRead(ns[1], Scope, s.scope);
      EnumRead(ns[2], DerefAliases, s.derefAliases);
      CodesAre(s.scope);
      CodesAre(s.derefAliases);
      PositiveRead(ns[3], UNIVERSAL, INTEGER, s.sizeLimit);
      PositiveRead(ns[4], UNIVERSAL, INTEGER, s.timeLimit);
      BoolRead(ns[5], s.typesOnly);
      FilterRead(ns[6], s.filter);
      StringsRead(ns[7], UNIVERSAL, SEQUENCE, s.attributes);
    }
  }

  lemma BoolRead(n: Node, b: bool)
    ensures BoolOf(n) == Some(b) <==> HasFlag(n, 0x01, b)
  {
    FlagRead(n, UNIVERSAL, BOOLEAN, b);
    hide FlagOf, HasFlag;
  }

  /******* Operations *******/

  predicate Constructed(op: Op) {
    !op.UnbindRequest? && !op.DelRequest? && !op.AbandonRequest?
  }

  lemma ConstructedKinds(kids: seq<Node>, t: Tag)
    ensures ConstructedOf(kids, t).Some? ==> Constructed(ConstructedOf(kids, t).value) && OpTag(ConstructedOf(kids, t).value) == t
  {
    hide SearchOf, Values, StringOf, IntOf, BoolOf, AuthenticationOf, TakeResult, TakeOptional, TaggedOf, AssertionOf, IsNode;
  }

  lemma OpDispatch(n: Node, op: Op)
    requires Constructed(op)
    ensures OpOf(n) == Some(op)
            <==> HasKids(n, 0x60 + OpTag(op), if n.Branch? then |n.kids| else 0) && ConstructedOf(n.kids, OpTag(op)) == Some(op)
  {
    hide ConstructedOf, OctetsOf, PositiveOf, Octet;
    if n.Branch? { ConstructedKinds(n.kids, n.tag); }
    if n.class_ == APPLICATION && (n.tag == 2 || n.tag == 10 || n.tag == 16) { NotPrimitive(n); }
    BranchRead(n, APPLICATION, OpTag(op));
    if n.tag == OpTag(op) { TagsApart(op); }
    hide OpTag;
  }

  lemma NotPrimitive(n: Node)
    requires n.class_ == APPLICATION && (n.tag == 2 || n.tag == 10 || n.tag == 16)
    ensures OpOf(n).Some? ==> !Constructed(OpOf(n).value)
  {
    hide OctetsOf, PositiveOf;
  }

  lemma TagsApart(op: Op)
    requires Constructed(op)
    ensures OpTag(op) !in {2, 10, 16}
  {
  }

  lemma PrimitiveOpRead(n: Node, op: Op)
    requires !Constructed(op)
    ensures OpOf(n) == Some(op) <==> IsOp(n, op)
  {
    if n.Branch? { ConstructedKinds(n.kids, n.tag); }
    match op {
      case UnbindRequest => OctetTells(n, APPLICATION, false, 2);
      case DelRequest(entry) =>
        StrRead(n, APPLICATION, 10, entry);
        OctetTells(n, APPLICATION, false, 10);
      case AbandonRequest(id) =>
        PositiveRead(n, APPLICATION, 16, id);
        OctetTells(n, APPLICATION, false, 16);
    }
    hide ConstructedOf, Octet, HasNum, PositiveOf;
  }

  lemma BindRequestRead(n: Node, op: Op)
    requires op.BindRequest?
    ensures OpOf(n) == Some(op) <==> IsOp(n, op)
  {
    OpDispatch(n, op);
    if n.Branch? && |n.kids| == 3 {
      NumRead(n.kids[0], UNIVERSAL, INTEGER, op.version);
      Str04Read(n.kids[1], op.name);
      AuthenticationRead(n.kids[2], op.authentication);
    }
    hide OpOf, Octet, NumberOf, HasNum, StringOf, HasStr04, AuthenticationOf, IsAuthentication;
  }

  /** A result and optional parts behind it. */
  lemma ResultFirst(ns: seq<Node>, r: Result)
    ensures TakeResult(ns).Some? && TakeResult(ns).value.0 == r ==>
              && IsResult(ns, r) && 3 + Count(r.referral) <= |ns| && TakeResult(ns).value.1 == ns[3 + Count(r.referral)..]
              && (TakeResult(ns).value.1 != [] && r.referral.None? ==> TakeResult(ns).value.1[0].tag != 3)
    ensures IsResult(ns, r) && (|ns| > 3 && r.referral.None? ==> ns[3].tag != 3) ==>
              TakeResult(ns) == Some((r, ns[3 + Count(r.referral)..]))
  {
    hide ResultCode, RESULT_CODES, EnumOf, HasNum, StringOf, HasStr04, UrisOf, HasEach;
    if |ns| >= 3 {
      EnumRead(ns[0], ResultCode, r.code);
      CodesAre(r.code);
      Str04Read(ns[1], r.matchedDN);
      Str04Read(ns[2], r.diagnostic);
    }
    if |ns| >= 4 {
      UrisTag(ns[3]);
      if r.referral.Some? { UrisRead(ns[3], r.referral.value); }
    }
  }

  lemma UrisTag(n: Node)
    ensures UrisOf(n, CONTEXT, 3).Some? ==> n.tag == 3
  {
    hide Values;
  }

  lemma ResponseParts(kids: seq<Node>, kind: ResponseKind, r: Result)
    ensures ConstructedOf(kids, ResponseTag(kind)) == Some(Response(kind, r)) <==> TakeResult(kids) == Some((r, []))
  {
    hide TakeResult;
  }

  lemma ResponseRead(n: Node, op: Op)
    requires op.Response?
    ensures OpOf(n) == Some(op) <==> IsOp(n, op)
  {
    hide OpOf, Octet, TakeResult, IsResult, ConstructedOf;
    OpDispatch(n, op);
    ResponseIs(n, op);
    if n.Branch? {
      ResultFirst(n.kids, op.result);
      ResponseParts(n.kids, op.kind, op.result);
    }
    hide IsOp;
  }

  lemma ResponseIs(n: Node, op: Op)
    requires op.Response?
    ensures OpTag(op) == ResponseTag(op.kind)
    ensures IsOp(n, op) <==> IsResponse(n, 0x60 + ResponseTag(op.kind), op.result)
  {
    hide IsResponse;
  }

  lemma BindResponseRead(n: Node, op: Op)
    requires op.BindResponse?
    ensures OpOf(n) == Some(op) <==> IsOp(n, op)
  {
    hide OpOf, Octet, TakeResult, IsResult, TakeOptional, HasOpt;
    OpDispatch(n, op);
    if n.Branch? {
      var i := 3 + Count(op.result.referral);
      ResultFirst(n.kids, op.result);
      if i <= |n.kids| { LastRead(n.kids, i, 7, op.serverSaslCreds); }
      if op.serverSaslCreds.Some? && HasOpt(n.kids, i, 0x87, op.serverSaslCreds) { OptTag(n.kids, i, 7, op.serverSaslCreds); }
    }
  }

  lemma ExtendedResponseRead(n: Node, op: Op)
    requires op.ExtendedResponse?
    ensures OpOf(n) == Some(op) <==> IsOp(n, op)
  {
    hide OpOf, Octet, TakeResult, IsResult, TakeOptional, HasOpt;
    OpDispatch(n, op);
    if n.Branch? {
      var i, j := 3 + Count(op.result.referral), 3 + Count(op.result.referral) + Count(op.responseName);
      ResultFirst(n.kids, op.result);
      if i <= |n.kids| { TwoRead(n.kids, i, 10, 11, op.responseName, op.responseValue); }
      if op.responseName.Some? && HasOpt(n.kids, i, 0x8A, op.responseName) { OptTag(n.kids, i, 10, op.responseName); }
      if op.responseValue.Some? && HasOpt(n.kids, j, 0x8B, op.responseValue) { OptTag(n.kids, j, 11, op.responseValue); }
    }
  }

  lemma IntermediateResponseRead(n: Node, op: Op)
    requires op.IntermediateResponse?
    ensures OpOf(n) == Some(op) <==> IsOp(n, op)
  {
    hide OpOf, Octet, TakeOptional, HasOpt;
    OpDispatch(n, op);
    if n.Branch? {
      TwoRead(n.kids, 0, 0, 1, op.responseName, op.responseValue);
      assert n.kids[0..] == n.kids;
    }
  }

  lemma ExtendedRequestRead(n: Node, op: Op)
    requires op.ExtendedRequest?
    ensures OpOf(n) == Some(op) <==> IsOp(n, op)
  {
    hide OpOf, Octet, TakeOptional, HasOpt, TaggedOf, HasStr;
    OpDispatch(n, op);
    if n.Branch? && n.kids != [] {
      TaggedRead(n.kids[0], 0, op.requestName);
      LastRead(n.kids, 1, 1, op.requestValue);
    }
  }

  lemma ModifyDNRequestRead(n: Node, op: Op)
    requires op.ModifyDNRequest?
    ensures OpOf(n) == Some(op) <==> IsOp(n, op)
  {
    hide OpOf, Octet, TakeOptional, HasOpt, StringOf, HasStr04, BoolOf, HasFlag;
    OpDispatch(n, op);
    if n.Branch? && |n.kids| >= 3 {
      Str04Read(n.kids[0], op.entry);
      Str04Read(n.kids[1], op.newrdn);
      BoolRead(n.kids[2], op.deleteoldrdn);
      LastRead(n.kids, 3, 0, op.newSuperior);
    }
  }

  lemma SearchRequestRead(n: Node, op: Op)
    requires op.SearchRequest?
    ensures OpOf(n) == Some(op) <==> IsOp(n, op)
  {
    hide OpOf, Octet, SearchOf;
    OpDispatch(n, op);
    if n.Branch? { SearchRead(n.kids, op.search); }
    assert forall ns, s :: IsSearch(ns, s) ==> |ns| == 8;
    hide IsSearch;
  }

  lemma NamedOpRead(n: Node, op: Op)
    requires op.SearchResultEntry? || op.ModifyRequest? || op.AddRequest? || op.CompareRequest?
    ensures OpOf(n) == Some(op) <==> IsOp(n, op)
  {
    hide OpOf, Octet, StringOf, HasStr04, Values, HasEach, PartialOf, ChangeOf, AttributeOf, AssertionOf, IsAssertion,
         IsNode;
    OpDispatch(n, op);
    if n.Branch? && |n.kids| == 2 {
      var list := n.kids[1];
      match op {
        case SearchResultEntry(name, attributes) =>
          Str04Read(n.kids[0], name);
          PartialsRead(list, attributes);
        case ModifyRequest(target, changes) =>
          Str04Read(n.kids[0], target);
          ChangesRead(list, changes);
        case AddRequest(entry, attributes) =>
          Str04Read(n.kids[0], entry);
          AttributesRead(list, attributes);
        case CompareRequest(entry, desc, value) =>
          Str04Read(n.kids[0], entry);
          AssertionRead(list, UNIVERSAL, SEQUENCE, desc, value);
      }
    }
  }

  lemma ReferenceRead(n: Node, op: Op)
    requires op.SearchResultReference?
    ensures OpOf(n) == Some(op) <==> IsOp(n, op)
  {
    hide OpOf, Octet, Values, StringOf, HasStr04;
    OpDispatch(n, op);
    forall n, v { Str04Read(n, v); }
    if n.Branch? { EachRead(StringOf, HasStr04, n.kids, op.uris); }
  }

  /** An element stands for an operation exactly when it is one of the standard's for it. */
  lemma OpRead(n: Node, op: Op)
    ensures OpOf(n) == Some(op) <==> IsOp(n, op)
  {
    hide *;
    match op {
      case BindRequest(_, _, _) => BindRequestRead(n, op);
      case BindResponse(_, _) => BindResponseRead(n, op);
      case UnbindRequest => ConstructedNot(op); PrimitiveOpRead(n, op);
      case SearchRequest(_) => SearchRequestRead(n, op);
      case SearchResultEntry(_, _) => NamedOpRead(n, op);
      case SearchResultReference(_) => ReferenceRead(n, op);
      case ModifyRequest(_, _) => NamedOpRead(n, op);
      case AddRequest(_, _) => NamedOpRead(n, op);
      case DelRequest(_) => ConstructedNot(op); PrimitiveOpRead(n, op);
      case ModifyDNRequest(_, _, _, _) => ModifyDNRequestRead(n, op);
      case CompareRequest(_, _, _) => NamedOpRead(n, op);
      case AbandonRequest(_) => ConstructedNot(op); PrimitiveOpRead(n, op);
      case ExtendedRequest(_, _) => ExtendedRequestRead(n, op);
      case ExtendedResponse(_, _, _) => ExtendedResponseRead(n, op);
      case IntermediateResponse(_, _) => IntermediateResponseRead(n, op);
      case Response(_, _) => ResponseRead(n, op);
    }
  }

  lemma ConstructedNot(op: Op)
    requires op.UnbindRequest? || op.DelRequest? || op.AbandonRequest?
    ensures !Constructed(op)
  {
  }

  lemma MessageRead(n: Node, m: Message)
    ensures MessageOf(n) == Some(m) <==> IsMessage(n, m)
  {
    hide Octet, PositiveOf, HasNum, OpOf, IsOp, Values, ControlOf, HasEach, IsNode;
    BranchRead(n, UNIVERSAL, SEQUENCE);
    if n.Branch? && |n.kids| >= 2 {
      PositiveRead(n.kids[0], UNIVERSAL, INTEGER, m.id);
      OpRead(n.kids[1], m.op);
      if |n.kids| == 3 && m.controls.Some? { ControlsRead(n.kids[2], m.controls.value); }
    }
  }

  /** The octets X.690 and RFC 4511 have for a message are in front. */
  ghost predicate StartsWith(s: seq<byte>, m: Message) {
    exists k: nat, n: Node :: k <= |s| && StandsFor(s[..k], n) && IsMessage(n, m)
  }

  /** The decoder accepts exactly the octets that X.690 and RFC 4511 have for a message, whatever follows them. */
  lemma DecodesExactly(s: seq<byte>, m: Message)
    ensures DecodeMessage(s) == Some(m) <==> StartsWith(s, m)
  {
    hide ParseOne, StandsFor, MessageOf, IsMessage;
    if DecodeMessage(s) == Some(m) {
      var (n, k) := ParseOne(s).value;
      ReadsOne(s, n, k);
      MessageRead(n, m);
      assert k <= |s| && StandsFor(s[..k], n) && IsMessage(n, m);
    }
    if k: nat, n: Node :| k <= |s| && StandsFor(s[..k], n) && IsMessage(n, m) {
      ReadsOne(s, n, k);
      MessageRead(n, m);
    }
  }
}

/** The codec writes and accepts what RFC 4511 has, octet by octet. */
module WireTheory {
  import opened Wrappers
  import opened BerInteger
  import opened Ber
  import opened Cursor
  import opened Ldap
  import opened LdapTheory
  import opened X690
  import opened Rfc4511

  /******* Writing *******/

  lemma {:induction false} AllAppend(xs: seq<Node>, ys: seq<Node>)
    ensures WrittenAll(xs + ys) == WrittenAll(xs) + WrittenAll(ys)
  {
    hide Written;
    if xs == [] {
      assert xs + ys == ys;
    } else {
      AllAppend(xs[1..], ys);
      assert (xs + ys)[1..] == xs[1..] + ys;
    }
  }

  lemma AllOne(a: Node)
    ensures WrittenAll([a]) == Written(a) && WrittenAll([]) == []
  {
    hide Written;
    assert WrittenAll([a]) == Written(a) + WrittenAll([]);
  }

  lemma AllTwo(a: Node, b: Node)
    ensures WrittenAll([a, b]) == Written(a) + Written(b)
  {
    hide Written, WrittenAll;
    AllOne(a);
    AllOne(b);
    AllAppend([a], [b]);
    assert [a] + [b] == [a, b];
  }

  lemma AllThree(a: Node, b: Node, c: Node)
    ensures WrittenAll([a, b, c]) == Written(a) + Written(b) + Written(c)
  {
    hide Written, WrittenAll;
    AllTwo(a, b);
    AllOne(c);
    AllAppend([a, b], [c]);
    assert [a, b] + [c] == [a, b, c];
  }

  lemma BranchWritten(c: Class, t: Tag, kids: seq<Node>)
    ensures Written(Branch(c, t, kids)) == Tlv(0x40 * c + 0x20 + t, WrittenAll(kids))
  {
  }

  /** Leaves. */
  lemma StrWritten(s: Str)
    ensures Written(StringNode(s)) == Str04(s)
    ensures forall t: Tag :: Written(TaggedNode(t, s)) == Tlv(0x80 + t, s)
  {
  }

  lemma NumWritten(i: int32)
    ensures Written(IntNode(i)) == Num(0x02, i) && Written(EnumNode(i)) == Num(0x0A, i)
    ensures Written(NumberNode(APPLICATION, 16, i)) == Num(0x50, i)
  {
    WritesInt(i);
    hide IntBytes, IntOctets;
  }

  lemma FlagWritten(b: bool)
    ensures Written(BoolNode(b)) == Flag(0x01, b) && Written(PrimitiveNode(CONTEXT, 4, Bool(b))) == Flag(0x84, b)
  {
  }

  lemma OptWritten(t: Tag, s: Option<Str>)
    ensures WrittenAll(Optional(t, s)) == Opt(0x80 + t, s)
  {
    if s.Some? {
      AllOne(TaggedNode(t, s.value));
      StrWritten(s.value);
    }
    hide Written, Tlv, TaggedNode;
  }

  lemma {:induction false} EachWritten<T(!new)>(node: T -> Node, write: T -> Str, vs: seq<T>)
    requires forall v :: Written(node(v)) == write(v)
    ensures WrittenAll(Nodes(node, vs)) == Each(write, vs)
  {
    hide Written;
    if vs != [] {
      EachWritten(node, write, vs[1..]);
      assert Nodes(node, vs)[1..] == Nodes(node, vs[1..]);
    }
  }

  lemma StringsWritten(vs: seq<Str>)
    ensures WrittenAll(Nodes(StringNode, vs)) == Each(Str04, vs)
  {
    forall v { StrWritten(v); }
    hide Written, StringNode, Str04;
    EachWritten(StringNode, Str04, vs);
  }

  lemma SubstringsWritten(vs: seq<Substring>)
    ensures WrittenAll(Nodes(SubstringNode, vs)) == Each(SubstringOctets, vs)
  {
    forall v: Substring ensures Written(SubstringNode(v)) == SubstringOctets(v) { StrWritten(v.value); }
    hide Written, SubstringNode, SubstringOctets;
    EachWritten(SubstringNode, SubstringOctets, vs);
  }

  lemma ExtensibleWritten(f: Filter)
    requires f.ExtensibleMatch?
    ensures WrittenAll(ExtensibleNodes(f))
         == Opt(0x81, f.rule) + Opt(0x82, f.attribute) + Tlv(0x83, f.value) + if f.dnAttributes then Flag(0x84, true) else []
  {
    OptWritten(1, f.rule);
    OptWritten(2, f.attribute);
    StrWritten(f.value);
    FlagWritten(true);
    var value, flag := TaggedNode(3, f.value), PrimitiveNode(CONTEXT, 4, Bool(true));
    AllOne(value);
    AllOne(flag);
    hide Written, WrittenAll, Optional, Opt, Tlv, TaggedNode, PrimitiveNode, Flag;
    var last := if f.dnAttributes then [flag] else [];
    AllAppend(Optional(1, f.rule), Optional(2, f.attribute));
    AllAppend(Optional(1, f.rule) + Optional(2, f.attribute), [value]);
    AllAppend(Optional(1, f.rule) + Optional(2, f.attribute) + [value], last);
  }

  lemma {:induction false} FilterWritten(f: Filter)
    ensures Written(FilterNode(f)) == FilterOctets(f)
  {
    hide WrittenAll, Tlv;
    match f {
      case And(fs) => FiltersWritten(fs);
      case Or(fs) => FiltersWritten(fs);
      case Not(g) =>
        FilterWritten(g);
        AllOne(FilterNode(g));
      case Compare(_, desc, value) =>
        StrWritten(desc);
        StrWritten(value);
        AllTwo(StringNode(desc), StringNode(value));
      case Substrings(type_, subs) =>
        SubstringsWritten(subs);
        StrWritten(type_);
        BranchWritten(UNIVERSAL, SEQUENCE, Nodes(SubstringNode, subs));
        AllTwo(StringNode(type_), Branch(UNIVERSAL, SEQUENCE, Nodes(SubstringNode, subs)));
      case Present(desc) => StrWritten(desc);
      case ExtensibleMatch(_, _, _, _) => ExtensibleWritten(f);
    }
    FilterWrittenParts(f);
    hide Written, Nodes, Each, ExtensibleNodes, StringNode, TaggedNode, Str04, Opt, Flag;
  }

  /** The element around the parts. */
  lemma FilterWrittenParts(f: Filter)
    ensures f.And? ==> Written(FilterNode(f)) == Tlv(0xA0, WrittenAll(FilterNodes(f.filters)))
    ensures f.Or? ==> Written(FilterNode(f)) == Tlv(0xA1, WrittenAll(FilterNodes(f.filters)))
    ensures f.Not? ==> Written(FilterNode(f)) == Tlv(0xA2, WrittenAll([FilterNode(f.filter)]))
    ensures f.Compare? ==>
              Written(FilterNode(f)) == Tlv(match f.comparison case Equality => 0xA3 case GreaterOrEqual => 0xA5
                                                              case LessOrEqual => 0xA6 case Approx => 0xA8,
                                            WrittenAll([StringNode(f.desc), StringNode(f.value)]))
    ensures f.Substrings? ==>
              Written(FilterNode(f)) == Tlv(0xA4, WrittenAll([StringNode(f.type_),
                                                  Branch(UNIVERSAL, SEQUENCE, Nodes(SubstringNode, f.substrings))]))
    ensures f.ExtensibleMatch? ==> Written(FilterNode(f)) == Tlv(0xA9, WrittenAll(ExtensibleNodes(f)))
  {
    hide WrittenAll, Tlv, Nodes, StringNode, ExtensibleNodes, TaggedNode;
  }

  lemma {:induction false} FiltersWritten(fs: seq<Filter>)
    ensures WrittenAll(FilterNodes(fs)) == FiltersOctets(fs)
  {
    hide Written, FilterNode, FilterOctets;
    if fs != [] {
      FilterWritten(fs[0]);
      FiltersWritten(fs[1..]);
      assert FilterNodes(fs)[1..] == FilterNodes(fs[1..]);
    }
  }

  lemma ResultWritten(r: Result)
    ensures WrittenAll(ResultNodes(r)) == ResultOctets(r)
  {
    NumWritten(r.code);
    StrWritten(r.matchedDN);
    StrWritten(r.diagnostic);
    AllThree(EnumNode(r.code), StringNode(r.matchedDN), StringNode(r.diagnostic));
    var head := [EnumNode(r.code), StringNode(r.matchedDN), StringNode(r.diagnostic)];
    match r.referral {
      case None => assert head + [] == head;
      case Some(uris) =>
        StringsWritten(uris);
        BranchWritten(CONTEXT, 3, Nodes(StringNode, uris));
        AllOne(Branch(CONTEXT, 3, Nodes(StringNode, uris)));
        AllAppend(head, [Branch(CONTEXT, 3, Nodes(StringNode, uris))]);
    }
    hide Written, WrittenAll, Tlv, Nodes, Each, StringNode, EnumNode, Str04, Num;
  }

  lemma OptString(s: Option<Str>)
    ensures WrittenAll(match s case None => [] case Some(value) => [StringNode(value)]) == Opt(0x04, s)
  {
    if s.Some? {
      StrWritten(s.value);
      AllOne(StringNode(s.value));
    }
    hide Written, Tlv, StringNode;
  }

  lemma ControlWritten(c: Control)
    ensures Written(ControlNode(c)) == ControlOctets(c)
  {
    StrWritten(c.type_);
    FlagWritten(true);
    OptString(c.value);
    AllOne(StringNode(c.type_));
    AllOne(BoolNode(true));
    var flag := if c.criticality then [BoolNode(true)] else [];
    var value := match c.value case None => [] case Some(value) => [StringNode(value)];
    AllAppend([StringNode(c.type_)], flag);
    AllAppend([StringNode(c.type_)] + flag, value);
    BranchWritten(UNIVERSAL, SEQUENCE, [StringNode(c.type_)] + flag + value);
    hide Written, WrittenAll, Tlv, StringNode, BoolNode, Str04, Flag, Opt;
  }

  lemma PartialWritten(a: PartialAttribute)
    ensures Written(PartialNode(a)) == PartialOctets(a)
  {
    StrWritten(a.type_);
    StringsWritten(a.vals);
    var vals := Branch(UNIVERSAL, SET, Nodes(StringNode, a.vals));
    BranchWritten(UNIVERSAL, SET, Nodes(StringNode, a.vals));
    AllTwo(StringNode(a.type_), vals);
    BranchWritten(UNIVERSAL, SEQUENCE, [StringNode(a.type_), vals]);
    hide Written, WrittenAll, Tlv, Nodes, Each, StringNode, Str04;
  }

  lemma ChangeWritten(c: Change)
    ensures Written(ChangeNode(c)) == ChangeOctets(c)
  {
    NumWritten(c.operation);
    PartialWritten(c.modification);
    AllTwo(EnumNode(c.operation), PartialNode(c.modification));
    BranchWritten(UNIVERSAL, SEQUENCE, [EnumNode(c.operation), PartialNode(c.modification)]);
    hide Written, WrittenAll, Tlv, EnumNode, PartialNode, Num, PartialOctets;
  }

  lemma PartialsWritten(vs: seq<PartialAttribute>)
    ensures Written(Branch(UNIVERSAL, SEQUENCE, Nodes(PartialNode, vs))) == Tlv(0x30, Each(PartialOctets, vs))
  {
    forall v { PartialWritten(v); }
    hide PartialNode, PartialOctets;
    EachWritten(PartialNode, PartialOctets, vs);
    BranchWritten(UNIVERSAL, SEQUENCE, Nodes(PartialNode, vs));
    hide Written, WrittenAll, Tlv, Nodes, Each;
  }

  lemma ChangesWritten(vs: seq<Change>)
    ensures Written(Branch(UNIVERSAL, SEQUENCE, Nodes(ChangeNode, vs))) == Tlv(0x30, Each(ChangeOctets, vs))
  {
    forall v { ChangeWritten(v); }
    hide ChangeNode, ChangeOctets;
    EachWritten(ChangeNode, ChangeOctets, vs);
    BranchWritten(UNIVERSAL, SEQUENCE, Nodes(ChangeNode, vs));
    hide Written, WrittenAll, Tlv, Nodes, Each;
  }

  lemma ControlsWritten(vs: seq<Control>)
    ensures Written(Branch(CONTEXT, 0, Nodes(ControlNode, vs))) == Tlv(0xA0, Each(ControlOctets, vs))
  {
    forall v { ControlWritten(v); }
    hide ControlNode, ControlOctets;
    EachWritten(ControlNode, ControlOctets, vs);
    BranchWritten(CONTEXT, 0, Nodes(ControlNode, vs));
    hide Written, WrittenAll, Tlv, Nodes, Each;
  }

  lemma AuthenticationWritten(a: Authentication)
    ensures Written(AuthenticationNode(a)) == AuthenticationOctets(a)
  {
    match a {
      case Simple(password) => StrWritten(password);
      case Sasl(mechanism, credentials) =>
        StrWritten(mechanism);
        OptString(credentials);
        AllOne(StringNode(mechanism));
        var creds := match credentials case None => [] case Some(s) => [StringNode(s)];
        AllAppend([StringNode(mechanism)], creds);
        BranchWritten(CONTEXT, 3, [StringNode(mechanism)] + creds);
    }
    hide Written, WrittenAll, Tlv, StringNode, TaggedNode, Str04, Opt;
  }

  lemma AllEight(a: Node, b: Node, c: Node, d: Node, e: Node, f: Node, g: Node, h: Node)
    ensures WrittenAll([a, b, c, d, e, f, g, h])
         == (Written(a) + Written(b) + Written(c)) + (Written(d) + Written(e) + Written(f)) + (Written(g) + Written(h))
  {
    hide Written, WrittenAll;
    AllThree(a, b, c);
    AllThree(d, e, f);
    AllTwo(g, h);
    AllAppend([a, b, c], [d, e, f]);
    AllAppend([a, b, c] + [d, e, f], [g, h]);
    assert [a, b, c, d, e, f, g, h] == [a, b, c] + [d, e, f] + [g, h];
  }

  lemma SearchWritten(s: Search)
    ensures WrittenAll(SearchNodes(s)) == SearchOctets(s)
  {
    hide Written, WrittenAll, Tlv, Nodes, Each, StringNode, EnumNode, IntNode, BoolNode, FilterNode, Str04, Num, Flag,
         FilterOctets;
    StrWritten(s.baseObject);
    NumWritten(s.scope);
    NumWritten(s.derefAliases);
    NumWritten(s.sizeLimit);
    NumWritten(s.timeLimit);
    FlagWritten(s.typesOnly);
    FilterWritten(s.filter);
    StringsWritten(s.attributes);
    var list := Branch(UNIVERSAL, SEQUENCE, Nodes(StringNode, s.attributes));
    BranchWritten(UNIVERSAL, SEQUENCE, Nodes(StringNode, s.attributes));
    AllEight(StringNode(s.baseObject), EnumNode(s.scope), EnumNode(s.derefAliases), IntNode(s.sizeLimit),
             IntNode(s.timeLimit), BoolNode(s.typesOnly), FilterNode(s.filter), list);
  }

  lemma NamedWritten(c: Class, t: Tag, name: Str, rest: Node)
    ensures Written(Branch(c, t, [StringNode(name), rest])) == Tlv(0x40 * c + 0x20 + t, Str04(name) + Written(rest))
  {
    StrWritten(name);
    AllTwo(StringNode(name), rest);
    BranchWritten(c, t, [StringNode(name), rest]);
    hide Written, WrittenAll, Tlv, StringNode, Str04;
  }

  lemma ResponseWritten(kind: ResponseKind, result: Result)
    ensures Written(OpNode(Response(kind, result))) == OpOctets(Response(kind, result))
  {
    ResultWritten(result);
    BranchWritten(APPLICATION, ResponseTag(kind), ResultNodes(result));
    hide Written, WrittenAll, Tlv, ResultNodes, ResultOctets;
  }

  /** The operations of few parts. */
  lemma SmallOpWritten(op: Op)
    requires op.UnbindRequest? || op.DelRequest? || op.AbandonRequest? || op.SearchRequest? || op.SearchResultReference?
    ensures Written(OpNode(op)) == OpOctets(op)
  {
    match op {
      case UnbindRequest => assert Written(OpNode(op)) == Tlv(0x42, []);
      case DelRequest(entry) => assert Written(OpNode(op)) == Tlv(0x4A, entry);
      case AbandonRequest(id) => NumWritten(id);
      case SearchRequest(search) =>
        SearchWritten(search);
        BranchWritten(APPLICATION, 3, SearchNodes(search));
      case SearchResultReference(uris) =>
        StringsWritten(uris);
        BranchWritten(APPLICATION, 19, Nodes(StringNode, uris));
    }
    hide Written, WrittenAll, Tlv, SearchNodes, SearchOctets, StringNode, Nodes, Each, Str04, NumberNode, Num;
  }

  /** Those of a name and a list. */
  lemma NamedOpWritten(op: Op)
    requires op.SearchResultEntry? || op.ModifyRequest? || op.AddRequest? || op.CompareRequest?
    ensures Written(OpNode(op)) == OpOctets(op)
  {
    match op {
      case SearchResultEntry(name, attributes) =>
        PartialsWritten(attributes);
        NamedWritten(APPLICATION, 4, name, Branch(UNIVERSAL, SEQUENCE, Nodes(PartialNode, attributes)));
      case ModifyRequest(target, changes) =>
        ChangesWritten(changes);
        NamedWritten(APPLICATION, 6, target, Branch(UNIVERSAL, SEQUENCE, Nodes(ChangeNode, changes)));
      case AddRequest(entry, attributes) =>
        PartialsWritten(attributes);
        NamedWritten(APPLICATION, 8, entry, Branch(UNIVERSAL, SEQUENCE, Nodes(PartialNode, attributes)));
      case CompareRequest(entry, desc, value) =>
        StrWritten(value);
        NamedWritten(UNIVERSAL, SEQUENCE, desc, StringNode(value));
        NamedWritten(APPLICATION, 14, entry, Branch(UNIVERSAL, SEQUENCE, [StringNode(desc), StringNode(value)]));
    }
    hide Written, Tlv, Nodes, Each, PartialNode, ChangeNode, StringNode, Str04;
  }

  lemma BindWritten(op: Op)
    requires op.BindRequest? || op.BindResponse?
    ensures Written(OpNode(op)) == OpOctets(op)
  {
    match op {
      case BindRequest(version, name, auth) =>
        NumWritten(version);
        StrWritten(name);
        AuthenticationWritten(auth);
        AllThree(IntNode(version), StringNode(name), AuthenticationNode(auth));
        BranchWritten(APPLICATION, 0, [IntNode(version), StringNode(name), AuthenticationNode(auth)]);
      case BindResponse(result, creds) =>
        ResultWritten(result);
        OptWritten(7, creds);
        AllAppend(ResultNodes(result), Optional(7, creds));
        BranchWritten(APPLICATION, 1, ResultNodes(result) + Optional(7, creds));
    }
    hide Written, WrittenAll, Tlv, IntNode, StringNode, AuthenticationNode, Num, Str04, AuthenticationOctets,
         ResultNodes, Optional, ResultOctets, Opt;
  }

  lemma ModifyDNWritten(op: Op)
    requires op.ModifyDNRequest?
    ensures Written(OpNode(op)) == OpOctets(op)
  {
    hide Written, WrittenAll, Tlv, StringNode, BoolNode, Optional, Str04, Flag, Opt;
    var a, b, c := StringNode(op.entry), StringNode(op.newrdn), BoolNode(op.deleteoldrdn);
    var superior := Optional(0, op.newSuperior);
    StrWritten(op.entry);
    StrWritten(op.newrdn);
    FlagWritten(op.deleteoldrdn);
    OptWritten(0, op.newSuperior);
    AllThree(a, b, c);
    AllAppend([a, b, c], superior);
    BranchWritten(APPLICATION, 12, [a, b, c] + superior);
  }

  lemma ExtendedRequestWritten(op: Op)
    requires op.ExtendedRequest?
    ensures Written(OpNode(op)) == OpOctets(op)
  {
    hide Written, WrittenAll, Tlv, TaggedNode, Optional, Opt;
    StrWritten(op.requestName);
    OptWritten(1, op.requestValue);
    AllOne(TaggedNode(0, op.requestName));
    AllAppend([TaggedNode(0, op.requestName)], Optional(1, op.requestValue));
    BranchWritten(APPLICATION, 23, [TaggedNode(0, op.requestName)] + Optional(1, op.requestValue));
  }

  lemma ExtendedResponseWritten(op: Op)
    requires op.ExtendedResponse?
    ensures Written(OpNode(op)) == OpOctets(op)
  {
    hide Written, WrittenAll, Tlv, ResultNodes, Optional, ResultOctets, Opt;
    var result, name, value := ResultNodes(op.result), Optional(10, op.responseName), Optional(11, op.responseValue);
    ResultWritten(op.result);
    OptWritten(10, op.responseName);
    OptWritten(11, op.responseValue);
    AllAppend(result, name);
    AllAppend(result + name, value);
    BranchWritten(APPLICATION, 24, result + name + value);
  }

  lemma IntermediateResponseWritten(op: Op)
    requires op.IntermediateResponse?
    ensures Written(OpNode(op)) == OpOctets(op)
  {
    hide Written, WrittenAll, Tlv, Optional, Opt;
    OptWritten(0, op.responseName);
    OptWritten(1, op.responseValue);
    AllAppend(Optional(0, op.responseName), Optional(1, op.responseValue));
    BranchWritten(APPLICATION, 25, Optional(0, op.responseName) + Optional(1, op.responseValue));
  }

  lemma OpWritten(op: Op)
    ensures Written(OpNode(op)) == OpOctets(op)
  {
    hide *;
    match op {
      case BindRequest(_, _, _) => BindWritten(op);
      case BindResponse(_, _) => BindWritten(op);
      case UnbindRequest => SmallOpWritten(op);
      case SearchRequest(_) => SmallOpWritten(op);
      case SearchResultEntry(_, _) => NamedOpWritten(op);
      case SearchResultReference(_) => SmallOpWritten(op);
      case ModifyRequest(_, _) => NamedOpWritten(op);
      case AddRequest(_, _) => NamedOpWritten(op);
      case DelRequest(_) => SmallOpWritten(op);
      case ModifyDNRequest(_, _, _, _) => ModifyDNWritten(op);
      case CompareRequest(_, _, _) => NamedOpWritten(op);
      case AbandonRequest(_) => SmallOpWritten(op);
      case ExtendedRequest(_, _) => ExtendedRequestWritten(op);
      case ExtendedResponse(_, _, _) => ExtendedResponseWritten(op);
      case IntermediateResponse(_, _) => IntermediateResponseWritten(op);
      case Response(kind, result) => ResponseWritten(kind, result);
    }
  }

  lemma ControlsPartWritten(controls: Option<seq<Control>>)
    ensures WrittenAll(ControlsNodes(controls))
         == if controls.None? then [] else Tlv(0xA0, Each(ControlOctets, controls.value))
  {
    hide Written, Tlv, Nodes, ControlNode, Each, ControlOctets;
    if controls.Some? {
      ControlsWritten(controls.value);
      AllOne(Branch(CONTEXT, 0, Nodes(ControlNode, controls.value)));
    }
  }

  lemma MessageWritten(m: Message)
    ensures Written(MessageNode(m)) == MessageOctets(m)
  {
    hide Written, WrittenAll, Tlv, IntNode, OpNode, ControlsNodes, Each, Num, OpOctets, ControlOctets;
    NumWritten(m.id);
    OpWritten(m.op);
    ControlsPartWritten(m.controls);
    AllTwo(IntNode(m.id), OpNode(m.op));
    AllAppend([IntNode(m.id), OpNode(m.op)], ControlsNodes(m.controls));
    BranchWritten(UNIVERSAL, SEQUENCE, [IntNode(m.id), OpNode(m.op)] + ControlsNodes(m.controls));
  }

  /** The encoding of a message is the one the standard has, for all that are short enough to be read again. */
  lemma EncodesAsWritten(m: Message)
    requires BodySize(m) < LENGTH_LIMIT
    ensures EncodeMessage(m) == MessageOctets(m)
  {
    hide MessageNode, EncodeOnto, Written, MessageOctets, ContentSize;
    MessageWritten(m);
    WritesOne(MessageNode(m), []);
    assert Written(MessageNode(m)) + [] == Written(MessageNode(m));
  }
}

/**
 * The size computations and the writers of the message types. A writer fills the buffer backwards, so
 * it lays down its last part first; the size computed beforehand is exactly what the writer uses.
 */
module LdapWrite {
  import opened Wrappers
  import opened BerInteger
  import opened Ber
  import opened Cursor
  import opened Ldap

  lemma {:induction false} NodeAt<T>(node: T -> Node, vs: seq<T>, i: nat)
    requires i < |vs|
    ensures Nodes(node, vs)[i] == node(vs[i])
  {
    if i > 0 { NodeAt(node, vs[1..], i - 1); }
  }

  lemma {:induction false} FilterNodeAt(fs: seq<Filter>, i: nat)
    requires i < |fs|
    ensures FilterNodes(fs)[i] == FilterNode(fs[i])
  {
    if i > 0 { FilterNodeAt(fs[1..], i - 1); }
  }

  /** `size` bytes hold the nodes from index `i` on, in front of `rest`; the others are still to be written. */
  ghost predicate Writing(b: Bytes, was: seq<byte>, at: nat, ns: seq<Node>, i: nat, size: nat, rest: seq<byte>)
    reads b, b.buf
  {
    && b.Valid() && i <= |ns|
    && b.Wrote(was, at, size, b.Rest())
    && SizeAll(ns[..i]) + size == SizeAll(ns)
    && EncodeAllOnto(ns[..i], b.Rest()) == EncodeAllOnto(ns, rest)
  }

  method SizeStrings(vs: seq<Str>) returns (size: nat)
    ensures size == SizeAll(Nodes(StringNode, vs))
  {
    hide Nodes, Size;
    ghost var ns := Nodes(StringNode, vs);
    size := 0;
    for i := 0 to |vs|
      invariant size == SizeAll(ns[..i])
    {
      Peel(ns, i, []);
      NodeAt(StringNode, vs, i);
      var n := SizePrimitiveSubBytes(Octets(vs[i]));
      size := size + n;
    }
    assert ns[..|vs|] == ns;
  }

  method WriteStrings(b: Bytes, vs: seq<Str>) returns (size: nat)
    requires b.Valid() && SizeAll(Nodes(StringNode, vs)) <= b.offset
    modifies b`offset, b.buf
    ensures size == SizeAll(Nodes(StringNode, vs))
    ensures b.Wrote(old(b.buf[..]), old(b.offset), size, EncodeAllOnto(Nodes(StringNode, vs), old(b.Rest())))
  {
    hide EncodeOnto, EncodeAllOnto, Size, Nodes;
    ghost var ns := Nodes(StringNode, vs);
    size := 0;
    assert ns[..|ns|] == ns;
    for i := |vs| downto 0
      invariant Writing(b, old(b.buf[..]), old(b.offset), ns, i, size, old(b.Rest()))
    {
      Peel(ns, i, b.Rest());
      NodeAt(StringNode, vs, i);
      var n := b.WritePrimitiveSubBytes(UNIVERSAL, OCTET_STRING, Octets(vs[i]));
      size := size + n;
    }
    EncodeNone(b.Rest());
  }

  method SizeSubstringList(vs: seq<Substring>) returns (size: nat)
    ensures size == SizeAll(Nodes(SubstringNode, vs))
  {
    hide Nodes, Size;
    ghost var ns := Nodes(SubstringNode, vs);
    size := 0;
    for i := 0 to |vs|
      invariant size == SizeAll(ns[..i])
    {
      Peel(ns, i, []);
      NodeAt(SubstringNode, vs, i);
      var n := SizePrimitiveSubBytes(Octets(vs[i].value));
      size := size + n;
    }
    assert ns[..|vs|] == ns;
  }

  method WriteSubstringList(b: Bytes, vs: seq<Substring>) returns (size: nat)
    requires b.Valid() && SizeAll(Nodes(SubstringNode, vs)) <= b.offset
    modifies b`offset, b.buf
    ensures size == SizeAll(Nodes(SubstringNode, vs))
    ensures b.Wrote(old(b.buf[..]), old(b.offset), size, EncodeAllOnto(Nodes(SubstringNode, vs), old(b.Rest())))
  {
    hide EncodeOnto, EncodeAllOnto, Size, Nodes;
    ghost var ns := Nodes(SubstringNode, vs);
    size := 0;
    assert ns[..|ns|] == ns;
    for i := |vs| downto 0
      invariant Writing(b, old(b.buf[..]), old(b.offset), ns, i, size, old(b.Rest()))
    {
      Peel(ns, i, b.Rest());
      NodeAt(SubstringNode, vs, i);
      var n := b.WritePrimitiveSubBytes(CONTEXT, PositionTag(vs[i].position), Octets(vs[i].value));
      size := size + n;
    }
    EncodeNone(b.Rest());
  }

  method SizeFilters(vs: seq<Filter>) returns (size: nat)
    ensures size == SizeAll(FilterNodes(vs))
    decreases vs, 0
  {
    hide FilterNodes, FilterNode, Size;
    ghost var ns := FilterNodes(vs);
    size := 0;
    for i := 0 to |vs|
      invariant size == SizeAll(ns[..i])
    {
      Peel(ns, i, []);
      FilterNodeAt(vs, i);
      var n := SizeFilter(vs[i]);
      size := size + n;
    }
    assert ns[..|vs|] == ns;
  }

  method WriteFilters(b: Bytes, vs: seq<Filter>) returns (size: nat)
    requires b.Valid() && SizeAll(FilterNodes(vs)) <= b.offset
    modifies b`offset, b.buf
    ensures size == SizeAll(FilterNodes(vs))
    ensures b.Wrote(old(b.buf[..]), old(b.offset), size, EncodeAllOnto(FilterNodes(vs), old(b.Rest())))
    decreases vs, 0
  {
    hide EncodeOnto, EncodeAllOnto, Size, FilterNodes, FilterNode;
    ghost var ns := FilterNodes(vs);
    size := 0;
    assert ns[..|ns|] == ns;
    for i := |vs| downto 0
      invariant Writing(b, old(b.buf[..]), old(b.offset), ns, i, size, old(b.Rest()))
    {
      Peel(ns, i, b.Rest());
      FilterNodeAt(vs, i);
      var n := WriteFilter(b, vs[i]);
      size := size + n;
    }
    EncodeNone(b.Rest());
  }

  method SizePartials(vs: seq<PartialAttribute>) returns (size: nat)
    ensures size == SizeAll(Nodes(PartialNode, vs))
  {
    hide Nodes, PartialNode, Size;
    ghost var ns := Nodes(PartialNode, vs);
    size := 0;
    for i := 0 to |vs|
      invariant size == SizeAll(ns[..i])
    {
      Peel(ns, i, []);
      NodeAt(PartialNode, vs, i);
      var n := SizePartial(vs[i]);
      size := size + n;
    }
    assert ns[..|vs|] == ns;
  }

  method WritePartials(b: Bytes, vs: seq<PartialAttribute>) returns (size: nat)
    requires b.Valid() && SizeAll(Nodes(PartialNode, vs)) <= b.offset
    modifies b`offset, b.buf
    ensures size == SizeAll(Nodes(PartialNode, vs))
    ensures b.Wrote(old(b.buf[..]), old(b.offset), size, EncodeAllOnto(Nodes(PartialNode, vs), old(b.Rest())))
  {
    hide EncodeOnto, EncodeAllOnto, Size, Nodes, PartialNode;
    ghost var ns := Nodes(PartialNode, vs);
    size := 0;
    assert ns[..|ns|] == ns;
    for i := |vs| downto 0
      invariant Writing(b, old(b.buf[..]), old(b.offset), ns, i, size, old(b.Rest()))
    {
      Peel(ns, i, b.Rest());
      NodeAt(PartialNode, vs, i);
      var n := WritePartial(b, vs[i]);
      size := size + n;
    }
    EncodeNone(b.Rest());
  }

  method SizeChanges(vs: seq<Change>) returns (size: nat)
    ensures size == SizeAll(Nodes(ChangeNode, vs))
  {
    hide Nodes, ChangeNode, Size;
    ghost var ns := Nodes(ChangeNode, vs);
    size := 0;
    for i := 0 to |vs|
      invariant size == SizeAll(ns[..i])
    {
      Peel(ns, i, []);
      NodeAt(ChangeNode, vs, i);
      var n := SizeChange(vs[i]);
      size := size + n;
    }
    assert ns[..|vs|] == ns;
  }

  method WriteChanges(b: Bytes, vs: seq<Change>) returns (size: nat)
    requires b.Valid() && SizeAll(Nodes(ChangeNode, vs)) <= b.offset
    modifies b`offset, b.buf
    ensures size == SizeAll(Nodes(ChangeNode, vs))
    ensures b.Wrote(old(b.buf[..]), old(b.offset), size, EncodeAllOnto(Nodes(ChangeNode, vs), old(b.Rest())))
  {
    hide EncodeOnto, EncodeAllOnto, Size, Nodes, ChangeNode;
    ghost var ns := Nodes(ChangeNode, vs);
    size := 0;
    assert ns[..|ns|] == ns;
    for i := |vs| downto 0
      invariant Writing(b, old(b.buf[..]), old(b.offset), ns, i, size, old(b.Rest()))
    {
      Peel(ns, i, b.Rest());
      NodeAt(ChangeNode, vs, i);
      var n := WriteChange(b, vs[i]);
      size := size + n;
    }
    EncodeNone(b.Rest());
  }

  method SizeControls(vs: seq<Control>) returns (size: nat)
    ensures size == SizeAll(Nodes(ControlNode, vs))
  {
    hide Nodes, ControlNode, Size;
    ghost var ns := Nodes(ControlNode, vs);
    size := 0;
    for i := 0 to |vs|
      invariant size == SizeAll(ns[..i])
    {
      Peel(ns, i, []);
      NodeAt(ControlNode, vs, i);
      var n := SizeControl(vs[i]);
      size := size + n;
    }
    assert ns[..|vs|] == ns;
  }

  method WriteControls(b: Bytes, vs: seq<Control>) returns (size: nat)
    requires b.Valid() && SizeAll(Nodes(ControlNode, vs)) <= b.offset
    modifies b`offset, b.buf
    ensures size == SizeAll(Nodes(ControlNode, vs))
    ensures b.Wrote(old(b.buf[..]), old(b.offset), size, EncodeAllOnto(Nodes(ControlNode, vs), old(b.Rest())))
  {
    hide EncodeOnto, EncodeAllOnto, Size, Nodes, ControlNode;
    ghost var ns := Nodes(ControlNode, vs);
    size := 0;
    assert ns[..|ns|] == ns;
    for i := |vs| downto 0
      invariant Writing(b, old(b.buf[..]), old(b.offset), ns, i, size, old(b.Rest()))
    {
      Peel(ns, i, b.Rest());
      NodeAt(ControlNode, vs, i);
      var n := WriteControl(b, vs[i]);
      size := size + n;
    }
    EncodeNone(b.Rest());
  }

  /******* Optional fields and pairs *******/

  method SizeOptional(t: Tag, s: Option<Str>) returns (size: nat)
    ensures size == SizeAll(Optional(t, s))
  {
    match s {
      case None => size := 0;
      case Some(value) =>
        EncodeSingle(TaggedNode(t, value), []);
        size := SizePrimitiveSubBytes(Octets(value));
    }
  }

  method WriteOptional(b: Bytes, t: Tag, s: Option<Str>) returns (size: nat)
    requires b.Valid() && SizeAll(Optional(t, s)) <= b.offset
    modifies b`offset, b.buf
    ensures size == SizeAll(Optional(t, s))
    ensures b.Wrote(old(b.buf[..]), old(b.offset), size, EncodeAllOnto(Optional(t, s), old(b.Rest())))
  {
    match s {
      case None => size := 0;
      case Some(value) =>
        EncodeSingle(TaggedNode(t, value), b.Rest());
        size := b.WritePrimitiveSubBytes(CONTEXT, t, Octets(value));
    }
  }

  /** An AttributeValueAssertion under some tag. */
  method SizeAssertion(c: Class, t: Tag, desc: Str, value: Str) returns (size: nat)
    ensures size == Size(Branch(c, t, [StringNode(desc), StringNode(value)]))
  {
    EncodeBranch(c, t, [StringNode(desc), StringNode(value)], []);
    EncodePair(StringNode(desc), StringNode(value), []);
    hide Size, SizeAll;
    size := SizePrimitiveSubBytes(Octets(desc));
    var n := SizePrimitiveSubBytes(Octets(value));
    size := size + n;
    n := SizeTagAndLength(size);
    size := size + n;
  }

  method WriteAssertion(b: Bytes, c: Class, t: Tag, desc: Str, value: Str) returns (size: nat)
    requires b.Valid() && Size(Branch(c, t, [StringNode(desc), StringNode(value)])) <= b.offset
    modifies b`offset, b.buf
    ensures size == Size(Branch(c, t, [StringNode(desc), StringNode(value)]))
    ensures b.Wrote(old(b.buf[..]), old(b.offset), size, EncodeOnto(Branch(c, t, [StringNode(desc), StringNode(value)]), old(b.Rest())))
  {
    hide EncodeOnto, EncodeAllOnto, Size, SizeAll, HeaderOnto, HeaderSize, Nodes;
    EncodeBranch(c, t, [StringNode(desc), StringNode(value)], b.Rest());
    EncodePair(StringNode(desc), StringNode(value), b.Rest());
    size := b.WritePrimitiveSubBytes(UNIVERSAL, OCTET_STRING, Octets(value));
    var n := b.WritePrimitiveSubBytes(UNIVERSAL, OCTET_STRING, Octets(desc));
    size := size + n;
    n := b.WriteTagAndLength(c, true, t, size);
    size := size + n;
  }

  method SizePartial(a: PartialAttribute) returns (size: nat)
    ensures size == Size(PartialNode(a))
  {
    hide Size, SizeAll, Nodes;
    ghost var vals := Nodes(StringNode, a.vals);
    EncodeBranch(UNIVERSAL, SET, vals, []);
    EncodePair(StringNode(a.type_), Branch(UNIVERSAL, SET, vals), []);
    EncodeBranch(UNIVERSAL, SEQUENCE, [StringNode(a.type_), Branch(UNIVERSAL, SET, vals)], []);
    size := SizeStrings(a.vals);
    var n := SizeTagAndLength(size);
    size := size + n;
    n := SizePrimitiveSubBytes(Octets(a.type_));
    size := size + n;
    n := SizeTagAndLength(size);
    size := size + n;
  }

  method WritePartial(b: Bytes, a: PartialAttribute) returns (size: nat)
    requires b.Valid() && Size(PartialNode(a)) <= b.offset
    modifies b`offset, b.buf
    ensures size == Size(PartialNode(a))
    ensures b.Wrote(old(b.buf[..]), old(b.offset), size, EncodeOnto(PartialNode(a), old(b.Rest())))
  {
    hide EncodeOnto, EncodeAllOnto, Size, SizeAll, HeaderOnto, HeaderSize, Nodes;
    ghost var vals := Nodes(StringNode, a.vals);
    EncodeBranch(UNIVERSAL, SET, vals, b.Rest());
    EncodePair(StringNode(a.type_), Branch(UNIVERSAL, SET, vals), b.Rest());
    EncodeBranch(UNIVERSAL, SEQUENCE, [StringNode(a.type_), Branch(UNIVERSAL, SET, vals)], b.Rest());
    size := WriteStrings(b, a.vals);
    var n := b.WriteTagAndLength(UNIVERSAL, true, SET, size);
    size := size + n;
    n := b.WritePrimitiveSubBytes(UNIVERSAL, OCTET_STRING, Octets(a.type_));
    size := size + n;
    n := b.WriteTagAndLength(UNIVERSAL, true, SEQUENCE, size);
    size := size + n;
  }

  method SizeChange(c: Change) returns (size: nat)
    ensures size == Size(ChangeNode(c))
  {
    hide Size, SizeAll, PartialNode;
    EncodePair(EnumNode(c.operation), PartialNode(c.modification), []);
    EncodeBranch(UNIVERSAL, SEQUENCE, [EnumNode(c.operation), PartialNode(c.modification)], []);
    size := SizePrimitiveSubBytes(Int(c.operation));
    var n := SizePartial(c.modification);
    size := size + n;
    n := SizeTagAndLength(size);
    size := size + n;
  }

  method WriteChange(b: Bytes, c: Change) returns (size: nat)
    requires b.Valid() && Size(ChangeNode(c)) <= b.offset
    modifies b`offset, b.buf
    ensures size == Size(ChangeNode(c))
    ensures b.Wrote(old(b.buf[..]), old(b.offset), size, EncodeOnto(ChangeNode(c), old(b.Rest())))
  {
    hide EncodeOnto, EncodeAllOnto, Size, SizeAll, HeaderOnto, HeaderSize, PartialNode;
    EncodePair(EnumNode(c.operation), PartialNode(c.modification), b.Rest());
    EncodeBranch(UNIVERSAL, SEQUENCE, [EnumNode(c.operation), PartialNode(c.modification)], b.Rest());
    size := WritePartial(b, c.modification);
    var n := b.WritePrimitiveSubBytes(UNIVERSAL, ENUM, Int(c.operation));
    size := size + n;
    n := b.WriteTagAndLength(UNIVERSAL, true, SEQUENCE, size);
    size := size + n;
  }

  method SizeControl(c: Control) returns (size: nat)
    ensures size == Size(ControlNode(c))
  {
    hide EncodeOnto, EncodeAllOnto, Size, SizeAll, HeaderOnto, HeaderSize;
    ControlShape(c, []);
    size := 0;
    if c.value.Some? {
      size := SizePrimitiveSubBytes(Octets(c.value.value));
    }
    if c.criticality {
      var n := SizePrimitiveSubBytes(Bool(true));
      size := size + n;
    }
    var n := SizePrimitiveSubBytes(Octets(c.type_));
    size := size + n;
    n := SizeTagAndLength(size);
    size := size + n;
  }

  lemma ControlShape(c: Control, rest: seq<byte>)
    ensures
      var rest1 := if c.value.Some? then EncodeOnto(StringNode(c.value.value), rest) else rest;
      var rest2 := if c.criticality then EncodeOnto(BoolNode(true), rest1) else rest1;
      var size := Size(StringNode(c.type_)) + (if c.criticality then Size(BoolNode(true)) else 0)
                  + if c.value.Some? then Size(StringNode(c.value.value)) else 0;
      && EncodeOnto(ControlNode(c), rest) == HeaderOnto(UNIVERSAL, true, SEQUENCE, size, EncodeOnto(StringNode(c.type_), rest2))
      && Size(ControlNode(c)) == HeaderSize(size) + size
  {
    hide EncodeOnto, EncodeAllOnto, Size, SizeAll, HeaderOnto, HeaderSize;
    var x := StringNode(c.type_);
    EncodeBranch(UNIVERSAL, SEQUENCE, ControlNode(c).kids, rest);
    if c.criticality && c.value.Some? {
      EncodeTriple(x, BoolNode(true), StringNode(c.value.value), rest);
      assert ControlNode(c).kids == [x, BoolNode(true), StringNode(c.value.value)];
    } else if c.criticality {
      EncodePair(x, BoolNode(true), rest);
      assert ControlNode(c).kids == [x, BoolNode(true)];
    } else if c.value.Some? {
      EncodePair(x, StringNode(c.value.value), rest);
      assert ControlNode(c).kids == [x, StringNode(c.value.value)];
    } else {
      EncodeSingle(x, rest);
      assert ControlNode(c).kids == [x];
    }
  }

  method WriteControl(b: Bytes, c: Control) returns (size: nat)
    requires b.Valid() && Size(ControlNode(c)) <= b.offset
    modifies b`offset, b.buf
    ensures size == Size(ControlNode(c))
    ensures b.Wrote(old(b.buf[..]), old(b.offset), size, EncodeOnto(ControlNode(c), old(b.Rest())))
  {
    hide EncodeOnto, EncodeAllOnto, Size, SizeAll, HeaderOnto, HeaderSize, ControlNode;
    ControlShape(c, b.Rest());
    size := 0;
    if c.value.Some? {
      size := b.WritePrimitiveSubBytes(UNIVERSAL, OCTET_STRING, Octets(c.value.value));
    }
    if c.criticality {
      var n := b.WritePrimitiveSubBytes(UNIVERSAL, BOOLEAN, Bool(true));
      size := size + n;
    }
    var n := b.WritePrimitiveSubBytes(UNIVERSAL, OCTET_STRING, Octets(c.type_));
    size := size + n;
    n := b.WriteTagAndLength(UNIVERSAL, true, SEQUENCE, size);
    size := size + n;
  }

  /******* Filters *******/

  method SizeFilter(f: Filter) returns (size: nat)
    ensures size == Size(FilterNode(f))
    decreases f
  {
    hide EncodeOnto, EncodeAllOnto, Size, SizeAll, HeaderOnto, HeaderSize, Nodes, FilterNodes;
    var n;
    match f {
      case And(fs) =>
        EncodeBranch(CONTEXT, 0, FilterNodes(fs), []);
        size := SizeFilters(fs);
        n := SizeTagAndLength(size);
      case Or(fs) =>
        EncodeBranch(CONTEXT, 1, FilterNodes(fs), []);
        size := SizeFilters(fs);
        n := SizeTagAndLength(size);
      case Not(g) =>
        EncodeBranch(CONTEXT, 2, [FilterNode(g)], []);
        EncodeSingle(FilterNode(g), []);
        size := SizeFilter(g);
        n := SizeTagAndLength(size);
      case Compare(c, desc, value) =>
        size := SizeAssertion(CONTEXT, ComparisonTag(c), desc, value);
        n := 0;
      case Substrings(_, _) =>
        size := SizeSubstrings(f);
        n := 0;
      case Present(desc) =>
        size := SizePrimitiveSubBytes(Octets(desc));
        n := 0;
      case ExtensibleMatch(_, _, _, _) =>
        size := SizeExtensible(f);
        n := 0;
    }
    size := size + n;
  }

  method WriteFilter(b: Bytes, f: Filter) returns (size: nat)
    requires b.Valid() && Size(FilterNode(f)) <= b.offset
    modifies b`offset, b.buf
    ensures size == Size(FilterNode(f))
    ensures b.Wrote(old(b.buf[..]), old(b.offset), size, EncodeOnto(FilterNode(f), old(b.Rest())))
    decreases f
  {
    hide EncodeOnto, EncodeAllOnto, Size, SizeAll, HeaderOnto, HeaderSize, Nodes, FilterNodes;
    var n;
    match f {
      case And(fs) =>
        size := WriteFilterSet(b, 0, fs);
        n := 0;
      case Or(fs) =>
        size := WriteFilterSet(b, 1, fs);
        n := 0;
      case Not(g) =>
        EncodeBranch(CONTEXT, 2, [FilterNode(g)], b.Rest());
        EncodeSingle(FilterNode(g), b.Rest());
        size := WriteFilter(b, g);
        n := b.WriteTagAndLength(CONTEXT, true, 2, size);
      case Compare(c, desc, value) =>
        size := WriteAssertion(b, CONTEXT, ComparisonTag(c), desc, value);
        n := 0;
      case Substrings(_, _) =>
        size := WriteSubstrings(b, f);
        n := 0;
      case Present(desc) =>
        size := b.WritePrimitiveSubBytes(CONTEXT, 7, Octets(desc));
        n := 0;
      case ExtensibleMatch(_, _, _, _) =>
        size := WriteExtensible(b, f);
        n := 0;
    }
    size := size + n;
  }

  method WriteFilterSet(b: Bytes, t: Tag, fs: seq<Filter>) returns (size: nat)
    requires b.Valid() && Size(Branch(CONTEXT, t, FilterNodes(fs))) <= b.offset
    modifies b`offset, b.buf
    ensures size == Size(Branch(CONTEXT, t, FilterNodes(fs)))
    ensures b.Wrote(old(b.buf[..]), old(b.offset), size, EncodeOnto(Branch(CONTEXT, t, FilterNodes(fs)), old(b.Rest())))
    decreases fs, 1
  {
    hide EncodeOnto, EncodeAllOnto, Size, SizeAll, HeaderOnto, HeaderSize, FilterNodes;
    EncodeBranch(CONTEXT, t, FilterNodes(fs), b.Rest());
    size := WriteFilters(b, fs);
    var n := b.WriteTagAndLength(CONTEXT, true, t, size);
    size := size + n;
  }

  lemma SubstringsShape(f: Filter, rest: seq<byte>)
    requires f.Substrings?
    ensures
      var subs := Nodes(SubstringNode, f.substrings);
      var inner := HeaderOnto(UNIVERSAL, true, SEQUENCE, SizeAll(subs), EncodeAllOnto(subs, rest));
      var size := Size(StringNode(f.type_)) + HeaderSize(SizeAll(subs)) + SizeAll(subs);
      && EncodeOnto(FilterNode(f), rest) == HeaderOnto(CONTEXT, true, 4, size, EncodeOnto(StringNode(f.type_), inner))
      && Size(FilterNode(f)) == HeaderSize(size) + size
  {
    hide EncodeOnto, EncodeAllOnto, Size, SizeAll, HeaderOnto, HeaderSize, Nodes;
    var subs := Nodes(SubstringNode, f.substrings);
    EncodeBranch(UNIVERSAL, SEQUENCE, subs, rest);
    EncodePair(StringNode(f.type_), Branch(UNIVERSAL, SEQUENCE, subs), rest);
    EncodeBranch(CONTEXT, 4, [StringNode(f.type_), Branch(UNIVERSAL, SEQUENCE, subs)], rest);
  }

  method SizeSubstrings(f: Filter) returns (size: nat)
    requires f.Substrings?
    ensures size == Size(FilterNode(f))
  {
    hide EncodeOnto, EncodeAllOnto, Size, SizeAll, HeaderOnto, HeaderSize, Nodes, FilterNode;
    SubstringsShape(f, []);
    size := SizeSubstringList(f.substrings);
    var n := SizeTagAndLength(size);
    size := size + n;
    n := SizePrimitiveSubBytes(Octets(f.type_));
    size := size + n;
    n := SizeTagAndLength(size);
    size := size + n;
  }

  method WriteSubstrings(b: Bytes, f: Filter) returns (size: nat)
    requires f.Substrings?
    requires b.Valid() && Size(FilterNode(f)) <= b.offset
    modifies b`offset, b.buf
    ensures size == Size(FilterNode(f))
    ensures b.Wrote(old(b.buf[..]), old(b.offset), size, EncodeOnto(FilterNode(f), old(b.Rest())))
  {
    hide EncodeOnto, EncodeAllOnto, Size, SizeAll, HeaderOnto, HeaderSize, Nodes, FilterNode;
    SubstringsShape(f, b.Rest());
    size := WriteSubstringList(b, f.substrings);
    var n := b.WriteTagAndLength(UNIVERSAL, true, SEQUENCE, size);
    size := size + n;
    n := b.WritePrimitiveSubBytes(UNIVERSAL, OCTET_STRING, Octets(f.type_));
    size := size + n;
    n := b.WriteTagAndLength(CONTEXT, true, 4, size);
    size := size + n;
  }

  lemma ExtensibleShape(f: Filter, rest: seq<byte>)
    requires f.ExtensibleMatch?
    ensures
      var rest1 := if f.dnAttributes then EncodeOnto(PrimitiveNode(CONTEXT, 4, Bool(true)), rest) else rest;
      var rest2 := EncodeOnto(TaggedNode(3, f.value), rest1);
      var rest3 := EncodeAllOnto(Optional(2, f.attribute), rest2);
      var size := SizeAll(Optional(1, f.rule)) + SizeAll(Optional(2, f.attribute)) + Size(TaggedNode(3, f.value))
                  + if f.dnAttributes then Size(PrimitiveNode(CONTEXT, 4, Bool(true))) else 0;
      && EncodeOnto(FilterNode(f), rest) == HeaderOnto(CONTEXT, true, 9, size, EncodeAllOnto(Optional(1, f.rule), rest3))
      && Size(FilterNode(f)) == HeaderSize(size) + size
  {
    hide EncodeOnto, EncodeAllOnto, Size, SizeAll, HeaderOnto, HeaderSize, Optional;
    var flag := PrimitiveNode(CONTEXT, 4, Bool(true));
    var last := if f.dnAttributes then [flag] else [];
    if f.dnAttributes { EncodeSingle(flag, rest); } else { EncodeNone(rest); }
    EncodeBranch(CONTEXT, 9, ExtensibleNodes(f), rest);
    EncodeAppend(Optional(1, f.rule) + Optional(2, f.attribute) + [TaggedNode(3, f.value)], last, rest);
    EncodeAppend(Optional(1, f.rule) + Optional(2, f.attribute), [TaggedNode(3, f.value)], EncodeAllOnto(last, rest));
    EncodeSingle(TaggedNode(3, f.value), EncodeAllOnto(last, rest));
    EncodeAppend(Optional(1, f.rule), Optional(2, f.attribute), EncodeOnto(TaggedNode(3, f.value), EncodeAllOnto(last, rest)));
  }

  method SizeExtensible(f: Filter) returns (size: nat)
    requires f.ExtensibleMatch?
    ensures size == Size(FilterNode(f))
  {
    hide EncodeOnto, EncodeAllOnto, Size, SizeAll, HeaderOnto, HeaderSize, FilterNode;
    ExtensibleShape(f, []);
    size := SizeOptional(1, f.rule);
    var n := SizeOptional(2, f.attribute);
    size := size + n;
    n := SizePrimitiveSubBytes(Octets(f.value));
    size := size + n;
    if f.dnAttributes {
      n := SizePrimitiveSubBytes(Bool(true));
      size := size + n;
    }
    n := SizeTagAndLength(size);
    size := size + n;
  }

  method WriteExtensible(b: Bytes, f: Filter) returns (size: nat)
    requires f.ExtensibleMatch?
    requires b.Valid() && Size(FilterNode(f)) <= b.offset
    modifies b`offset, b.buf
    ensures size == Size(FilterNode(f))
    ensures b.Wrote(old(b.buf[..]), old(b.offset), size, EncodeOnto(FilterNode(f), old(b.Rest())))
  {
    hide EncodeOnto, EncodeAllOnto, Size, SizeAll, HeaderOnto, HeaderSize, FilterNode, Optional;
    ExtensibleShape(f, b.Rest());
    size := 0;
    if f.dnAttributes {
      size := b.WritePrimitiveSubBytes(CONTEXT, 4, Bool(true));
    }
    var n := b.WritePrimitiveSubBytes(CONTEXT, 3, Octets(f.value));
    size := size + n;
    n := WriteOptional(b, 2, f.attribute);
    size := size + n;
    n := WriteOptional(b, 1, f.rule);
    size := size + n;
    n := b.WriteTagAndLength(CONTEXT, true, 9, size);
    size := size + n;
  }

  /******* Parts of operations *******/

  lemma ResultShape(r: Result, rest: seq<byte>)
    ensures
      var uris := if r.referral.Some? then Nodes(StringNode, r.referral.value) else [];
      var rest1 := if r.referral.Some? then HeaderOnto(CONTEXT, true, 3, SizeAll(uris), EncodeAllOnto(uris, rest)) else rest;
      && EncodeAllOnto(ResultNodes(r), rest)
         == EncodeOnto(EnumNode(r.code), EncodeOnto(StringNode(r.matchedDN), EncodeOnto(StringNode(r.diagnostic), rest1)))
      && SizeAll(ResultNodes(r)) == Size(EnumNode(r.code)) + Size(StringNode(r.matchedDN)) + Size(StringNode(r.diagnostic))
                                    + if r.referral.Some? then HeaderSize(SizeAll(uris)) + SizeAll(uris) else 0
  {
    hide EncodeOnto, EncodeAllOnto, Size, SizeAll, HeaderOnto, HeaderSize, Nodes;
    var uris := if r.referral.Some? then Nodes(StringNode, r.referral.value) else [];
    var last := if r.referral.Some? then [Branch(CONTEXT, 3, uris)] else [];
    EncodeBranch(CONTEXT, 3, uris, rest);
    EncodeSingle(Branch(CONTEXT, 3, uris), rest);
    EncodeNone(rest);
    EncodeTriple(EnumNode(r.code), StringNode(r.matchedDN), StringNode(r.diagnostic), EncodeAllOnto(last, rest));
    EncodeAppend([EnumNode(r.code), StringNode(r.matchedDN), StringNode(r.diagnostic)], last, rest);
  }

  method SizeResult(r: Result) returns (size: nat)
    ensures size == SizeAll(ResultNodes(r))
  {
    hide EncodeOnto, EncodeAllOnto, Size, SizeAll, HeaderOnto, HeaderSize, Nodes, ResultNodes;
    ResultShape(r, []);
    size := 0;
    var n;
    if r.referral.Some? {
      size := SizeStrings(r.referral.value);
      n := SizeTagAndLength(size);
      size := size + n;
    }
    n := SizePrimitiveSubBytes(Octets(r.diagnostic));
    size := size + n;
    n := SizePrimitiveSubBytes(Octets(r.matchedDN));
    size := size + n;
    n := SizePrimitiveSubBytes(Int(r.code));
    size := size + n;
  }

  method WriteResult(b: Bytes, r: Result) returns (size: nat)
    requires b.Valid() && SizeAll(ResultNodes(r)) <= b.offset
    modifies b`offset, b.buf
    ensures size == SizeAll(ResultNodes(r))
    ensures b.Wrote(old(b.buf[..]), old(b.offset), size, EncodeAllOnto(ResultNodes(r), old(b.Rest())))
  {
    hide EncodeOnto, EncodeAllOnto, Size, SizeAll, HeaderOnto, HeaderSize, Nodes, ResultNodes;
    ResultShape(r, b.Rest());
    size := 0;
    var n;
    if r.referral.Some? {
      size := WriteStrings(b, r.referral.value);
      n := b.WriteTagAndLength(CONTEXT, true, 3, size);
      size := size + n;
    }
    n := b.WritePrimitiveSubBytes(UNIVERSAL, OCTET_STRING, Octets(r.diagnostic));
    size := size + n;
    n := b.WritePrimitiveSubBytes(UNIVERSAL, OCTET_STRING, Octets(r.matchedDN));
    size := size + n;
    n := b.WritePrimitiveSubBytes(UNIVERSAL, ENUM, Int(r.code));
    size := size + n;
  }

  lemma SaslShape(a: Authentication, rest: seq<byte>)
    requires a.Sasl?
    ensures
      var rest1 := if a.credentials.Some? then EncodeOnto(StringNode(a.credentials.value), rest) else rest;
      var size := Size(StringNode(a.mechanism)) + if a.credentials.Some? then Size(StringNode(a.credentials.value)) else 0;
      && EncodeOnto(AuthenticationNode(a), rest) == HeaderOnto(CONTEXT, true, 3, size, EncodeOnto(StringNode(a.mechanism), rest1))
      && Size(AuthenticationNode(a)) == HeaderSize(size) + size
  {
    hide EncodeOnto, EncodeAllOnto, Size, SizeAll, HeaderOnto, HeaderSize;
    var kids := AuthenticationNode(a).kids;
    EncodeBranch(CONTEXT, 3, kids, rest);
    if a.credentials.Some? {
      EncodePair(StringNode(a.mechanism), StringNode(a.credentials.value), rest);
      assert kids == [StringNode(a.mechanism), StringNode(a.credentials.value)];
    } else {
      EncodeSingle(StringNode(a.mechanism), rest);
      assert kids == [StringNode(a.mechanism)];
    }
  }

  method SizeAuthentication(a: Authentication) returns (size: nat)
    ensures size == Size(AuthenticationNode(a))
  {
    hide EncodeOnto, EncodeAllOnto, Size, SizeAll, HeaderOnto, HeaderSize;
    match a {
      case Simple(password) => size := SizePrimitiveSubBytes(Octets(password));
      case Sasl(mechanism, credentials) =>
        SaslShape(a, []);
        size := 0;
        if credentials.Some? {
          size := SizePrimitiveSubBytes(Octets(credentials.value));
        }
        var n := SizePrimitiveSubBytes(Octets(mechanism));
        size := size + n;
        n := SizeTagAndLength(size);
        size := size + n;
    }
  }

  method WriteAuthentication(b: Bytes, a: Authentication) returns (size: nat)
    requires b.Valid() && Size(AuthenticationNode(a)) <= b.offset
    modifies b`offset, b.buf
    ensures size == Size(AuthenticationNode(a))
    ensures b.Wrote(old(b.buf[..]), old(b.offset), size, EncodeOnto(AuthenticationNode(a), old(b.Rest())))
  {
    hide EncodeOnto, EncodeAllOnto, Size, SizeAll, HeaderOnto, HeaderSize;
    match a {
      case Simple(password) => size := b.WritePrimitiveSubBytes(CONTEXT, 0, Octets(password));
      case Sasl(mechanism, credentials) =>
        SaslShape(a, b.Rest());
        size := 0;
        if credentials.Some? {
          size := b.WritePrimitiveSubBytes(UNIVERSAL, OCTET_STRING, Octets(credentials.value));
        }
        var n := b.WritePrimitiveSubBytes(UNIVERSAL, OCTET_STRING, Octets(mechanism));
        size := size + n;
        n := b.WriteTagAndLength(CONTEXT, true, 3, size);
        size := size + n;
    }
  }

  /** The nodes of a search request before the filter, and from the filter on. */
  function SearchHead(s: Search): seq<Node> {
    [StringNode(s.baseObject), EnumNode(s.scope), EnumNode(s.derefAliases),
     IntNode(s.sizeLimit), IntNode(s.timeLimit), BoolNode(s.typesOnly)]
  }

  function SearchTail(s: Search): seq<Node> {
    [FilterNode(s.filter), Branch(UNIVERSAL, SEQUENCE, Nodes(StringNode, s.attributes))]
  }

  lemma SearchShape(s: Search, rest: seq<byte>)
    ensures EncodeAllOnto(SearchNodes(s), rest) == EncodeAllOnto(SearchHead(s), EncodeAllOnto(SearchTail(s), rest))
    ensures SizeAll(SearchNodes(s)) == SizeAll(SearchHead(s)) + SizeAll(SearchTail(s))
  {
    hide EncodeOnto, EncodeAllOnto, SizeAll, Nodes, FilterNode, StringNode, EnumNode, IntNode, BoolNode;
    EncodeAppend(SearchHead(s), SearchTail(s), rest);
    assert SearchNodes(s) == SearchHead(s) + SearchTail(s);
  }

  lemma SearchHeadShape(s: Search, rest: seq<byte>)
    ensures EncodeAllOnto(SearchHead(s), rest)
         == EncodeOnto(StringNode(s.baseObject), EncodeOnto(EnumNode(s.scope), EncodeOnto(EnumNode(s.derefAliases),
            EncodeOnto(IntNode(s.sizeLimit), EncodeOnto(IntNode(s.timeLimit), EncodeOnto(BoolNode(s.typesOnly), rest))))))
    ensures SizeAll(SearchHead(s))
         == Size(StringNode(s.baseObject)) + Size(EnumNode(s.scope)) + Size(EnumNode(s.derefAliases))
            + Size(IntNode(s.sizeLimit)) + Size(IntNode(s.timeLimit)) + Size(BoolNode(s.typesOnly))
  {
    hide EncodeOnto, EncodeAllOnto, Size, SizeAll, StringNode, EnumNode, IntNode, BoolNode;
    var first := [StringNode(s.baseObject), EnumNode(s.scope), EnumNode(s.derefAliases)];
    var second := [IntNode(s.sizeLimit), IntNode(s.timeLimit), BoolNode(s.typesOnly)];
    EncodeTriple(second[0], second[1], second[2], rest);
    EncodeTriple(first[0], first[1], first[2], EncodeAllOnto(second, rest));
    EncodeAppend(first, second, rest);
    assert SearchHead(s) == first + second;
  }

  lemma SearchTailShape(s: Search, rest: seq<byte>)
    ensures
      var attributes := Nodes(StringNode, s.attributes);
      && EncodeAllOnto(SearchTail(s), rest)
         == EncodeOnto(FilterNode(s.filter),
                       HeaderOnto(UNIVERSAL, true, SEQUENCE, SizeAll(attributes), EncodeAllOnto(attributes, rest)))
      && SizeAll(SearchTail(s)) == Size(FilterNode(s.filter)) + HeaderSize(SizeAll(attributes)) + SizeAll(attributes)
  {
    hide EncodeOnto, EncodeAllOnto, Size, SizeAll, HeaderOnto, HeaderSize, Nodes, FilterNode;
    EncodeBranch(UNIVERSAL, SEQUENCE, Nodes(StringNode, s.attributes), rest);
    EncodePair(FilterNode(s.filter), Branch(UNIVERSAL, SEQUENCE, Nodes(StringNode, s.attributes)), rest);
  }

  method SizeSearch(s: Search) returns (size: nat)
    ensures size == SizeAll(SearchNodes(s))
  {
    hide EncodeOnto, EncodeAllOnto, Size, SizeAll, HeaderOnto, HeaderSize, Nodes, SearchNodes, FilterNode,
         SearchHead, SearchTail;
    SearchShape(s, []);
    SearchHeadShape(s, []);
    SearchTailShape(s, []);
    size := SizePrimitiveSubBytes(Octets(s.baseObject));
    var n := SizePrimitiveSubBytes(Int(s.scope));
    size := size + n;
    n := SizePrimitiveSubBytes(Int(s.derefAliases));
    size := size + n;
    n := SizePrimitiveSubBytes(Int(s.sizeLimit));
    size := size + n;
    n := SizePrimitiveSubBytes(Int(s.timeLimit));
    size := size + n;
    n := SizePrimitiveSubBytes(Bool(s.typesOnly));
    size := size + n;
    n := SizeFilter(s.filter);
    size := size + n;
    n := SizeStrings(s.attributes);
    var m := SizeTagAndLength(n);
    size := size + n + m;
  }

  method WriteSearchTail(b: Bytes, s: Search) returns (size: nat)
    requires b.Valid() && SizeAll(SearchTail(s)) <= b.offset
    modifies b`offset, b.buf
    ensures size == SizeAll(SearchTail(s))
    ensures b.Wrote(old(b.buf[..]), old(b.offset), size, EncodeAllOnto(SearchTail(s), old(b.Rest())))
  {
    hide EncodeOnto, EncodeAllOnto, Size, SizeAll, HeaderOnto, HeaderSize, Nodes, FilterNode, SearchTail;
    ghost var rest, attributes := b.Rest(), Nodes(StringNode, s.attributes);
    SearchTailShape(s, rest);
    size := WriteStrings(b, s.attributes);
    var n := b.WriteTagAndLength(UNIVERSAL, true, SEQUENCE, size);
    size := size + n;
    assert b.Rest() == HeaderOnto(UNIVERSAL, true, SEQUENCE, SizeAll(attributes), EncodeAllOnto(attributes, rest));
    n := WriteFilter(b, s.filter);
    size := size + n;
  }

  method WriteSearchHead(b: Bytes, s: Search) returns (size: nat)
    requires b.Valid() && SizeAll(SearchHead(s)) <= b.offset
    modifies b`offset, b.buf
    ensures size == SizeAll(SearchHead(s))
    ensures b.Wrote(old(b.buf[..]), old(b.offset), size, EncodeAllOnto(SearchHead(s), old(b.Rest())))
  {
    hide EncodeOnto, EncodeAllOnto, Size, SizeAll, SearchHead;
    SearchHeadShape(s, b.Rest());
    size := b.WritePrimitiveSubBytes(UNIVERSAL, BOOLEAN, Bool(s.typesOnly));
    var n := b.WritePrimitiveSubBytes(UNIVERSAL, INTEGER, Int(s.timeLimit));
    size := size + n;
    n := b.WritePrimitiveSubBytes(UNIVERSAL, INTEGER, Int(s.sizeLimit));
    size := size + n;
    n := b.WritePrimitiveSubBytes(UNIVERSAL, ENUM, Int(s.derefAliases));
    size := size + n;
    n := b.WritePrimitiveSubBytes(UNIVERSAL, ENUM, Int(s.scope));
    size := size + n;
    n := b.WritePrimitiveSubBytes(UNIVERSAL, OCTET_STRING, Octets(s.baseObject));
    size := size + n;
  }

  method WriteSearch(b: Bytes, s: Search) returns (size: nat)
    requires b.Valid() && SizeAll(SearchNodes(s)) <= b.offset
    modifies b`offset, b.buf
    ensures size == SizeAll(SearchNodes(s))
    ensures b.Wrote(old(b.buf[..]), old(b.offset), size, EncodeAllOnto(SearchNodes(s), old(b.Rest())))
  {
    hide EncodeOnto, EncodeAllOnto, Size, SizeAll, SearchNodes, SearchHead, SearchTail;
    SearchShape(s, b.Rest());
    size := WriteSearchTail(b, s);
    var n := WriteSearchHead(b, s);
    size := size + n;
  }

  /******* Operations *******/

  /** A name followed by a SEQUENCE OF, as three operations have it. */
  lemma NamedListShape(name: Str, ns: seq<Node>, rest: seq<byte>)
    ensures
      var kids := [StringNode(name), Branch(UNIVERSAL, SEQUENCE, ns)];
      && EncodeAllOnto(kids, rest)
         == EncodeOnto(StringNode(name), HeaderOnto(UNIVERSAL, true, SEQUENCE, SizeAll(ns), EncodeAllOnto(ns, rest)))
      && SizeAll(kids) == Size(StringNode(name)) + HeaderSize(SizeAll(ns)) + SizeAll(ns)
  {
    hide EncodeOnto, EncodeAllOnto, Size, SizeAll, HeaderOnto, HeaderSize;
    EncodeBranch(UNIVERSAL, SEQUENCE, ns, rest);
    EncodePair(StringNode(name), Branch(UNIVERSAL, SEQUENCE, ns), rest);
  }

  /** The header of a list, then the name in front of it. */
  method WriteNamed(b: Bytes, name: Str, ghost ns: seq<Node>, written: nat, ghost rest: seq<byte>) returns (size: nat)
    requires b.Valid() && written == SizeAll(ns) && b.Rest() == EncodeAllOnto(ns, rest)
    requires HeaderSize(SizeAll(ns)) + Size(StringNode(name)) <= b.offset
    modifies b`offset, b.buf
    ensures size + SizeAll(ns) == SizeAll([StringNode(name), Branch(UNIVERSAL, SEQUENCE, ns)])
    ensures b.Wrote(old(b.buf[..]), old(b.offset), size,
                    EncodeAllOnto([StringNode(name), Branch(UNIVERSAL, SEQUENCE, ns)], rest))
  {
    hide EncodeOnto, EncodeAllOnto, Size, SizeAll, HeaderOnto, HeaderSize;
    NamedListShape(name, ns, rest);
    size := b.WriteTagAndLength(UNIVERSAL, true, SEQUENCE, written);
    var n := b.WritePrimitiveSubBytes(UNIVERSAL, OCTET_STRING, Octets(name));
    size := size + n;
  }

  method SizeNamed(name: Str, ghost ns: seq<Node>, content: nat) returns (size: nat)
    requires content == SizeAll(ns)
    ensures size == SizeAll([StringNode(name), Branch(UNIVERSAL, SEQUENCE, ns)])
  {
    hide EncodeOnto, EncodeAllOnto, Size, SizeAll, HeaderOnto, HeaderSize;
    NamedListShape(name, ns, []);
    size := SizeTagAndLength(content);
    var n := SizePrimitiveSubBytes(Octets(name));
    size := size + n + content;
  }

  method WriteBindRequest(b: Bytes, op: Op) returns (size: nat)
    requires op.BindRequest?
    requires b.Valid() && SizeAll(OpNodes(op)) <= b.offset
    modifies b`offset, b.buf
    ensures size == SizeAll(OpNodes(op))
    ensures b.Wrote(old(b.buf[..]), old(b.offset), size, EncodeAllOnto(OpNodes(op), old(b.Rest())))
  {
    hide EncodeOnto, EncodeAllOnto, Size, SizeAll, HeaderOnto, HeaderSize, AuthenticationNode;
    EncodeTriple(IntNode(op.version), StringNode(op.name), AuthenticationNode(op.authentication), b.Rest());
    size := WriteAuthentication(b, op.authentication);
    var n := b.WritePrimitiveSubBytes(UNIVERSAL, OCTET_STRING, Octets(op.name));
    size := size + n;
    n := b.WritePrimitiveSubBytes(UNIVERSAL, INTEGER, Int(op.version));
    size := size + n;
  }

  method SizeBindRequest(op: Op) returns (size: nat)
    requires op.BindRequest?
    ensures size == SizeAll(OpNodes(op))
  {
    hide EncodeOnto, EncodeAllOnto, Size, SizeAll, HeaderOnto, HeaderSize, AuthenticationNode;
    EncodeTriple(IntNode(op.version), StringNode(op.name), AuthenticationNode(op.authentication), []);
    size := SizePrimitiveSubBytes(Int(op.version));
    var n := SizePrimitiveSubBytes(Octets(op.name));
    size := size + n;
    n := SizeAuthentication(op.authentication);
    size := size + n;
  }

  method WriteBindResponse(b: Bytes, op: Op) returns (size: nat)
    requires op.BindResponse?
    requires b.Valid() && SizeAll(OpNodes(op)) <= b.offset
    modifies b`offset, b.buf
    ensures size == SizeAll(OpNodes(op))
    ensures b.Wrote(old(b.buf[..]), old(b.offset), size, EncodeAllOnto(OpNodes(op), old(b.Rest())))
  {
    hide EncodeOnto, EncodeAllOnto, Size, SizeAll, HeaderOnto, HeaderSize, ResultNodes, Optional;
    EncodeAppend(ResultNodes(op.result), Optional(7, op.serverSaslCreds), b.Rest());
    size := WriteOptional(b, 7, op.serverSaslCreds);
    var n := WriteResult(b, op.result);
    size := size + n;
  }

  method SizeBindResponse(op: Op) returns (size: nat)
    requires op.BindResponse?
    ensures size == SizeAll(OpNodes(op))
  {
    hide EncodeOnto, EncodeAllOnto, Size, SizeAll, HeaderOnto, HeaderSize, ResultNodes, Optional;
    EncodeAppend(ResultNodes(op.result), Optional(7, op.serverSaslCreds), []);
    size := SizeOptional(7, op.serverSaslCreds);
    var n := SizeResult(op.result);
    size := size + n;
  }

  method WriteSearchResultEntry(b: Bytes, op: Op) returns (size: nat)
    requires op.SearchResultEntry?
    requires b.Valid() && SizeAll(OpNodes(op)) <= b.offset
    modifies b`offset, b.buf
    ensures size == SizeAll(OpNodes(op))
    ensures b.Wrote(old(b.buf[..]), old(b.offset), size, EncodeAllOnto(OpNodes(op), old(b.Rest())))
  {
    hide EncodeOnto, EncodeAllOnto, Size, SizeAll, HeaderOnto, HeaderSize, Nodes, PartialNode;
    ghost var ns := Nodes(PartialNode, op.attributes);
    ghost var rest := b.Rest();
    NamedListShape(op.objectName, ns, rest);
    size := WritePartials(b, op.attributes);
    var n := WriteNamed(b, op.objectName, ns, size, rest);
    size := size + n;
  }

  method SizeSearchResultEntry(op: Op) returns (size: nat)
    requires op.SearchResultEntry?
    ensures size == SizeAll(OpNodes(op))
  {
    hide EncodeOnto, EncodeAllOnto, Size, SizeAll, HeaderOnto, HeaderSize, Nodes, PartialNode;
    ghost var ns := Nodes(PartialNode, op.attributes);
    size := SizePartials(op.attributes);
    size := SizeNamed(op.objectName, ns, size);
  }

  method WriteModifyRequest(b: Bytes, op: Op) returns (size: nat)
    requires op.ModifyRequest?
    requires b.Valid() && SizeAll(OpNodes(op)) <= b.offset
    modifies b`offset, b.buf
    ensures size == SizeAll(OpNodes(op))
    ensures b.Wrote(old(b.buf[..]), old(b.offset), size, EncodeAllOnto(OpNodes(op), old(b.Rest())))
  {
    hide EncodeOnto, EncodeAllOnto, Size, SizeAll, HeaderOnto, HeaderSize, Nodes, ChangeNode;
    ghost var ns := Nodes(ChangeNode, op.changes);
    ghost var rest := b.Rest();
    NamedListShape(op.target, ns, rest);
    size := WriteChanges(b, op.changes);
    var n := WriteNamed(b, op.target, ns, size, rest);
    size := size + n;
  }

  method SizeModifyRequest(op: Op) returns (size: nat)
    requires op.ModifyRequest?
    ensures size == SizeAll(OpNodes(op))
  {
    hide EncodeOnto, EncodeAllOnto, Size, SizeAll, HeaderOnto, HeaderSize, Nodes, ChangeNode;
    ghost var ns := Nodes(ChangeNode, op.changes);
    size := SizeChanges(op.changes);
    size := SizeNamed(op.target, ns, size);
  }

  method WriteAddRequest(b: Bytes, op: Op) returns (size: nat)
    requires op.AddRequest?
    requires b.Valid() && SizeAll(OpNodes(op)) <= b.offset
    modifies b`offset, b.buf
    ensures size == SizeAll(OpNodes(op))
    ensures b.Wrote(old(b.buf[..]), old(b.offset), size, EncodeAllOnto(OpNodes(op), old(b.Rest())))
  {
    hide EncodeOnto, EncodeAllOnto, Size, SizeAll, HeaderOnto, HeaderSize, Nodes, PartialNode;
    ghost var ns := Nodes(PartialNode, op.attributes);
    ghost var rest := b.Rest();
    NamedListShape(op.entry, ns, rest);
    size := WritePartials(b, op.attributes);
    var n := WriteNamed(b, op.entry, ns, size, rest);
    size := size + n;
  }

  method SizeAddRequest(op: Op) returns (size: nat)
    requires op.AddRequest?
    ensures size == SizeAll(OpNodes(op))
  {
    hide EncodeOnto, EncodeAllOnto, Size, SizeAll, HeaderOnto, HeaderSize, Nodes, PartialNode;
    ghost var ns := Nodes(PartialNode, op.attributes);
    size := SizePartials(op.attributes);
    size := SizeNamed(op.entry, ns, size);
  }

  lemma ModifyDNRequestShape(op: Op, rest: seq<byte>)
    requires op.ModifyDNRequest?
    ensures EncodeAllOnto(OpNodes(op), rest)
         == EncodeOnto(StringNode(op.entry), EncodeOnto(StringNode(op.newrdn), EncodeOnto(BoolNode(op.deleteoldrdn),
                       EncodeAllOnto(Optional(0, op.newSuperior), rest))))
    ensures SizeAll(OpNodes(op)) == Size(StringNode(op.entry)) + Size(StringNode(op.newrdn))
                                    + Size(BoolNode(op.deleteoldrdn)) + SizeAll(Optional(0, op.newSuperior))
  {
    hide EncodeOnto, EncodeAllOnto, Size, SizeAll, Optional, StringNode, BoolNode;
    var x, y, z, last := StringNode(op.entry), StringNode(op.newrdn), BoolNode(op.deleteoldrdn), Optional(0, op.newSuperior);
    EncodeAppend([x, y, z], last, rest);
    EncodeTriple(x, y, z, EncodeAllOnto(last, rest));
  }

  method WriteModifyDNRequest(b: Bytes, op: Op) returns (size: nat)
    requires op.ModifyDNRequest?
    requires b.Valid() && SizeAll(OpNodes(op)) <= b.offset
    modifies b`offset, b.buf
    ensures size == SizeAll(OpNodes(op))
    ensures b.Wrote(old(b.buf[..]), old(b.offset), size, EncodeAllOnto(OpNodes(op), old(b.Rest())))
  {
    hide EncodeOnto, EncodeAllOnto, Size, SizeAll, HeaderOnto, HeaderSize, Optional;
    ModifyDNRequestShape(op, b.Rest());
    size := WriteOptional(b, 0, op.newSuperior);
    var n := b.WritePrimitiveSubBytes(UNIVERSAL, BOOLEAN, Bool(op.deleteoldrdn));
    size := size + n;
    n := b.WritePrimitiveSubBytes(UNIVERSAL, OCTET_STRING, Octets(op.newrdn));
    size := size + n;
    n := b.WritePrimitiveSubBytes(UNIVERSAL, OCTET_STRING, Octets(op.entry));
    size := size + n;
  }

  method SizeModifyDNRequest(op: Op) returns (size: nat)
    requires op.ModifyDNRequest?
    ensures size == SizeAll(OpNodes(op))
  {
    hide EncodeOnto, EncodeAllOnto, Size, SizeAll, HeaderOnto, HeaderSize, Optional;
    ModifyDNRequestShape(op, []);
    size := SizePrimitiveSubBytes(Octets(op.entry));
    var n := SizePrimitiveSubBytes(Octets(op.newrdn));
    size := size + n;
    n := SizePrimitiveSubBytes(Bool(op.deleteoldrdn));
    size := size + n;
    n := SizeOptional(0, op.newSuperior);
    size := size + n;
  }

  method WriteCompareRequest(b: Bytes, op: Op) returns (size: nat)
    requires op.CompareRequest?
    requires b.Valid() && SizeAll(OpNodes(op)) <= b.offset
    modifies b`offset, b.buf
    ensures size == SizeAll(OpNodes(op))
    ensures b.Wrote(old(b.buf[..]), old(b.offset), size, EncodeAllOnto(OpNodes(op), old(b.Rest())))
  {
    hide EncodeOnto, EncodeAllOnto, Size, SizeAll, HeaderOnto, HeaderSize;
    ghost var ava := Branch(UNIVERSAL, SEQUENCE, [StringNode(op.desc), StringNode(op.value)]);
    EncodePair(StringNode(op.entry), ava, b.Rest());
    size := WriteAssertion(b, UNIVERSAL, SEQUENCE, op.desc, op.value);
    var n := b.WritePrimitiveSubBytes(UNIVERSAL, OCTET_STRING, Octets(op.entry));
    size := size + n;
  }

  method SizeCompareRequest(op: Op) returns (size: nat)
    requires op.CompareRequest?
    ensures size == SizeAll(OpNodes(op))
  {
    hide EncodeOnto, EncodeAllOnto, Size, SizeAll, HeaderOnto, HeaderSize;
    ghost var ava := Branch(UNIVERSAL, SEQUENCE, [StringNode(op.desc), StringNode(op.value)]);
    EncodePair(StringNode(op.entry), ava, []);
    size := SizePrimitiveSubBytes(Octets(op.entry));
    var n := SizeAssertion(UNIVERSAL, SEQUENCE, op.desc, op.value);
    size := size + n;
  }

  method WriteExtendedRequest(b: Bytes, op: Op) returns (size: nat)
    requires op.ExtendedRequest?
    requires b.Valid() && SizeAll(OpNodes(op)) <= b.offset
    modifies b`offset, b.buf
    ensures size == SizeAll(OpNodes(op))
    ensures b.Wrote(old(b.buf[..]), old(b.offset), size, EncodeAllOnto(OpNodes(op), old(b.Rest())))
  {
    hide EncodeOnto, EncodeAllOnto, Size, SizeAll, HeaderOnto, HeaderSize, Optional;
    EncodeAppend([TaggedNode(0, op.requestName)], Optional(1, op.requestValue), b.Rest());
    EncodeSingle(TaggedNode(0, op.requestName), EncodeAllOnto(Optional(1, op.requestValue), b.Rest()));
    size := WriteOptional(b, 1, op.requestValue);
    var n := b.WritePrimitiveSubBytes(CONTEXT, 0, Octets(op.requestName));
    size := size + n;
  }

  method SizeExtendedRequest(op: Op) returns (size: nat)
    requires op.ExtendedRequest?
    ensures size == SizeAll(OpNodes(op))
  {
    hide EncodeOnto, EncodeAllOnto, Size, SizeAll, HeaderOnto, HeaderSize, Optional;
    EncodeAppend([TaggedNode(0, op.requestName)], Optional(1, op.requestValue), []);
    EncodeSingle(TaggedNode(0, op.requestName), EncodeAllOnto(Optional(1, op.requestValue), []));
    size := SizePrimitiveSubBytes(Octets(op.requestName));
    var n := SizeOptional(1, op.requestValue);
    size := size + n;
  }

  lemma ExtendedResponseShape(op: Op, rest: seq<byte>)
    requires op.ExtendedResponse?
    ensures EncodeAllOnto(OpNodes(op), rest)
         == EncodeAllOnto(ResultNodes(op.result), EncodeAllOnto(Optional(10, op.responseName),
                          EncodeAllOnto(Optional(11, op.responseValue), rest)))
    ensures SizeAll(OpNodes(op)) == SizeAll(ResultNodes(op.result)) + SizeAll(Optional(10, op.responseName))
                                    + SizeAll(Optional(11, op.responseValue))
  {
    hide EncodeOnto, EncodeAllOnto, Size, SizeAll, Optional, ResultNodes;
    var result, name, value := ResultNodes(op.result), Optional(10, op.responseName), Optional(11, op.responseValue);
    EncodeAppend(result + name, value, rest);
    EncodeAppend(result, name, EncodeAllOnto(value, rest));
  }

  method WriteExtendedResponse(b: Bytes, op: Op) returns (size: nat)
    requires op.ExtendedResponse?
    requires b.Valid() && SizeAll(OpNodes(op)) <= b.offset
    modifies b`offset, b.buf
    ensures size == SizeAll(OpNodes(op))
    ensures b.Wrote(old(b.buf[..]), old(b.offset), size, EncodeAllOnto(OpNodes(op), old(b.Rest())))
  {
    hide EncodeOnto, EncodeAllOnto, Size, SizeAll, HeaderOnto, HeaderSize, ResultNodes, Optional;
    ExtendedResponseShape(op, b.Rest());
    size := WriteOptional(b, 11, op.responseValue);
    var n := WriteOptional(b, 10, op.responseName);
    size := size + n;
    n := WriteResult(b, op.result);
    size := size + n;
  }

  method SizeExtendedResponse(op: Op) returns (size: nat)
    requires op.ExtendedResponse?
    ensures size == SizeAll(OpNodes(op))
  {
    hide EncodeOnto, EncodeAllOnto, Size, SizeAll, HeaderOnto, HeaderSize, ResultNodes, Optional;
    ExtendedResponseShape(op, []);
    size := SizeResult(op.result);
    var n := SizeOptional(10, op.responseName);
    size := size + n;
    n := SizeOptional(11, op.responseValue);
    size := size + n;
  }

  method WriteIntermediateResponse(b: Bytes, op: Op) returns (size: nat)
    requires op.IntermediateResponse?
    requires b.Valid() && SizeAll(OpNodes(op)) <= b.offset
    modifies b`offset, b.buf
    ensures size == SizeAll(OpNodes(op))
    ensures b.Wrote(old(b.buf[..]), old(b.offset), size, EncodeAllOnto(OpNodes(op), old(b.Rest())))
  {
    hide EncodeOnto, EncodeAllOnto, Size, SizeAll, HeaderOnto, HeaderSize, Optional;
    EncodeAppend(Optional(0, op.responseName), Optional(1, op.responseValue), b.Rest());
    size := WriteOptional(b, 1, op.responseValue);
    var n := WriteOptional(b, 0, op.responseName);
    size := size + n;
  }

  method SizeIntermediateResponse(op: Op) returns (size: nat)
    requires op.IntermediateResponse?
    ensures size == SizeAll(OpNodes(op))
  {
    hide EncodeOnto, EncodeAllOnto, Size, SizeAll, HeaderOnto, HeaderSize, Optional;
    EncodeAppend(Optional(0, op.responseName), Optional(1, op.responseValue), []);
    size := SizeOptional(0, op.responseName);
    var n := SizeOptional(1, op.responseValue);
    size := size + n;
  }

  /** The parts of an operation that is not a primitive value. */
  method WriteOpContents(b: Bytes, op: Op) returns (size: nat)
    requires !op.UnbindRequest? && !op.DelRequest? && !op.AbandonRequest?
    requires b.Valid() && SizeAll(OpNodes(op)) <= b.offset
    modifies b`offset, b.buf
    ensures size == SizeAll(OpNodes(op))
    ensures b.Wrote(old(b.buf[..]), old(b.offset), size, EncodeAllOnto(OpNodes(op), old(b.Rest())))
  {
    hide EncodeOnto, EncodeAllOnto, Size, SizeAll, HeaderOnto, HeaderSize;
    match op {
      case BindRequest(_, _, _) => size := WriteBindRequest(b, op);
      case BindResponse(_, _) => size := WriteBindResponse(b, op);
      case SearchResultEntry(_, _) => size := WriteSearchResultEntry(b, op);
      case ModifyRequest(_, _) => size := WriteModifyRequest(b, op);
      case AddRequest(_, _) => size := WriteAddRequest(b, op);
      case ModifyDNRequest(_, _, _, _) => size := WriteModifyDNRequest(b, op);
      case CompareRequest(_, _, _) => size := WriteCompareRequest(b, op);
      case ExtendedRequest(_, _) => size := WriteExtendedRequest(b, op);
      case ExtendedResponse(_, _, _) => size := WriteExtendedResponse(b, op);
      case IntermediateResponse(_, _) => size := WriteIntermediateResponse(b, op);
      case SearchRequest(search) => size := WriteSearch(b, search);
      case SearchResultReference(uris) => size := WriteStrings(b, uris);
      case Response(_, result) => size := WriteResult(b, result);
    }
  }

  method SizeOpContents(op: Op) returns (size: nat)
    requires !op.UnbindRequest? && !op.DelRequest? && !op.AbandonRequest?
    ensures size == SizeAll(OpNodes(op))
  {
    hide EncodeOnto, EncodeAllOnto, Size, SizeAll, HeaderOnto, HeaderSize;
    match op {
      case BindRequest(_, _, _) => size := SizeBindRequest(op);
      case BindResponse(_, _) => size := SizeBindResponse(op);
      case SearchResultEntry(_, _) => size := SizeSearchResultEntry(op);
      case ModifyRequest(_, _) => size := SizeModifyRequest(op);
      case AddRequest(_, _) => size := SizeAddRequest(op);
      case ModifyDNRequest(_, _, _, _) => size := SizeModifyDNRequest(op);
      case CompareRequest(_, _, _) => size := SizeCompareRequest(op);
      case ExtendedRequest(_, _) => size := SizeExtendedRequest(op);
      case ExtendedResponse(_, _, _) => size := SizeExtendedResponse(op);
      case IntermediateResponse(_, _) => size := SizeIntermediateResponse(op);
      case SearchRequest(search) => size := SizeSearch(search);
      case SearchResultReference(uris) => size := SizeStrings(uris);
      case Response(_, result) => size := SizeResult(result);
    }
  }

  method SizeOp(op: Op) returns (size: nat)
    ensures size == Size(OpNode(op))
  {
    hide EncodeOnto, EncodeAllOnto, Size, SizeAll, HeaderOnto, HeaderSize, OpNodes;
    if op.UnbindRequest? {
      UnbindShape([]);
      size := SizeTagAndLength(0);
    } else if op.DelRequest? {
      size := SizePrimitiveSubBytes(Octets(op.entry));
    } else if op.AbandonRequest? {
      size := SizePrimitiveSubBytes(Int(op.id));
    } else {
      EncodeBranch(APPLICATION, OpTag(op), OpNodes(op), []);
      size := SizeOpContents(op);
      var n := SizeTagAndLength(size);
      size := size + n;
    }
  }

  lemma UnbindShape(rest: seq<byte>)
    ensures EncodeOnto(Leaf(APPLICATION, 2, []), rest) == HeaderOnto(APPLICATION, false, 2, 0, rest)
    ensures Size(Leaf(APPLICATION, 2, [])) == HeaderSize(0)
  {
    assert [] + rest == rest;
  }

  method WriteOp(b: Bytes, op: Op) returns (size: nat)
    requires b.Valid() && Size(OpNode(op)) <= b.offset
    modifies b`offset, b.buf
    ensures size == Size(OpNode(op))
    ensures b.Wrote(old(b.buf[..]), old(b.offset), size, EncodeOnto(OpNode(op), old(b.Rest())))
  {
    hide EncodeOnto, EncodeAllOnto, Size, SizeAll, HeaderOnto, HeaderSize, OpNodes;
    if op.UnbindRequest? {
      UnbindShape(b.Rest());
      size := b.WriteTagAndLength(APPLICATION, false, 2, 0);
    } else if op.DelRequest? {
      size := b.WritePrimitiveSubBytes(APPLICATION, 10, Octets(op.entry));
    } else if op.AbandonRequest? {
      size := b.WritePrimitiveSubBytes(APPLICATION, 16, Int(op.id));
    } else {
      EncodeBranch(APPLICATION, OpTag(op), OpNodes(op), b.Rest());
      hide OpTag;
      size := WriteOpContents(b, op);
      var n := b.WriteTagAndLength(APPLICATION, true, OpTag(op), size);
      size := size + n;
    }
  }

  /******* Messages *******/

  lemma MessageShape(m: Message, rest: seq<byte>)
    ensures
      var cs := if m.controls.Some? then Nodes(ControlNode, m.controls.value) else [];
      var rest1 := if m.controls.Some? then HeaderOnto(CONTEXT, true, 0, SizeAll(cs), EncodeAllOnto(cs, rest)) else rest;
      var size := Size(IntNode(m.id)) + Size(OpNode(m.op))
                  + if m.controls.Some? then HeaderSize(SizeAll(cs)) + SizeAll(cs) else 0;
      && EncodeOnto(MessageNode(m), rest)
         == HeaderOnto(UNIVERSAL, true, SEQUENCE, size, EncodeOnto(IntNode(m.id), EncodeOnto(OpNode(m.op), rest1)))
      && Size(MessageNode(m)) == HeaderSize(size) + size
  {
    hide EncodeOnto, EncodeAllOnto, Size, SizeAll, HeaderOnto, HeaderSize, OpNode, IntNode, Nodes;
    var cs := if m.controls.Some? then Nodes(ControlNode, m.controls.value) else [];
    var last := ControlsNodes(m.controls);
    if m.controls.Some? {
      EncodeBranch(CONTEXT, 0, cs, rest);
      EncodeSingle(Branch(CONTEXT, 0, cs), rest);
    } else {
      EncodeNone(rest);
    }
    EncodePair(IntNode(m.id), OpNode(m.op), EncodeAllOnto(last, rest));
    EncodeAppend([IntNode(m.id), OpNode(m.op)], last, rest);
    EncodeBranch(UNIVERSAL, SEQUENCE, [IntNode(m.id), OpNode(m.op)] + last, rest);
  }

  method SizeMessage(m: Message) returns (size: nat)
    ensures size == Size(MessageNode(m))
  {
    hide EncodeOnto, EncodeAllOnto, Size, SizeAll, HeaderOnto, HeaderSize, OpNode, Nodes, MessageNode;
    MessageShape(m, []);
    size := SizePrimitiveSubBytes(Int(m.id));
    var n := SizeOp(m.op);
    size := size + n;
    if m.controls.Some? {
      n := SizeControls(m.controls.value);
      var k := SizeTagAndLength(n);
      size := size + n + k;
    }
    n := SizeTagAndLength(size);
    size := size + n;
  }

  /** `LDAPMessage.Write`: the buffer is exactly as long as needed and is filled from end to beginning. */
  method WriteMessage(m: Message) returns (b: Bytes)
    ensures fresh(b) && fresh(b.buf) && b.Valid() && b.offset == 0 && b.lo == 0 && b.hi == b.buf.Length
    ensures b.buf[..] == Encode(MessageNode(m))
  {
    hide EncodeOnto, EncodeAllOnto, Size, SizeAll, HeaderOnto, HeaderSize, OpNode, Nodes, MessageNode;
    MessageShape(m, []);
    var totalSize := SizeMessage(m);
    var buf := new byte[totalSize];
    b := new Bytes(buf, 0, totalSize, totalSize);
    assert b.Rest() == [];
    var size := 0;
    var n;
    if m.controls.Some? {
      size := WriteControls(b, m.controls.value);
      n := b.WriteTagAndLength(CONTEXT, true, 0, size);
      size := size + n;
    }
    n := WriteOp(b, m.op);
    size := size + n;
    n := b.WritePrimitiveSubBytes(UNIVERSAL, INTEGER, Int(m.id));
    size := size + n;
    n := b.WriteTagAndLength(UNIVERSAL, true, SEQUENCE, size);
    size := size + n;
    assert size == totalSize && b.offset == 0;
    assert b.buf[..] == b.Rest();
  }
}

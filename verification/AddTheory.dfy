/** What a successful Add leaves stored, attribute by attribute. */
module AddTheory {
  import opened Wrappers
  import opened Text
  import opened Names
  import opened DirectoryStore
  import opened Directory
  import opened DirectoryTree
  import opened Membership

  /** All the values a request gives for a key, in whatever spellings and however many parts. */
  function Requested(attributes: seq<Attribute>, key: Str): seq<Str> {
    if attributes == [] then []
    else
      var last := attributes[|attributes| - 1];
      Requested(attributes[..|attributes| - 1], key) + if AttributeKey(last.typ) == key then last.vals else []
  }

  lemma {:induction false} ParseEachAppend(base: DN, a: seq<Str>, b: seq<Str>)
    ensures ParseEach(base, a + b) == (match (ParseEach(base, a), ParseEach(base, b))
                                       case (Some(x), Some(y)) => Some(x + y)
                                       case _ => None)
  {
    hide ParseUnder;
    if b == [] {
      assert a + b == a;
      NothingDrafted(base);
      if ParseEach(base, a).Some? { assert ParseEach(base, a).value + [] == ParseEach(base, a).value; }
    } else {
      assert (a + b)[..|a + b| - 1] == a + b[..|b| - 1] && (a + b)[|a + b| - 1] == b[|b| - 1];
      ParseEachAppend(base, a, b[..|b| - 1]);
      var x, y, last := ParseEach(base, a), ParseEach(base, b[..|b| - 1]), ParseUnder(base, b[|b| - 1], false);
      if x.Some? && y.Some? && last.Some? { assert x.value + y.value + [last.value] == x.value + (y.value + [last.value]); }
    }
  }

  lemma {:induction false} MembersParse(s: Contents, base: DN, vals: seq<Str>)
    requires Members(s, base, vals).Ok?
    ensures ParseEach(base, vals) == Some(Members(s, base, vals).value)
  {
    hide ParseUnder, Lookup;
    if vals != [] { MembersParse(s, base, vals[..|vals| - 1]); }
  }

  /** The draft holds what was asked for: the values of other attributes as they are, members by name. */
  lemma {:induction false} DraftCollects(s: Contents, base: DN, attributes: seq<Attribute>, key: Str)
    requires Drafted(s, base, attributes).Ok?
    ensures var d := Drafted(s, base, attributes).value;
            && ParseEach(base, Requested(attributes, MEMBER)) == Some(d.members)
            && Entry([], d.attributes).Get(key) == (if key == MEMBER then Strings(d.members) else Requested(attributes, key))
            && (key in d.attributes ==> CanUpdate(key))
  {
    hide Members, AttributeKey, CanUpdate, ParseEach, Strings;
    if attributes == [] {
      NothingDrafted(base);
    } else {
      var n := |attributes| - 1;
      DraftCollects(s, base, attributes[..n], key);
      if AttributeKey(attributes[n].typ) == MEMBER {
        MembersParse(s, base, attributes[n].vals);
        ParseEachAppend(base, Requested(attributes[..n], MEMBER), attributes[n].vals);
      } else {
        assert Requested(attributes, MEMBER) == Requested(attributes[..n], MEMBER);
      }
    }
  }

  lemma NothingDrafted(base: DN)
    ensures ParseEach(base, []) == Some([]) && Strings([]) == []
  {
  }

  /** The values of one attribute of the new entry. */
  function Expected(base: DN, dn: DN, attributes: seq<Attribute>, meta: Meta, key: Str): seq<Str>
    requires dn != [] && ParseEach(base, Requested(attributes, MEMBER)).Some?
  {
    if key == AttributeKey(dn[0].typ) then [dn[0].value]
    else if key == CREATORSNAME then [meta.user]
    else if key == CREATETIMESTAMP then [meta.timestamp]
    else if key == ENTRYUUID then [meta.uuid]
    else if key == MEMBER then Strings(ParseEach(base, Requested(attributes, MEMBER)).value)
    else if key == OBJECTCLASS && Requested(attributes, key) == [] then [TOP]
    else Requested(attributes, key)
  }

  lemma SystemKeeps(base: DN, s: Contents, dn: DN, attributes: seq<Attribute>, meta: Meta, key: Str)
    requires dn != [] && Drafted(s, base, attributes).Ok?
    ensures ParseEach(base, Requested(attributes, MEMBER)).Some?
    ensures NewEntry(dn, WithSystem(Drafted(s, base, attributes).value.attributes, meta)).Get(key)
            == Expected(base, dn, attributes, meta, key)
  {
    DraftCollects(s, base, attributes, key);
    DraftCollects(s, base, attributes, OBJECTCLASS);
    assert MEMBER != OBJECTCLASS;
    var d := Drafted(s, base, attributes).value;
    hide *;
    SystemGet(d.attributes, meta, key);
    NamedGet(dn, WithSystem(d.attributes, meta), key);
    ExpectedIs(base, dn, attributes, meta, key);
  }

  function SystemValue(attributes: Attributes, meta: Meta, key: Str): seq<Str> {
    if key == CREATORSNAME then [meta.user]
    else if key == CREATETIMESTAMP then [meta.timestamp]
    else if key == ENTRYUUID then [meta.uuid]
    else if key == OBJECTCLASS && Entry([], attributes).Get(key) == [] then [TOP]
    else Entry([], attributes).Get(key)
  }

  lemma SystemGet(attributes: Attributes, meta: Meta, key: Str)
    ensures Entry([], WithSystem(attributes, meta)).Get(key) == SystemValue(attributes, meta, key)
  {
    assert |CREATORSNAME| == 12 && |CREATETIMESTAMP| == 15 && |ENTRYUUID| == 9 && |OBJECTCLASS| == 11;
  }

  lemma NamedGet(dn: DN, attributes: Attributes, key: Str)
    requires dn != []
    ensures NewEntry(dn, attributes).Get(key)
            == if key == AttributeKey(dn[0].typ) then [dn[0].value] else Entry([], attributes).Get(key)
  {
    hide AttributeKey;
  }

  lemma ExpectedIs(base: DN, dn: DN, attributes: seq<Attribute>, meta: Meta, key: Str)
    requires dn != [] && ParseEach(base, Requested(attributes, MEMBER)).Some?
    ensures forall attrs: Attributes ::
              Entry([], attrs).Get(key) == (if key == MEMBER then Strings(ParseEach(base, Requested(attributes, MEMBER)).value)
                                            else Requested(attributes, key)) ==>
              Expected(base, dn, attributes, meta, key)
              == if key == AttributeKey(dn[0].typ) then [dn[0].value] else SystemValue(attrs, meta, key)
  {
    hide AttributeKey, ParseEach, Requested, Strings;
    assert |MEMBER| == 6 && |CREATORSNAME| == 12 && |CREATETIMESTAMP| == 15 && |ENTRYUUID| == 9 && |OBJECTCLASS| == 11;
  }

  lemma UpdatesMiss(s: Contents, cs: seq<Change>, k: Str)
    requires AllUpdate(s, cs) && k !in s
    ensures LastChange(cs, k).None?
  {
    LastChangeIn(cs, k);
  }

  /** What a successful Add ran. */
  lemma AddRan(base: DN, s: Contents, allowed: bool, r: AddRequest, meta: Meta)
    requires AddChanges(s, base, allowed, r, meta).result.Ok?
    ensures ParseUnder(base, r.entry, false).Some? && Drafted(s, base, r.attributes).Ok?
    ensures var dn, d := ParseUnder(base, r.entry, false).value, Drafted(s, base, r.attributes).value;
            var adds := MembershipAdds(s, MEMBEROF, d.members, dn);
            && Lookup(s, dn).None? && adds.result.Ok?
            && After(AddChanges(s, base, allowed, r, meta))
               == ApplyChanges(adds.store, [Put(NewEntry(dn, WithSystem(d.attributes, meta)))] + adds.result.value)
  {
    hide ParseUnder, Drafted, MembershipAdds, Lookup, ApplyChanges, NewEntry, WithSystem;
  }

  /** A successful Add stores, under the key of the name, every attribute with the values expected of it. */
  lemma AddStores(base: DN, s: Contents, allowed: bool, r: AddRequest, meta: Meta, key: Str)
    requires Tree(base, s) && SLASH !in r.entry
    ensures AddChanges(s, base, allowed, r, meta).result.Ok? ==>
            var dn := ParseUnder(base, r.entry, false).value;
            var t := After(AddChanges(s, base, allowed, r, meta));
            && dn != [] && ParseEach(base, Requested(r.attributes, MEMBER)).Some?
            && Key(dn) in t && t[Key(dn)].dn == dn
            && t[Key(dn)].Get(key) == Expected(base, dn, r.attributes, meta, key)
  {
    assert Sound(base, s);
    hide *;
    if AddChanges(s, base, allowed, r, meta).result.Ok? {
      AddRan(base, s, allowed, r, meta);
      var dn, d := ParseUnder(base, r.entry, false).value, Drafted(s, base, r.attributes).value;
      ParsedClean(base, r.entry);
      LookupByKey(base, s, dn);
      SystemKeeps(base, s, dn, r.attributes, meta, key);
      NewEntryHolds(dn, WithSystem(d.attributes, meta));
      StoredFirst(s, NewEntry(dn, WithSystem(d.attributes, meta)), dn, d.members);
    }
  }

  /** The new entry is written once: none of the updates is of it. */
  lemma StoredFirst(s: Contents, e: Entry, dn: DN, members: seq<DN>)
    requires e.dn == dn && Key(dn) !in s && MembershipAdds(s, MEMBEROF, members, dn).result.Ok?
    ensures var adds := MembershipAdds(s, MEMBEROF, members, dn);
            var t := ApplyChanges(adds.store, [Put(e)] + adds.result.value);
            Key(dn) in t && t[Key(dn)] == e
  {
    var adds := MembershipAdds(s, MEMBEROF, members, dn);
    AddsEdit(s, MEMBEROF, members, dn);
    assert KeyOf(e) == Key(dn);
    hide MembershipAdds, KeyOf, ApplyChanges, LastChange, AllUpdate, SameNames;
    AppliedAt(adds.store, [Put(e)] + adds.result.value, KeyOf(e));
    LastChangeAppend([Put(e)], adds.result.value, KeyOf(e));
    UpdatesMiss(s, adds.result.value, KeyOf(e));
    OneChange([Put(e)], KeyOf(e));
  }
}

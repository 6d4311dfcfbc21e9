/** Runs from an empty store, of a few requests each, that show where the directory's promises fail. */
module Witnesses {
  import opened Wrappers
  import opened BerInteger
  import opened Text
  import opened Names
  import opened DirectoryStore
  import opened Directory
  import opened DirectoryTree
  import opened Membership
  import opened ModifyTheory
  import opened MembershipRuns

  lemma RunSnoc(base: DN, rs: seq<Request>, r: Request)
    ensures Run(base, rs + [r]) == Serve(Run(base, rs), base, r) && Run(base, []) == map[]
  {
    assert (rs + [r])[..|rs|] == rs;
  }

  /******* The base entry *******/

  function Initial(base: DN, meta: Meta): Entry {
    InitialEntry(base, [TOP], TOP, meta)
  }

  function InitialRun(meta: Meta): seq<Request> {
    [Initialize([TOP], TOP, meta)]
  }

  /** A base that is named by an ordinary attribute. */
  predicate PlainBase(base: DN) {
    Clean(base) && AttributeKey(base[0].typ) !in [MEMBER, MEMBEROF, OBJECTCLASS]
  }

  lemma InitialHas(base: DN, meta: Meta)
    requires PlainBase(base)
    ensures var e := Initial(base, meta);
            && e.dn == base && OBJECTCLASS in e.attributes && e.Get(MEMBER) == [] && e.Get(MEMBEROF) == []
            && MEMBER !in e.attributes
  {
    assert |MEMBER| == 6 && |MEMBEROF| == 8 && |OBJECTCLASS| == 11 && |CREATORSNAME| == 12 && |CREATETIMESTAMP| == 15
           && |ENTRYUUID| == 9 && |Ascii("structuralobjectclass")| == 21;
    hide AttributeKey, DNString;
  }

  lemma Initialized(base: DN, meta: Meta) returns (s: Contents)
    requires PlainBase(base)
    ensures s == Run(base, InitialRun(meta)) && s == map[Key(base) := Initial(base, meta)]
    ensures Tree(base, s) && Inverse(s) && Lookup(s, base) == Some(Initial(base, meta))
    ensures ParseUnder(base, DNString(base), false) == Some(base)
  {
    InitialHas(base, meta);
    StringsTellApart(base, base);
    RunSnoc(base, [], Initialize([TOP], TOP, meta));
    assert [] + [Initialize([TOP], TOP, meta)] == InitialRun(meta);
    NoneYet(base);
    hide Initial, Clean, Tree, Inverse, Key, ParseDN, DNString;
    s := Run(base, InitialRun(meta));
    LookedUp(map[], base);
    assert s == ApplyChanges(map[], [Put(Initial(base, meta))]);
    OneStored(Initial(base, meta));
    RunsKeepTree(base, InitialRun(meta));
    EmptyIsInverse();
    BaseInverse(base, map[], [TOP], TOP, meta);
    LookedUp(s, base);
  }

  lemma EmptyIsInverse()
    ensures Inverse(map[])
  {
  }

  lemma OneStored(e: Entry)
    ensures ApplyChanges(map[], [Put(e)]) == map[KeyOf(e) := e]
  {
    assert [Put(e)][..0] == [];
    hide Key;
  }

  /******* A Modify that forgets *******/

  /** A Modify of the base entry with no changes at all succeeds, and the object class is gone. */
  lemma ModifyLosesObjectClass(base: DN, meta: Meta, edit: Meta)
    requires PlainBase(base)
    ensures var s := Run(base, InitialRun(meta));
            var d := ModifyChanges(s, base, true, {}, ModifyRequest(DNString(base), []), edit);
            && Key(base) in s && OBJECTCLASS in s[Key(base)].attributes
            && d.result.Ok? && Key(base) in After(d) && OBJECTCLASS !in After(d)[Key(base)].attributes
  {
    var r := ModifyRequest(DNString(base), []);
    var none := Edit(map[], [], []);
    assert PlainName(base);
    hide *;
    var s := Initialized(base, meta);
    InitialHas(base, meta);
    NothingToEdit(base, Initial(base, meta), s, edit);
    EditRan(base, s, {}, r, base, none, edit);
    NamesDiffer();
    NothingTouched(OBJECTCLASS);
    ModifyForgets(base, s, true, {}, r, edit, OBJECTCLASS);
    NeverItself(base, s[Key(base)]);
  }

  /** What `ModifyForgets` asks of the name. */
  predicate PlainName(dn: DN) {
    dn != [] && AttributeKey(dn[0].typ) !in [MEMBER, MEMBEROF, OBJECTCLASS]
  }

  lemma NothingTouched(attr: Str)
    ensures !Touches([], attr)
  {
  }

  lemma NeverItself(base: DN, entry: Entry)
    ensures !RewritesItself(base, entry, Edit(map[], [], []))
  {
  }

  /** With all checks passed. */
  lemma EditRan(base: DN, s: Contents, allowedAttrs: set<Str>, r: ModifyRequest, dn: DN, e: Edit, meta: Meta)
    requires ParseUnder(base, r.entry, false) == Some(dn) && Lookup(s, dn).Some?
    requires Modifies(base, Lookup(s, dn).value, allowedAttrs, r.changes) == Ok(e)
    requires (forall m | m in e.added :: Lookup(s, m).Some?) && OBJECTCLASS !in e.attributes
    ensures ModifyChanges(s, base, true, allowedAttrs, r, meta) == EditChanges(s, base, dn, e, meta)
  {
    hide ParseUnder, Lookup, Modifies, EditChanges;
  }

  lemma NamesDiffer()
    ensures OBJECTCLASS !in {MODIFIERSNAME, MODIFYTIMESTAMP, MEMBEROF}
  {
    assert |OBJECTCLASS| == 11 && |MODIFIERSNAME| == 13 && |MODIFYTIMESTAMP| == 15 && |MEMBEROF| == 8;
  }

  lemma NothingToEdit(base: DN, entry: Entry, s: Contents, edit: Meta)
    ensures Modifies(base, entry, {}, []) == Ok(Edit(map[], [], []))
    ensures EditChanges(s, base, base, Edit(map[], [], []), edit).result.Ok?
  {
    NothingAdded(s, base);
    NothingRemoved(s, base, base);
    hide Stamped;
  }

  /******* A Modify that is lost *******/

  /** The base entry is made its own member: the answer is success, and it has no members afterwards. */
  lemma ModifyLosesItself(base: DN, meta: Meta, edit: Meta)
    requires PlainBase(base)
    ensures var s := Run(base, InitialRun(meta));
            var r := ModifyRequest(DNString(base), [Modification(Operation.Add, MEMBER, [DNString(base)])]);
            var d := ModifyChanges(s, base, true, {MEMBER}, r, edit);
            && d.result.Ok? && Key(base) in After(d) && After(d)[Key(base)].Get(MEMBER) == []
  {
    var changes := [Modification(Operation.Add, MEMBER, [DNString(base)])];
    var r := ModifyRequest(DNString(base), changes);
    var e := Edit(map[MEMBER := [DNString(base)]], [base], []);
    hide *;
    var s := Initialized(base, meta);
    InitialHas(base, meta);
    OneMember(base, Initial(base, meta), changes);
    NotObjectClass();
    EditRan(base, s, {MEMBER}, r, base, e, edit);
    SoundInverse(base, s);
    AddedFound(s, e, base);
    EditRuns(base, s, base, e, edit);
    BecomesItself(base, s[Key(base)], e);
    EditedIn(base, s, After(EditChanges(s, base, base, e, edit)), base, e, edit, Key(base));
    MovedLists(base, s, Key(base), e, base);
  }

  lemma SoundInverse(base: DN, s: Contents)
    requires Tree(base, s) && Inverse(s)
    ensures Sound(base, s) && Closed(s)
  {
  }

  lemma AddedFound(s: Contents, e: Edit, dn: DN)
    requires e.added == [dn] && e.removed == [] && Lookup(s, dn).Some?
    ensures AllFound(s, e.added) && AllFound(s, e.removed)
  {
    hide Lookup;
  }

  lemma BecomesItself(base: DN, entry: Entry, e: Edit)
    requires entry.dn in e.added && entry.Get(MEMBEROF) == []
    ensures RewritesItself(base, entry, e)
  {
  }

  lemma NotObjectClass()
    ensures OBJECTCLASS != MEMBER
  {
    assert |OBJECTCLASS| != |MEMBER|;
  }

  lemma OneMember(base: DN, entry: Entry, changes: seq<Modification>)
    requires PlainBase(base) && entry.dn == base && entry.Get(MEMBER) == [] && MEMBER !in entry.attributes
    requires changes == [Modification(Operation.Add, MEMBER, [DNString(base)])]
    ensures Modifies(base, entry, {MEMBER}, changes) == Ok(Edit(map[MEMBER := [DNString(base)]], [base], []))
  {
    MemberKey();
    StringsTellApart(base, base);
    CleanNonEmpty(base);
    assert Under(base, base) by { UnderSuffix(base, base); Whole(base); }
    var v: Str := DNString(base);
    ParseOne(base, v, base);
    assert Strings([base]) == [v];
    AddedOne(v);
    ParseNone(base);
    assert changes[..0] == [];
    hide Clean, ParseDN, DNString, AttributeKey, Under, Modified, Gains, Losses, ParseEach, Strings, CanUpdate;
    OneStep(base, entry, changes[0], v);
  }

  lemma OneStep(base: DN, entry: Entry, m: Modification, v: Str)
    requires m == Modification(Operation.Add, MEMBER, [v]) && entry.dn == base && base != []
    requires entry.Get(MEMBER) == [] && AttributeKey(base[0].typ) != MEMBER && AttributeKey(MEMBER) == MEMBER
    requires CanUpdate(MEMBER)
    requires ParseEach(base, [v]) == Some([base]) && Strings([base]) == [v] && ParseEach(base, []) == Some([])
    requires Modified([], Operation.Add, [v]) == [v] && Gains([], Operation.Add, [v]) == [v]
    requires Losses([], Operation.Add, [v]) == []
    ensures ModifyOne(base, entry, {MEMBER}, Edit(map[], [], []), m) == Ok(Edit(map[MEMBER := [v]], [base], []))
  {
    hide AttributeKey, Modified, Gains, Losses, ParseEach, Strings, CanUpdate;
    var attrs: Attributes, none: seq<DN> := map[], [];
    assert none + [base] == [base] && none + none == none;
    assert attrs[MEMBER := [v]] == map[MEMBER := [v]];
    assert m.operation.Add? && entry.Get(MEMBER) == [];
  }

  lemma MemberKey()
    ensures AttributeKey(MEMBER) == MEMBER && CanUpdate(MEMBER)
  {
    assert |MEMBER| == 6 && |MEMBEROF| == 8 && |ENTRYUUID| == 9 && |CREATORSNAME| == 12 && |CREATETIMESTAMP| == 15
           && |MODIFIERSNAME| == 13 && |MODIFYTIMESTAMP| == 15 && |ENTRYCSN| == 8;
  }

  lemma ParseOne(base: DN, v: Str, dn: DN)
    requires ParseUnder(base, v, false) == Some(dn)
    ensures ParseEach(base, [v]) == Some([dn])
  {
    hide ParseUnder;
    assert [v][..0] == [] && [] + [dn] == [dn];
  }

  lemma ParseNone(base: DN)
    ensures ParseEach(base, []) == Some([])
  {
  }

  lemma AddedOne(v: Str)
    ensures Modified([], Operation.Add, [v]) == [v] && Gains([], Operation.Add, [v]) == [v]
    ensures Losses([], Operation.Add, [v]) == []
  {
    assert [v][..0] == [] && [] + [v] == [v] && [v][0..] == [v];
    var none: seq<Str> := [];
    assert Appended(none, [v]) == [v] && |none| == 0;
    assert Gains(none, Operation.Add, [v]) == Appended(none, [v])[0..];
    assert Modified(none, Operation.Add, [v]) == [v];
    assert Losses(none, Operation.Add, [v]) == [];
  }

  /******* Entries directly below the base *******/

  const META: Meta := Meta([], [], [])

  /** A name one level below the base, of an ordinary attribute. */
  predicate Child(base: DN, dn: DN) {
    PlainBase(base) && Clean(dn) && dn[1..] == base && PlainName(dn)
  }

  lemma Fine(base: DN, dn: DN)
    requires Child(base, dn)
    ensures Clean(dn) && dn[1..] == base && dn != base && |dn| == |base| + 1 && Under(dn, base)
    ensures PlainName(dn) && PlainBase(base) && Clean(base)
    ensures SLASH !in DNString(dn) && ParseUnder(base, DNString(dn), false) == Some(dn)
  {
    UnderSuffix(dn, base);
    assert |dn[1..]| == |dn| - 1;
    StringsTellApart(dn, dn);
    NoSlash(dn);
    hide Clean, ParseDN, DNString, AttributeKey;
  }

  lemma {:induction false} JoinBytes(pieces: seq<Str>, sep: byte, b: byte)
    requires b != sep && forall i | 0 <= i < |pieces| :: b !in pieces[i]
    ensures b !in Join(pieces, sep)
  {
    if |pieces| > 1 { JoinBytes(pieces[1..], sep, b); }
  }

  lemma NoSlash(dn: DN)
    requires Clean(dn)
    ensures SLASH !in DNString(dn)
  {
    forall i | 0 <= i < |PrintAll(dn)|
      ensures SLASH !in PrintAll(dn)[i]
    {
      assert Free(dn[i], SLASH);
    }
    JoinBytes(PrintAll(dn), COMMA, SLASH);
  }

  /** The attributes of a request for an entry with these members. */
  function Listing(members: seq<DN>): seq<Attribute> {
    if members == [] then [] else [Attribute(MEMBER, Strings(members))]
  }

  function AddOf(dn: DN, members: seq<DN>): Request {
    AddEntry(true, AddRequest(DNString(dn), Listing(members)), META)
  }

  function DraftOf(members: seq<DN>): Draft {
    if members == [] then Draft(map[], []) else Draft(map[MEMBER := Strings(members)], members)
  }

  lemma {:induction false} MembersOf(base: DN, s: Contents, members: seq<DN>)
    requires Sound(base, s) && AllFound(s, members)
    ensures Members(s, base, Strings(members)) == Ok(members)
  {
    hide Sound, ParseUnder, Lookup, DNString, Key;
    if members != [] {
      var n := |members| - 1;
      assert members == members[..n] + [members[n]] && members[n] in members;
      FoundParses(base, s, members[n]);
      MembersOf(base, s, members[..n]);
      assert Strings(members)[..n] == Strings(members[..n]);
    }
  }

  lemma FoundParses(base: DN, s: Contents, dn: DN)
    requires Sound(base, s) && Lookup(s, dn).Some?
    ensures ParseUnder(base, DNString(dn), false) == Some(dn)
  {
    FoundStored(s, dn);
    NameFinds(base, s, Key(dn));
  }

  lemma DraftedOf(base: DN, s: Contents, members: seq<DN>)
    requires Sound(base, s) && AllFound(s, members)
    ensures Drafted(s, base, Listing(members)) == Ok(DraftOf(members)) && Drafts(s, DraftOf(members))
  {
    MembersOf(base, s, members);
    MemberKey();
    ListsDiffer();
    hide Sound, Members, Lookup, DNString, AttributeKey, CanUpdate, Strings;
    if members != [] {
      var all: seq<DN>, attributes := [], [Attribute(MEMBER, Strings(members))];
      assert attributes[..0] == [] && all + members == members;
      var attrs: Attributes := map[];
      assert attrs[MEMBER := Strings(members)] == map[MEMBER := Strings(members)];
    }
  }

  /** Adding such an entry succeeds, and keeps tree and relations as they should be. */
  lemma ChildAdded(base: DN, s: Contents, dn: DN, members: seq<DN>) returns (t: Contents, e: Entry)
    requires Tree(base, s) && Inverse(s) && Child(base, dn) && Key(dn) !in s && Lookup(s, base).Some? && AllFound(s, members)
    ensures t == Serve(s, base, AddOf(dn, members)) && Tree(base, t) && Inverse(t) && Lookup(t, base).Some?
    ensures e.dn == dn && e.Get(MEMBER) == Strings(members) && e.Get(MEMBEROF) == []
    ensures Added(s, t, e, members) && Lookup(t, dn) == Some(e)
  {
    e := NewEntry(dn, WithSystem(DraftOf(members).attributes, META));
    t := Serve(s, base, AddOf(dn, members));
    hide *;
    Fine(base, dn);
    SoundInverse(base, s);
    LookupByKey(base, s, dn);
    DraftedOf(base, s, members);
    ChildLists(s, dn, members);
    FoundEach(s, members);
    AddLeaves(base, s, e, members);
    ChildChanges(base, s, dn, members);
    AddedInverse(base, s, t, e, members);
    ServeKeepsTree(base, s, AddOf(dn, members));
    AddedKeys(s, t, e, members);
    SoundInverse(base, t);
    StaysFound(base, s, t, base);
    LookedUp(t, dn);
  }

  lemma ChildLists(s: Contents, dn: DN, members: seq<DN>)
    requires Drafts(s, DraftOf(members)) && PlainName(dn)
    ensures var e := NewEntry(dn, WithSystem(DraftOf(members).attributes, META));
            && e.dn == dn && e.dn != [] && KeyOf(e) == Key(dn)
            && e.Get(MEMBER) == Strings(members) && e.Get(MEMBEROF) == []
  {
    NewEntryLists(s, dn, DraftOf(members), META);
    hide NewEntry, WithSystem, AttributeKey, Drafts, Strings;
  }

  lemma StaysFound(base: DN, s: Contents, t: Contents, dn: DN)
    requires Sound(base, t) && Clean(dn) && s.Keys <= t.Keys && Lookup(s, dn).Some?
    ensures Lookup(t, dn).Some?
  {
    LookedUp(s, dn);
    LookupByKey(base, t, dn);
  }

  lemma ChildChanges(base: DN, s: Contents, dn: DN, members: seq<DN>)
    requires ParseUnder(base, DNString(dn), false) == Some(dn) && Lookup(s, dn).None? && Lookup(s, base).Some?
    requires dn != [] && dn[1..] == base && Drafted(s, base, Listing(members)) == Ok(DraftOf(members))
    requires MembershipAdds(s, MEMBEROF, members, dn).result.Ok?
    ensures var adds, e := MembershipAdds(s, MEMBEROF, members, dn), NewEntry(dn, WithSystem(DraftOf(members).attributes, META));
            Serve(s, base, AddOf(dn, members)) == ApplyChanges(adds.store, [Put(e)] + adds.result.value)
    ensures SLASH !in DNString(dn) ==> SLASH !in AddOf(dn, members).add.entry
  {
    hide ParseUnder, Lookup, Drafted, MembershipAdds, ApplyChanges, NewEntry, WithSystem, DNString, Listing;
  }

  lemma OnlyBase(base: DN, s: Contents, meta: Meta)
    requires s == map[Key(base) := Initial(base, meta)]
    ensures forall k :: k in s <==> k == Key(base)
  {
    hide Key, Initial;
  }

  lemma NoneFound(s: Contents)
    ensures AllFound(s, [])
  {
  }

  lemma AddedOnly(s: Contents, t: Contents, e: Entry, dn: DN, members: seq<DN>)
    requires Added(s, t, e, members) && e.dn == dn
    ensures forall k :: k in t <==> k in s || k == Key(dn)
  {
    hide Joined, Key;
    assert KeyOf(e) == Key(dn);
  }

  lemma ChildrenApart(base: DN, a: DN, b: DN)
    requires Child(base, a) && Child(base, b)
    ensures Key(a) == Key(b) <==> a == b
    ensures Key(a) != Key(base) && Key(b) != Key(base)
  {
    Fine(base, a);
    Fine(base, b);
    StringsTellApart(a, b);
    StringsTellApart(a, base);
    StringsTellApart(b, base);
  }

  /** Of entries at the base and directly below it, those below are leaves. */
  lemma LeafAmong(base: DN, s: Contents, dn: DN)
    requires Child(base, dn) && Sound(base, s)
    requires forall k | k in s :: exists d :: (d == base || Child(base, d)) && k == Key(d)
    ensures Leaf(s, dn)
  {
    hide Under, Clean, Key, Sound, PlainName, PlainBase;
    forall k | k in s && Under(s[k].dn, dn)
      ensures s[k].dn == dn
    {
      var d :| (d == base || Child(base, d)) && k == Key(d);
      BaseClean(base, dn);
      DnOfKey(base, s, k, d);
      CleanNonEmpty(d);
      CleanNonEmpty(dn);
      OneLevel(base, dn, d);
    }
  }

  lemma BaseClean(base: DN, dn: DN)
    requires Child(base, dn)
    ensures Clean(base)
  {
    hide Clean;
  }

  lemma DnOfKey(base: DN, s: Contents, k: Str, dn: DN)
    requires Sound(base, s) && k in s && Clean(dn)
    ensures k == Key(dn) <==> s[k].dn == dn
  {
    NameTells(base, s, dn, k);
  }

  /******* A leaf that cannot be deleted next to a longer sibling *******/

  function Siblings(p: DN, q: DN): seq<Request> {
    InitialRun(META) + [AddOf(p, [])] + [AddOf(q, [])]
  }

  /**
   * With two entries added, the value of the one going on after that of the other, as "u=a" and "u=ab",
   * nothing is below the first, and its Del is refused as if something were.
   */
  lemma SiblingBlocks(base: DN, t: Str, v: Str, x: byte)
    requires Child(base, [Component(t, v)] + base) && Child(base, [Component(t, v + [x])] + base) && x < MAX_RUNE[0]
    ensures var p, q := [Component(t, v)] + base, [Component(t, v + [x])] + base;
            var s := Run(base, Siblings(p, q));
            && Lookup(s, p).Some? && Leaf(s, p)
            && DelChanges(s, base, true, DNString(p)).result == Fail(NotAllowedOnNonLeaf)
  {
    var p, q := [Component(t, v)] + base, [Component(t, v + [x])] + base;
    assert p[0] != q[0];
    hide *;
    var s := SiblingsRun(base, p, q);
    Fine(base, p);
    SoundInverse(base, s);
    LookupByKey(base, s, p);
    LeafAmong(base, s, p);
    LongerKey(base, t, v, x);
    LeafRefused(base, s, DNString(p));
  }

  lemma SiblingsRun(base: DN, p: DN, q: DN) returns (s: Contents)
    requires Child(base, p) && Child(base, q) && p != q
    ensures s == Run(base, Siblings(p, q)) && Tree(base, s) && Inverse(s) && Key(p) in s && Key(q) in s
    ensures forall k | k in s :: exists d :: (d == base || Child(base, d)) && k == Key(d)
  {
    hide *;
    Fine(base, p);
    ChildrenApart(base, p, q);
    var s0 := Initialized(base, META);
    OnlyBase(base, s0, META);
    NoneFound(s0);
    var s1, e1 := ChildAdded(base, s0, p, []);
    RunSnoc(base, InitialRun(META), AddOf(p, []));
    AddedOnly(s0, s1, e1, p, []);
    NoneFound(s1);
    var e2;
    s, e2 := ChildAdded(base, s1, q, []);
    RunSnoc(base, InitialRun(META) + [AddOf(p, [])], AddOf(q, []));
    AddedOnly(s1, s, e2, q, []);
    SiblingsIs(p, q);
  }

  lemma SiblingsIs(p: DN, q: DN)
    ensures Siblings(p, q) == InitialRun(META) + [AddOf(p, [])] + [AddOf(q, [])]
  {
  }

  lemma LongerKey(base: DN, t: Str, v: Str, x: byte)
    requires base != [] && x < MAX_RUNE[0]
    ensures var own, k := Key([Component(t, v)] + base), Key([Component(t, v + [x])] + base);
            HasPrefix(k, own) && k != own && Less(k[|own|..], MAX_RUNE)
  {
    KeyBelow(base, Component(t, v));
    KeyBelow(base, Component(t, v + [x]));
    GoesOn(Key(base), Component(t, v), Component(t, v + [x]), x);
  }

  /******* The early return, on a group with two components and three members *******/

  /** Four entries; no key of another starts with that of the first. */
  ghost predicate Four(base: DN, a: DN, b: DN, c: DN, g: DN) {
    && Child(base, a) && Child(base, b) && Child(base, c) && Child(base, g)
    && a != b && a != c && b != c && g !in [a, b, c]
    && !HasPrefix(Key(b), Key(a)) && !HasPrefix(Key(c), Key(a)) && !HasPrefix(Key(g), Key(a))
  }

  function Group(a: DN, b: DN, c: DN, g: DN): seq<Request> {
    InitialRun(META) + [AddOf(a, [])] + [AddOf(b, [])] + [AddOf(c, [])] + [AddOf(g, [a, b, c])]
  }

  /** The group and its first member, as the run leaves them. */
  ghost predicate Grouped(base: DN, s: Contents, a: DN, b: DN, c: DN, g: DN) {
    && (forall k | k in s :: k == Key(base) || k == Key(a) || k == Key(b) || k == Key(c) || k == Key(g))
    && Key(a) in s && Key(g) in s && s[Key(a)].dn == a && s[Key(g)].dn == g
    && s[Key(g)].Get(MEMBER) == Strings([a, b, c])
    && s[Key(a)].Get(MEMBER) == [] && DNString(g) in s[Key(a)].Get(MEMBEROF)
  }

  lemma KeysApart(base: DN, a: DN, b: DN, c: DN, g: DN)
    requires Four(base, a, b, c, g)
    ensures Key(a) !in [Key(base)] && Key(b) !in [Key(base), Key(a)] && Key(c) !in [Key(base), Key(a), Key(b)]
    ensures Key(g) !in [Key(base), Key(a), Key(b), Key(c)]
    ensures Child(base, a) && Child(base, b) && Child(base, c) && Child(base, g) && a != b && a != c
  {
    hide Key, Child;
    ChildrenApart(base, a, b);
    ChildrenApart(base, a, c);
    ChildrenApart(base, a, g);
    ChildrenApart(base, b, c);
    ChildrenApart(base, b, g);
    ChildrenApart(base, c, g);
  }

  lemma StillThere(s: Contents, t: Contents, e: Entry, dn: DN)
    requires Added(s, t, e, []) && Lookup(s, dn).Some? && Key(dn) != Key(e.dn)
    ensures Lookup(t, dn) == Lookup(s, dn)
  {
    LookedUp(s, dn);
    LookedUp(t, dn);
    hide Key, Joined, Lookup;
    assert KeyOf(e) == Key(e.dn);
  }

  lemma AllThree(s: Contents, x: DN, y: DN, z: DN)
    requires Lookup(s, x).Some? && Lookup(s, y).Some? && Lookup(s, z).Some?
    ensures AllFound(s, [x, y, z])
  {
    hide Lookup;
  }

  lemma Joining(s: Contents, t: Contents, e: Entry, members: seq<DN>, dn: DN)
    requires Added(s, t, e, members) && dn in members && Lookup(s, dn).Some?
    ensures Key(dn) in s && Key(dn) in t && t[Key(dn)].dn == dn
    ensures t[Key(dn)].Get(MEMBER) == Lookup(s, dn).value.Get(MEMBER)
    ensures DNString(e.dn) in t[Key(dn)].Get(MEMBEROF)
    ensures Key(e.dn) in t && t[Key(e.dn)] == e
  {
    LookedUp(s, dn);
    JoinedGets(s[Key(dn)], e.dn);
    JoinedLists(s[Key(dn)], e.dn);
    hide Key, Joined, Lookup, DNString;
    assert KeyOf(e) == Key(e.dn);
  }

  lemma GroupedIs(base: DN, s: Contents, a: DN, b: DN, c: DN, g: DN, e: Entry)
    requires forall k | k in s :: k == Key(base) || k == Key(a) || k == Key(b) || k == Key(c) || k == Key(g)
    requires Key(a) in s && Key(g) in s && s[Key(a)].dn == a && s[Key(g)] == e && e.dn == g
    requires e.Get(MEMBER) == Strings([a, b, c])
    requires s[Key(a)].Get(MEMBER) == Strings([]) && DNString(g) in s[Key(a)].Get(MEMBEROF)
    ensures Grouped(base, s, a, b, c, g)
  {
    hide Key, DNString;
    assert Strings([]) == [];
  }

  /** The entries that are to be members, and the base. */
  ghost predicate Ready(base: DN, s: Contents, a: DN, b: DN, c: DN) {
    && (forall k | k in s :: k == Key(base) || k == Key(a) || k == Key(b) || k == Key(c))
    && Lookup(s, base).Some? && Lookup(s, a).Some? && Lookup(s, b).Some? && Lookup(s, c).Some?
    && Lookup(s, a).value.Get(MEMBER) == Strings([])
  }

  lemma ReadyRuns(base: DN, a: DN, b: DN, c: DN, g: DN) returns (s: Contents)
    requires Four(base, a, b, c, g)
    ensures s == Run(base, InitialRun(META) + [AddOf(a, [])] + [AddOf(b, [])] + [AddOf(c, [])])
    ensures Tree(base, s) && Inverse(s) && Ready(base, s, a, b, c)
  {
    hide *;
    KeysApart(base, a, b, c, g);
    Fine(base, a);
    var s0 := Initialized(base, META);
    OnlyBase(base, s0, META);
    NoneFound(s0);
    var s1, e1 := ChildAdded(base, s0, a, []);
    RunSnoc(base, InitialRun(META), AddOf(a, []));
    AddedOnly(s0, s1, e1, a, []);
    NoneFound(s1);
    var s2, e2 := ChildAdded(base, s1, b, []);
    RunSnoc(base, InitialRun(META) + [AddOf(a, [])], AddOf(b, []));
    AddedOnly(s1, s2, e2, b, []);
    StillThere(s1, s2, e2, a);
    NoneFound(s2);
    var e3;
    s, e3 := ChildAdded(base, s2, c, []);
    RunSnoc(base, InitialRun(META) + [AddOf(a, [])] + [AddOf(b, [])], AddOf(c, []));
    AddedOnly(s2, s, e3, c, []);
    StillThere(s2, s, e3, a);
    StillThere(s2, s, e3, b);
    ReadyIs(base, s, a, b, c);
  }

  lemma ReadyIs(base: DN, s: Contents, a: DN, b: DN, c: DN)
    ensures Ready(base, s, a, b, c)
            <==> && (forall k | k in s :: k == Key(base) || k == Key(a) || k == Key(b) || k == Key(c))
                 && Lookup(s, base).Some? && Lookup(s, a).Some? && Lookup(s, b).Some? && Lookup(s, c).Some?
                 && Lookup(s, a).value.Get(MEMBER) == Strings([])
  {
    hide Key, Lookup;
  }

  lemma GroupRuns(base: DN, a: DN, b: DN, c: DN, g: DN) returns (s: Contents)
    requires Four(base, a, b, c, g)
    ensures s == Run(base, Group(a, b, c, g)) && Tree(base, s) && Inverse(s) && Grouped(base, s, a, b, c, g)
  {
    hide *;
    KeysApart(base, a, b, c, g);
    var s3 := ReadyRuns(base, a, b, c, g);
    ReadyIs(base, s3, a, b, c);
    AllThree(s3, a, b, c);
    var e;
    s, e := ChildAdded(base, s3, g, [a, b, c]);
    RunSnoc(base, InitialRun(META) + [AddOf(a, [])] + [AddOf(b, [])] + [AddOf(c, [])], AddOf(g, [a, b, c]));
    AddedOnly(s3, s, e, g, [a, b, c]);
    Joining(s3, s, e, [a, b, c], a);
    GroupIs(a, b, c, g);
    GroupedIs(base, s, a, b, c, g, e);
  }

  lemma GroupIs(a: DN, b: DN, c: DN, g: DN)
    ensures Group(a, b, c, g)
            == InitialRun(META) + [AddOf(a, [])] + [AddOf(b, [])] + [AddOf(c, [])] + [AddOf(g, [a, b, c])]
  {
  }

  lemma WithoutFirst(base: DN, a: DN, b: DN, c: DN)
    requires Child(base, a) && Child(base, b) && Child(base, c) && a != b && a != c
    ensures Without(base, Strings([a, b, c]), a) == Some(Strings([b, c]))
  {
    hide *;
    Fine(base, a);
    Fine(base, b);
    Fine(base, c);
    WithoutNone(base, a);
    WithoutSnoc(base, [], a, a);
    WithoutSnoc(base, [] + [DNString(a)], b, a);
    WithoutSnoc(base, [] + [DNString(a)] + [DNString(b)], c, a);
    assert [] + [DNString(b)] == [DNString(b)];
    StringsOfThree(a, b, c);
  }

  lemma WithoutNone(base: DN, dn: DN)
    ensures Without(base, [], dn) == Some([])
  {
  }

  lemma StringsOfThree(a: DN, b: DN, c: DN)
    ensures Strings([a, b, c]) == [] + [DNString(a)] + [DNString(b)] + [DNString(c)]
    ensures Strings([b, c]) == [] + [DNString(b)] + [DNString(c)]
  {
    hide DNString;
  }

  lemma NothingLonger(base: DN, s: Contents, a: DN, b: DN, c: DN, g: DN)
    requires Four(base, a, b, c, g) && Grouped(base, s, a, b, c, g)
    ensures !exists k :: k in s && k != Key(a) && HasPrefix(k, Key(a)) && Less(k[|Key(a)|..], MAX_RUNE)
  {
    BaseShorter(base, a);
    hide Key, DNString, Less, Child;
  }

  lemma BaseShorter(base: DN, a: DN)
    requires Child(base, a)
    ensures !HasPrefix(Key(base), Key(a))
  {
    assert a == [a[0]] + base;
    KeyBelow(base, a[0]);
  }

  lemma GroupLeaf(base: DN, s: Contents, a: DN, b: DN, c: DN, g: DN)
    requires Four(base, a, b, c, g) && Grouped(base, s, a, b, c, g) && Sound(base, s)
    ensures Leaf(s, a)
  {
    KeysApart(base, a, b, c, g);
    hide Key, DNString, Child, Sound, Leaf, Four;
    LeafAmong(base, s, a);
  }

  /**
   * With two members left in a group whose name has two components, deleting the third one is taken for
   * a removal that changes nothing: the group goes on listing a member that is gone.
   */
  lemma EarlyReturnDangles(base: DN, a: DN, b: DN, c: DN, g: DN)
    requires |base| == 1 && Four(base, a, b, c, g)
    ensures var rs, del := Group(a, b, c, g), DelEntry(true, DNString(a));
            && Inverse(Run(base, rs)) && DelChanges(Run(base, rs), base, true, DNString(a)).result.Ok?
            && !Inverse(Run(base, rs + [del]))
  {
    hide *;
    var s := GroupRuns(base, a, b, c, g);
    KeysApart(base, a, b, c, g);
    Fine(base, a);
    SoundInverse(base, s);
    GroupLeaf(base, s, a, b, c, g);
    NothingLonger(base, s, a, b, c, g);
    GroupKeys(base, s, a, b, c, g);
    LeafRefused(base, s, DNString(a));
    Fine(base, g);
    NotRefused(base, s, DNString(a), a);
    DelKeepsInverse(base, s, true, DNString(a));
    WithoutFirst(base, a, b, c);
    NotRemovable(base, s, a, b, c, g);
    RunSnoc(base, Group(a, b, c, g), DelEntry(true, DNString(a)));
    ServeDel(base, s, DNString(a));
  }

  lemma GroupKeys(base: DN, s: Contents, a: DN, b: DN, c: DN, g: DN)
    requires Grouped(base, s, a, b, c, g)
    ensures Key(a) in s && Key(g) in s
  {
    hide Key, DNString;
  }

  lemma ServeDel(base: DN, s: Contents, raw: Str)
    ensures Serve(s, base, DelEntry(true, raw)) == After(DelChanges(s, base, true, raw))
  {
    hide DelChanges, After;
  }

  /** Of the checks only the one for a leaf is left. */
  lemma LeafOrRemoval(base: DN, s: Contents, raw: Str, dn: DN)
    requires ParseUnder(base, raw, false) == Some(dn) && Key(dn) in s && Scanned(Reverse(dn), Key(dn))
    ensures var d := DelChanges(s, base, true, raw);
            d == Effect(s, Fail(NotAllowedOnNonLeaf)) || d == Removal(base, s, dn)
  {
    hide ParseUnder, Scanned, Removal, Key, Reverse;
  }

  lemma NotRefused(base: DN, s: Contents, raw: Str, dn: DN)
    requires ParseUnder(base, raw, false) == Some(dn) && Key(dn) in s && Clean(dn)
    requires DelChanges(s, base, true, raw).result != Fail(NotAllowedOnNonLeaf)
    requires Sound(base, s) && Closed(s)
    ensures DelChanges(s, base, true, raw).result.Ok?
  {
    hide *;
    ScansOwn(dn);
    LeafOrRemoval(base, s, raw, dn);
    RemovalIs(base, s, dn);
  }

  lemma NotRemovable(base: DN, s: Contents, a: DN, b: DN, c: DN, g: DN)
    requires Grouped(base, s, a, b, c, g) && Key(a) != Key(g) && |g| == 2
    requires Without(base, Strings([a, b, c]), a) == Some(Strings([b, c]))
    ensures Key(a) in s && !Removable(base, s, a)
  {
    hide Key, DNString, Without;
    assert GivesUp(base, s[Key(g)], MEMBER, a);
    assert !Returns(base, s, a);
    assert Name(s[Key(g)]) == DNString(g);
  }
}

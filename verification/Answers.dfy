/**
 * Which answer a request gets, read off the request and what is stored: tables for Add, Del and Modify. The
 * access rules are parameters, as they are of the requests.
 */
module Answers {
  import opened Wrappers
  import opened Text
  import opened Names
  import opened DirectoryStore
  import opened Directory
  import opened DirectoryTree
  import opened Membership
  import opened ModifyTheory
  import opened MembershipRuns

  /******* Names and faults *******/

  /** The text names this entry, the base or one below it. */
  ghost predicate Reads(base: DN, raw: Str, dn: DN) {
    ParseDN(raw) == Some(dn) && |base| <= |dn| && dn[|dn| - |base|..] == base
  }

  ghost predicate Unreadable(base: DN, raw: Str) {
    forall dn :: !Reads(base, raw, dn)
  }

  /** An entry of this name is stored. */
  ghost predicate Present(s: Contents, dn: DN) {
    dn != [] && exists k :: k in s && s[k].dn == dn
  }

  /** The first fault in a list, from left to right. */
  ghost function First<T>(fault: T -> Option<Failure>, vs: seq<T>): Option<Failure> {
    if vs == [] then None else if fault(vs[0]).Some? then fault(vs[0]) else First(fault, vs[1..])
  }

  /** Attributes the server keeps to itself. */
  predicate Managed(key: Str) {
    key in {Ascii("memberof"), Ascii("entryuuid"), Ascii("creatorsname"), Ascii("createtimestamp"),
            Ascii("modifiersname"), Ascii("modifytimestamp"), Ascii("entrycsn")}
  }

  /******* Add *******/

  /** A member has to be the name of a stored entry. */
  ghost function MemberFault(s: Contents, base: DN, raw: Str): Option<Failure> {
    if Unreadable(base, raw) then Some(InvalidDNSyntax)
    else if !Present(s, ParseDN(raw).value) then Some(NoSuchObject)
    else None
  }

  ghost function AttributeFault(s: Contents, base: DN, a: Attribute): Option<Failure> {
    if Managed(LowerAll(a.typ)) then Some(ObjectClassViolation)
    else if LowerAll(a.typ) == Ascii("member") then First(v => MemberFault(s, base, v), a.vals)
    else None
  }

  /**
   * An Add is refused for its name, for access, for an entry that is there, for a parent that is not, and for
   * the first of its attributes that may not be written or names a member that is not there.
   */
  ghost predicate AddTable(s: Contents, base: DN, allowed: bool, r: AddRequest, error: Option<Failure>) {
    && (Unreadable(base, r.entry) ==> error == Some(InvalidDNSyntax))
    && forall dn | Reads(base, r.entry, dn) ::
         && (!allowed ==> error == Some(InsufficientAccessRights))
         && (allowed && Present(s, dn) ==> error == Some(EntryAlreadyExists))
         && (allowed && !Present(s, dn) && !Present(s, dn[1..]) ==> error == Some(NoSuchObject))
         && (allowed && !Present(s, dn) && Present(s, dn[1..]) ==>
               error == First(a => AttributeFault(s, base, a), r.attributes))
  }

  /******* Del *******/

  /** The keys among which a Del looks for something below the name. */
  ghost predicate Near(dn: DN, k: Str) {
    dn != [] && HasPrefix(k, Key(dn)) && Less(k[|Key(dn)|..], [0xF4, 0x8F, 0xBF, 0xBF])
  }

  /** Some stored entry of this name has a name in one of its lists that cannot be read. */
  ghost predicate Spoilt(s: Contents, base: DN, dn: DN, attr: Str) {
    exists k, v :: k in s && s[k].dn == dn && v in s[k].Get(attr) && Unreadable(base, v)
  }

  /** Why a name cannot be taken out of the list of the entry another one stands for. */
  ghost function RemovalFault(s: Contents, base: DN, attr: Str, raw: Str): Option<Failure> {
    if Unreadable(base, raw) then Some(InvalidDNSyntax)
    else if !Present(s, ParseDN(raw).value) || Spoilt(s, base, ParseDN(raw).value, attr) then Some(OperationsError)
    else None
  }

  ghost function RemovalFaults(s: Contents, base: DN, own: Entry): Option<Failure> {
    var groups := First(v => RemovalFault(s, base, Ascii("member"), v), own.Get(Ascii("memberof")));
    if groups.Some? then groups
    else First(v => RemovalFault(s, base, Ascii("memberof"), v), own.Get(Ascii("member")))
  }

  /**
   * A Del is refused for its name, for access, for an entry that is not there, and for one that seems to
   * have others below it; after that it fails only over lists that hold names of nothing.
   */
  ghost predicate DelTable(s: Contents, base: DN, allowed: bool, raw: Str, error: Option<Failure>) {
    && (Unreadable(base, raw) ==> error == Some(InvalidDNSyntax))
    && forall dn | Reads(base, raw, dn) ::
         && (!allowed ==> error == Some(InsufficientAccessRights))
         && (allowed && (forall k | k in s :: !Near(dn, k)) ==> error == Some(NoSuchObject))
         && (allowed && (exists k :: k in s && Near(dn, k) && s[k].dn != dn) ==> error == Some(NotAllowedOnNonLeaf))
         && (allowed && (exists k :: k in s && Near(dn, k)) && (forall k | k in s && Near(dn, k) :: s[k].dn == dn) ==>
               forall k | k in s && s[k].dn == dn :: error == RemovalFaults(s, base, s[k]))
  }

  /******* Modify *******/

  /**
   * What is wrong with one change, taken by itself: the attribute may not be written, names the entry, or is
   * closed to the caller; or it is of members, and a value given, or a stored one it takes away, cannot be read.
   */
  ghost function ChangeFault(base: DN, entry: Entry, allowed: set<Str>, m: Modification): Option<Failure> {
    var key, stored := LowerAll(m.typ), entry.Get(Ascii("member"));
    if Managed(key) then Some(ObjectClassViolation)
    else if entry.dn != [] && key == LowerAll(entry.dn[0].typ) then Some(ObjectClassViolation)
    else if key !in allowed then Some(InsufficientAccessRights)
    else if key != Ascii("member") then None
    else if !Readable(base, m.vals) then Some(InvalidDNSyntax)
    else if (m.operation.Replace? || (m.operation.Delete? && m.vals == [])) && !Readable(base, stored)
    then Some(InvalidDNSyntax)
    else None
  }

  /** The members after the first changes. */
  ghost function MembersAfter(base: DN, entry: Entry, changes: seq<Modification>, i: nat): seq<Str>
    requires i <= |changes|
  {
    Fold(base, Ascii("member"), entry.Get(Ascii("member")), changes[..i])
  }

  /** The i-th change brings in the value, or takes it away. */
  ghost predicate Comes(base: DN, entry: Entry, changes: seq<Modification>, i: nat, v: Str)
    requires i < |changes|
  {
    v !in MembersAfter(base, entry, changes, i) && v in MembersAfter(base, entry, changes, i + 1)
  }

  ghost predicate Goes(base: DN, entry: Entry, changes: seq<Modification>, i: nat, v: Str)
    requires i < |changes|
  {
    v in MembersAfter(base, entry, changes, i) && v !in MembersAfter(base, entry, changes, i + 1)
  }

  ghost predicate Gains(base: DN, entry: Entry, changes: seq<Modification>, dn: DN) {
    exists i, v :: 0 <= i < |changes| && Comes(base, entry, changes, i, v) && Reads(base, v, dn)
  }

  ghost predicate Loses(base: DN, entry: Entry, changes: seq<Modification>, dn: DN) {
    exists i, v :: 0 <= i < |changes| && Goes(base, entry, changes, i, v) && Reads(base, v, dn)
  }

  /** The changes leave the entry without an object class, other than by adding nothing to none. */
  ghost predicate Declassed(base: DN, entry: Entry, changes: seq<Modification>) {
    && (exists m :: m in changes && LowerAll(m.typ) == Ascii("objectclass")
                    && !(m.operation.Add? && m.vals == [] && Ascii("objectclass") !in entry.attributes))
    && Fold(base, Ascii("objectclass"), entry.Get(Ascii("objectclass")), changes) == []
  }

  /**
   * A Modify is refused for its name, for access, for an entry that is not there, for the first change at
   * fault, for a member that comes in and is not stored, and for a lost object class; after that it fails only
   * over members that go and whose lists cannot be edited.
   */
  ghost predicate ModifyTable(s: Contents, base: DN, allowed: bool, attrs: set<Str>, r: ModifyRequest,
                              error: Option<Failure>)
  {
    && (Unreadable(base, r.entry) ==> error == Some(InvalidDNSyntax))
    && forall dn | Reads(base, r.entry, dn) ::
         && (!allowed ==> error == Some(InsufficientAccessRights))
         && (allowed && !Present(s, dn) ==> error == Some(NoSuchObject))
         && (allowed ==> forall k | k in s && s[k].dn == dn :: error == EditFault(s, base, attrs, s[k], r.changes))
  }

  ghost function EditFault(s: Contents, base: DN, attrs: set<Str>, entry: Entry, changes: seq<Modification>): Option<Failure> {
    var fault := First(m => ChangeFault(base, entry, attrs, m), changes);
    if fault.Some? then fault
    else if exists dn :: Gains(base, entry, changes, dn) && !Present(s, dn) then Some(NoSuchObject)
    else if Declassed(base, entry, changes) then Some(InsufficientAccessRights)
    else if exists dn :: Loses(base, entry, changes, dn) && (!Present(s, dn) || Spoilt(s, base, dn, Ascii("memberof")))
    then Some(OperationsError)
    else None
  }

  ghost predicate Readable(base: DN, vals: seq<Str>) {
    forall v | v in vals :: !Unreadable(base, v)
  }

  /******* Initialize *******/

  /** The base entry is stored unless it is there, with these attributes and the one that names it. */
  ghost predicate Initialized(s: Contents, t: Contents, base: DN, classes: seq<Str>, structural: Str, meta: Meta) {
    if Present(s, base) then t == s
    else
      var attributes := map[Ascii("objectclass") := classes, Ascii("structuralobjectclass") := [structural],
                            Ascii("creatorsname") := [DNString(base)], Ascii("createtimestamp") := [meta.timestamp],
                            Ascii("entryuuid") := [meta.uuid]];
      var named := if base == [] then attributes else attributes[LowerAll(base[0].typ) := [base[0].value]];
      t.Keys == s.Keys + {Key(base)} && t[Key(base)] == Entry(base, named) && forall k | k in s && k != Key(base) :: t[k] == s[k]
  }

  /******* Proofs *******/

  lemma ReadsIs(base: DN, raw: Str, dn: DN)
    ensures Reads(base, raw, dn) <==> ParseUnder(base, raw, false) == Some(dn)
    ensures Reads(base, raw, dn) ==> dn != []
  {
    UnderSuffix(dn, base);
    if ParseDN(raw).Some? { ParsedCanonical(raw, COMMA); }
    hide Under, ParseComponents, JoinComponents;
  }

  lemma UnreadableIs(base: DN, raw: Str)
    ensures Unreadable(base, raw) <==> ParseUnder(base, raw, false).None?
    ensures !Unreadable(base, raw) ==> ParseUnder(base, raw, false) == ParseDN(raw)
  {
    hide Under, Reads, ParseComponents;
    forall dn { ReadsIs(base, raw, dn); }
    if ParseUnder(base, raw, false).Some? { assert Reads(base, raw, ParseUnder(base, raw, false).value); }
  }

  lemma PresentIs(s: Contents, dn: DN)
    ensures Present(s, dn) <==> Lookup(s, dn).Some?
  {
    LookedUp(s, dn);
    hide Key, Lookup;
    if k :| k in s && s[k].dn == dn { assert k == KeyOf(s[k]) == Key(dn); }
  }

  lemma {:induction false} FirstSnoc<T>(fault: T -> Option<Failure>, vs: seq<T>)
    requires vs != []
    ensures First(fault, vs)
         == if First(fault, vs[..|vs| - 1]).Some? then First(fault, vs[..|vs| - 1]) else fault(vs[|vs| - 1])
  {
    if |vs| > 1 && fault(vs[0]).None? {
      FirstSnoc(fault, vs[1..]);
      assert vs[1..][..|vs| - 2] == vs[..|vs| - 1][1..];
    }
  }

  lemma ManagedIs(key: Str)
    ensures Managed(key) <==> !CanUpdate(key)
  {
  }

  lemma {:induction false} MembersFault(s: Contents, base: DN, vals: seq<Str>)
    ensures var f := First(v => MemberFault(s, base, v), vals);
            if f.None? then Members(s, base, vals).Ok? else Members(s, base, vals) == Fail(f.value)
  {
    hide ParseUnder, Lookup, Unreadable, Present, ParseComponents;
    if vals != [] {
      var n := |vals| - 1;
      MembersFault(s, base, vals[..n]);
      FirstSnoc(v => MemberFault(s, base, v), vals);
      UnreadableIs(base, vals[n]);
      if ParseUnder(base, vals[n], false).Some? { PresentIs(s, ParseUnder(base, vals[n], false).value); }
      hide First;
    }
  }

  lemma {:induction false} DraftFault(s: Contents, base: DN, attributes: seq<Attribute>)
    ensures var f := First(a => AttributeFault(s, base, a), attributes);
            if f.None? then Drafted(s, base, attributes).Ok? else Drafted(s, base, attributes) == Fail(f.value)
  {
    hide Members, CanUpdate, Managed, MemberFault, Strings;
    if attributes != [] {
      var n := |attributes| - 1;
      var a := attributes[n];
      DraftFault(s, base, attributes[..n]);
      FirstSnoc(a => AttributeFault(s, base, a), attributes);
      ManagedIs(AttributeKey(a.typ));
      MembersFault(s, base, a.vals);
      hide First, LowerAll;
    }
  }

  function ErrorOf(e: Effect): Option<Failure> {
    match e.result case Ok(_) => None case Fail(f) => Some(f)
  }

  /** Add answers by its table. */
  lemma AddAnswers(s: Contents, base: DN, allowed: bool, r: AddRequest, meta: Meta)
    ensures AddTable(s, base, allowed, r, ErrorOf(AddChanges(s, base, allowed, r, meta)))
  {
    UnreadableIs(base, r.entry);
    forall dn { ReadsIs(base, r.entry, dn); }
    DraftFault(s, base, r.attributes);
    if ParseUnder(base, r.entry, false).Some? {
      var dn := ParseUnder(base, r.entry, false).value;
      ReadsIs(base, r.entry, dn);
      PresentIs(s, dn);
      PresentIs(s, dn[1..]);
      if Drafted(s, base, r.attributes).Ok? {
        DraftShape(s, base, r.attributes);
        DraftedAdds(s, Drafted(s, base, r.attributes).value, dn);
      }
    }
    hide ParseUnder, Lookup, Drafted, Drafts, MembershipAdds, First, Reads, Unreadable, Present, NewEntry, WithSystem,
         AttributeFault;
  }

  /******* Lists that can be read *******/

  /** Editing memberships in place renames nothing, and leaves the lists as readable as they were. */
  ghost predicate Kept(base: DN, s: Contents, t: Contents) {
    t.Keys == s.Keys && forall k | k in s :: KeptEntry(base, s[k], t[k])
  }

  ghost predicate KeptEntry(base: DN, e: Entry, f: Entry) {
    && f.dn == e.dn
    && (Readable(base, f.Get(MEMBER)) <==> Readable(base, e.Get(MEMBER)))
    && (Readable(base, f.Get(MEMBEROF)) <==> Readable(base, e.Get(MEMBEROF)))
  }

  lemma KeptItself(base: DN, s: Contents)
    ensures Kept(base, s, s)
  {
    hide Readable;
  }

  lemma {:induction false} WithoutReadable(base: DN, vals: seq<Str>, group: DN)
    ensures Without(base, vals, group).Some? <==> Readable(base, vals)
    ensures Without(base, vals, group).Some? ==> Readable(base, Without(base, vals, group).value)
  {
    if vals != [] {
      var n := |vals| - 1;
      WithoutReadable(base, vals[..n], group);
      assert vals == vals[..n] + [vals[n]];
      UnreadableIs(base, vals[n]);
      if ParseUnder(base, vals[n], false).Some? {
        ParsedAgain(base, vals[n]);
        UnreadableIs(base, DNString(ParseUnder(base, vals[n], false).value));
      }
    }
    hide Unreadable, ParseUnder, DNString;
  }

  lemma RewriteKept(base: DN, s: Contents, t: Contents, k: Str, attr: Str, vals: seq<Str>)
    requires Kept(base, s, t) && k in t && attr in [MEMBER, MEMBEROF]
    requires Readable(base, vals) <==> Readable(base, t[k].Get(attr))
    ensures Kept(base, s, Rewrite(t, t[k], attr, vals).store)
  {
    hide Readable, Key, NewEntry;
    assert KeyOf(With(t[k], attr, vals)) == KeyOf(t[k]) == k;
    assert KeptEntry(base, s[k], t[k]);
    ListsDiffer();
    assert KeptEntry(base, s[k], With(t[k], attr, vals));
    hide With, KeptEntry;
  }

  lemma SpoiltIs(s: Contents, base: DN, dn: DN, attr: Str)
    requires Present(s, dn)
    ensures Key(dn) in s && s[Key(dn)].dn == dn && (Spoilt(s, base, dn, attr) <==> !Readable(base, s[Key(dn)].Get(attr)))
  {
    hide Unreadable, Key;
    forall k | k in s && s[k].dn == dn
      ensures k == Key(dn)
    {
      assert KeyOf(s[k]) == k;
    }
  }

  /** One removal, from lists edited before. */
  lemma RemoveFault(s: Contents, t: Contents, base: DN, attr: Str, m: DN, group: DN)
    requires Kept(base, s, t) && attr in [MEMBER, MEMBEROF]
    ensures var e := MembershipRemove(t, base, attr, m, group);
            Kept(base, s, e.store) && (e.result.Fail? <==> !Present(s, m) || Spoilt(s, base, m, attr))
  {
    LookedUp(t, m);
    PresentIs(t, m);
    SamePresent(base, s, t, m);
    hide Key, Lookup, Present, Rewrite, Readable, Without, Kept, Spoilt;
    if Lookup(t, m).Some? {
      SpoiltIs(s, base, m, attr);
      SpoiltSame(base, s, t, m, attr);
      WithoutReadable(base, t[Key(m)].Get(attr), group);
      if Without(base, t[Key(m)].Get(attr), group).Some? {
        RewriteKept(base, s, t, Key(m), attr, Without(base, t[Key(m)].Get(attr), group).value);
      }
      RewriteOk(t, Key(m), attr);
    }
  }

  lemma RewriteOk(t: Contents, k: Str, attr: Str)
    requires k in t
    ensures forall vals :: Rewrite(t, t[k], attr, vals).result.Ok?
  {
  }

  lemma SamePresent(base: DN, s: Contents, t: Contents, m: DN)
    requires Kept(base, s, t)
    ensures Present(s, m) <==> Present(t, m)
  {
    hide Readable;
    if k :| k in s && s[k].dn == m { assert KeptEntry(base, s[k], t[k]); }
    if k :| k in t && t[k].dn == m { assert KeptEntry(base, s[k], t[k]); }
  }

  lemma SpoiltSame(base: DN, s: Contents, t: Contents, m: DN, attr: Str)
    requires Kept(base, s, t) && Key(m) in s && attr in [MEMBER, MEMBEROF]
    ensures Readable(base, t[Key(m)].Get(attr)) <==> Readable(base, s[Key(m)].Get(attr))
  {
    hide Readable, Key;
    assert KeptEntry(base, s[Key(m)], t[Key(m)]);
  }

  lemma NamesAre()
    ensures MEMBER == Ascii("member") && MEMBEROF == Ascii("memberof")
  {
  }

  /** The removals of one loop. */
  lemma {:induction false} RawFault(s: Contents, t: Contents, base: DN, attr: Str, raws: seq<Str>, group: DN)
    requires Kept(base, s, t) && attr in [MEMBER, MEMBEROF]
    ensures var e := RawRemoves(t, base, attr, raws, group);
            Kept(base, s, e.store) && ErrorOf(e) == First(v => RemovalFault(s, base, attr, v), raws)
  {
    hide ParseUnder, MembershipRemove, Kept, Spoilt, Present, Unreadable;
    if raws != [] {
      var n := |raws| - 1;
      RawFault(s, t, base, attr, raws[..n], group);
      FirstSnoc(v => RemovalFault(s, base, attr, v), raws);
      hide First;
      UnreadableIs(base, raws[n]);
      var front := RawRemoves(t, base, attr, raws[..n], group);
      if front.result.Ok? && ParseUnder(base, raws[n], false).Some? {
        RemoveFault(s, front.store, base, attr, ParseUnder(base, raws[n], false).value, group);
      }
    }
  }

  lemma RemovalAnswers(s: Contents, base: DN, dn: DN)
    requires Key(dn) in s
    ensures ErrorOf(Removal(base, s, dn)) == RemovalFaults(s, base, s[Key(dn)])
  {
    hide Key, RawRemoves, Kept, First, RemovalFault;
    NamesAre();
    var entry := s[Key(dn)];
    KeptItself(base, s);
    RawFault(s, s, base, MEMBER, entry.Get(MEMBEROF), dn);
    var groups := RawRemoves(s, base, MEMBER, entry.Get(MEMBEROF), dn);
    if groups.result.Ok? { RawFault(s, groups.store, base, MEMBEROF, entry.Get(MEMBER), dn); }
  }

  lemma NearIs(dn: DN, k: Str)
    ensures Near(dn, k) <==> Scanned(Reverse(dn), k)
  {
    ScannedExactly(Reverse(dn), k);
    assert Reverse(dn) == [] <==> dn == [];
    hide Less, PrefixString, Scanned;
  }

  lemma StoredAt(s: Contents, k: Str)
    requires k in s
    ensures Key(s[k].dn) == k
  {
    hide Key;
    assert KeyOf(s[k]) == k;
  }

  /** Del answers by its table. */
  lemma DelAnswers(s: Contents, base: DN, allowed: bool, raw: Str)
    ensures DelTable(s, base, allowed, raw, ErrorOf(DelChanges(s, base, allowed, raw)))
  {
    UnreadableIs(base, raw);
    forall dn { ReadsIs(base, raw, dn); }
    hide ParseUnder, Reads, Unreadable, Removal, RemovalFaults, Near, Scanned, Key;
    if ParseUnder(base, raw, false).Some? {
      var dn := ParseUnder(base, raw, false).value;
      forall k { NearIs(dn, k); }
      forall k | k in s { StoredAt(s, k); }
      if Key(dn) in s { RemovalAnswers(s, base, dn); }
    }
  }

  /******* A list of changes *******/

  /** What cannot be read stays in the list of members until a change takes it away, which is a fault. */
  ghost predicate SameSpoilt(base: DN, vals: seq<Str>, stored: seq<Str>) {
    forall v | Unreadable(base, v) :: v in vals <==> v in stored
  }

  lemma {:induction false} EachReadable(base: DN, raws: seq<Str>)
    ensures ParseEach(base, raws).Some? <==> Readable(base, raws)
  {
    if raws != [] {
      var n := |raws| - 1;
      EachReadable(base, raws[..n]);
      assert raws == raws[..n] + [raws[n]];
      UnreadableIs(base, raws[n]);
    }
    hide Unreadable, ParseUnder;
  }

  lemma CanonicalReadable(base: DN, raws: seq<Str>)
    requires ParseEach(base, raws).Some?
    ensures Readable(base, Strings(ParseEach(base, raws).value))
  {
    var dns := ParseEach(base, raws).value;
    EachReparses(base, raws);
    hide ParseUnder, DNString, Unreadable;
    forall v | v in Strings(dns)
      ensures !Unreadable(base, v)
    {
      var i :| 0 <= i < |dns| && Strings(dns)[i] == v;
      assert dns[i] in dns;
      UnreadableIs(base, v);
    }
  }

  lemma ModifyFault(base: DN, entry: Entry, allowed: set<Str>, e: Edit, m: Modification)
    requires SameSpoilt(base, Current(entry, e, MEMBER), entry.Get(MEMBER))
    ensures var f, r := ChangeFault(base, entry, allowed, m), ModifyOne(base, entry, allowed, e, m);
            if f.Some? then r == Fail(f.value)
            else r.Ok? && SameSpoilt(base, Current(entry, r.value, MEMBER), entry.Get(MEMBER))
  {
    NamesAre();
    ManagedIs(AttributeKey(m.typ));
    if AttributeKey(m.typ) == MEMBER {
      var vals := Current(entry, e, MEMBER);
      EachReadable(base, m.vals);
      if ParseEach(base, m.vals).Some? {
        var values := Strings(ParseEach(base, m.vals).value);
        CanonicalReadable(base, m.vals);
        EachReadable(base, Directory.Gains(vals, m.operation, values));
        EachReadable(base, Losses(vals, m.operation, values));
        forall v { JournalsExact(vals, m.operation, values, v); }
        forall v { ModifiedMeans(vals, m.operation, values, v); }
      }
    }
    hide ParseEach, Strings, Directory.Gains, Losses, Modified, CanUpdate, Managed, LowerAll, Unreadable;
  }

  lemma {:induction false} ChangesFault(base: DN, entry: Entry, allowed: set<Str>, changes: seq<Modification>)
    ensures var f, r := First(m => ChangeFault(base, entry, allowed, m), changes), Modifies(base, entry, allowed, changes);
            if f.Some? then r == Fail(f.value)
            else r.Ok? && SameSpoilt(base, Current(entry, r.value, MEMBER), entry.Get(MEMBER))
  {
    hide ModifyOne, ChangeFault, SameSpoilt;
    if changes == [] {
      SpoiltItself(base, entry);
    } else {
      var n := |changes| - 1;
      ChangesFault(base, entry, allowed, changes[..n]);
      FirstSnoc(m => ChangeFault(base, entry, allowed, m), changes);
      hide First;
      var front := Modifies(base, entry, allowed, changes[..n]);
      if front.Ok? { ModifyFault(base, entry, allowed, front.value, changes[n]); }
    }
  }

  lemma SpoiltItself(base: DN, entry: Entry)
    ensures SameSpoilt(base, Current(entry, Edit(map[], [], []), MEMBER), entry.Get(MEMBER))
  {
  }

  /** The names a change journals are those of the values it brings in or takes away. */
  lemma JournalOne(base: DN, entry: Entry, allowed: set<Str>, e: Edit, m: Modification, dn: DN)
    requires ModifyOne(base, entry, allowed, e, m).Ok?
    ensures var after := ModifyOne(base, entry, allowed, e, m).value;
            var was, now := Current(entry, e, MEMBER), Current(entry, after, MEMBER);
            && (dn in after.added <==> dn in e.added || exists v :: v in now && v !in was && Reads(base, v, dn))
            && (dn in after.removed <==> dn in e.removed || exists v :: v in was && v !in now && Reads(base, v, dn))
  {
    forall v { ReadsIs(base, v, dn); }
    if AttributeKey(m.typ) == MEMBER && ParseEach(base, m.vals).Some? {
      var vals, values := Current(entry, e, MEMBER), Strings(ParseEach(base, m.vals).value);
      var gains, losses := Directory.Gains(vals, m.operation, values), Losses(vals, m.operation, values);
      forall v { JournalsExact(vals, m.operation, values, v); }
      if ParseEach(base, gains).Some? && ParseEach(base, losses).Some? {
        EachHolds(base, gains, dn);
        EachHolds(base, losses, dn);
      }
    }
    hide ParseEach, Strings, Directory.Gains, Losses, Modified, CanUpdate, LowerAll, Reads, ParseUnder;
  }

  lemma EachHolds(base: DN, raws: seq<Str>, dn: DN)
    requires ParseEach(base, raws).Some?
    ensures dn in ParseEach(base, raws).value <==> exists v :: v in raws && Reads(base, v, dn)
  {
    forall v { ReadsIs(base, v, dn); }
    hide ParseUnder, Reads, ParseEach;
    if dn in ParseEach(base, raws).value { var v := ParseEachFrom(base, raws, dn); }
    if v :| v in raws && Reads(base, v, dn) { ParseEachHolds(base, raws, v); }
  }

  lemma FoldFront(base: DN, entry: Entry, changes: seq<Modification>, i: nat)
    requires changes != [] && i < |changes|
    ensures MembersAfter(base, entry, changes[..|changes| - 1], i) == MembersAfter(base, entry, changes, i)
  {
    assert changes[..|changes| - 1][..i] == changes[..i];
  }

  lemma {:induction false} JournalsAre(base: DN, entry: Entry, allowed: set<Str>, changes: seq<Modification>, dn: DN)
    requires Modifies(base, entry, allowed, changes).Ok?
    ensures var e := Modifies(base, entry, allowed, changes).value;
            && (dn in e.added <==> Gains(base, entry, changes, dn))
            && (dn in e.removed <==> Loses(base, entry, changes, dn))
  {
    if changes != [] {
      hide ModifyOne, Reads;
      var n := |changes| - 1;
      var front := changes[..n];
      var e := Modifies(base, entry, allowed, front).value;
      JournalsAre(base, entry, allowed, front, dn);
      JournalOne(base, entry, allowed, e, changes[n], dn);
      NamesAre();
      ModifyFolds(base, entry, allowed, front, MEMBER);
      ModifyFolds(base, entry, allowed, changes, MEMBER);
      assert changes[..n + 1] == changes && changes[..n] == front;
      forall i | 0 <= i <= n { FoldFront(base, entry, changes, i); }
      hide MembersAfter, Modifies;
      GainsMore(base, entry, changes, dn);
    }
  }

  lemma GainsMore(base: DN, entry: Entry, changes: seq<Modification>, dn: DN)
    requires changes != []
    ensures var n := |changes| - 1;
            && (Gains(base, entry, changes, dn) <==>
                  Gains(base, entry, changes[..n], dn) || exists v :: Comes(base, entry, changes, n, v) && Reads(base, v, dn))
            && (Loses(base, entry, changes, dn) <==>
                  Loses(base, entry, changes[..n], dn) || exists v :: Goes(base, entry, changes, n, v) && Reads(base, v, dn))
  {
    hide Reads, MembersAfter;
    var n := |changes| - 1;
    var front := changes[..n];
    forall i | 0 <= i <= n { FoldFront(base, entry, changes, i); }
    forall i, v | 0 <= i < n
      ensures Comes(base, entry, front, i, v) <==> Comes(base, entry, changes, i, v)
      ensures Goes(base, entry, front, i, v) <==> Goes(base, entry, changes, i, v)
    {
      FoldFront(base, entry, changes, i);
      FoldFront(base, entry, changes, i + 1);
    }
    hide Comes, Goes;
  }

  /** The change touches the attribute, and not by adding nothing to none. */
  predicate TouchedBy(entry: Entry, m: Modification, attr: Str) {
    LowerAll(m.typ) == attr && !(m.operation.Add? && m.vals == [] && attr !in entry.attributes)
  }

  lemma {:induction false} TouchedIs(base: DN, entry: Entry, allowed: set<Str>, changes: seq<Modification>, attr: Str)
    requires Modifies(base, entry, allowed, changes).Ok?
    ensures attr in Modifies(base, entry, allowed, changes).value.attributes
            <==> exists m :: m in changes && TouchedBy(entry, m, attr)
  {
    hide ModifyOne, LowerAll;
    if changes != [] {
      var n := |changes| - 1;
      TouchedIs(base, entry, allowed, changes[..n], attr);
      ModifyStep(base, entry, allowed, Modifies(base, entry, allowed, changes[..n]).value, changes[n], attr);
      assert changes == changes[..n] + [changes[n]];
      hide TouchedBy;
      TouchedLast(entry, changes[n], attr);
    }
  }

  lemma TouchedLast(entry: Entry, m: Modification, attr: Str)
    ensures TouchedBy(entry, m, attr)
            <==> AttributeKey(m.typ) == attr && !(m.operation.Add? && m.vals == [] && attr !in entry.attributes)
  {
  }

  lemma DeclassedIs(base: DN, entry: Entry, allowed: set<Str>, changes: seq<Modification>)
    requires Modifies(base, entry, allowed, changes).Ok?
    ensures var e := Modifies(base, entry, allowed, changes).value;
            Declassed(base, entry, changes) <==> OBJECTCLASS in e.attributes && e.attributes[OBJECTCLASS] == []
  {
    hide Modifies, LowerAll;
    ModifyFolds(base, entry, allowed, changes, OBJECTCLASS);
    TouchedIs(base, entry, allowed, changes, OBJECTCLASS);
    hide Fold;
    assert OBJECTCLASS == Ascii("objectclass");
    assert (exists m :: m in changes && LowerAll(m.typ) == OBJECTCLASS
                        && !(m.operation.Add? && m.vals == [] && OBJECTCLASS !in entry.attributes))
           <==> exists m :: m in changes && TouchedBy(entry, m, OBJECTCLASS);
  }

  lemma AddKept(s: Contents, t: Contents, base: DN, m: DN, group: DN)
    requires Kept(base, s, t) && ParseUnder(base, DNString(group), false).Some?
    ensures Kept(base, s, MembershipAdd(t, MEMBEROF, m, group).store)
  {
    LookedUp(t, m);
    UnreadableIs(base, DNString(group));
    hide Key, Lookup, Rewrite, Kept, Unreadable, DNString, ParseUnder;
    if Lookup(t, m).Some? {
      var vals := t[Key(m)].Get(MEMBEROF);
      assert forall v :: v in vals + [DNString(group)] <==> v in vals || v == DNString(group);
      RewriteKept(base, s, t, Key(m), MEMBEROF, vals + [DNString(group)]);
    }
  }

  lemma {:induction false} AddsKept(s: Contents, base: DN, members: seq<DN>, group: DN)
    requires ParseUnder(base, DNString(group), false).Some?
    ensures Kept(base, s, MembershipAdds(s, MEMBEROF, members, group).store)
  {
    hide Kept, MembershipAdd, DNString, ParseUnder;
    if members == [] {
      KeptItself(base, s);
    } else {
      var n := |members| - 1;
      AddsKept(s, base, members[..n], group);
      AddKept(s, MembershipAdds(s, MEMBEROF, members[..n], group).store, base, members[n], group);
    }
  }

  lemma {:induction false} RemovesFault(s: Contents, t: Contents, base: DN, members: seq<DN>, group: DN)
    requires Kept(base, s, t)
    ensures var e := MembershipRemoves(t, base, MEMBEROF, members, group);
            && Kept(base, s, e.store)
            && ErrorOf(e) == if exists m :: m in members && (!Present(s, m) || Spoilt(s, base, m, MEMBEROF))
                             then Some(OperationsError) else None
  {
    hide Kept, Present, Spoilt, MembershipRemove;
    if members != [] {
      var n := |members| - 1;
      RemovesFault(s, t, base, members[..n], group);
      RemoveFault(s, MembershipRemoves(t, base, MEMBEROF, members[..n], group).store, base, MEMBEROF, members[n], group);
      assert forall m :: m in members <==> m in members[..n] || m == members[n];
    }
  }

  lemma EditAnswers(s: Contents, base: DN, dn: DN, e: Edit, meta: Meta)
    requires ParseUnder(base, DNString(dn), false).Some? && forall m | m in e.added :: Lookup(s, m).Some?
    ensures ErrorOf(EditChanges(s, base, dn, e, meta))
         == if exists m :: m in e.removed && (!Present(s, m) || Spoilt(s, base, m, MEMBEROF))
            then Some(OperationsError) else None
  {
    hide Lookup, MembershipAdds, MembershipRemoves, Kept, Present, Spoilt, ParseUnder, Stamped;
    AddsComplete(s, e.added, dn);
    AddsKept(s, base, e.added, dn);
    RemovesFault(s, MembershipAdds(s, MEMBEROF, e.added, dn).store, base, e.removed, dn);
  }

  /** The checks after the changes themselves. */
  lemma ModifyParts(s: Contents, base: DN, dn: DN, attrs: set<Str>, r: ModifyRequest, meta: Meta)
    requires ParseUnder(base, r.entry, false) == Some(dn) && Lookup(s, dn).Some?
    ensures var edit, error := Modifies(base, Lookup(s, dn).value, attrs, r.changes),
                               ErrorOf(ModifyChanges(s, base, true, attrs, r, meta));
            match edit
            case Fail(f) => error == Some(f)
            case Ok(e) =>
              error == if exists m :: m in e.added && Lookup(s, m).None? then Some(NoSuchObject)
                       else if OBJECTCLASS in e.attributes && e.attributes[OBJECTCLASS] == []
                       then Some(InsufficientAccessRights)
                       else ErrorOf(EditChanges(s, base, dn, e, meta))
  {
    hide ParseUnder, Lookup, Modifies, EditChanges;
    var edit := Modifies(base, Lookup(s, dn).value, attrs, r.changes);
    if edit.Ok? {
      var e := edit.value;
      assert (exists i :: 0 <= i < |e.added| && Lookup(s, e.added[i]).None?)
             <==> exists m :: m in e.added && Lookup(s, m).None?;
    }
  }

  /** What a Modify of this entry comes to. */
  lemma EditFaults(s: Contents, base: DN, dn: DN, attrs: set<Str>, r: ModifyRequest, meta: Meta)
    requires ParseUnder(base, r.entry, false) == Some(dn) && Lookup(s, dn).Some?
    ensures ErrorOf(ModifyChanges(s, base, true, attrs, r, meta)) == EditFault(s, base, attrs, Lookup(s, dn).value, r.changes)
  {
    hide ParseUnder, Lookup, ModifyChanges, Modifies, EditChanges, First, ChangeFault, Gains, Loses, Declassed, Present,
         Spoilt, SameSpoilt, DNString;
    var entry := Lookup(s, dn).value;
    ModifyParts(s, base, dn, attrs, r, meta);
    ChangesFault(base, entry, attrs, r.changes);
    if Modifies(base, entry, attrs, r.changes).Ok? {
      var e := Modifies(base, entry, attrs, r.changes).value;
      forall m { JournalsAre(base, entry, attrs, r.changes, m); }
      forall m { PresentIs(s, m); }
      DeclassedIs(base, entry, attrs, r.changes);
      ParsedAgain(base, r.entry);
      NamesAre();
      if forall m | m in e.added :: Lookup(s, m).Some? { EditAnswers(s, base, dn, e, meta); }
    }
  }

  /** Modify answers by its table. */
  lemma ModifyAnswers(s: Contents, base: DN, allowed: bool, attrs: set<Str>, r: ModifyRequest, meta: Meta)
    ensures ModifyTable(s, base, allowed, attrs, r, ErrorOf(ModifyChanges(s, base, allowed, attrs, r, meta)))
  {
    UnreadableIs(base, r.entry);
    forall dn { ReadsIs(base, r.entry, dn); }
    hide ParseUnder, Reads, Unreadable, EditFault, Lookup, Modifies, EditChanges, Present, Key;
    if ParseUnder(base, r.entry, false).Some? {
      var dn := ParseUnder(base, r.entry, false).value;
      PresentIs(s, dn);
      LookedUp(s, dn);
      forall k | k in s { StoredAt(s, k); }
      if Lookup(s, dn).Some? { EditFaults(s, base, dn, attrs, r, meta); }
    }
  }

  lemma InitializeStores(s: Contents, base: DN, classes: seq<Str>, structural: Str, meta: Meta)
    ensures Initialized(s, ApplyChanges(s, InitializeChanges(s, base, classes, structural, meta)), base, classes,
                        structural, meta)
  {
    PresentIs(s, base);
    hide Present, Lookup, Key, DNString, LowerAll;
    if Lookup(s, base).None? {
      var e := InitialEntry(base, classes, structural, meta);
      assert InitializeChanges(s, base, classes, structural, meta) == [Put(e)];
      assert [Put(e)][..0] == [];
      assert ApplyChanges(s, [Put(e)]) == s[KeyOf(e) := e];
    }
  }
}

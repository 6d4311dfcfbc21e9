/** When a Modify leaves `member` and `memberof` inverse, and the runs over which every request does. */
module MembershipRuns {
  import opened Wrappers
  import opened Text
  import opened Names
  import opened DirectoryStore
  import opened Directory
  import opened DirectoryTree
  import opened Membership
  import opened ModifyTheory

  /******* The names a Modify journals *******/

  lemma ParsedAgain(base: DN, raw: Str)
    requires ParseUnder(base, raw, false).Some?
    ensures var dn := ParseUnder(base, raw, false).value; ParseUnder(base, DNString(dn), false) == Some(dn)
  {
    ParsedCanonical(raw, COMMA);
    hide Under, ParseComponents, JoinComponents;
  }

  lemma {:induction false} ParseEachFrom(base: DN, raws: seq<Str>, dn: DN) returns (v: Str)
    requires ParseEach(base, raws).Some? && dn in ParseEach(base, raws).value
    ensures v in raws && ParseUnder(base, v, false) == Some(dn)
  {
    hide ParseUnder;
    var n := |raws| - 1;
    if ParseUnder(base, raws[n], false) == Some(dn) {
      v := raws[n];
    } else {
      v := ParseEachFrom(base, raws[..n], dn);
    }
  }

  lemma InStrings(dns: seq<DN>, dn: DN)
    requires dn in dns
    ensures DNString(dn) in Strings(dns)
  {
    hide DNString;
    var i :| 0 <= i < |dns| && dns[i] == dn;
    assert Strings(dns)[i] == DNString(dn);
  }

  lemma FromStrings(dns: seq<DN>, v: Str) returns (dn: DN)
    requires v in Strings(dns)
    ensures dn in dns && v == DNString(dn)
  {
    hide DNString;
    var i :| 0 <= i < |dns| && Strings(dns)[i] == v;
    dn := dns[i];
  }

  /** Printing and parsing give the name again. */
  ghost predicate Reparses(base: DN, dns: seq<DN>) {
    forall dn | dn in dns :: ParseUnder(base, DNString(dn), false) == Some(dn)
  }

  lemma EachReparses(base: DN, raws: seq<Str>)
    requires ParseEach(base, raws).Some?
    ensures Reparses(base, ParseEach(base, raws).value)
  {
    forall dn | dn in ParseEach(base, raws).value
      ensures ParseUnder(base, DNString(dn), false) == Some(dn)
    {
      var v := ParseEachFrom(base, raws, dn);
      ParsedAgain(base, v);
    }
  }

  /** A lost member is one gained by the same request, or one listed before. */
  ghost predicate Accounted(base: DN, was: seq<Str>, added: seq<DN>, dn: DN) {
    dn in added || exists v :: v in was && ParseUnder(base, v, false) == Some(dn)
  }

  /** The members an edit lists are those listed before and those it has journalled as gained. */
  ghost predicate Accounts(base: DN, entry: Entry, e: Edit) {
    && (forall v | v in Current(entry, e, MEMBER) :: v in entry.Get(MEMBER) || v in Strings(e.added))
    && Reparses(base, e.added)
    && forall dn | dn in e.removed :: Accounted(base, entry.Get(MEMBER), e.added, dn)
  }

  lemma AccountsStep(base: DN, entry: Entry, allowed: set<Str>, e: Edit, m: Modification)
    requires ModifyOne(base, entry, allowed, e, m).Ok? && Accounts(base, entry, e)
    ensures Accounts(base, entry, ModifyOne(base, entry, allowed, e, m).value)
  {
    hide Modified, Gains, Losses, ParseUnder, AttributeKey, Strings, CanUpdate, ParseEach, Accounts;
    ModifyStep(base, entry, allowed, e, m, MEMBER);
    var after := ModifyOne(base, entry, allowed, e, m).value;
    if AttributeKey(m.typ) == MEMBER
       && !(m.operation.Add? && m.vals == [] && MEMBER !in e.attributes && MEMBER !in entry.attributes) {
      var vals, dns := Current(entry, e, MEMBER), ParseEach(base, m.vals).value;
      EachReparses(base, m.vals);
      GainsAccount(base, entry, e, after, vals, dns, m.operation);
    } else {
      SameAccounts(base, entry, e, after);
    }
  }

  lemma SameAccounts(base: DN, entry: Entry, e: Edit, after: Edit)
    requires Accounts(base, entry, e) && after.added == e.added && after.removed == e.removed
    requires Current(entry, after, MEMBER) == Current(entry, e, MEMBER)
    ensures Accounts(base, entry, after)
  {
  }

  lemma GainsAccount(base: DN, entry: Entry, e: Edit, after: Edit, vals: seq<Str>, dns: seq<DN>, operation: Operation)
    requires Accounts(base, entry, e) && vals == Current(entry, e, MEMBER) && Reparses(base, dns)
    requires Current(entry, after, MEMBER) == Modified(vals, operation, Strings(dns))
    requires var gained, lost := ParseEach(base, Gains(vals, operation, Strings(dns))),
            ParseEach(base, Losses(vals, operation, Strings(dns)));
             gained.Some? && lost.Some? && after.added == e.added + gained.value && after.removed == e.removed + lost.value
    ensures Accounts(base, entry, after)
  {
    hide Modified, Gains, Losses, ParseUnder, Strings, ParseEach;
    var gains, losses := Gains(vals, operation, Strings(dns)), Losses(vals, operation, Strings(dns));
    EachReparses(base, gains);
    forall v | v in Current(entry, after, MEMBER)
      ensures v in entry.Get(MEMBER) || v in Strings(after.added)
    {
      JournalsExact(vals, operation, Strings(dns), v);
      if v in vals {
        if v in Strings(e.added) { StringsGrow(e.added, ParseEach(base, gains).value, v); }
      } else {
        GainIsNamed(base, vals, operation, dns, v);
        StringsGrow(e.added, ParseEach(base, gains).value, v);
      }
    }
    forall dn | dn in after.removed
      ensures Accounted(base, entry.Get(MEMBER), after.added, dn)
    {
      if dn in e.removed {
        assert Accounted(base, entry.Get(MEMBER), e.added, dn);
      } else {
        var v := ParseEachFrom(base, losses, dn);
        JournalsExact(vals, operation, Strings(dns), v);
        if v !in entry.Get(MEMBER) {
          var a := FromStrings(e.added, v);
          assert a == dn;
        }
      }
    }
  }

  lemma StringsGrow(a: seq<DN>, b: seq<DN>, v: Str)
    requires v in Strings(a) || v in Strings(b)
    ensures v in Strings(a + b)
  {
    hide Strings;
    if v in Strings(a) {
      var dn := FromStrings(a, v);
      InStrings(a + b, dn);
    } else {
      var dn := FromStrings(b, v);
      InStrings(a + b, dn);
    }
  }

  /** A gained value is a canonical name, and is what its journal entry prints. */
  lemma GainIsNamed(base: DN, vals: seq<Str>, operation: Operation, dns: seq<DN>, v: Str)
    requires Reparses(base, dns) && v !in vals && v in Modified(vals, operation, Strings(dns))
    requires ParseEach(base, Gains(vals, operation, Strings(dns))).Some?
    ensures v in Strings(ParseEach(base, Gains(vals, operation, Strings(dns))).value)
  {
    JournalsExact(vals, operation, Strings(dns), v);
    ModifiedMeans(vals, operation, Strings(dns), v);
    hide Modified, Gains, ParseUnder, Strings, ParseEach;
    ParseEachHolds(base, Gains(vals, operation, Strings(dns)), v);
    var dn := FromStrings(dns, v);
    InStrings(ParseEach(base, Gains(vals, operation, Strings(dns))).value, dn);
  }

  lemma {:induction false} ModifiesAccount(base: DN, entry: Entry, allowed: set<Str>, changes: seq<Modification>)
    requires Modifies(base, entry, allowed, changes).Ok?
    ensures Accounts(base, entry, Modifies(base, entry, allowed, changes).value)
  {
    hide ModifyOne;
    if changes != [] {
      hide Accounts;
      var n := |changes| - 1;
      ModifiesAccount(base, entry, allowed, changes[..n]);
      AccountsStep(base, entry, allowed, Modifies(base, entry, allowed, changes[..n]).value, changes[n]);
    }
  }

  lemma NamedExists(base: DN, s: Contents, v: Str, dn: DN)
    requires Sound(base, s) && Stored(s, v) && ParseUnder(base, v, false) == Some(dn)
    ensures Lookup(s, dn).Some? && v == DNString(dn)
  {
    var j := StoredUnder(base, s, v);
    NameFinds(base, s, j);
  }

  ghost predicate AllFound(s: Contents, dns: seq<DN>) {
    forall dn | dn in dns :: Lookup(s, dn).Some?
  }

  /** All members gained and lost are stored, and so is every member then listed. */
  lemma EditFound(base: DN, s: Contents, k: Str, e: Edit)
    requires Sound(base, s) && Closed(s) && k in s && Accounts(base, s[k], e) && AllFound(s, e.added)
    ensures AllFound(s, e.removed) && forall v | v in Current(s[k], e, MEMBER) :: Stored(s, v)
  {
    hide Lookup, ParseUnder, Sound, Stored, Strings;
    ClosedAt(s, k, MEMBER);
    forall dn | dn in e.removed
      ensures Lookup(s, dn).Some?
    {
      assert Accounted(base, s[k].Get(MEMBER), e.added, dn);
      if dn !in e.added {
        var v :| v in s[k].Get(MEMBER) && ParseUnder(base, v, false) == Some(dn);
        NamedExists(base, s, v, dn);
      }
    }
    forall v | v in Current(s[k], e, MEMBER)
      ensures Stored(s, v)
    {
      if v !in s[k].Get(MEMBER) {
        var dn := FromStrings(e.added, v);
        FoundStored(s, dn);
      }
    }
  }

  lemma FoundStored(s: Contents, dn: DN)
    requires Lookup(s, dn).Some?
    ensures Stored(s, DNString(dn)) && Key(dn) in s && s[Key(dn)].dn == dn
  {
    LookedUp(s, dn);
    assert Name(s[Key(dn)]) == DNString(dn);
  }

  /******* What a Modify leaves under every key *******/

  lemma {:induction false} RemovesAsRaw(s: Contents, base: DN, attr: Str, members: seq<DN>, dn: DN)
    requires Reparses(base, members)
    ensures MembershipRemoves(s, base, attr, members, dn) == RawRemoves(s, base, attr, Strings(members), dn)
  {
    hide MembershipRemove, ParseUnder, DNString, Then;
    if members != [] {
      var n := |members| - 1;
      assert members == members[..n] + [members[n]] && members[n] in members;
      RemovesAsRaw(s, base, attr, members[..n], dn);
      assert Strings(members)[..n] == Strings(members[..n]);
    }
  }

  /** The entry after the updates of its memberships. */
  function Moved(base: DN, entry: Entry, e: Edit, dn: DN): Entry {
    var joined := if entry.dn in e.added then Joined(entry, dn) else entry;
    if entry.dn in e.removed && Without(base, joined.Get(MEMBEROF), dn).Some? then Rid(base, joined, MEMBEROF, dn)
        else joined
  }

  /** Every entry has its memberships updated, but the edited one is as edited unless they are its own. */
  ghost predicate EditedAt(base: DN, s: Contents, t: Contents, dn: DN, e: Edit, meta: Meta, j: Str)
    requires j in s
  {
    && j in t
    && t[j] == if j == Key(dn) && !RewritesItself(base, s[j], e) then Stamped(dn, e.attributes, meta)
        else Moved(base, s[j], e, dn)
  }

  lemma GrownKeeps(base: DN, s: Contents, t: Contents, members: seq<DN>, dn: DN)
    requires Sound(base, s) && Closed(s) && Key(dn) in s && s[Key(dn)].dn == dn && Grown(s, t, members, dn)
    ensures Sound(base, t) && Closed(t) && t.Keys == s.Keys && (forall k | k in s :: t[k].dn == s[k].dn)
    ensures forall v :: Stored(s, v) <==> Stored(t, v)
  {
    hide DNString, Key, Joined, SoundEntry;
    forall k | k in s
      ensures SoundEntry(base, t[k]) && t[k].dn == s[k].dn
      ensures forall v | v in t[k].Get(MEMBER) || v in t[k].Get(MEMBEROF) :: Stored(s, v)
    {
      JoinedKeeps(base, s, k, dn);
    }
    SameStored(s, t);
  }

  lemma JoinedKeeps(base: DN, s: Contents, k: Str, dn: DN)
    requires Sound(base, s) && Closed(s) && k in s && Key(dn) in s && s[Key(dn)].dn == dn
    ensures SoundEntry(base, Joined(s[k], dn))
    ensures forall v | v in Joined(s[k], dn).Get(MEMBER) || v in Joined(s[k], dn).Get(MEMBEROF) :: Stored(s, v)
  {
    assert SoundEntry(base, s[k]);
    assert Stored(s, DNString(dn)) by { assert Name(s[Key(dn)]) == DNString(dn); }
    RdnOther(base, s, k);
    JoinedGets(s[k], dn);
    hide Sound, Clean, Under, Key, DNString, AttributeKey, Stored;
  }

  lemma StoredReparses(base: DN, s: Contents, members: seq<DN>)
    requires Sound(base, s) && AllFound(s, members)
    ensures Reparses(base, members) && forall v | v in Strings(members) :: Stored(s, v)
  {
    forall dn | dn in members
      ensures ParseUnder(base, DNString(dn), false) == Some(dn)
    {
      FoundStored(s, dn);
      NameFinds(base, s, Key(dn));
    }
    forall v | v in Strings(members)
      ensures Stored(s, v)
    {
      var dn := FromStrings(members, v);
      FoundStored(s, dn);
    }
  }

  lemma NameAmong(base: DN, s: Contents, members: seq<DN>, k: Str)
    requires Sound(base, s) && k in s && AllFound(s, members)
    ensures Name(s[k]) in Strings(members) <==> s[k].dn in members
  {
    NamesIn(base, s, members, k);
  }

  lemma FoundAfter(base: DN, s: Contents, t: Contents, members: seq<DN>)
    requires AllFound(s, members) && t.Keys == s.Keys && forall k | k in s :: t[k].dn == s[k].dn
    ensures AllFound(t, members)
  {
    hide Lookup, Key;
    forall dn | dn in members
      ensures Lookup(t, dn).Some?
    {
      LookedUp(s, dn);
      LookedUp(t, dn);
    }
  }

  /** The additions and then the removals, in place and in the log. */
  ghost predicate Stages(base: DN, s: Contents, adds: Effect, removes: Effect, dn: DN, e: Edit) {
    && adds.result.Ok? && removes.result.Ok? && adds.store.Keys == s.Keys && removes.store.Keys == s.Keys
    && Grown(s, adds.store, e.added, dn) && GrownLog(s, adds.store, adds.result.value, e.added, dn)
    && Swept(base, adds.store, removes.store, MEMBEROF, Strings(e.removed), dn)
    && SweptLog(base, adds.store, removes.store, removes.result.value, MEMBEROF, Strings(e.removed), dn)
  }

  lemma EditStages(base: DN, s: Contents, dn: DN, e: Edit)
    requires Sound(base, s) && Closed(s) && Key(dn) in s && s[Key(dn)].dn == dn && AllFound(s, e.added)
    requires AllFound(s, e.removed)
    ensures var adds := MembershipAdds(s, MEMBEROF, e.added, dn);
            Stages(base, s, adds, MembershipRemoves(adds.store, base, MEMBEROF, e.removed, dn), dn, e)
  {
    KeyClean(base, s, dn, Key(dn));
    FoundEach(s, e.added);
    Grows(base, s, e.added, dn);
    var adds := MembershipAdds(s, MEMBEROF, e.added, dn);
    GrownKeeps(base, s, adds.store, e.added, dn);
    FoundAfter(base, s, adds.store, e.removed);
    StoredReparses(base, adds.store, e.removed);
    RemovesAsRaw(adds.store, base, MEMBEROF, e.removed, dn);
    var removes := MembershipRemoves(adds.store, base, MEMBEROF, e.removed, dn);
    Sweeps(base, adds.store, MEMBEROF, Strings(e.removed), dn);
    SweptShape(base, adds.store, removes.store, MEMBEROF, Strings(e.removed), dn);
    hide Sound, Closed, Key, AllFound, MembershipAdds, MembershipRemoves, RawRemoves, Grown, GrownLog, Swept,
         SweptLog, Strings;
  }

  lemma EditRuns(base: DN, s: Contents, dn: DN, e: Edit, meta: Meta)
    requires Sound(base, s) && Closed(s) && Key(dn) in s && s[Key(dn)].dn == dn && AllFound(s, e.added)
    requires AllFound(s, e.removed)
    ensures EditChanges(s, base, dn, e, meta).result.Ok?
    ensures var t := After(EditChanges(s, base, dn, e, meta)); t.Keys == s.Keys && forall j | j in s ::
            EditedAt(base, s, t, dn, e, meta, j)
  {
    var adds := MembershipAdds(s, MEMBEROF, e.added, dn);
    var removes := MembershipRemoves(adds.store, base, MEMBEROF, e.removed, dn);
    hide *;
    EditStages(base, s, dn, e);
    StagesOk(base, s, adds, removes, dn, e);
    var t := After(EditChanges(s, base, dn, e, meta));
    EditIs(base, s, dn, e, meta);
    forall j
      ensures j in t <==> j in s
      ensures j in s ==> EditedAt(base, s, t, dn, e, meta, j)
    {
      EditOne(base, s, t, adds, removes, dn, e, meta, j);
    }
  }

  lemma StagesParts(base: DN, s: Contents, adds: Effect, removes: Effect, dn: DN, e: Edit)
    requires Stages(base, s, adds, removes, dn, e)
    ensures adds.result.Ok? && removes.result.Ok? && adds.store.Keys == s.Keys && removes.store.Keys == s.Keys
    ensures Grown(s, adds.store, e.added, dn) && GrownLog(s, adds.store, adds.result.value, e.added, dn)
    ensures Swept(base, adds.store, removes.store, MEMBEROF, Strings(e.removed), dn)
    ensures SweptLog(base, adds.store, removes.store, removes.result.value, MEMBEROF, Strings(e.removed), dn)
  {
  }

  lemma StampedTouches(dn: DN, attributes: Attributes, meta: Meta)
    ensures Touched(Put(Stamped(dn, attributes, meta))) == Key(dn)
  {
  }

  lemma StagesOk(base: DN, s: Contents, adds: Effect, removes: Effect, dn: DN, e: Edit)
    requires Stages(base, s, adds, removes, dn, e)
    ensures adds.result.Ok? && removes.result.Ok? && adds.store.Keys == s.Keys && removes.store.Keys == s.Keys
  {
  }

  lemma FoundEach(s: Contents, members: seq<DN>)
    requires AllFound(s, members)
    ensures forall m | m in members :: Lookup(s, m).Some?
  {
  }

  lemma EditIs(base: DN, s: Contents, dn: DN, e: Edit, meta: Meta)
    requires MembershipAdds(s, MEMBEROF, e.added, dn).result.Ok?
    requires MembershipRemoves(MembershipAdds(s, MEMBEROF, e.added, dn).store, base, MEMBEROF, e.removed, dn).result.Ok?
    ensures EditChanges(s, base, dn, e, meta).result.Ok?
    ensures var adds := MembershipAdds(s, MEMBEROF, e.added, dn);
            var removes := MembershipRemoves(adds.store, base, MEMBEROF, e.removed, dn);
            After(EditChanges(s, base, dn, e, meta))
            == ApplyChanges(removes.store, [Put(Stamped(dn, e.attributes, meta))] + adds.result.value
                + removes.result.value)
  {
    hide MembershipAdds, MembershipRemoves, ApplyChanges, Stamped;
  }

  lemma EditOne(base: DN, s: Contents, t: Contents, adds: Effect, removes: Effect, dn: DN, e: Edit, meta: Meta, j: Str)
    requires Sound(base, s) && Key(dn) in s && s[Key(dn)].dn == dn && AllFound(s, e.removed)
    requires Stages(base, s, adds, removes, dn, e)
    requires t == ApplyChanges(removes.store, [Put(Stamped(dn, e.attributes, meta))] + adds.result.value
            + removes.result.value)
    ensures (j in t <==> j in s) && (j in s ==> EditedAt(base, s, t, dn, e, meta, j))
  {
    var first := Put(Stamped(dn, e.attributes, meta));
    hide *;
    StagesParts(base, s, adds, removes, dn, e);
    StampedTouches(dn, e.attributes, meta);
    LastOfThree(removes.store, [first], adds.result.value, removes.result.value, j);
    OneChange([first], j);
    AddsLog(s, adds.store, adds.result.value, e.added, dn, j);
    RemovesLog(base, adds.store, removes.store, removes.result.value, Strings(e.removed), dn, j);
    if j in s {
      NameAmong(base, s, e.removed, j);
      SameNameOf(s[j], adds.store[j]);
      KeyClean(base, s, dn, j);
      MovedIs(base, s[j], adds.store[j], removes.store[j], dn, e);
      EditedIs(base, s, t, adds.store[j], removes.store[j], dn, e, meta, j);
    }
  }

  lemma SameNameOf(e: Entry, f: Entry)
    requires f.dn == e.dn
    ensures Name(f) == Name(e)
  {
  }

  lemma LastOfThree(s: Contents, a: seq<Change>, b: seq<Change>, c: seq<Change>, k: Str)
    ensures var t := ApplyChanges(s, a + b + c);
            var last := if LastChange(c, k).Some? then LastChange(c, k) else if LastChange(b, k).Some? then LastChange(b, k)
                        else LastChange(a, k);
            if last.None? then (k in t <==> k in s) && (k in s ==> t[k] == s[k])
            else if last.value.Put? then k in t && t[k] == last.value.entry
            else k !in t
  {
    AppliedAt(s, a + b + c, k);
    LastChangeAppend(a + b, c, k);
    LastChangeAppend(a, b, k);
  }

  lemma AddsLog(s: Contents, t: Contents, cs: seq<Change>, members: seq<DN>, dn: DN, k: Str)
    requires Grown(s, t, members, dn) && t.Keys == s.Keys && GrownLog(s, t, cs, members, dn)
    ensures LastChange(cs, k)
            == if k in s && s[k].dn in members && DNString(dn) !in s[k].Get(MEMBEROF) then Some(Put(t[k])) else None
    ensures k in s ==> k in t && t[k] == if s[k].dn in members then Joined(s[k], dn) else s[k]
  {
    hide DNString, Joined, LastChange;
  }

  lemma RemovesLog(base: DN, s: Contents, t: Contents, cs: seq<Change>, raws: seq<Str>, dn: DN, k: Str)
    requires Swept(base, s, t, MEMBEROF, raws, dn) && t.Keys == s.Keys && SweptLog(base, s, t, cs, MEMBEROF, raws, dn)
    ensures LastChange(cs, k)
            == if k in s && Name(s[k]) in raws && !GivesUp(base, s[k], MEMBEROF, dn) then Some(Put(t[k])) else None
    ensures k in s ==> k in t && Without(base, s[k].Get(MEMBEROF), dn).Some?
                       && t[k] == if Name(s[k]) in raws then Rid(base, s[k], MEMBEROF, dn) else s[k]
  {
    hide LastChange, GivesUp, Without, Rid, Name;
  }

  lemma KeyClean(base: DN, s: Contents, dn: DN, j: Str)
    requires Sound(base, s) && Key(dn) in s && s[Key(dn)].dn == dn && j in s
    ensures Clean(dn) && Under(dn, base) && KeyOf(s[j]) == j
  {
    assert SoundEntry(base, s[Key(dn)]);
  }

  /** The two updates one after the other, and when they write something. */
  lemma MovedIs(base: DN, entry: Entry, joined: Entry, moved: Entry, dn: DN, e: Edit)
    requires Clean(dn) && Under(dn, base) && joined == (if entry.dn in e.added then Joined(entry, dn) else entry)
    requires Without(base, joined.Get(MEMBEROF), dn).Some?
    requires moved == if entry.dn in e.removed then Rid(base, joined, MEMBEROF, dn) else joined
    ensures moved == Moved(base, entry, e, dn) && joined.dn == entry.dn && moved.dn == entry.dn
    ensures GivesUp(base, joined, MEMBEROF, dn) <==> GivesUp(base, entry, MEMBEROF, dn)
    ensures GivesUp(base, joined, MEMBEROF, dn) || entry.dn !in e.removed ==> moved == joined
  {
    JoinedGivesUp(base, entry, dn);
    RidUnless(base, joined, MEMBEROF, dn);
    hide Without, GivesUp, Rid, Joined, Clean, Under;
  }

  lemma EditedIs(base: DN, s: Contents, t: Contents, joined: Entry, moved: Entry, dn: DN, e: Edit, meta: Meta, j: Str)
    requires j in s && Key(dn) in s && s[Key(dn)].dn == dn && moved == Moved(base, s[j], e, dn)
    requires var added := s[j].dn in e.added && DNString(dn) !in s[j].Get(MEMBEROF);
             var removed := s[j].dn in e.removed && !GivesUp(base, s[j], MEMBEROF, dn);
             && (!removed ==> moved == joined) && j in t
             && t[j] == if removed then moved else if added then joined
                        else if j == Key(dn) then Stamped(dn, e.attributes, meta) else moved
    ensures EditedAt(base, s, t, dn, e, meta, j)
  {
    hide GivesUp, Moved, Stamped, DNString, Key;
  }

  /******* When a Modify keeps the relations inverse *******/

  /** Whether an entry has the edited one among its groups afterwards. */
  predicate Listed(base: DN, entry: Entry, e: Edit, dn: DN) {
    && (DNString(dn) in entry.Get(MEMBEROF) || entry.dn in e.added)
    && !(entry.dn in e.removed && !GivesUp(base, entry, MEMBEROF, dn))
  }

  /** The members the edited entry lists afterwards: none unless a change names the attribute. */
  function Kept(e: Edit): seq<Str> {
    if MEMBER in e.attributes then e.attributes[MEMBER] else []
  }

  /**
   * When a Modify leaves the relations inverse: the members its entry lists afterwards are exactly those
   * that have it among their groups; and as its own groups are forgotten with every other attribute that
   * no change names, it has none, unless the edit is what is lost.
   */
  ghost predicate Editable(base: DN, s: Contents, dn: DN, e: Edit)
    requires Key(dn) in s
  {
    var entry, itself := s[Key(dn)], RewritesItself(base, s[Key(dn)], e);
    && (forall j | j in s ::
          Name(s[j]) in (if itself then entry.Get(MEMBER) else Kept(e))
          <==> Listed(base, s[j], e, dn) && (j == Key(dn) ==> itself))
    && (!itself ==> forall v | v in entry.Get(MEMBEROF) :: v == DNString(dn))
  }

  lemma MovedLists(base: DN, s: Contents, j: Str, e: Edit, dn: DN)
    requires Sound(base, s) && Closed(s) && j in s && Key(dn) in s && s[Key(dn)].dn == dn
    ensures var m := Moved(base, s[j], e, dn);
            && m.dn == s[j].dn && m.Get(MEMBER) == s[j].Get(MEMBER)
            && forall v :: v in m.Get(MEMBEROF) <==> if v == DNString(dn) then Listed(base, s[j], e, dn)
                else v in s[j].Get(MEMBEROF)
  {
    var joined := if s[j].dn in e.added then Joined(s[j], dn) else s[j];
    KeyClean(base, s, dn, j);
    JoinedKeeps(base, s, j, dn);
    ClosedAt(s, j, MEMBEROF);
    WithoutTakes(base, s, joined.Get(MEMBEROF), dn);
    ListsDiffer();
    hide *;
    JoinedGets(s[j], dn);
    JoinedGivesUp(base, s[j], dn);
    RidGet(base, joined, MEMBEROF, dn, MEMBER);
    RidGet(base, joined, MEMBEROF, dn, MEMBEROF);
    MovedIs(base, s[j], joined, if s[j].dn in e.removed then Rid(base, joined, MEMBEROF, dn) else joined, dn, e);
    ListedIs(base, s[j], e, dn);
  }

  lemma ListedIs(base: DN, entry: Entry, e: Edit, dn: DN)
    ensures Listed(base, entry, e, dn)
            <==> (DNString(dn) in entry.Get(MEMBEROF) || entry.dn in e.added)
                 && !(entry.dn in e.removed && !GivesUp(base, entry, MEMBEROF, dn))
  {
  }

  lemma StampedLists(base: DN, s: Contents, k: Str, allowed: set<Str>, changes: seq<Modification>, meta: Meta)
    requires Sound(base, s) && Closed(s) && k in s && Modifies(base, s[k], allowed, changes).Ok?
    ensures var e := Modifies(base, s[k], allowed, changes).value;
            var st := Stamped(s[k].dn, e.attributes, meta);
            st.dn == s[k].dn && st.Get(MEMBER) == Kept(e) && st.Get(MEMBEROF) == []
  {
    RdnOther(base, s, k);
    var e := Modifies(base, s[k], allowed, changes).value;
    NoMemberOf(base, s[k], allowed, changes, meta);
    StampedKeeps(s[k], e.attributes, meta);
    StampedKeys(s[k], e.attributes, meta);
    MemberOwn();
    hide Sound, Closed, Modifies, Stamped, AttributeKey;
  }

  lemma MemberOwn()
    ensures MEMBER !in {MODIFIERSNAME, MODIFYTIMESTAMP}
  {
    assert |MEMBER| != |MODIFIERSNAME| && |MEMBER| != |MODIFYTIMESTAMP|;
  }

  /** The lists under one key, before and after. */
  ghost predicate ListsAt(base: DN, s: Contents, t: Contents, dn: DN, e: Edit, j: Str)
    requires Key(dn) in s && j in s
  {
    var itself := RewritesItself(base, s[Key(dn)], e);
    && j in t && Name(t[j]) == Name(s[j])
    && t[j].Get(MEMBER) == (if j == Key(dn) && !itself then Kept(e) else s[j].Get(MEMBER))
    && forall v :: v in t[j].Get(MEMBEROF)
                   <==> && (j == Key(dn) ==> itself)
                        && if v == DNString(dn) then Listed(base, s[j], e, dn) else v in s[j].Get(MEMBEROF)
  }

  lemma ListsAtIs(base: DN, s: Contents, t: Contents, dn: DN, allowed: set<Str>, changes: seq<Modification>,
      meta: Meta, j: Str)
    requires Sound(base, s) && Closed(s) && Key(dn) in s && s[Key(dn)].dn == dn && j in s
    requires Modifies(base, s[Key(dn)], allowed, changes).Ok?
    requires EditedAt(base, s, t, dn, Modifies(base, s[Key(dn)], allowed, changes).value, meta, j)
    ensures ListsAt(base, s, t, dn, Modifies(base, s[Key(dn)], allowed, changes).value, j)
  {
    var e := Modifies(base, s[Key(dn)], allowed, changes).value;
    hide *;
    EditedIn(base, s, t, dn, e, meta, j);
    if j == Key(dn) && !RewritesItself(base, s[j], e) {
      StampedLists(base, s, j, allowed, changes, meta);
      ListsStamped(base, s, t, dn, e, j);
    } else {
      MovedLists(base, s, j, e, dn);
      ListsMoved(base, s, t, dn, e, j);
    }
  }

  lemma EditedIn(base: DN, s: Contents, t: Contents, dn: DN, e: Edit, meta: Meta, j: Str)
    requires j in s && EditedAt(base, s, t, dn, e, meta, j)
    ensures j in t
    ensures t[j] == if j == Key(dn) && !RewritesItself(base, s[j], e) then Stamped(dn, e.attributes, meta)
            else Moved(base, s[j], e, dn)
  {
    hide RewritesItself, Stamped, Moved, Key;
  }

  lemma ListsStamped(base: DN, s: Contents, t: Contents, dn: DN, e: Edit, j: Str)
    requires Key(dn) in s && j == Key(dn) && j in t && !RewritesItself(base, s[j], e)
    requires t[j].dn == s[j].dn && t[j].Get(MEMBER) == Kept(e) && t[j].Get(MEMBEROF) == []
    ensures ListsAt(base, s, t, dn, e, j)
  {
    hide RewritesItself, Kept, Key, DNString, Listed;
  }

  lemma ListsMoved(base: DN, s: Contents, t: Contents, dn: DN, e: Edit, j: Str)
    requires Key(dn) in s && j in s && j in t && (j == Key(dn) ==> RewritesItself(base, s[j], e))
    requires t[j].dn == s[j].dn && t[j].Get(MEMBER) == s[j].Get(MEMBER)
    requires forall v :: v in t[j].Get(MEMBEROF) <==> if v == DNString(dn) then Listed(base, s[j], e, dn)
            else v in s[j].Get(MEMBEROF)
    ensures ListsAt(base, s, t, dn, e, j)
  {
    hide RewritesItself, Kept, Key, DNString, Listed;
  }

  lemma ListsClosed(base: DN, s: Contents, t: Contents, dn: DN, e: Edit)
    requires Closed(s) && Key(dn) in s && s[Key(dn)].dn == dn && t.Keys == s.Keys
    requires forall j | j in s :: ListsAt(base, s, t, dn, e, j)
    requires forall v | v in Kept(e) :: Stored(s, v)
    ensures Closed(t)
  {
    hide RewritesItself, Listed, Kept, DNString, Key;
    assert Stored(s, DNString(dn)) by { assert Name(s[Key(dn)]) == DNString(dn); }
    forall v | Stored(s, v)
      ensures Stored(t, v)
    {
      var j :| j in s && Name(s[j]) == v;
      assert ListsAt(base, s, t, dn, e, j);
      assert Name(t[j]) == v;
    }
    forall j, v | j in t && (v in t[j].Get(MEMBER) || v in t[j].Get(MEMBEROF))
      ensures Stored(t, v)
    {
      assert ListsAt(base, s, t, dn, e, j);
      assert Stored(s, v);
    }
  }

  lemma EditInverseIff(base: DN, s: Contents, t: Contents, dn: DN, e: Edit)
    requires Sound(base, s) && Inverse(s) && Key(dn) in s && s[Key(dn)].dn == dn && t.Keys == s.Keys
    requires forall j | j in s :: ListsAt(base, s, t, dn, e, j)
    requires forall v | v in Kept(e) :: Stored(s, v)
    ensures Inverse(t) <==> Editable(base, s, dn, e)
  {
    hide RewritesItself, Listed, Kept, DNString, Key, ListsAt, Sound, Closed, Mutual, Editable;
    ListsClosed(base, s, t, dn, e);
    if Editable(base, s, dn, e) {
      EditableMutual(base, s, t, dn, e);
    } else if Mutual(t) {
      MutualEditable(base, s, t, dn, e);
    }
  }

  lemma NameOwn(base: DN, s: Contents, dn: DN, j: Str)
    requires Sound(base, s) && Key(dn) in s && s[Key(dn)].dn == dn && j in s
    ensures Name(s[j]) == DNString(dn) <==> j == Key(dn)
  {
    KeyClean(base, s, dn, j);
    NameTells(base, s, dn, j);
  }

  lemma EditableMutual(base: DN, s: Contents, t: Contents, dn: DN, e: Edit)
    requires Sound(base, s) && Mutual(s) && Key(dn) in s && s[Key(dn)].dn == dn && t.Keys == s.Keys
    requires forall j | j in s :: ListsAt(base, s, t, dn, e, j)
    requires Editable(base, s, dn, e)
    ensures Mutual(t)
  {
    hide RewritesItself, Listed, Kept, DNString, Key, Sound;
    forall g, m | g in t && m in t
      ensures Name(t[m]) in t[g].Get(MEMBER) <==> Name(t[g]) in t[m].Get(MEMBEROF)
    {
      assert ListsAt(base, s, t, dn, e, g) && ListsAt(base, s, t, dn, e, m);
      NameOwn(base, s, dn, g);
      NameOwn(base, s, dn, m);
      assert Name(s[m]) in s[g].Get(MEMBER) <==> Name(s[g]) in s[m].Get(MEMBEROF);
    }
  }

  lemma MutualEditable(base: DN, s: Contents, t: Contents, dn: DN, e: Edit)
    requires Sound(base, s) && Inverse(s) && Key(dn) in s && s[Key(dn)].dn == dn && t.Keys == s.Keys
    requires forall j | j in s :: ListsAt(base, s, t, dn, e, j)
    requires Mutual(t)
    ensures Editable(base, s, dn, e)
  {
    hide RewritesItself, Listed, Kept, DNString, Key, Sound, Closed;
    var k := Key(dn);
    NameOwn(base, s, dn, k);
    assert ListsAt(base, s, t, dn, e, k);
    forall j | j in s
      ensures Name(t[j]) in t[k].Get(MEMBER) <==> Name(t[k]) in t[j].Get(MEMBEROF)
      ensures ListsAt(base, s, t, dn, e, j)
    {
    }
    if !RewritesItself(base, s[k], e) {
      forall v | v in s[k].Get(MEMBEROF)
        ensures v == DNString(dn)
      {
        OnlyItself(base, s, t, dn, e, v);
      }
    }
  }

  /** A group other than itself would go on listing the entry. */
  lemma OnlyItself(base: DN, s: Contents, t: Contents, dn: DN, e: Edit, v: Str)
    requires Sound(base, s) && Inverse(s) && Key(dn) in s && s[Key(dn)].dn == dn && t.Keys == s.Keys
    requires forall j | j in s :: ListsAt(base, s, t, dn, e, j)
    requires Mutual(t) && !RewritesItself(base, s[Key(dn)], e) && v in s[Key(dn)].Get(MEMBEROF)
    ensures v == DNString(dn)
  {
    var k := Key(dn);
    ClosedAt(s, k, MEMBEROF);
    assert Stored(s, v);
    var g :| g in s && Name(s[g]) == v;
    NameOwn(base, s, dn, g);
    NameOwn(base, s, dn, k);
    assert ListsAt(base, s, t, dn, e, k) && ListsAt(base, s, t, dn, e, g);
    assert Name(s[k]) in s[g].Get(MEMBER) <==> Name(s[g]) in s[k].Get(MEMBEROF);
    assert Name(t[k]) in t[g].Get(MEMBER) <==> Name(t[g]) in t[k].Get(MEMBEROF);
    hide RewritesItself, Listed, Kept, DNString, Key, Sound, Closed, Mutual;
  }

  lemma ModifyRan(base: DN, s: Contents, allowed: bool, allowedAttrs: set<Str>, r: ModifyRequest, meta: Meta)
    ensures var d, parsed := ModifyChanges(s, base, allowed, allowedAttrs, r, meta), ParseUnder(base, r.entry, false);
            || (d.result.Fail? && d.store == s)
            || (&& parsed.Some? && Lookup(s, parsed.value).Some?
                && Modifies(base, Lookup(s, parsed.value).value, allowedAttrs, r.changes).Ok?
                && var e := Modifies(base, Lookup(s, parsed.value).value, allowedAttrs, r.changes).value;
                   (forall i | 0 <= i < |e.added| :: Lookup(s, e.added[i]).Some?)
                       && d == EditChanges(s, base, parsed.value, e, meta))
  {
    hide ParseUnder, Lookup, Modifies, EditChanges;
  }

  /**
   * A Modify that is refused changes nothing, one that passes its checks always completes, and it keeps
   * the relations inverse exactly when it may.
   */
  lemma ModifyKeepsInverse(base: DN, s: Contents, allowed: bool, allowedAttrs: set<Str>, r: ModifyRequest, meta: Meta)
    requires Tree(base, s) && Inverse(s)
    ensures var d := ModifyChanges(s, base, allowed, allowedAttrs, r, meta);
            && (d.result.Fail? ==> After(d) == s)
            && (d.result.Ok? ==>
                  var dn := ParseUnder(base, r.entry, false).value;
                  && Key(dn) in s && Modifies(base, s[Key(dn)], allowedAttrs, r.changes).Ok?
                  && (Inverse(After(d)) <==> Editable(base, s, dn,
                      Modifies(base, s[Key(dn)], allowedAttrs, r.changes).value)))
  {
    assert Sound(base, s) && Closed(s);
    ModifyRan(base, s, allowed, allowedAttrs, r, meta);
    hide ModifyChanges, Modifies, EditChanges, ParseUnder, Lookup, Tree, Inverse, Editable, Key, Sound, Closed,
         AllFound, ListsAt,
         ApplyChanges;
    var d, parsed := ModifyChanges(s, base, allowed, allowedAttrs, r, meta), ParseUnder(base, r.entry, false);
    if !(d.result.Fail? && d.store == s) {
      var dn := parsed.value;
      LookedUp(s, dn);
      EditIff(base, s, dn, allowedAttrs, r.changes, meta);
    }
  }

  lemma EditIff(base: DN, s: Contents, dn: DN, allowed: set<Str>, changes: seq<Modification>, meta: Meta)
    requires Sound(base, s) && Inverse(s) && Key(dn) in s && s[Key(dn)].dn == dn
    requires Modifies(base, s[Key(dn)], allowed, changes).Ok?
    requires var e := Modifies(base, s[Key(dn)], allowed, changes).value; forall i | 0 <= i < |e.added| ::
            Lookup(s, e.added[i]).Some?
    ensures var e := Modifies(base, s[Key(dn)], allowed, changes).value;
            var d := EditChanges(s, base, dn, e, meta);
            d.result.Ok? && (Inverse(After(d)) <==> Editable(base, s, dn, e))
  {
    var e := Modifies(base, s[Key(dn)], allowed, changes).value;
    hide *;
    InverseParts(s);
    FoundAll(s, e.added);
    ModifiesAccount(base, s[Key(dn)], allowed, changes);
    EditFound(base, s, Key(dn), e);
    KeptCurrent(s, s[Key(dn)], e);
    EditRuns(base, s, dn, e, meta);
    var t := After(EditChanges(s, base, dn, e, meta));
    forall j | j in s
      ensures ListsAt(base, s, t, dn, e, j)
    {
      ListsAtIs(base, s, t, dn, allowed, changes, meta, j);
    }
    EditInverseIff(base, s, t, dn, e);
  }

  lemma FoundAll(s: Contents, dns: seq<DN>)
    requires forall i | 0 <= i < |dns| :: Lookup(s, dns[i]).Some?
    ensures AllFound(s, dns)
  {
    hide Lookup;
  }

  lemma KeptCurrent(s: Contents, entry: Entry, e: Edit)
    requires forall v | v in Current(entry, e, MEMBER) :: Stored(s, v)
    ensures forall v | v in Kept(e) :: Stored(s, v)
  {
    hide Stored;
  }

  /******* Runs *******/

  /** What keeps the relations inverse, request by request. */
  ghost predicate Harmless(base: DN, s: Contents, r: Request) {
    match r
    case Initialize(_, _, _) =>
      Lookup(s, base).None? && base != [] ==> AttributeKey(base[0].typ) !in [MEMBER, MEMBEROF]
    case AddEntry(allowed, add, meta) =>
      AddChanges(s, base, allowed, add, meta).result.Ok? ==>
        var dn := ParseUnder(base, add.entry, false);
        dn.Some? && dn.value != [] && AttributeKey(dn.value[0].typ) !in [MEMBER, MEMBEROF]
    case DelEntry(allowed, raw) =>
      DelChanges(s, base, allowed, raw).result.Ok? ==>
        var dn := ParseUnder(base, raw, false);
        dn.Some? && Key(dn.value) in s && Removable(base, s, dn.value)
    case ModifyEntry(allowed, attrs, edit, meta) =>
      ModifyChanges(s, base, allowed, attrs, edit, meta).result.Ok? ==>
        var dn := ParseUnder(base, edit.entry, false);
        && dn.Some? && Key(dn.value) in s
        && var e := Modifies(base, s[Key(dn.value)], attrs, edit.changes);
           e.Ok? && Editable(base, s, dn.value, e.value)
  }

  lemma InitialLists(base: DN, classes: seq<Str>, structural: Str, meta: Meta)
    requires base != [] && AttributeKey(base[0].typ) !in [MEMBER, MEMBEROF]
    ensures var e := InitialEntry(base, classes, structural, meta);
            e.dn == base && e.Get(MEMBER) == Strings([]) && e.Get(MEMBEROF) == []
  {
    hide AttributeKey, DNString;
    assert Strings([]) == [];
  }

  /** Storing the base entry. */
  lemma BaseInverse(base: DN, s: Contents, classes: seq<Str>, structural: Str, meta: Meta)
    requires Tree(base, s) && Inverse(s) && Clean(base) && Lookup(s, base).None?
    ensures base != []
    ensures Inverse(ApplyChanges(s, [Put(InitialEntry(base, classes, structural, meta))]))
            <==> AttributeKey(base[0].typ) !in [MEMBER, MEMBEROF]
  {
    var e := InitialEntry(base, classes, structural, meta);
    LookupByKey(base, s, base);
    CleanNonEmpty(base);
    InitialSound(base, classes, structural, meta);
    hide Key, Clean, Lookup, ApplyChanges, AttributeKey, Sound, Rooted, Inverse, Added, InitialEntry, MembershipAdds;
    assert Closed(s) by { InverseParts(s); }
    AddLeaves(base, s, e, []);
    NothingAdded(s, base);
    assert [Put(e)] + [] == [Put(e)];
    var t := ApplyChanges(s, [Put(e)]);
    if AttributeKey(base[0].typ) !in [MEMBER, MEMBEROF] {
      InitialLists(base, classes, structural, meta);
      AddedInverse(base, s, t, e, []);
    } else if Inverse(t) {
      InverseParts(t);
      GrowsTree(base, s, e, []);
      AddedKeys(s, t, e, []);
      RdnOther(base, t, Key(base));
    }
  }

  lemma InverseParts(s: Contents)
    ensures Inverse(s) <==> Closed(s) && Mutual(s)
  {
  }

  lemma ServeInverseIff(base: DN, s: Contents, r: Request)
    requires Tree(base, s) && Inverse(s) && Clean(base) && (r.AddEntry? ==> SLASH !in r.add.entry)
    ensures Inverse(Serve(s, base, r)) <==> Harmless(base, s, r)
  {
    hide Tree, Inverse, Clean, AddChanges, DelChanges, ModifyChanges, Modifies, Editable, Removable, AttributeKey,
         ParseUnder,
         ApplyChanges, InitialEntry, Lookup, After, Refused, Atomic, Key;
    match r
    case Initialize(classes, structural, meta) =>
      Unchanged(s);
      if Lookup(s, base).None? { BaseInverse(base, s, classes, structural, meta); }
    case AddEntry(allowed, add, meta) =>
      AddKeepsInverse(base, s, allowed, add, meta);
      AddCompletes(base, s, allowed, add, meta);
      AtomicSame(s, AddChanges(s, base, allowed, add, meta));
      AddParses(base, s, allowed, add, meta);
    case DelEntry(allowed, raw) =>
      DelKeepsInverse(base, s, allowed, raw);
      if DelChanges(s, base, allowed, raw).result.Fail? { AfterRefusal(s, DelChanges(s, base, allowed, raw)); }
      DelParses(base, s, allowed, raw);
    case ModifyEntry(allowed, attrs, edit, meta) =>
      ModifyKeepsInverse(base, s, allowed, attrs, edit, meta);
      ModifyParses(base, s, allowed, attrs, edit, meta);
  }

  lemma Unchanged(s: Contents)
    ensures ApplyChanges(s, []) == s
  {
  }

  lemma AtomicSame(s: Contents, e: Effect)
    requires Atomic(s, e)
    ensures e.result.Fail? ==> After(e) == s
  {
  }

  lemma AddParses(base: DN, s: Contents, allowed: bool, r: AddRequest, meta: Meta)
    ensures AddChanges(s, base, allowed, r, meta).result.Ok? ==> ParseUnder(base, r.entry, false).Some?
  {
    hide ParseUnder;
  }

  lemma DelParses(base: DN, s: Contents, allowed: bool, raw: Str)
    ensures DelChanges(s, base, allowed, raw).result.Ok? ==> ParseUnder(base, raw, false).Some?
  {
    hide ParseUnder;
  }

  lemma ModifyParses(base: DN, s: Contents, allowed: bool, allowedAttrs: set<Str>, r: ModifyRequest, meta: Meta)
    ensures ModifyChanges(s, base, allowed, allowedAttrs, r, meta).result.Ok? ==> ParseUnder(base, r.entry, false).Some?
  {
    hide ParseUnder;
  }

  lemma RunStep(base: DN, rs: seq<Request>)
    requires rs != []
    ensures Run(base, rs) == Serve(Run(base, rs[..|rs| - 1]), base, rs[|rs| - 1])
  {
  }

  ghost predicate InverseAfter(base: DN, rs: seq<Request>, i: nat)
    requires i <= |rs|
  {
    Inverse(Run(base, rs[..i]))
  }

  /** The relations are inverse after each request. */
  ghost predicate StaysInverse(base: DN, rs: seq<Request>) {
    forall i | 0 <= i <= |rs| :: InverseAfter(base, rs, i)
  }

  /** Every request is harmless where it is served. */
  ghost predicate AllHarmless(base: DN, rs: seq<Request>) {
    forall i | 0 <= i < |rs| :: Harmless(base, Run(base, rs[..i]), rs[i])
  }

  lemma SameAfter(base: DN, rs: seq<Request>, i: nat)
    requires i < |rs|
    ensures InverseAfter(base, rs[..|rs| - 1], i) <==> InverseAfter(base, rs, i)
  {
    assert rs[..|rs| - 1][..i] == rs[..i];
    hide Run, Inverse;
  }

  lemma AfterAll(base: DN, rs: seq<Request>)
    ensures InverseAfter(base, rs, |rs|) <==> Inverse(Run(base, rs))
  {
    assert rs[..|rs|] == rs;
    hide Run, Inverse;
  }

  lemma StaysSnoc(base: DN, rs: seq<Request>)
    requires rs != []
    ensures StaysInverse(base, rs) <==> StaysInverse(base, rs[..|rs| - 1]) && Inverse(Run(base, rs))
    ensures StaysInverse(base, rs[..|rs| - 1]) ==> Inverse(Run(base, rs[..|rs| - 1]))
  {
    hide Run, Inverse, InverseAfter;
    var front := rs[..|rs| - 1];
    AfterAll(base, rs);
    AfterAll(base, front);
    if StaysInverse(base, rs) {
      forall i | 0 <= i <= |front|
        ensures InverseAfter(base, front, i)
      {
        SameAfter(base, rs, i);
        assert InverseAfter(base, rs, i);
      }
      assert InverseAfter(base, rs, |rs|);
    }
    if StaysInverse(base, front) && Inverse(Run(base, rs)) {
      forall i | 0 <= i <= |rs|
        ensures InverseAfter(base, rs, i)
      {
        if i < |rs| { SameAfter(base, rs, i); }
      }
    }
    assert StaysInverse(base, front) ==> InverseAfter(base, front, |front|);
  }

  lemma HarmlessSnoc(base: DN, rs: seq<Request>)
    requires rs != []
    ensures AllHarmless(base, rs)
            <==> AllHarmless(base, rs[..|rs| - 1]) && Harmless(base, Run(base, rs[..|rs| - 1]), rs[|rs| - 1])
  {
    hide Run, Harmless;
    var n := |rs| - 1;
    assert forall i | 0 <= i < n :: rs[..n][..i] == rs[..i] && rs[..n][i] == rs[i];
  }

  /**
   * Over every run of requests of all kinds from an empty store, the relations are inverse after each
   * request exactly when every request is harmless where it is served.
   */
  lemma {:induction false} RunsInverseIff(base: DN, rs: seq<Request>)
    requires Clean(base) && forall i | 0 <= i < |rs| && rs[i].AddEntry? :: SLASH !in rs[i].add.entry
    ensures StaysInverse(base, rs) <==> AllHarmless(base, rs)
  {
    if rs == [] {
      EmptyInverse(base, rs);
    } else {
      hide Run, Clean, Inverse, Harmless, Tree, Serve, StaysInverse, AllHarmless;
      var n := |rs| - 1;
      RunsInverseIff(base, rs[..n]);
      StaysSnoc(base, rs);
      HarmlessSnoc(base, rs);
      RunsKeepTree(base, rs[..n]);
      RunStep(base, rs);
      if Inverse(Run(base, rs[..n])) { ServeInverseIff(base, Run(base, rs[..n]), rs[n]); }
    }
  }

  lemma EmptyInverse(base: DN, rs: seq<Request>)
    requires rs == []
    ensures StaysInverse(base, rs) && AllHarmless(base, rs)
  {
    assert Run(base, rs) == map[] && Inverse(map[]);
    AfterAll(base, rs);
    hide Harmless, Inverse, Run, InverseAfter;
  }
}

/** The stored names form a tree: every entry but the base has its parent stored, over every run. */
module DirectoryTree {
  import opened Wrappers
  import opened BerInteger
  import opened Text
  import opened Names
  import opened DirectoryStore
  import opened Directory

  /******* What a list of changes comes to *******/

  function LastChange(cs: seq<Change>, k: Str): Option<Change> {
    if cs == [] then None
    else if Touched(cs[|cs| - 1]) == k then Some(cs[|cs| - 1])
    else LastChange(cs[..|cs| - 1], k)
  }

  /** The last change of a key decides. */
  lemma {:induction false} AppliedAt(s: Contents, cs: seq<Change>, k: Str)
    ensures var t, last := ApplyChanges(s, cs), LastChange(cs, k);
            if last.None? then (k in t <==> k in s) && (k in s ==> t[k] == s[k])
            else if last.value.Put? then k in t && t[k] == last.value.entry
            else k !in t
  {
    if cs != [] { AppliedAt(s, cs[..|cs| - 1], k); }
  }

  lemma {:induction false} LastChangeAppend(a: seq<Change>, b: seq<Change>, k: Str)
    ensures LastChange(a + b, k) == if LastChange(b, k).Some? then LastChange(b, k) else LastChange(a, k)
  {
    if b == [] {
      assert a + b == a;
    } else {
      assert (a + b)[..|a + b| - 1] == a + b[..|b| - 1];
      LastChangeAppend(a, b[..|b| - 1], k);
    }
  }

  lemma {:induction false} LastChangeIn(cs: seq<Change>, k: Str)
    ensures LastChange(cs, k).Some? ==> LastChange(cs, k).value in cs && Touched(LastChange(cs, k).value) == k
    ensures LastChange(cs, k).None? ==> forall c | c in cs :: Touched(c) != k
  {
    if cs != [] {
      LastChangeIn(cs[..|cs| - 1], k);
      assert cs == cs[..|cs| - 1] + [cs[|cs| - 1]];
    }
  }

  /******* Updates of stored entries *******/

  /**
   * An entry holds the value it is named by. Edits in place of a membership attribute that names the
   * entry may add further values to it.
   */
  predicate HoldsName(e: Entry) {
    && e.dn != [] && e.dn[0].value in e.Get(AttributeKey(e.dn[0].typ))
    && (AttributeKey(e.dn[0].typ) !in [MEMBER, MEMBEROF] ==> e.Get(AttributeKey(e.dn[0].typ)) == [e.dn[0].value])
  }

  /** A change that writes an entry that was stored, under its own name. */
  predicate Updates(s: Contents, c: Change) {
    c.Put? && (c.entry.dn != [] ==> HoldsName(c.entry)) && KeyOf(c.entry) in s && s[KeyOf(c.entry)].dn == c.entry.dn
  }

  predicate AllUpdate(s: Contents, cs: seq<Change>) {
    forall c | c in cs :: Updates(s, c)
  }

  lemma LookedUp(s: Contents, dn: DN)
    ensures Lookup(s, dn).Some? <==> dn != [] && Key(dn) in s && s[Key(dn)].dn == dn
    ensures Lookup(s, dn).Some? ==> Lookup(s, dn).value == s[Key(dn)]
  {
    if Key(dn) in s { ReverseInjective(s[Key(dn)].dn, dn); }
    assert Reverse(dn) == [] <==> dn == [];
  }

  /** An edit in place leaves the entry its name. */
  ghost predicate SameName(e: Entry, f: Entry) {
    f.dn == e.dn && (Clean(e.dn) && HoldsName(e) ==> HoldsName(f))
  }

  /** The same entries are stored, with attributes of their own. */
  ghost predicate SameNames(s: Contents, t: Contents) {
    forall k :: (k in s <==> k in t) && (k in s ==> SameName(s[k], t[k]))
  }

  /** Edits in place and logged changes are of stored entries only. */
  ghost predicate Edits(s: Contents, e: Effect) {
    SameNames(s, e.store) && (e.result.Ok? ==> AllUpdate(s, e.result.value))
  }

  lemma RewriteEdits(s: Contents, entity: Entry, attr: Str, vals: seq<Str>)
    requires KeyOf(entity) in s && s[KeyOf(entity)] == entity && SameName(entity, With(entity, attr, vals))
    ensures Edits(s, Rewrite(s, entity, attr, vals))
  {
    var edited := With(entity, attr, vals);
    NewEntryHolds(edited.dn, edited.attributes);
    hide HoldsName, Clean, NewEntry;
  }

  lemma NewEntryHolds(dn: DN, attributes: Attributes)
    ensures NewEntry(dn, attributes).dn == dn && (dn != [] ==> HoldsName(NewEntry(dn, attributes)))
  {
  }

  lemma JoinKeepsName(entity: Entry, attr: Str, group: Str)
    requires attr in [MEMBER, MEMBEROF]
    ensures SameName(entity, With(entity, attr, entity.Get(attr) + [group]))
  {
  }

  lemma {:induction false} WithoutParses(base: DN, vals: seq<Str>, group: DN, v: Str)
    requires Without(base, vals, group).Some? && v in vals
    ensures ParseUnder(base, v, false).Some?
  {
    hide ParseUnder;
    var n := |vals| - 1;
    assert vals == vals[..n] + [vals[n]];
    if v != vals[n] { WithoutParses(base, vals[..n], group, v); }
  }

  lemma ParsedHasEquals(base: DN, v: Str)
    requires ParseUnder(base, v, false).Some?
    ensures EQUALS in v
  {
    var piece := Split(v, COMMA)[0];
    SplitPieces(v, COMMA, EQUALS);
    if EQUALS !in piece { SplitNone(piece, EQUALS); }
  }

  /** A value an entry is named by is no name, so `membershipRemove` does not get past it. */
  lemma LeaveKeepsName(base: DN, entity: Entry, attr: Str, group: DN)
    requires attr in [MEMBER, MEMBEROF] && Without(base, entity.Get(attr), group).Some?
    ensures SameName(entity, With(entity, attr, Without(base, entity.Get(attr), group).value))
  {
    if Clean(entity.dn) && HoldsName(entity) && AttributeKey(entity.dn[0].typ) == attr {
      assert Canonical(entity.dn[0]);
      hide Without, ParseUnder, Clean, AttributeKey;
      WithoutParses(base, entity.Get(attr), group, entity.dn[0].value);
      ParsedHasEquals(base, entity.dn[0].value);
    }
  }

  lemma NothingEdited(s: Contents, r: Result<seq<Change>>)
    requires r.Ok? ==> r.value == []
    ensures Edits(s, Effect(s, r))
  {
    hide HoldsName, Clean;
  }

  lemma ThenEdits(s: Contents, front: Effect, second: Effect, f: Failure)
    requires front.result.Ok? && Edits(s, front) && Edits(front.store, second)
    ensures Edits(s, Then(front.result.value, second, f))
  {
    hide KeyOf, HoldsName, Clean;
  }

  lemma AddEdits(s: Contents, attr: Str, member: DN, group: DN)
    requires attr in [MEMBER, MEMBEROF]
    ensures Edits(s, MembershipAdd(s, attr, member, group))
  {
    LookedUp(s, member);
    hide Key, Lookup, Edits, Rewrite, SameName, Without;
    NothingEdited(s, Ok([]));
    NothingEdited(s, Fail(NoSuchObject));
    if Lookup(s, member).Some? {
      var entity := Lookup(s, member).value;
      JoinKeepsName(entity, attr, DNString(group));
      RewriteEdits(s, entity, attr, entity.Get(attr) + [DNString(group)]);
    }
  }

  lemma RemoveEdits(s: Contents, base: DN, attr: Str, member: DN, group: DN)
    requires attr in [MEMBER, MEMBEROF]
    ensures Edits(s, MembershipRemove(s, base, attr, member, group))
  {
    LookedUp(s, member);
    hide Key, Lookup, Edits, Rewrite, Without, SameName;
    NothingEdited(s, Ok([]));
    NothingEdited(s, Fail(NoSuchObject));
    NothingEdited(s, Fail(InvalidDNSyntax));
    if Lookup(s, member).Some? && Without(base, Lookup(s, member).value.Get(attr), group).Some? {
      var entity := Lookup(s, member).value;
      LeaveKeepsName(base, entity, attr, group);
      RewriteEdits(s, entity, attr, Without(base, entity.Get(attr), group).value);
    }
  }

  lemma {:induction false} AddsEdit(s: Contents, attr: Str, members: seq<DN>, group: DN)
    requires attr in [MEMBER, MEMBEROF]
    ensures Edits(s, MembershipAdds(s, attr, members, group))
  {
    hide MembershipAdd, Edits, Then;
    NothingEdited(s, Ok([]));
    if members != [] {
      var front := MembershipAdds(s, attr, members[..|members| - 1], group);
      AddsEdit(s, attr, members[..|members| - 1], group);
      AddEdits(front.store, attr, members[|members| - 1], group);
      if front.result.Ok? {
        ThenEdits(s, front, MembershipAdd(front.store, attr, members[|members| - 1], group), OperationsError);
      }
    }
  }

  lemma {:induction false} RemovesEdit(s: Contents, base: DN, attr: Str, members: seq<DN>, group: DN)
    requires attr in [MEMBER, MEMBEROF]
    ensures Edits(s, MembershipRemoves(s, base, attr, members, group))
  {
    hide MembershipRemove, Edits, Then;
    NothingEdited(s, Ok([]));
    if members != [] {
      var front := MembershipRemoves(s, base, attr, members[..|members| - 1], group);
      RemovesEdit(s, base, attr, members[..|members| - 1], group);
      RemoveEdits(front.store, base, attr, members[|members| - 1], group);
      if front.result.Ok? {
        ThenEdits(s, front, MembershipRemove(front.store, base, attr, members[|members| - 1], group), OperationsError);
      }
    }
  }

  lemma {:induction false} RawRemovesEdit(s: Contents, base: DN, attr: Str, raws: seq<Str>, group: DN)
    requires attr in [MEMBER, MEMBEROF]
    ensures Edits(s, RawRemoves(s, base, attr, raws, group))
  {
    hide MembershipRemove, Edits, Then, ParseUnder;
    NothingEdited(s, Ok([]));
    if raws != [] {
      var front := RawRemoves(s, base, attr, raws[..|raws| - 1], group);
      RawRemovesEdit(s, base, attr, raws[..|raws| - 1], group);
      if front.result.Ok? {
        var member := ParseUnder(base, raws[|raws| - 1], false);
        if member.Some? {
          RemoveEdits(front.store, base, attr, member.value, group);
          ThenEdits(s, front, MembershipRemove(front.store, base, attr, member.value, group), OperationsError);
        } else {
          StoreEdited(s, front);
        }
      }
    }
  }

  lemma StoreEdited(s: Contents, e: Effect)
    requires Edits(s, e)
    ensures Edits(s, Effect(e.store, Fail(InvalidDNSyntax)))
  {
  }

  /******* The tree *******/

  ghost predicate SoundEntry(base: DN, e: Entry) {
    Clean(e.dn) && Under(e.dn, base) && HoldsName(e)
  }

  ghost predicate Sound(base: DN, s: Contents) {
    forall k | k in s :: SoundEntry(base, s[k])
  }

  /** Every entry is the base or has its parent stored. */
  ghost predicate Rooted(base: DN, s: Contents) {
    forall k | k in s && s[k].dn != base :: s[k].dn != [] && Key(s[k].dn[1..]) in s
  }

  ghost predicate Tree(base: DN, s: Contents) {
    Sound(base, s) && Rooted(base, s)
  }

  /** The tree is a matter of the names alone. */
  lemma SameNamesTree(base: DN, s: Contents, t: Contents)
    requires Tree(base, s) && SameNames(s, t)
    ensures Tree(base, t)
  {
    hide Clean, Under, Key, HoldsName;
    forall k | k in t
      ensures SoundEntry(base, t[k])
    {
      assert SoundEntry(base, s[k]);
    }
  }

  lemma SameNamesAgain(s: Contents, t: Contents, u: Contents)
    requires SameNames(s, t) && SameNames(t, u)
    ensures SameNames(s, u)
  {
    hide HoldsName, Clean;
  }

  /** Updates are updates whatever the attributes. */
  lemma SameNamesUpdate(s: Contents, t: Contents, cs: seq<Change>)
    requires SameNames(s, t)
    ensures AllUpdate(s, cs) <==> AllUpdate(t, cs)
  {
    hide KeyOf, HoldsName, Clean;
  }

  /** With clean names stored and asked for, a lookup goes by the key alone. */
  lemma LookupByKey(base: DN, s: Contents, dn: DN)
    requires Sound(base, s) && Clean(dn)
    ensures Lookup(s, dn).Some? <==> Key(dn) in s
  {
    LookedUp(s, dn);
    if Key(dn) in s {
      assert SoundEntry(base, s[Key(dn)]);
      StringsTellApart(s[Key(dn)].dn, dn);
    }
  }

  /** One key after a first change that stores or drops an entry, and then updates. */
  lemma ShapeAt(base: DN, s: Contents, first: Change, updates: seq<Change>, k: Str)
    requires Sound(base, s) && AllUpdate(s, updates)
    requires first.Put? ==> SoundEntry(base, first.entry)
    ensures var t, touched := ApplyChanges(s, [first] + updates), k == Touched(first);
            && (k in t ==> SoundEntry(base, t[k]))
            && (k in t ==> k in s || (touched && first.Put?))
            && (k in s && k !in t ==> touched && first.Drop?)
            && (touched && first.Put? ==> k in t)
            && (k in t && k in s && !(touched && first.Put?) ==> t[k].dn == s[k].dn)
  {
    AppliedAt(s, [first] + updates, k);
    LastChangeAppend([first], updates, k);
    LastChangeIn(updates, k);
    assert LastChange([first], k) == if Touched(first) == k then Some(first) else None;
    hide ApplyChanges, LastChange, Clean, Under, Key, HoldsName;
    if LastChange(updates, k).Some? {
      var c := LastChange(updates, k).value;
      assert Updates(s, c);
      UpdateSound(base, s, c);
    } else if k in s {
      assert SoundEntry(base, s[k]);
    }
  }

  lemma UpdateSound(base: DN, s: Contents, c: Change)
    requires Sound(base, s) && Updates(s, c)
    ensures SoundEntry(base, c.entry)
  {
    assert SoundEntry(base, s[KeyOf(c.entry)]);
  }

  lemma SoundNonEmpty(base: DN, e: Entry)
    requires SoundEntry(base, e)
    ensures e.dn != []
  {
  }

  lemma OneName(base: DN, a: Entry, b: Entry)
    requires SoundEntry(base, a) && SoundEntry(base, b) && KeyOf(a) == KeyOf(b)
    ensures a.dn == b.dn
  {
    StringsTellApart(a.dn, b.dn);
  }

  lemma GrowsTree(base: DN, s: Contents, e: Entry, updates: seq<Change>)
    requires Tree(base, s) && AllUpdate(s, updates) && SoundEntry(base, e)
    requires e.dn == base || Key(e.dn[1..]) in s
    ensures Tree(base, ApplyChanges(s, [Put(e)] + updates))
  {
    hide ApplyChanges, AllUpdate, SoundEntry, Key;
    var t := ApplyChanges(s, [Put(e)] + updates);
    forall k | k in t
      ensures SoundEntry(base, t[k])
      ensures t[k].dn != base ==> t[k].dn != [] && Key(t[k].dn[1..]) in t
    {
      ShapeAt(base, s, Put(e), updates, k);
      SoundNonEmpty(base, t[k]);
      if k == KeyOf(e) { OneName(base, t[k], e); }
      if t[k].dn != base { ShapeAt(base, s, Put(e), updates, Key(t[k].dn[1..])); }
    }
  }

  lemma PrunesTree(base: DN, s: Contents, dn: DN, updates: seq<Change>)
    requires Tree(base, s) && AllUpdate(s, updates)
    requires forall k | k in s && s[k].dn != [] && s[k].dn != base :: Key(s[k].dn[1..]) != Key(dn)
    ensures Tree(base, ApplyChanges(s, [Drop(dn)] + updates))
  {
    hide ApplyChanges, AllUpdate, SoundEntry, Key;
    var t := ApplyChanges(s, [Drop(dn)] + updates);
    forall k | k in t
      ensures SoundEntry(base, t[k])
      ensures t[k].dn != base ==> t[k].dn != [] && Key(t[k].dn[1..]) in t
    {
      ShapeAt(base, s, Drop(dn), updates, k);
      SoundNonEmpty(base, t[k]);
      if t[k].dn != base { ShapeAt(base, s, Drop(dn), updates, Key(t[k].dn[1..])); }
    }
  }

  /******* Each operation *******/

  lemma ParsedClean(base: DN, raw: Str)
    requires ParseUnder(base, raw, false).Some?
    ensures var dn := ParseUnder(base, raw, false).value;
            && Under(dn, base) && dn != [] && AllCanonical(dn) && AllFree(dn, COMMA)
            && (SLASH !in raw ==> Clean(dn))
  {
    ParsedCanonical(raw, COMMA);
  }

  lemma AddKeepsTree(base: DN, s: Contents, allowed: bool, r: AddRequest, meta: Meta)
    requires Tree(base, s) && SLASH !in r.entry
    ensures Tree(base, After(AddChanges(s, base, allowed, r, meta)))
  {
    hide Lookup, Tree, ParseUnder, Drafted, MembershipAdds, NewEntry, WithSystem, AllUpdate, SameNames, Key;
    if ParseUnder(base, r.entry, false).Some? && Drafted(s, base, r.attributes).Ok? {
      var dn := ParseUnder(base, r.entry, false).value;
      var d := Drafted(s, base, r.attributes).value;
      ParsedClean(base, r.entry);
      LookedUp(s, dn[1..]);
      AddsEdit(s, MEMBEROF, d.members, dn);
      var adds := MembershipAdds(s, MEMBEROF, d.members, dn);
      SameNamesTree(base, s, adds.store);
      var e := NewEntry(dn, WithSystem(d.attributes, meta));
      NewEntrySound(base, dn, WithSystem(d.attributes, meta));
      if adds.result.Ok? && Lookup(s, dn[1..]).Some? {
        SameNamesUpdate(s, adds.store, adds.result.value);
        SameKey(s, adds.store, Key(dn[1..]));
        GrowsTree(base, adds.store, e, adds.result.value);
      }
    }
  }

  lemma SameKey(s: Contents, t: Contents, k: Str)
    requires SameNames(s, t)
    ensures k in s <==> k in t
    ensures k in s ==> t[k].dn == s[k].dn
  {
  }

  lemma NewEntrySound(base: DN, dn: DN, attributes: Attributes)
    requires Clean(dn) && Under(dn, base)
    ensures NewEntry(dn, attributes).dn == dn && SoundEntry(base, NewEntry(dn, attributes))
  {
  }

  /** One of the checks of `Del` has answered, and nothing is changed. */
  ghost predicate Refused(s: Contents, d: Effect) {
    && d.store == s && d.result.Fail?
    && d.result.failure in [InvalidDNSyntax, InsufficientAccessRights, NoSuchObject, NotAllowedOnNonLeaf]
  }

  /** The transaction runs, for an entry that is stored and has nothing below it. */
  ghost predicate Runs(base: DN, s: Contents, parsed: Option<DN>, d: Effect) {
    && parsed.Some? && Clean(parsed.value) && Key(parsed.value) in s && Leaf(s, parsed.value)
    && d == Removal(base, s, parsed.value)
  }

  /** A Del is refused by one of its checks, or runs the transaction for an entry that is stored. */
  lemma DelIs(base: DN, s: Contents, allowed: bool, raw: Str)
    requires Sound(base, s)
    ensures var d, parsed := DelChanges(s, base, allowed, raw), ParseUnder(base, raw, false);
            Refused(s, d) || Runs(base, s, parsed, d)
  {
    hide *;
    DelBranches(base, s, allowed, raw);
    if ParseUnder(base, raw, false).Some? && Alone(s, ParseUnder(base, raw, false).value) {
      var dn := ParseUnder(base, raw, false).value;
      ParsedClean(base, raw);
      OnlyOwn(base, s, dn);
      if DelChanges(s, base, allowed, raw) == Removal(base, s, dn) { RunsIs(base, s, dn); }
    }
  }

  /** The scan below the name meets entries, and all of them have the name. */
  ghost predicate Alone(s: Contents, dn: DN) {
    && (exists k :: k in s && Scanned(Reverse(dn), k))
    && forall k | k in s && Scanned(Reverse(dn), k) :: s[k].dn == dn
  }

  lemma DelBranches(base: DN, s: Contents, allowed: bool, raw: Str)
    ensures var d, parsed := DelChanges(s, base, allowed, raw), ParseUnder(base, raw, false);
            || Refused(s, d)
            || (parsed.Some? && Alone(s, parsed.value) && Key(parsed.value) in s && d == Removal(base, s, parsed.value))
  {
    var d, parsed := DelChanges(s, base, allowed, raw), ParseUnder(base, raw, false);
    hide ParseUnder, Scanned, Removal, Reverse;
    if parsed.Some? && allowed && Alone(s, parsed.value) {
      var k :| k in s && Scanned(Reverse(parsed.value), k);
      assert KeyOf(s[k]) == k;
    }
    hide Key;
  }

  lemma RunsIs(base: DN, s: Contents, dn: DN)
    requires Clean(dn) && Key(dn) in s && Leaf(s, dn)
    ensures Runs(base, s, Some(dn), Removal(base, s, dn))
  {
  }

  lemma OnlyOwn(base: DN, s: Contents, dn: DN)
    requires Sound(base, s) && dn != [] && Alone(s, dn)
    ensures Clean(dn) && Key(dn) in s && Leaf(s, dn)
  {
    var k :| k in s && Scanned(Reverse(dn), k);
    assert SoundEntry(base, s[k]) && KeyOf(s[k]) == k;
    SoundClean(base, s[k]);
    hide Key, Scanned, Clean, Under;
    forall j | j in s && Under(s[j].dn, dn)
      ensures s[j].dn == dn
    {
      SoundClean(base, s[j]);
      ScanCovers(dn, s[j].dn);
      assert KeyOf(s[j]) == j;
    }
  }

  lemma SoundClean(base: DN, e: Entry)
    requires SoundEntry(base, e)
    ensures AllCanonical(e.dn) && AllFree(e.dn, SLASH)
  {
  }

  /** Nothing below the name is stored. */
  ghost predicate Leaf(s: Contents, dn: DN) {
    forall k | k in s && Under(s[k].dn, dn) :: s[k].dn == dn
  }

  /** What the leaf check of `Del` lets through: the entry is stored, and nothing below it is. */
  lemma DelTakesLeaves(base: DN, s: Contents, allowed: bool, raw: Str)
    requires Tree(base, s)
    ensures DelChanges(s, base, allowed, raw).result.Ok? ==>
              var dn := ParseUnder(base, raw, false).value;
              Lookup(s, dn).Some? && Clean(dn) && Leaf(s, dn)
  {
    assert Sound(base, s);
    hide *;
    DelIs(base, s, allowed, raw);
    var d, parsed := DelChanges(s, base, allowed, raw), ParseUnder(base, raw, false);
    if Runs(base, s, parsed, d) {
      RunsOn(base, s, parsed, d);
      LookupByKey(base, s, parsed.value);
    } else {
      AfterRefusal(s, d);
    }
  }

  lemma ParentUnder(dn: DN)
    requires dn != []
    ensures Under(dn, dn[1..]) && dn[1..] != dn
  {
    UnderSuffix(dn, dn[1..]);
  }

  lemma Whole(dn: DN)
    ensures dn[0..] == dn
  {
  }

  lemma CleanParent(base: DN, dn: DN)
    requires Clean(dn) && Under(dn, base) && dn != base && base != []
    ensures Clean(dn[1..])
  {
    UnderSuffix(dn, base);
    Whole(dn);
    assert forall i | 0 <= i < |dn[1..]| :: dn[1..][i] == dn[i + 1];
  }

  lemma DelKeepsTree(base: DN, s: Contents, allowed: bool, raw: Str)
    requires Tree(base, s) && base != []
    ensures Tree(base, After(DelChanges(s, base, allowed, raw)))
  {
    assert Sound(base, s);
    hide *;
    DelIs(base, s, allowed, raw);
    var d, parsed := DelChanges(s, base, allowed, raw), ParseUnder(base, raw, false);
    if Runs(base, s, parsed, d) {
      RunsOn(base, s, parsed, d);
      RemovalKeepsTree(base, s, parsed.value);
    } else {
      AfterRefusal(s, d);
    }
  }

  lemma AfterRefusal(s: Contents, d: Effect)
    requires Refused(s, d)
    ensures After(d) == s && d.result.Fail?
  {
  }

  lemma RunsOn(base: DN, s: Contents, parsed: Option<DN>, d: Effect)
    requires Runs(base, s, parsed, d)
    ensures parsed.Some? && Clean(parsed.value) && Key(parsed.value) in s && Leaf(s, parsed.value)
    ensures d == Removal(base, s, parsed.value)
  {
  }

  lemma RemovalEdits(base: DN, s: Contents, dn: DN)
    requires Key(dn) in s
    ensures var e := Removal(base, s, dn);
            && SameNames(s, e.store)
            && (e.result.Ok? ==> exists cs :: AllUpdate(s, cs) && e.result.value == [Drop(dn)] + cs)
  {
    hide RawRemoves, AllUpdate, KeyOf, SameNames;
    var entry := s[Key(dn)];
    var groups := RawRemoves(s, base, MEMBER, entry.Get(MEMBEROF), dn);
    RawRemovesEdit(s, base, MEMBER, entry.Get(MEMBEROF), dn);
    if groups.result.Ok? {
      var members := RawRemoves(groups.store, base, MEMBEROF, entry.Get(MEMBER), dn);
      RawRemovesEdit(groups.store, base, MEMBEROF, entry.Get(MEMBER), dn);
      SameNamesAgain(s, groups.store, members.store);
      if members.result.Ok? {
        SameNamesUpdate(s, groups.store, members.result.value);
        Concatenated(s, groups.result.value, members.result.value);
        assert Removal(base, s, dn).result.value == [Drop(dn)] + (groups.result.value + members.result.value);
      }
    }
  }

  lemma RemovalKeepsTree(base: DN, s: Contents, dn: DN)
    requires Tree(base, s) && base != [] && Clean(dn) && Key(dn) in s && Leaf(s, dn)
    ensures Tree(base, After(Removal(base, s, dn)))
  {
    hide Removal, AllUpdate, Key, Under, Clean, ApplyChanges, SameNames, Tree, Leaf;
    RemovalEdits(base, s, dn);
    var e := Removal(base, s, dn);
    SameNamesTree(base, s, e.store);
    if e.result.Ok? {
      var cs :| AllUpdate(s, cs) && e.result.value == [Drop(dn)] + cs;
      SameNamesUpdate(s, e.store, cs);
      LeafNoParent(base, s, e.store, dn);
      PrunesTree(base, e.store, dn, cs);
    }
  }

  lemma LeafNoParent(base: DN, s: Contents, t: Contents, dn: DN)
    requires Tree(base, s) && base != [] && Clean(dn) && Leaf(s, dn) && SameNames(s, t)
    ensures forall k | k in t && t[k].dn != [] && t[k].dn != base :: Key(t[k].dn[1..]) != Key(dn)
  {
    hide Key, Under, Clean;
    forall k | k in t && t[k].dn != [] && t[k].dn != base
      ensures Key(t[k].dn[1..]) != Key(dn)
    {
      var child := s[k].dn;
      assert SoundEntry(base, s[k]);
      CleanParent(base, child);
      StringsTellApart(child[1..], dn);
      ParentUnder(child);
    }
  }

  lemma Concatenated(s: Contents, a: seq<Change>, b: seq<Change>)
    requires AllUpdate(s, a) && AllUpdate(s, b)
    ensures AllUpdate(s, a + b)
  {
  }

  lemma ModifyKeepsTree(base: DN, s: Contents, allowed: bool, allowedAttrs: set<Str>, r: ModifyRequest, meta: Meta)
    requires Tree(base, s)
    ensures Tree(base, After(ModifyChanges(s, base, allowed, allowedAttrs, r, meta)))
  {
    hide Lookup, ParseUnder, Modifies, EditChanges, Tree, Key;
    var parsed := ParseUnder(base, r.entry, false);
    if parsed.Some? && Lookup(s, parsed.value).Some? {
      LookedUp(s, parsed.value);
      var edit := Modifies(base, Lookup(s, parsed.value).value, allowedAttrs, r.changes);
      if edit.Ok? { EditKeepsTree(base, s, parsed.value, edit.value, meta); }
    }
  }

  lemma EditKeepsTree(base: DN, s: Contents, dn: DN, edit: Edit, meta: Meta)
    requires Tree(base, s) && Key(dn) in s && s[Key(dn)].dn == dn
    ensures Tree(base, After(EditChanges(s, base, dn, edit, meta)))
  {
    hide MembershipAdds, MembershipRemoves, NewEntry, AllUpdate, Key, Under, Clean, ApplyChanges, SameNames, Rooted;
    var adds := MembershipAdds(s, MEMBEROF, edit.added, dn);
    AddsEdit(s, MEMBEROF, edit.added, dn);
    SameNamesTree(base, s, adds.store);
    if adds.result.Ok? {
      var removes := MembershipRemoves(adds.store, base, MEMBEROF, edit.removed, dn);
      RemovesEdit(adds.store, base, MEMBEROF, edit.removed, dn);
      SameNamesTree(base, adds.store, removes.store);
      SameNamesUpdate(s, adds.store, adds.result.value);
      SameNamesUpdate(adds.store, removes.store, adds.result.value);
      if removes.result.Ok? {
        SameNamesUpdate(adds.store, removes.store, removes.result.value);
        Concatenated(removes.store, adds.result.value, removes.result.value);
        SameKey(s, adds.store, Key(dn));
        SameKey(adds.store, removes.store, Key(dn));
        assert SoundEntry(base, removes.store[Key(dn)]);
        StampedSound(base, dn, edit.attributes, meta);
        ParentStays(base, removes.store, Key(dn));
        GrowsTree(base, removes.store, Stamped(dn, edit.attributes, meta), adds.result.value + removes.result.value);
        var first := Put(Stamped(dn, edit.attributes, meta));
        assert [first] + adds.result.value + removes.result.value == [first] + (adds.result.value + removes.result.value);
      }
    }
  }

  lemma StampedSound(base: DN, dn: DN, attributes: Attributes, meta: Meta)
    requires Clean(dn) && Under(dn, base)
    ensures Stamped(dn, attributes, meta).dn == dn && SoundEntry(base, Stamped(dn, attributes, meta))
  {
    NewEntrySound(base, dn, attributes[MODIFIERSNAME := [meta.user]][MODIFYTIMESTAMP := [meta.timestamp]]);
  }

  lemma ParentStays(base: DN, s: Contents, k: Str)
    requires Tree(base, s) && k in s
    ensures s[k].dn == base || (s[k].dn != [] && Key(s[k].dn[1..]) in s)
  {
  }

  /******* Runs *******/

  datatype Request =
    | Initialize(classes: seq<Str>, structural: Str, meta: Meta)
    | AddEntry(allowed: bool, add: AddRequest, meta: Meta)
    | DelEntry(allowed: bool, raw: Str)
    | ModifyEntry(allowed: bool, allowedAttrs: set<Str>, edit: ModifyRequest, meta: Meta)

  function Serve(s: Contents, base: DN, r: Request): Contents {
    match r
    case Initialize(classes, structural, meta) => ApplyChanges(s, InitializeChanges(s, base, classes, structural, meta))
    case AddEntry(allowed, add, meta) => After(AddChanges(s, base, allowed, add, meta))
    case DelEntry(allowed, raw) => After(DelChanges(s, base, allowed, raw))
    case ModifyEntry(allowed, attrs, edit, meta) => After(ModifyChanges(s, base, allowed, attrs, edit, meta))
  }

  function Run(base: DN, rs: seq<Request>): Contents {
    if rs == [] then map[] else Serve(Run(base, rs[..|rs| - 1]), base, rs[|rs| - 1])
  }

  lemma ServeKeepsTree(base: DN, s: Contents, r: Request)
    requires Tree(base, s) && Clean(base) && (r.AddEntry? ==> SLASH !in r.add.entry)
    ensures Tree(base, Serve(s, base, r))
  {
    hide Tree, AddChanges, DelChanges, ModifyChanges, Clean;
    match r
    case Initialize(classes, structural, meta) =>
      InitializeKeepsTree(base, s, classes, structural, meta);
    case AddEntry(allowed, add, meta) => AddKeepsTree(base, s, allowed, add, meta);
    case DelEntry(allowed, raw) =>
      assert base != [] by { CleanNonEmpty(base); }
      DelKeepsTree(base, s, allowed, raw);
    case ModifyEntry(allowed, attrs, edit, meta) => ModifyKeepsTree(base, s, allowed, attrs, edit, meta);
  }

  lemma CleanNonEmpty(dn: DN)
    requires Clean(dn)
    ensures dn != []
  {
  }

  lemma InitializeKeepsTree(base: DN, s: Contents, classes: seq<Str>, structural: Str, meta: Meta)
    requires Tree(base, s) && Clean(base)
    ensures Tree(base, ApplyChanges(s, InitializeChanges(s, base, classes, structural, meta)))
  {
    if Lookup(s, base).None? {
      var e := InitialEntry(base, classes, structural, meta);
      InitialSound(base, classes, structural, meta);
      hide Tree, Key, InitialEntry, SoundEntry, Clean, Lookup;
      GrowsTree(base, s, e, []);
      assert [Put(e)] + [] == [Put(e)];
    }
  }

  lemma InitialSound(base: DN, classes: seq<Str>, structural: Str, meta: Meta)
    requires Clean(base)
    ensures var e := InitialEntry(base, classes, structural, meta); e.dn == base && SoundEntry(base, e)
  {
    hide Clean, DNString;
    CleanNonEmpty(base);
    NewEntrySound(base, base, map[OBJECTCLASS := classes, Ascii("structuralobjectclass") := [structural],
                                  CREATORSNAME := [DNString(base)], CREATETIMESTAMP := [meta.timestamp],
                                  ENTRYUUID := [meta.uuid]]);
  }

  /**
   * Over every run of requests from an empty store, whatever they ask for, the entries form a tree below
   * the base, provided only that no added name has a slash.
   */
  lemma {:induction false} RunsKeepTree(base: DN, rs: seq<Request>)
    requires Clean(base) && forall i | 0 <= i < |rs| && rs[i].AddEntry? :: SLASH !in rs[i].add.entry
    ensures Tree(base, Run(base, rs))
  {
    if rs != [] {
      RunsKeepTree(base, rs[..|rs| - 1]);
      ServeKeepsTree(base, Run(base, rs[..|rs| - 1]), rs[|rs| - 1]);
    }
  }

  /******* When a leaf can be deleted *******/

  /**
   * The range stands in for the subtree, so a stored leaf is refused as if it had children exactly when
   * another key starts with its key and goes on with something below U+10FFFF.
   */
  lemma LeafRefused(base: DN, s: Contents, raw: Str)
    requires Tree(base, s) && ParseUnder(base, raw, false).Some?
    requires var dn := ParseUnder(base, raw, false).value;
             Clean(dn) && Key(dn) in s && Leaf(s, dn)
    ensures var own := Key(ParseUnder(base, raw, false).value);
            DelChanges(s, base, true, raw).result == Fail(NotAllowedOnNonLeaf)
            <==> exists k :: k in s && k != own && HasPrefix(k, own) && Less(k[|own|..], MAX_RUNE)
  {
    hide Key, Scanned, Less, Clean, Under, ParseUnder, RawRemoves;
    var dn := ParseUnder(base, raw, false).value;
    var own := Key(dn);
    forall k | k in s
      ensures Scanned(Reverse(dn), k) <==> HasPrefix(k, own) && Less(k[|own|..], MAX_RUNE)
      ensures s[k].dn == dn <==> k == own
    {
      ScansKey(base, s, dn, k);
    }
    ScansOwn(dn);
    RemovesFail(s, base, MEMBER, s[own].Get(MEMBEROF), dn);
    RemovesFail(RawRemoves(s, base, MEMBER, s[own].Get(MEMBEROF), dn).store, base, MEMBEROF, s[own].Get(MEMBER), dn);
    hide Sound, Rooted, Reverse;
  }

  lemma ScansKey(base: DN, s: Contents, dn: DN, k: Str)
    requires Sound(base, s) && Clean(dn) && k in s
    ensures Scanned(Reverse(dn), k) <==> HasPrefix(k, Key(dn)) && Less(k[|Key(dn)|..], MAX_RUNE)
    ensures s[k].dn == dn <==> k == Key(dn)
  {
    ScannedExactly(Reverse(dn), k);
    assert SoundEntry(base, s[k]);
    StringsTellApart(s[k].dn, dn);
  }

  lemma ScansOwn(dn: DN)
    requires Clean(dn)
    ensures Scanned(Reverse(dn), Key(dn))
  {
    ScannedExactly(Reverse(dn), Key(dn));
    assert Key(dn)[|Key(dn)|..] == [];
    EmptyBelow();
  }

  lemma EmptyBelow()
    ensures Less([], MAX_RUNE)
  {
  }

  lemma {:induction false} RemovesFail(s: Contents, base: DN, attr: Str, raws: seq<Str>, group: DN)
    ensures RawRemoves(s, base, attr, raws, group).result != Fail(NotAllowedOnNonLeaf)
  {
    if raws != [] { RemovesFail(s, base, attr, raws[..|raws| - 1], group); }
  }

  lemma GoesOn(above: Str, c: Component, d: Component, x: byte)
    requires d == Component(c.typ, c.value + [x]) && x < MAX_RUNE[0]
    ensures var own, k := above + [SLASH] + Print(c), above + [SLASH] + Print(d);
            HasPrefix(k, own) && k != own && Less(k[|own|..], MAX_RUNE)
  {
    assert Print(d) == Print(c) + [x];
    var own, k := above + [SLASH] + Print(c), above + [SLASH] + Print(d);
    assert k == own + [x] && k[|own|..] == [x];
  }

  lemma NoneYet(base: DN)
    ensures Tree(base, map[]) && AllUpdate(map[], [])
  {
  }

  lemma OneLevel(base: DN, p: DN, q: DN)
    requires p != [] && p[1..] == base && (q == base || (q != [] && q[1..] == base))
    ensures p != base && Under(p, base) && Under(base, base) && (Under(q, p) <==> q == p)
  {
    UnderSuffix(p, base);
    UnderSuffix(base, base);
    UnderSuffix(q, p);
    Whole(base);
    Whole(q);
  }

  /** The key of a name one level down. */
  lemma KeyBelow(base: DN, c: Component)
    requires base != []
    ensures Key([c] + base) == Key(base) + [SLASH] + Print(c)
  {
    assert Reverse([c] + base) == Reverse(base) + [c];
    assert PrintAll(Reverse(base) + [c]) == PrintAll(Reverse(base)) + [Print(c)];
    JoinAppend(PrintAll(Reverse(base)), [Print(c)], SLASH);
  }
}

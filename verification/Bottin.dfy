/** The LDAP directory service over the in-memory store: each operation checks, then runs one transaction. */
module BottinServer {
  import opened Wrappers
  import opened Text
  import opened Names
  import opened DirectoryStore
  import opened Directory
  import Answers

  /******* A failure in the middle of a list is a failure of the list *******/

  lemma {:induction false} MembersFail(s: Contents, base: DN, vals: seq<Str>, i: nat)
    requires i <= |vals| && Members(s, base, vals[..i]).Fail?
    ensures Members(s, base, vals) == Members(s, base, vals[..i])
  {
    if i < |vals| {
      assert vals[..|vals| - 1][..i] == vals[..i];
      MembersFail(s, base, vals[..|vals| - 1], i);
    } else {
      assert vals[..i] == vals;
    }
  }

  lemma {:induction false} DraftFail(s: Contents, base: DN, attributes: seq<Attribute>, i: nat)
    requires i <= |attributes| && Drafted(s, base, attributes[..i]).Fail?
    ensures Drafted(s, base, attributes) == Drafted(s, base, attributes[..i])
  {
    if i < |attributes| {
      assert attributes[..|attributes| - 1][..i] == attributes[..i];
      DraftFail(s, base, attributes[..|attributes| - 1], i);
    } else {
      assert attributes[..i] == attributes;
    }
  }

  lemma {:induction false} AddsFail(s: Contents, attr: Str, members: seq<DN>, group: DN, i: nat)
    requires i <= |members| && MembershipAdds(s, attr, members[..i], group).result.Fail?
    ensures MembershipAdds(s, attr, members, group) == MembershipAdds(s, attr, members[..i], group)
  {
    if i < |members| {
      assert members[..|members| - 1][..i] == members[..i];
      AddsFail(s, attr, members[..|members| - 1], group, i);
    } else {
      assert members[..i] == members;
    }
  }

  lemma {:induction false} RemovesFailAt(s: Contents, base: DN, attr: Str, members: seq<DN>, group: DN, i: nat)
    requires i <= |members| && MembershipRemoves(s, base, attr, members[..i], group).result.Fail?
    ensures MembershipRemoves(s, base, attr, members, group) == MembershipRemoves(s, base, attr, members[..i], group)
  {
    if i < |members| {
      assert members[..|members| - 1][..i] == members[..i];
      RemovesFailAt(s, base, attr, members[..|members| - 1], group, i);
    } else {
      assert members[..i] == members;
    }
  }

  lemma {:induction false} RawFailAt(s: Contents, base: DN, attr: Str, raws: seq<Str>, group: DN, i: nat)
    requires i <= |raws| && RawRemoves(s, base, attr, raws[..i], group).result.Fail?
    ensures RawRemoves(s, base, attr, raws, group) == RawRemoves(s, base, attr, raws[..i], group)
  {
    if i < |raws| {
      assert raws[..|raws| - 1][..i] == raws[..i];
      RawFailAt(s, base, attr, raws[..|raws| - 1], group, i);
    } else {
      assert raws[..i] == raws;
    }
  }

  /** How far a removal gets. */
  lemma RemovalCases(base: DN, s: Contents, dn: DN)
    requires Key(dn) in s
    ensures var groups := RawRemoves(s, base, MEMBER, s[Key(dn)].Get(MEMBEROF), dn);
            var members := RawRemoves(groups.store, base, MEMBEROF, s[Key(dn)].Get(MEMBER), dn);
            && (groups.result.Fail? ==> Removal(base, s, dn) == groups)
            && (groups.result.Ok? && members.result.Fail? ==> Removal(base, s, dn) == members)
            && (groups.result.Ok? && members.result.Ok? ==>
                  Removal(base, s, dn)
                  == Effect(members.store, Ok([Drop(dn)] + groups.result.value + members.result.value)))
  {
    hide RawRemoves, Key;
  }

  /** One more of each. */
  lemma AddsNext(s: Contents, attr: Str, members: seq<DN>, group: DN, i: nat)
    requires i < |members| && MembershipAdds(s, attr, members[..i], group).result.Ok?
    ensures var front := MembershipAdds(s, attr, members[..i], group);
            MembershipAdds(s, attr, members[..i + 1], group)
            == Then(front.result.value, MembershipAdd(front.store, attr, members[i], group), OperationsError)
  {
    assert members[..i + 1][..i] == members[..i];
    hide MembershipAdd;
  }

  lemma RemovesNext(s: Contents, base: DN, attr: Str, members: seq<DN>, group: DN, i: nat)
    requires i < |members| && MembershipRemoves(s, base, attr, members[..i], group).result.Ok?
    ensures var front := MembershipRemoves(s, base, attr, members[..i], group);
            MembershipRemoves(s, base, attr, members[..i + 1], group)
            == Then(front.result.value, MembershipRemove(front.store, base, attr, members[i], group), OperationsError)
  {
    assert members[..i + 1][..i] == members[..i];
    hide MembershipRemove;
  }

  lemma RawNext(s: Contents, base: DN, attr: Str, raws: seq<Str>, group: DN, i: nat)
    requires i < |raws| && RawRemoves(s, base, attr, raws[..i], group).result.Ok?
    ensures var front, member := RawRemoves(s, base, attr, raws[..i], group), ParseUnder(base, raws[i], false);
            RawRemoves(s, base, attr, raws[..i + 1], group)
            == if member.None? then Effect(front.store, Fail(InvalidDNSyntax))
               else Then(front.result.value, MembershipRemove(front.store, base, attr, member.value, group), OperationsError)
  {
    assert raws[..i + 1][..i] == raws[..i];
    hide MembershipRemove, ParseUnder;
  }

  lemma NoneYet(s: Contents, base: DN, attr: Str, members: seq<DN>, raws: seq<Str>, group: DN)
    ensures MembershipAdds(s, attr, members[..0], group) == Effect(s, Ok([]))
    ensures MembershipRemoves(s, base, attr, members[..0], group) == Effect(s, Ok([]))
    ensures RawRemoves(s, base, attr, raws[..0], group) == Effect(s, Ok([]))
  {
  }

  lemma {:induction false} WithoutFail(base: DN, vals: seq<Str>, group: DN, i: nat)
    requires i <= |vals| && Without(base, vals[..i], group).None?
    ensures Without(base, vals, group).None?
  {
    if i < |vals| {
      assert vals[..|vals| - 1][..i] == vals[..i];
      WithoutFail(base, vals[..|vals| - 1], group, i);
    } else {
      assert vals[..i] == vals;
    }
  }

  lemma {:induction false} ParseEachFail(base: DN, raws: seq<Str>, prefix: seq<Str>)
    requires prefix <= raws && ParseEach(base, prefix).None?
    ensures ParseEach(base, raws).None?
  {
    if |prefix| < |raws| {
      ParseEachFail(base, raws[..|raws| - 1], prefix);
    } else {
      assert prefix == raws;
    }
  }

  lemma {:induction false} ModifiesFail(base: DN, entry: Entry, allowed: set<Str>, changes: seq<Modification>, i: nat)
    requires i <= |changes| && Modifies(base, entry, allowed, changes[..i]).Fail?
    ensures Modifies(base, entry, allowed, changes) == Modifies(base, entry, allowed, changes[..i])
  {
    if i < |changes| {
      assert changes[..|changes| - 1][..i] == changes[..i];
      ModifiesFail(base, entry, allowed, changes[..|changes| - 1], i);
    } else {
      assert changes[..i] == changes;
    }
  }

  lemma {:induction false} AppendedPrefix(vals: seq<Str>, more: seq<Str>, i: nat)
    requires i <= |more|
    ensures Appended(vals, more[..i]) <= Appended(vals, more)
  {
    if i < |more| {
      assert more[..|more| - 1][..i] == more[..i];
      AppendedPrefix(vals, more[..|more| - 1], i);
    } else {
      assert more[..i] == more;
    }
  }

  lemma {:induction false} FilteredPrefix(vals: seq<Str>, keep: seq<Str>, kept: bool, i: nat)
    requires i <= |vals|
    ensures Filtered(vals[..i], keep, kept) <= Filtered(vals, keep, kept)
  {
    if i < |vals| {
      assert vals[..|vals| - 1][..i] == vals[..i];
      FilteredPrefix(vals[..|vals| - 1], keep, kept, i);
    } else {
      assert vals[..i] == vals;
    }
  }

  /******* The service *******/

  class Bottin {
    const base: DN
    const store: Mem

    constructor (base: DN, store: Mem)
      ensures this.base == base && this.store == store
    {
      this.base, this.store := base, store;
    }

    /** The stored row itself, whose map a caller can then change in place. */
    method GetEntry(dn: DN) returns (entry: Option<Row>)
      requires store.Valid()
      ensures store.Valid() && store.Contents() == old(store.Contents())
      ensures entry.Some? <==> Lookup(store.Contents(), dn).Some?
      ensures entry.Some? ==> store.Holds(entry.value) && View(entry.value) == Lookup(store.Contents(), dn).value
    {
      hide Key, store.Contents, Arranges, Unshared, Distinct;
      var entries := store.List(Reverse(dn), true);
      if |entries| != 1 { return None; }
      assert entries[0] in entries && Views(entries)[0] == View(entries[0]);
      entry := Some(entries[0]);
    }

    method ExistsEntry(dn: DN) returns (exists_: bool)
      requires store.Valid()
      ensures store.Valid() && store.Contents() == old(store.Contents())
      ensures exists_ <==> Lookup(store.Contents(), dn).Some?
    {
      hide Key, store.Contents, Arranges, Unshared, Distinct;
      var entries := store.List(Reverse(dn), true);
      exists_ := |entries| == 1;
    }

    /******* Membership *******/

    /** The row's map is the store's. */
    twostate lemma Edited(row: Row)
      requires old(store.Valid()) && old(store.Holds(row)) && unchanged(store)
      requires forall k | k in store.rows && store.rows[k] != row ::
              store.rows[k].attributes.m == old(store.rows[k].attributes.m)
      ensures store.Valid() && store.Contents() == old(store.Contents())[KeyOf(View(row)) := View(row)]
    {
      hide Arranges, Key;
    }

    /** The assignment to the entry's own map: what is assigned is stored at once. */
    method SetAttribute(row: Row, attr: Str, vals: seq<Str>)
      requires store.Valid() && store.Holds(row)
      modifies row.attributes
      ensures store.Valid() && View(row) == With(old(View(row)), attr, vals)
      ensures store.Contents() == old(store.Contents())[KeyOf(View(row)) := View(row)]
    {
      hide store.Contents, Key, Arranges;
      row.attributes.m := row.attributes.m[attr := vals];
      Edited(row);
    }

    /** Nothing that is logged changes with the store. */
    twostate lemma LogKept(tx: MemTransaction)
      requires old(tx.Valid()) && unchanged(tx) && unchanged(tx.mem) && unchanged(tx.Maps())
      ensures tx.Valid() && tx.Log() == old(tx.Log())
    {
      hide Arranges, Unshared, Distinct;
    }

    /** `NewEntry` and `Store`. */
    method StoreEntry(tx: MemTransaction, dn: DN, attributes: Attributes)
      requires tx.mem == store && tx.Valid() && !tx.committed
      modifies tx`changes
      ensures tx.Valid() && store.Valid() && fresh(tx.Maps() - old(tx.Maps()))
      ensures store.Contents() == old(store.Contents()) && tx.Log() == old(tx.Log()) + [Put(NewEntry(dn, attributes))]
    {
      hide Key, NewEntry, store.Contents, tx.Log, Arranges, Distinct;
      var row := CloneEntry(dn, attributes);
      var ok := tx.Store(row);
    }

    /** The assignment, and the log entry of a copy. */
    method Assign(tx: MemTransaction, row: Row, attr: Str, vals: seq<Str>)
      requires tx.mem == store && tx.Valid() && !tx.committed && store.Holds(row)
      modifies tx`changes, store.Maps()
      ensures tx.Valid() && store.Valid() && fresh(tx.Maps() - old(tx.Maps()))
      ensures var e := Rewrite(old(store.Contents()), old(View(row)), attr, vals);
              store.Contents() == e.store && e.result.Ok? && tx.Log() == old(tx.Log()) + e.result.value
    {
      hide Key, NewEntry, store.Contents, tx.Log, Arranges, Distinct;
      SetAttribute(row, attr, vals);
      LogKept(tx);
      StoreEntry(tx, row.dn, row.attributes.m);
    }

    method MembershipAdd(tx: MemTransaction, attr: Str, member: DN, group: DN) returns (ok: bool)
      requires tx.mem == store && tx.Valid() && !tx.committed
      modifies tx`changes, store.Maps()
      ensures tx.Valid() && store.Valid() && fresh(tx.Maps() - old(tx.Maps()))
      ensures var e := Directory.MembershipAdd(old(store.Contents()), attr, member, group);
              store.Contents() == e.store && (ok <==> e.result.Ok?) && (ok ==> tx.Log() == old(tx.Log()) + e.result.value)
    {
      hide Key, store.Contents, Arranges, Unshared, Distinct;
      var entity := GetEntry(member);
      if entity.None? { return false; }
      var membership := View(entity.value).Get(attr);
      if DNString(group) in membership { return true; }
      membership := membership + [DNString(group)];
      Assign(tx, entity.value, attr, membership);
      ok := true;
    }

    method MembershipRemove(tx: MemTransaction, attr: Str, member: DN, group: DN) returns (ok: bool)
      requires tx.mem == store && tx.Valid() && !tx.committed
      modifies tx`changes, store.Maps()
      ensures tx.Valid() && store.Valid() && fresh(tx.Maps() - old(tx.Maps()))
      ensures var e := Directory.MembershipRemove(old(store.Contents()), base, attr, member, group);
              store.Contents() == e.store && (ok <==> e.result.Ok?) && (ok ==> tx.Log() == old(tx.Log()) + e.result.value)
    {
      hide ParseUnder, Lookup, DNString, Rewrite, store.Contents, Arranges, Unshared, Distinct, Key;
      var entity := GetEntry(member);
      if entity.None? { return false; }
      var membership := View(entity.value).Get(attr);
      var newMembership: seq<Str> := [];
      for i := 0 to |membership|
        invariant tx.Valid() && store.Valid() && store.Contents() == old(store.Contents()) && store.Holds(entity.value)
        invariant Without(base, membership[..i], group) == Some(newMembership)
      {
        assert membership[..i + 1][..i] == membership[..i];
        var gdn := ParseUnder(base, membership[i], false);
        if gdn.None? {
          WithoutFail(base, membership, group, i + 1);
          return false;
        }
        if gdn.value != group { newMembership := newMembership + [DNString(gdn.value)]; }
      }
      assert membership[..|membership|] == membership;
      if |newMembership| == |member| { return true; }
      Assign(tx, entity.value, attr, newMembership);
      ok := true;
    }

    method MembershipAdds(tx: MemTransaction, members: seq<DN>, group: DN) returns (ok: bool)
      requires tx.mem == store && tx.Valid() && !tx.committed
      modifies tx`changes, store.Maps()
      ensures tx.Valid() && store.Valid() && fresh(tx.Maps() - old(tx.Maps()))
      ensures var e := Directory.MembershipAdds(old(store.Contents()), MEMBEROF, members, group);
              && store.Contents() == e.store && (ok <==> e.result.Ok?) && (!ok ==> e.result == Fail(OperationsError))
              && (ok ==> tx.Log() == old(tx.Log()) + e.result.value)
    {
      hide Directory.MembershipAdd, Directory.MembershipAdds, store.Contents, Arranges, Unshared, Distinct, Key;
      ghost var s, log := store.Contents(), tx.Log();
      NoneYet(s, base, MEMBEROF, members, [], group);
      for i := 0 to |members|
        invariant tx.Valid() && store.Valid() && !tx.committed && fresh(tx.Maps() - old(tx.Maps()))
        invariant var e := Directory.MembershipAdds(s, MEMBEROF, members[..i], group);
                  e.result.Ok? && store.Contents() == e.store && tx.Log() == log + e.result.value
      {
        AddsNext(s, MEMBEROF, members, group, i);
        ok := MembershipAdd(tx, MEMBEROF, members[i], group);
        if !ok {
          AddsFail(s, MEMBEROF, members, group, i + 1);
          return;
        }
      }
      assert members[..|members|] == members;
      return true;
    }

    method MembershipRemoves(tx: MemTransaction, members: seq<DN>, group: DN) returns (ok: bool)
      requires tx.mem == store && tx.Valid() && !tx.committed
      modifies tx`changes, store.Maps()
      ensures tx.Valid() && store.Valid() && fresh(tx.Maps() - old(tx.Maps()))
      ensures var e := Directory.MembershipRemoves(old(store.Contents()), base, MEMBEROF, members, group);
              && store.Contents() == e.store && (ok <==> e.result.Ok?) && (!ok ==> e.result == Fail(OperationsError))
              && (ok ==> tx.Log() == old(tx.Log()) + e.result.value)
    {
      hide Directory.MembershipRemove, Directory.MembershipRemoves, store.Contents, Arranges, Unshared, Distinct, Key;
      ghost var s, log := store.Contents(), tx.Log();
      NoneYet(s, base, MEMBEROF, members, [], group);
      for i := 0 to |members|
        invariant tx.Valid() && store.Valid() && !tx.committed && fresh(tx.Maps() - old(tx.Maps()))
        invariant var e := Directory.MembershipRemoves(s, base, MEMBEROF, members[..i], group);
                  e.result.Ok? && store.Contents() == e.store && tx.Log() == log + e.result.value
      {
        RemovesNext(s, base, MEMBEROF, members, group, i);
        ok := MembershipRemove(tx, MEMBEROF, members[i], group);
        if !ok {
          RemovesFailAt(s, base, MEMBEROF, members, group, i + 1);
          return;
        }
      }
      assert members[..|members|] == members;
      return true;
    }

    /** One of the two loops of `Del`. */
    method RemoveFrom(tx: MemTransaction, attr: Str, raws: seq<Str>, group: DN) returns (error: Option<Failure>)
      requires tx.mem == store && tx.Valid() && !tx.committed
      modifies tx`changes, store.Maps()
      ensures tx.Valid() && store.Valid() && fresh(tx.Maps() - old(tx.Maps()))
      ensures var e := RawRemoves(old(store.Contents()), base, attr, raws, group);
              && store.Contents() == e.store && error == (match e.result case Ok(_) => None case Fail(f) => Some(f))
              && (error.None? ==> tx.Log() == old(tx.Log()) + e.result.value)
    {
      hide Directory.MembershipRemove, RawRemoves, ParseUnder, store.Contents, Arranges, Unshared, Distinct, Key;
      ghost var s, log := store.Contents(), tx.Log();
      NoneYet(s, base, attr, [], raws, group);
      for i := 0 to |raws|
        invariant tx.Valid() && store.Valid() && !tx.committed && fresh(tx.Maps() - old(tx.Maps()))
        invariant var e := RawRemoves(s, base, attr, raws[..i], group);
                  e.result.Ok? && store.Contents() == e.store && tx.Log() == log + e.result.value
      {
        RawNext(s, base, attr, raws, group, i);
        var dn := ParseUnder(base, raws[i], false);
        if dn.None? {
          RawFailAt(s, base, attr, raws, group, i + 1);
          return Some(InvalidDNSyntax);
        }
        var ok := MembershipRemove(tx, attr, dn.value, group);
        if !ok {
          RawFailAt(s, base, attr, raws, group, i + 1);
          return Some(OperationsError);
        }
      }
      assert raws[..|raws|] == raws;
      return None;
    }

    /******* Add *******/

    method AddMembers(vals: seq<Str>) returns (r: Result<seq<DN>>)
      requires store.Valid()
      ensures store.Valid() && store.Contents() == old(store.Contents())
      ensures r == Members(store.Contents(), base, vals)
    {
      hide ParseUnder, Lookup, store.Contents, Arranges, Unshared, Distinct, Key;
      ghost var s := store.Contents();
      var members: seq<DN> := [];
      for i := 0 to |vals|
        invariant store.Valid() && store.Contents() == s && Members(s, base, vals[..i]) == Ok(members)
      {
        assert vals[..i + 1][..i] == vals[..i];
        var dn := ParseUnder(base, vals[i], false);
        if dn.None? {
          MembersFail(s, base, vals, i + 1);
          return Fail(InvalidDNSyntax);
        }
        var found := ExistsEntry(dn.value);
        if !found {
          MembersFail(s, base, vals, i + 1);
          return Fail(NoSuchObject);
        }
        members := members + [dn.value];
      }
      assert vals[..|vals|] == vals;
      return Ok(members);
    }

    method DraftEntry(attributes: seq<Attribute>) returns (r: Result<Draft>)
      requires store.Valid()
      ensures store.Valid() && store.Contents() == old(store.Contents())
      ensures r == Drafted(store.Contents(), base, attributes)
    {
      hide Members, CanUpdate, AttributeKey, Strings, store.Contents, Arranges, Unshared, Distinct, Key;
      ghost var s := store.Contents();
      var attrs: Attributes, members: seq<DN> := map[], [];
      for i := 0 to |attributes|
        invariant store.Valid() && store.Contents() == s
        invariant Drafted(s, base, attributes[..i]) == Ok(Draft(attrs, members))
      {
        assert attributes[..i + 1][..i] == attributes[..i];
        var key := AttributeKey(attributes[i].typ);
        if !CanUpdate(key) {
          DraftFail(s, base, attributes, i + 1);
          return Fail(ObjectClassViolation);
        }
        if key == MEMBER {
          var more := AddMembers(attributes[i].vals);
          if more.Fail? {
            DraftFail(s, base, attributes, i + 1);
            return Fail(more.failure);
          }
          members := members + more.value;
          attrs := attrs[key := Strings(members)];
        } else {
          var had := if key in attrs then attrs[key] else [];
          attrs := attrs[key := had + attributes[i].vals];
        }
      }
      assert attributes[..|attributes|] == attributes;
      return Ok(Draft(attrs, members));
    }

    method Add(allowed: bool, r: AddRequest, meta: Meta) returns (error: Option<Failure>)
      requires store.Valid()
      modifies store, store.Maps()
      ensures store.Valid()
      ensures var e := AddChanges(old(store.Contents()), base, allowed, r, meta);
              store.Contents() == After(e) && error == (match e.result case Ok(_) => None case Fail(f) => Some(f))
      ensures Answers.AddTable(old(store.Contents()), base, allowed, r, error)
    {
      hide *;
      ghost var s := store.Contents();
      error := RunAdd(allowed, r, meta);
      Answers.AddAnswers(s, base, allowed, r, meta);
      ErrorIs(AddChanges(s, base, allowed, r, meta));
    }

    /** The checks, the loops and the transaction. */
    method RunAdd(allowed: bool, r: AddRequest, meta: Meta) returns (error: Option<Failure>)
      requires store.Valid()
      modifies store, store.Maps()
      ensures store.Valid()
      ensures var e := AddChanges(old(store.Contents()), base, allowed, r, meta);
              store.Contents() == After(e) && error == (match e.result case Ok(_) => None case Fail(f) => Some(f))
    {
      hide ParseUnder, Lookup, Drafted, Directory.MembershipAdds, NewEntry, WithSystem, ApplyChanges, Key,
           store.Contents, Arranges, Unshared, Distinct;
      ghost var s := store.Contents();
      var dn := ParseUnder(base, r.entry, false);
      if dn.None? { return Some(InvalidDNSyntax); }
      if !allowed { return Some(InsufficientAccessRights); }
      var found := ExistsEntry(dn.value);
      if found { return Some(EntryAlreadyExists); }
      if dn.value == [] { return Some(NoSuchObject); }
      var parent := ExistsEntry(dn.value[1..]);
      if !parent { return Some(NoSuchObject); }
      var draft := DraftEntry(r.attributes);
      if draft.Fail? { return Some(draft.failure); }
      var attrs, members := WithSystem(draft.value.attributes, meta), draft.value.members;

      var tx := new MemTransaction(store);
      StoreEntry(tx, dn.value, attrs);
      assert tx.Log() == [Put(NewEntry(dn.value, attrs))];
      var ok := MembershipAdds(tx, members, dn.value);
      if !ok { return Some(OperationsError); }
      assert Effect(store.Contents(), Ok(tx.Log())) == AddChanges(s, base, allowed, r, meta);
      ok := tx.Commit();
      return None;
    }

    /******* Del *******/

    /** The two loops of `Del`, over the groups and over the members. */
    method RemoveListed(tx: MemTransaction, entry: Entry, dn: DN) returns (error: Option<Failure>)
      requires tx.mem == store && tx.Valid() && !tx.committed && tx.Log() == [Drop(dn)]
      requires Key(dn) in store.Contents() && store.Contents()[Key(dn)] == entry
      modifies tx`changes, store.Maps()
      ensures tx.Valid() && store.Valid() && fresh(tx.Maps() - old(tx.Maps()))
      ensures var e := Removal(base, old(store.Contents()), dn);
              && store.Contents() == e.store && error == (match e.result case Ok(_) => None case Fail(f) => Some(f))
              && (error.None? ==> tx.Log() == e.result.value)
    {
      hide RawRemoves, Removal, Key, store.Contents, Arranges, Unshared, Distinct;
      RemovalCases(base, store.Contents(), dn);
      var memberOf, memberList := entry.Get(MEMBEROF), entry.Get(MEMBER);
      error := RemoveFrom(tx, MEMBER, memberOf, dn);
      if error.Some? { return; }
      error := RemoveFrom(tx, MEMBEROF, memberList, dn);
    }

    /** The transaction of `Del`. */
    method RemoveEntry(entry: Entry, dn: DN) returns (error: Option<Failure>)
      requires store.Valid() && Key(dn) in store.Contents() && store.Contents()[Key(dn)] == entry
      modifies store, store.Maps()
      ensures store.Valid()
      ensures var e := Removal(base, old(store.Contents()), dn);
              store.Contents() == After(e) && error == (match e.result case Ok(_) => None case Fail(f) => Some(f))
    {
      hide Removal, ApplyChanges, Key, store.Contents, Arranges, Unshared, Distinct;
      var tx := new MemTransaction(store);
      var ok := tx.Delete(dn);
      assert tx.Log() == [Drop(dn)];
      error := RemoveListed(tx, entry, dn);
      if error.Some? { return; }
      ok := tx.Commit();
    }

    method Del(allowed: bool, raw: Str) returns (error: Option<Failure>)
      requires store.Valid()
      modifies store, store.Maps()
      ensures store.Valid()
      ensures var e := DelChanges(old(store.Contents()), base, allowed, raw);
              store.Contents() == After(e) && error == (match e.result case Ok(_) => None case Fail(f) => Some(f))
      ensures Answers.DelTable(old(store.Contents()), base, allowed, raw, error)
    {
      hide *;
      ghost var s := store.Contents();
      error := RunDel(allowed, raw);
      Answers.DelAnswers(s, base, allowed, raw);
      ErrorIs(DelChanges(s, base, allowed, raw));
    }

    /** The checks, the loops and the transaction. */
    method RunDel(allowed: bool, raw: Str) returns (error: Option<Failure>)
      requires store.Valid()
      modifies store, store.Maps()
      ensures store.Valid()
      ensures var e := DelChanges(old(store.Contents()), base, allowed, raw);
              store.Contents() == After(e) && error == (match e.result case Ok(_) => None case Fail(f) => Some(f))
    {
      hide ParseUnder, Removal, ApplyChanges, Ordered, Key, Scanned, ListsRange, store.Contents, Arranges, Unshared;
      var dn := ParseUnder(base, raw, false);
      if dn.None? { return Some(InvalidDNSyntax); }
      if !allowed { return Some(InsufficientAccessRights); }
      var entries := store.List(Reverse(dn.value), false);
      ghost var s, listed := store.Contents(), Views(entries);
      ListedAll(s, dn.value, listed);
      if |entries| == 0 { return Some(NoSuchObject); }
      for i := 0 to |entries|
        invariant store.Valid() && store.Contents() == s
        invariant forall j | 0 <= j < i :: entries[j].dn == dn.value
      {
        if entries[i].dn != dn.value {
          assert listed[i].dn != dn.value && listed[i] in listed;
          return Some(NotAllowedOnNonLeaf);
        }
      }
      var entry := View(entries[0]);
      assert listed[0] == entry && listed[0] in listed;
      assert forall i | 0 <= i < |listed| :: listed[i].dn == dn.value;
      error := RemoveEntry(entry, dn.value);
    }

    /******* Modify *******/

    method ParseValues(raws: seq<Str>) returns (dns: Option<seq<DN>>)
      ensures dns == ParseEach(base, raws)
    {
      hide ParseUnder;
      var parsed: seq<DN> := [];
      for i := 0 to |raws|
        invariant ParseEach(base, raws[..i]) == Some(parsed)
      {
        assert raws[..i + 1][..i] == raws[..i];
        var dn := ParseUnder(base, raws[i], false);
        if dn.None? {
          ParseEachFail(base, raws, raws[..i + 1]);
          return None;
        }
        parsed := parsed + [dn.value];
      }
      assert raws[..|raws|] == raws;
      return Some(parsed);
    }

    /** The loop of the add case: appends what is not there, and journals it if it is a member. */
    method AddValues(vals: seq<Str>, values: seq<Str>, member: bool) returns (out: seq<Str>, gained: Option<seq<DN>>)
      ensures out == Appended(vals, values) || gained.None?
      ensures gained == if member then ParseEach(base, Appended(vals, values)[|vals|..]) else Some([])
    {
      hide ParseUnder, Appended, ParseEach;
      out := vals;
      var journal: seq<DN> := [];
      NoneOfNone(base);
      AddNothing(vals);
      for i := 0 to |values|
        invariant out == Appended(vals, values[..i])
        invariant if member then ParseEach(base, out[|vals|..]) == Some(journal) else journal == []
      {
        AppendedStep(vals, values, i);
        if values[i] !in out {
          ParseEachSnoc(base, out[|vals|..], values[i]);
          out := out + [values[i]];
          if member {
            var dn := ParseUnder(base, values[i], false);
            if dn.None? {
              AppendedPrefix(vals, values, i + 1);
              ParseEachFail(base, Appended(vals, values)[|vals|..], out[|vals|..]);
              return out, None;
            }
            journal := journal + [dn.value];
          }
        }
      }
      assert values[..|values|] == values;
      gained := Some(journal);
    }

    /** The names among the values that are, or are not, in another list. */
    method ParseThose(vals: seq<Str>, other: seq<Str>, in_: bool) returns (dns: Option<seq<DN>>)
      ensures dns == ParseEach(base, Filtered(vals, other, in_))
    {
      hide ParseUnder, Filtered, ParseEach;
      var journal: seq<DN> := [];
      NoneOfNone(base);
      FilteredNone(vals, other, in_);
      for i := 0 to |vals|
        invariant ParseEach(base, Filtered(vals[..i], other, in_)) == Some(journal)
      {
        FilteredStep(vals, other, in_, i);
        if vals[i] in other <==> in_ {
          ParseEachSnoc(base, Filtered(vals[..i], other, in_), vals[i]);
          var dn := ParseUnder(base, vals[i], false);
          if dn.None? {
            FilteredPrefix(vals, other, in_, i + 1);
            ParseEachFail(base, Filtered(vals, other, in_), Filtered(vals[..i + 1], other, in_));
            return None;
          }
          journal := journal + [dn.value];
        }
      }
      assert vals[..|vals|] == vals;
      return Some(journal);
    }

    /** The loop of the delete case: keeps what is not named, and journals the rest if it is members. */
    method DropValues(vals: seq<Str>, values: seq<Str>, member: bool) returns (out: seq<Str>, lost: Option<seq<DN>>)
      ensures out == Filtered(vals, values, false) || lost.None?
      ensures lost == if member then ParseEach(base, Filtered(vals, values, true)) else Some([])
    {
      hide ParseUnder, Filtered, ParseEach;
      out := [];
      var journal: seq<DN> := [];
      NoneOfNone(base);
      FilteredNone(vals, values, false);
      FilteredNone(vals, values, true);
      for i := 0 to |vals|
        invariant out == Filtered(vals[..i], values, false)
        invariant if member then ParseEach(base, Filtered(vals[..i], values, true)) == Some(journal) else journal == []
      {
        FilteredStep(vals, values, false, i);
        FilteredStep(vals, values, true, i);
        if vals[i] !in values {
          out := out + [vals[i]];
        } else if member {
          ParseEachSnoc(base, Filtered(vals[..i], values, true), vals[i]);
          var dn := ParseUnder(base, vals[i], false);
          if dn.None? {
            FilteredPrefix(vals, values, true, i + 1);
            ParseEachFail(base, Filtered(vals, values, true), Filtered(vals[..i + 1], values, true));
            return out, None;
          }
          journal := journal + [dn.value];
        }
      }
      assert vals[..|vals|] == vals;
      lost := Some(journal);
    }

    /** The body of the loop over the changes. */
    method ModifyAttribute(entry: Entry, allowed: set<Str>, e: Edit, m: Modification) returns (r: Result<Edit>)
      ensures r == ModifyOne(base, entry, allowed, e, m)
    {
      hide ParseUnder, AttributeKey, CanUpdate, Strings, ParseEach, Appended, Filtered;
      var attr := AttributeKey(m.typ);
      if !CanUpdate(attr) { return Fail(ObjectClassViolation); }
      if entry.dn != [] && attr == AttributeKey(entry.dn[0].typ) { return Fail(ObjectClassViolation); }
      if attr !in allowed { return Fail(InsufficientAccessRights); }
      var values, member := m.vals, attr == MEMBER;
      if member {
        var canonical := ParseValues(m.vals);
        if canonical.None? {
          if m.operation.Add? && m.vals == [] { NoneOfNone(base); }
          return Fail(InvalidDNSyntax);
        }
        values := Strings(canonical.value);
        NoStrings(base, m.vals);
      }
      var attrs := e.attributes;
      if attr !in attrs && attr in entry.attributes { attrs := attrs[attr := entry.attributes[attr]]; }
      var vals := if attr in attrs then attrs[attr] else [];
      var gained, lost: Option<seq<DN>> := Some([]), Some([]);
      NoneOfNone(base);
      match m.operation {
      case Add =>
        var out;
        AddNothing(vals);
        out, gained := AddValues(vals, values, member);
        if gained.None? { return Fail(InvalidDNSyntax); }
        if attr in attrs || values != [] { attrs := attrs[attr := out]; }
      case Delete =>
        if |values| == 0 {
          if member { lost := ParseValues(vals); }
          attrs := attrs[attr := []];
        } else {
          var out;
          out, lost := DropValues(vals, values, member);
          attrs := attrs[attr := out];
        }
      case Replace =>
        if member {
          gained := ParseThose(values, vals, false);
          lost := ParseThose(vals, values, false);
        }
        attrs := attrs[attr := values];
      }
      if gained.None? || lost.None? { return Fail(InvalidDNSyntax); }
      assert attr in attrs ==> attrs == e.attributes[attr := attrs[attr]];
      assert e.added + [] == e.added && e.removed + [] == e.removed;
      return Ok(Edit(attrs, e.added + gained.value, e.removed + lost.value));
    }

    method ModifyAll(entry: Entry, allowed: set<Str>, changes: seq<Modification>) returns (r: Result<Edit>)
      ensures r == Modifies(base, entry, allowed, changes)
    {
      hide ModifyOne;
      var e := Edit(map[], [], []);
      for i := 0 to |changes|
        invariant Modifies(base, entry, allowed, changes[..i]) == Ok(e)
      {
        assert changes[..i + 1][..i] == changes[..i];
        r := ModifyAttribute(entry, allowed, e, changes[i]);
        if r.Fail? {
          ModifiesFail(base, entry, allowed, changes, i + 1);
          return;
        }
        e := r.value;
      }
      assert changes[..|changes|] == changes;
      return Ok(e);
    }

    method AllExist(dns: seq<DN>) returns (all: bool)
      requires store.Valid()
      ensures store.Valid() && store.Contents() == old(store.Contents())
      ensures all <==> forall i | 0 <= i < |dns| :: Lookup(store.Contents(), dns[i]).Some?
    {
      hide Lookup, store.Contents, Arranges, Unshared, Distinct, Key;
      ghost var s := store.Contents();
      for i := 0 to |dns|
        invariant store.Valid() && store.Contents() == s && forall j | 0 <= j < i :: Lookup(s, dns[j]).Some?
      {
        var found := ExistsEntry(dns[i]);
        if !found { return false; }
      }
      return true;
    }

    /** The transaction of `Modify`. */
    method SaveEdit(dn: DN, e: Edit, meta: Meta) returns (error: Option<Failure>)
      requires store.Valid()
      modifies store, store.Maps()
      ensures store.Valid()
      ensures var d := EditChanges(old(store.Contents()), base, dn, e, meta);
              store.Contents() == After(d) && error == (match d.result case Ok(_) => None case Fail(f) => Some(f))
    {
      hide Directory.MembershipAdds, Directory.MembershipRemoves, NewEntry, ApplyChanges, Key, store.Contents,
           Arranges, Unshared, Distinct;
      ghost var s := store.Contents();
      var attrs := e.attributes[MODIFIERSNAME := [meta.user]][MODIFYTIMESTAMP := [meta.timestamp]];

      var tx := new MemTransaction(store);
      StoreEntry(tx, dn, attrs);
      assert tx.Log() == [Put(Stamped(dn, e.attributes, meta))];
      var ok := MembershipAdds(tx, e.added, dn);
      if !ok { return Some(OperationsError); }
      ok := MembershipRemoves(tx, e.removed, dn);
      if !ok { return Some(OperationsError); }
      assert Effect(store.Contents(), Ok(tx.Log())) == EditChanges(s, base, dn, e, meta);
      ok := tx.Commit();
      return None;
    }

    method Modify(allowed: bool, allowedAttrs: set<Str>, r: ModifyRequest, meta: Meta) returns (error: Option<Failure>)
      requires store.Valid()
      modifies store, store.Maps()
      ensures store.Valid()
      ensures var e := ModifyChanges(old(store.Contents()), base, allowed, allowedAttrs, r, meta);
              store.Contents() == After(e) && error == (match e.result case Ok(_) => None case Fail(f) => Some(f))
      ensures Answers.ModifyTable(old(store.Contents()), base, allowed, allowedAttrs, r, error)
    {
      hide *;
      ghost var s := store.Contents();
      error := RunModify(allowed, allowedAttrs, r, meta);
      Answers.ModifyAnswers(s, base, allowed, allowedAttrs, r, meta);
      ErrorIs(ModifyChanges(s, base, allowed, allowedAttrs, r, meta));
    }

    /** The checks, the loops and the transaction. */
    method RunModify(allowed: bool, allowedAttrs: set<Str>, r: ModifyRequest, meta: Meta) returns (error: Option<Failure>)
      requires store.Valid()
      modifies store, store.Maps()
      ensures store.Valid()
      ensures var e := ModifyChanges(old(store.Contents()), base, allowed, allowedAttrs, r, meta);
              store.Contents() == After(e) && error == (match e.result case Ok(_) => None case Fail(f) => Some(f))
    {
      hide ParseUnder, Lookup, Modifies, EditChanges, ApplyChanges, Key, store.Contents, Arranges, Unshared, CanUpdate;
      ghost var s := store.Contents();
      var dn := ParseUnder(base, r.entry, false);
      if dn.None? { return Some(InvalidDNSyntax); }
      if !allowed { return Some(InsufficientAccessRights); }
      var prev := GetEntry(dn.value);
      if prev.None? { return Some(NoSuchObject); }
      var edit := ModifyAll(View(prev.value), allowedAttrs, r.changes);
      if edit.Fail? { return Some(edit.failure); }
      var e := edit.value;
      assert store.Valid() && store.Contents() == s;
      var found := AllExist(e.added);
      if !found { return Some(NoSuchObject); }
      if OBJECTCLASS in e.attributes && e.attributes[OBJECTCLASS] == [] { return Some(InsufficientAccessRights); }
      error := SaveEdit(dn.value, e, meta);
    }

    /** `initialize` stores the base entry unless it is there. */
    method Initialize(classes: seq<Str>, structural: Str, meta: Meta)
      requires store.Valid()
      modifies store
      ensures store.Valid()
      ensures store.Contents()
              == ApplyChanges(old(store.Contents()), InitializeChanges(old(store.Contents()), base, classes,
                  structural, meta))
      ensures Answers.Initialized(old(store.Contents()), store.Contents(), base, classes, structural, meta)
    {
      hide Answers.Initialized;
      Answers.InitializeStores(store.Contents(), base, classes, structural, meta);
      hide Lookup, NewEntry, Key, store.Contents, Arranges, Unshared, Distinct;
      var found := ExistsEntry(base);
      if found { return; }
      var attrs: Attributes := map[OBJECTCLASS := classes, Ascii("structuralobjectclass") := [structural],
                                   CREATORSNAME := [DNString(base)], CREATETIMESTAMP := [meta.timestamp],
                                   ENTRYUUID := [meta.uuid]];
      var tx := new MemTransaction(store);
      StoreEntry(tx, base, attrs);
      assert tx.Log() == [Put(InitialEntry(base, classes, structural, meta))];
      var ok := tx.Commit();
    }
  }

  lemma ErrorIs(e: Effect)
    ensures Answers.ErrorOf(e) == match e.result case Ok(_) => None case Fail(f) => Some(f)
  {
  }

  lemma AppendedStep(vals: seq<Str>, values: seq<Str>, i: nat)
    requires i < |values|
    ensures var front, after := Appended(vals, values[..i]), Appended(vals, values[..i + 1]);
            if values[i] in front then after == front
            else after == front + [values[i]] && after[|vals|..] == front[|vals|..] + [values[i]]
  {
    assert values[..i + 1][..i] == values[..i] && values[..i + 1][i] == values[i];
    var front := Appended(vals, values[..i]);
    assert Appended(vals, values[..i + 1]) == if values[i] in front then front else front + [values[i]];
    hide Appended;
    SliceSnoc(front, values[i], |vals|);
  }

  lemma FilteredNone(vals: seq<Str>, keep: seq<Str>, kept: bool)
    ensures Filtered(vals[..0], keep, kept) == []
  {
  }

  lemma FilteredStep(vals: seq<Str>, keep: seq<Str>, kept: bool, i: nat)
    requires i < |vals|
    ensures var front := Filtered(vals[..i], keep, kept);
            Filtered(vals[..i + 1], keep, kept) == if vals[i] in keep <==> kept then front + [vals[i]] else front
  {
    assert vals[..i + 1][..i] == vals[..i];
  }

  lemma SliceSnoc(front: seq<Str>, v: Str, n: nat)
    requires n <= |front|
    ensures (front + [v])[n..] == front[n..] + [v]
  {
  }

  lemma ParseEachSnoc(base: DN, front: seq<Str>, v: Str)
    ensures ParseEach(base, front + [v])
            == (match ParseEach(base, front)
                case None => None
                case Some(dns) =>
                  match ParseUnder(base, v, false)
                  case None => None
                  case Some(dn) => Some(dns + [dn]))
  {
    assert (front + [v])[..|front|] == front;
  }

  lemma NoneOfNone(base: DN)
    ensures ParseEach(base, []) == Some([])
  {
  }

  lemma NoStrings(base: DN, raws: seq<Str>)
    requires ParseEach(base, raws).Some?
    ensures Strings(ParseEach(base, raws).value) == [] <==> raws == []
  {
    ParseEachLength(base, raws);
  }

  lemma {:induction false} ParseEachLength(base: DN, raws: seq<Str>)
    ensures ParseEach(base, raws).Some? ==> |ParseEach(base, raws).value| == |raws|
  {
    if raws != [] { ParseEachLength(base, raws[..|raws| - 1]); }
  }

  lemma AddNothing(vals: seq<Str>)
    ensures Appended(vals, []) == vals && vals[|vals|..] == []
  {
  }

  /** The listing meets an entry exactly when the scan meets its key. */
  lemma ListedAll(s: Contents, dn: DN, entries: seq<Entry>)
    requires ListsRange(s, Reverse(dn), entries)
    ensures entries == [] <==> forall k | k in s :: !Scanned(Reverse(dn), k)
    ensures forall e | e in entries :: KeyOf(e) in s && s[KeyOf(e)] == e && Scanned(Reverse(dn), KeyOf(e))
    ensures (exists k :: k in s && Scanned(Reverse(dn), k) && s[k].dn != dn)
            <==> exists i :: 0 <= i < |entries| && entries[i].dn != dn
  {
    hide Scanned, Ordered, Key;
    forall k | k in s && Scanned(Reverse(dn), k)
      ensures s[k] in entries
    {
      assert KeyOf(s[k]) == k;
    }
    if entries != [] { assert entries[0] in entries; }
    if i :| 0 <= i < |entries| && entries[i].dn != dn {
      assert entries[i] in entries;
    }
  }
}

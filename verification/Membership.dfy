/** Whether `member` and `memberof` stay inverse relations: exactly when Add and Del keep them so. */
module Membership {
  import opened Wrappers
  import opened Text
  import opened Names
  import opened DirectoryStore
  import opened Directory
  import opened DirectoryTree

  function Name(e: Entry): Str {
    DNString(e.dn)
  }

  /** Some stored entry has this name. */
  ghost predicate Stored(s: Contents, v: Str) {
    exists k :: k in s && Name(s[k]) == v
  }

  ghost predicate Closed(s: Contents) {
    forall k, v | k in s && (v in s[k].Get(MEMBER) || v in s[k].Get(MEMBEROF)) :: Stored(s, v)
  }

  ghost predicate Mutual(s: Contents) {
    forall g, m | g in s && m in s ::
      Name(s[m]) in s[g].Get(MEMBER) <==> Name(s[g]) in s[m].Get(MEMBEROF)
  }

  /** Both relations name stored entries only, and each is the inverse of the other. */
  ghost predicate Inverse(s: Contents) {
    Closed(s) && Mutual(s)
  }

  /******* Names of stored entries *******/

  lemma NameTells(base: DN, s: Contents, dn: DN, k: Str)
    requires Sound(base, s) && k in s && Clean(dn)
    ensures Name(s[k]) == DNString(dn) <==> s[k].dn == dn
    ensures s[k].dn == dn <==> k == Key(dn)
  {
    assert SoundEntry(base, s[k]);
    StringsTellApart(s[k].dn, dn);
  }

  lemma SameNameSameKey(base: DN, s: Contents, j: Str, k: Str)
    requires Sound(base, s) && j in s && k in s && Name(s[j]) == Name(s[k])
    ensures j == k
  {
    assert SoundEntry(base, s[k]);
    NameTells(base, s, s[k].dn, j);
  }

  /** The name of a stored entry parses to it and finds it. */
  lemma NameFinds(base: DN, s: Contents, k: Str)
    requires Sound(base, s) && k in s
    ensures ParseUnder(base, Name(s[k]), false) == Some(s[k].dn) && Lookup(s, s[k].dn) == Some(s[k])
  {
    assert SoundEntry(base, s[k]);
    StringsTellApart(s[k].dn, s[k].dn);
    LookedUp(s, s[k].dn);
  }

  lemma NameHasEquals(dn: DN)
    requires Clean(dn)
    ensures EQUALS in DNString(dn)
  {
    assert EQUALS in PrintAll(dn)[0] by { assert Print(dn[0])[|dn[0].typ|] == EQUALS; }
  }

  /** An entry named by its member or memberof attribute would break closure: its value is no name. */
  lemma RdnOther(base: DN, s: Contents, k: Str)
    requires Sound(base, s) && Closed(s) && k in s
    ensures s[k].dn != [] && AttributeKey(s[k].dn[0].typ) !in [MEMBER, MEMBEROF]
  {
    assert SoundEntry(base, s[k]);
    ValueHasNone(s[k].dn);
    if AttributeKey(s[k].dn[0].typ) in [MEMBER, MEMBEROF] {
      hide Clean, Under, DNString, AttributeKey, Key;
      var value := s[k].dn[0].value;
      assert value in s[k].Get(MEMBER) || value in s[k].Get(MEMBEROF);
      assert Stored(s, value);
      StoredHasEquals(base, s, value);
    }
  }

  lemma StoredHasEquals(base: DN, s: Contents, v: Str)
    requires Sound(base, s) && Stored(s, v)
    ensures EQUALS in v
  {
    var j :| j in s && Name(s[j]) == v;
    assert SoundEntry(base, s[j]);
    NameHasEquals(s[j].dn);
  }

  lemma ValueHasNone(dn: DN)
    requires Clean(dn)
    ensures EQUALS !in dn[0].value
  {
    assert Canonical(dn[0]);
  }

  /** The logged copy is then the entry as it is edited in place. */
  lemma RewriteIs(base: DN, s: Contents, k: Str, attr: Str, vals: seq<Str>)
    requires Sound(base, s) && Closed(s) && k in s && attr in [MEMBER, MEMBEROF]
    ensures var e := With(s[k], attr, vals); Rewrite(s, s[k], attr, vals) == Effect(s[k := e], Ok([Put(e)]))
  {
    assert SoundEntry(base, s[k]);
    RdnOther(base, s, k);
    hide Clean, Under, Key, AttributeKey, Closed, Sound;
    var e, rdn := With(s[k], attr, vals), AttributeKey(s[k].dn[0].typ);
    assert e.attributes[rdn := [e.dn[0].value]] == e.attributes;
    assert NewEntry(e.dn, e.attributes) == e && KeyOf(e) == k;
  }

  /******* Taking a name out of a list *******/

  lemma {:induction false} WithoutTakes(base: DN, s: Contents, vals: seq<Str>, dn: DN)
    requires Sound(base, s) && Clean(dn) && forall v | v in vals :: Stored(s, v)
    ensures Without(base, vals, dn).Some?
    ensures forall v :: v in Without(base, vals, dn).value <==> v in vals && v != DNString(dn)
    ensures DNString(dn) !in vals ==> Without(base, vals, dn).value == vals
  {
    hide Sound, Clean, ParseUnder, DNString;
    if vals != [] {
      var n := |vals| - 1;
      assert vals == vals[..n] + [vals[n]];
      WithoutTakes(base, s, vals[..n], dn);
      assert Stored(s, vals[n]);
      var k :| k in s && Name(s[k]) == vals[n];
      NameFinds(base, s, k);
      NameTells(base, s, dn, k);
    }
  }

  lemma WithoutSnoc(base: DN, front: seq<Str>, b: DN, dn: DN)
    requires Clean(b) && Under(b, base)
    ensures Without(base, front + [DNString(b)], dn)
            == (match Without(base, front, dn)
                case None => None
                case Some(left) => Some(if b == dn then left else left + [DNString(b)]))
  {
    StringsTellApart(b, b);
    hide Clean, Under, DNString, ParseDN;
    assert (front + [DNString(b)])[..|front|] == front;
  }

  /** `membershipRemove` would leave as many names as its subject has components, and gives up. */
  predicate GivesUp(base: DN, e: Entry, attr: Str, dn: DN) {
    Without(base, e.Get(attr), dn).Some? && |Without(base, e.Get(attr), dn).value| == |e.dn|
  }

  /** The entry rid of the name in one of its lists, unless the removal gives up. */
  function Rid(base: DN, e: Entry, attr: Str, dn: DN): (r: Entry)
    requires Without(base, e.Get(attr), dn).Some?
    ensures r.dn == e.dn
  {
    if GivesUp(base, e, attr, dn) then e else With(e, attr, Without(base, e.Get(attr), dn).value)
  }

  lemma RemoveIs(base: DN, s: Contents, attr: Str, k: Str, dn: DN)
    requires Sound(base, s) && Closed(s) && Clean(dn) && attr in [MEMBER, MEMBEROF] && k in s
    ensures Without(base, s[k].Get(attr), dn).Some?
    ensures var e, d := Rid(base, s[k], attr, dn), MembershipRemove(s, base, attr, s[k].dn, dn);
            d.store == s[k := e] && d.result == Ok(if GivesUp(base, s[k], attr, dn) then [] else [Put(e)])
  {
    NameFinds(base, s, k);
    WithoutTakes(base, s, s[k].Get(attr), dn);
    hide Sound, Closed, Clean, DNString, Without, ParseUnder, Lookup, Rewrite;
    RewriteIs(base, s, k, attr, Without(base, s[k].Get(attr), dn).value);
    assert s[k := s[k]] == s;
  }

  /** Once rid of the name, a second removal changes nothing further, and gives up only if the first did. */
  lemma RidOnce(base: DN, s: Contents, e: Entry, attr: Str, dn: DN)
    requires Sound(base, s) && Clean(dn) && forall v | v in e.Get(attr) :: Stored(s, v)
    ensures Without(base, e.Get(attr), dn).Some? && Without(base, Rid(base, e, attr, dn).Get(attr), dn).Some?
    ensures Rid(base, Rid(base, e, attr, dn), attr, dn) == Rid(base, e, attr, dn)
    ensures GivesUp(base, Rid(base, e, attr, dn), attr, dn) <==> GivesUp(base, e, attr, dn)
  {
    WithoutAgain(base, s, e.Get(attr), dn);
    WithTwice(e, attr, Without(base, e.Get(attr), dn).value);
    hide Sound, Clean, Without, DNString, With;
  }

  lemma WithoutAgain(base: DN, s: Contents, vals: seq<Str>, dn: DN)
    requires Sound(base, s) && Clean(dn) && forall v | v in vals :: Stored(s, v)
    ensures Without(base, vals, dn).Some?
    ensures Without(base, Without(base, vals, dn).value, dn) == Without(base, vals, dn)
  {
    WithoutTakes(base, s, vals, dn);
    WithoutTakes(base, s, Without(base, vals, dn).value, dn);
    hide *;
  }

  lemma WithTwice(e: Entry, attr: Str, vals: seq<Str>)
    ensures var f := With(e, attr, vals); f.dn == e.dn && f.Get(attr) == vals && With(f, attr, vals) == f
  {
  }

  /** In place, the listed entries are rid of the name in one list. */
  ghost predicate Swept(base: DN, s: Contents, t: Contents, attr: Str, raws: seq<Str>, dn: DN) {
    && t.Keys == s.Keys
    && forall k | k in s :: Without(base, s[k].Get(attr), dn).Some?
                            && t[k] == if Name(s[k]) in raws then Rid(base, s[k], attr, dn) else s[k]
  }

  /** The log writes what the removals edited, as it is at the end. */
  ghost predicate SweptLog(base: DN, s: Contents, t: Contents, cs: seq<Change>, attr: Str, raws: seq<Str>, dn: DN)
    requires t.Keys == s.Keys
  {
    forall k :: LastChange(cs, k) == if k in s && Name(s[k]) in raws && !GivesUp(base, s[k], attr, dn)
        then Some(Put(t[k])) else None
  }

  lemma RidGet(base: DN, e: Entry, attr: Str, dn: DN, a: Str)
    requires Without(base, e.Get(attr), dn).Some?
    ensures Rid(base, e, attr, dn).Get(a)
            == if a == attr && !GivesUp(base, e, attr, dn) then Without(base, e.Get(attr), dn).value else e.Get(a)
  {
    hide Without;
  }

  lemma RidHoldsName(base: DN, e: Entry, attr: Str, dn: DN)
    requires Without(base, e.Get(attr), dn).Some? && HoldsName(e) && AttributeKey(e.dn[0].typ) != attr
    ensures HoldsName(Rid(base, e, attr, dn))
  {
    RidGet(base, e, attr, dn, AttributeKey(e.dn[0].typ));
    hide Without, Rid, AttributeKey;
  }

  lemma RidKeeps(base: DN, s: Contents, k: Str, attr: Str, dn: DN)
    requires Sound(base, s) && Closed(s) && Clean(dn) && attr in [MEMBER, MEMBEROF] && k in s
    ensures Without(base, s[k].Get(attr), dn).Some? && SoundEntry(base, Rid(base, s[k], attr, dn))
    ensures var e := Rid(base, s[k], attr, dn);
            forall v | v in e.Get(MEMBER) || v in e.Get(MEMBEROF) :: Stored(s, v)
  {
    WithoutTakes(base, s, s[k].Get(attr), dn);
    RdnOther(base, s, k);
    assert SoundEntry(base, s[k]);
    hide Clean, Under, AttributeKey, Without, Sound, DNString, Stored, Rid, HoldsName, GivesUp;
    RidHoldsName(base, s[k], attr, dn);
    RidGet(base, s[k], attr, dn, MEMBER);
    RidGet(base, s[k], attr, dn, MEMBEROF);
  }

  lemma SweptKeeps(base: DN, s: Contents, t: Contents, attr: Str, raws: seq<Str>, dn: DN)
    requires Sound(base, s) && Closed(s) && Clean(dn) && attr in [MEMBER, MEMBEROF] && Swept(base, s, t, attr, raws, dn)
    ensures Sound(base, t) && Closed(t) && (forall k | k in s :: t[k].dn == s[k].dn)
    ensures forall v :: Stored(s, v) <==> Stored(t, v)
  {
    hide Without, Clean, Rid, SoundEntry, DNString;
    forall k | k in s
      ensures SoundEntry(base, t[k]) && t[k].dn == s[k].dn
      ensures forall v | v in t[k].Get(MEMBER) || v in t[k].Get(MEMBEROF) :: Stored(s, v)
    {
      RidKeeps(base, s, k, attr, dn);
    }
    SameStored(s, t);
  }

  lemma SameStored(s: Contents, t: Contents)
    requires t.Keys == s.Keys && forall k | k in s :: t[k].dn == s[k].dn
    ensures forall v :: Stored(s, v) <==> Stored(t, v)
  {
    hide DNString;
    forall v
      ensures Stored(s, v) <==> Stored(t, v)
    {
      if k :| k in s && Name(s[k]) == v { assert Name(t[k]) == v; }
      if k :| k in t && Name(t[k]) == v { assert Name(s[k]) == v; }
    }
  }

  lemma StoredUnder(base: DN, s: Contents, v: Str) returns (j: Str)
    requires Sound(base, s) && Stored(s, v)
    ensures j in s && Name(s[j]) == v && ParseUnder(base, v, false) == Some(s[j].dn)
  {
    j :| j in s && Name(s[j]) == v;
    NameFinds(base, s, j);
  }

  /** One more removal, of an entry that may have been listed before. */
  lemma SweepOne(base: DN, s: Contents, t: Contents, attr: Str, front: seq<Str>, j: Str, dn: DN)
    requires Sound(base, s) && Closed(s) && Clean(dn) && attr in [MEMBER, MEMBEROF]
    requires Swept(base, s, t, attr, front, dn) && j in s
    ensures var e := MembershipRemove(t, base, attr, s[j].dn, dn);
            && Swept(base, s, e.store, attr, front + [Name(s[j])], dn) && e.store == t[j := e.store[j]]
            && e.result == Ok(if GivesUp(base, s[j], attr, dn) then [] else [Put(e.store[j])])
  {
    hide *;
    SweptKeeps(base, s, t, attr, front, dn);
    SweptAt(base, s, t, attr, front, dn, j);
    ClosedAt(s, j, attr);
    RidOnce(base, s, s[j], attr, dn);
    RemoveIs(base, t, attr, j, dn);
    var e := MembershipRemove(t, base, attr, s[j].dn, dn);
    assert e.store[j] == Rid(base, s[j], attr, dn);
    SweptMore(base, s, t, e.store, attr, front, dn, j);
  }

  lemma ClosedAt(s: Contents, k: Str, attr: Str)
    requires Closed(s) && k in s && attr in [MEMBER, MEMBEROF]
    ensures forall v | v in s[k].Get(attr) :: Stored(s, v)
  {
  }

  lemma SweptAt(base: DN, s: Contents, t: Contents, attr: Str, raws: seq<Str>, dn: DN, k: Str)
    requires Swept(base, s, t, attr, raws, dn) && k in s
    ensures k in t && Without(base, s[k].Get(attr), dn).Some?
    ensures t[k] == if Name(s[k]) in raws then Rid(base, s[k], attr, dn) else s[k]
  {
    hide Without, Rid, DNString;
  }

  lemma SweptMore(base: DN, s: Contents, t: Contents, u: Contents, attr: Str, front: seq<Str>, dn: DN, j: Str)
    requires Sound(base, s) && j in s && Swept(base, s, t, attr, front, dn)
    requires Without(base, s[j].Get(attr), dn).Some? && u == t[j := Rid(base, s[j], attr, dn)]
    ensures Swept(base, s, u, attr, front + [Name(s[j])], dn)
  {
    hide Without, Rid, Name, Sound, KeyOf, GivesUp;
    forall k | k in s
      ensures Without(base, s[k].Get(attr), dn).Some?
      ensures u[k] == if Name(s[k]) in front + [Name(s[j])] then Rid(base, s[k], attr, dn) else s[k]
    {
      SweptAt(base, s, t, attr, front, dn, k);
      if Name(s[k]) == Name(s[j]) { SameNameSameKey(base, s, j, k); }
    }
  }

  /** What removing a name from the lists of the entries listed comes to. */
  lemma {:induction false} Sweeps(base: DN, s: Contents, attr: Str, raws: seq<Str>, dn: DN)
    requires Sound(base, s) && Closed(s) && Clean(dn) && attr in [MEMBER, MEMBEROF]
    requires forall v | v in raws :: Stored(s, v)
    ensures var e := RawRemoves(s, base, attr, raws, dn);
            && e.result.Ok? && Swept(base, s, e.store, attr, raws, dn)
            && SweptLog(base, s, e.store, e.result.value, attr, raws, dn)
  {
    hide Sound, Closed, Clean, Stored, ParseUnder, MembershipRemove, Swept, SweptLog, Key;
    if raws == [] {
      SweptNone(base, s, attr, dn);
    } else {
      var n := |raws| - 1;
      var front := RawRemoves(s, base, attr, raws[..n], dn);
      assert raws == raws[..n] + [raws[n]] && raws[n] in raws;
      Sweeps(base, s, attr, raws[..n], dn);
      SweptShape(base, s, front.store, attr, raws[..n], dn);
      var j := StoredUnder(base, s, raws[n]);
      SweepOne(base, s, front.store, attr, raws[..n], j, dn);
      var last := MembershipRemove(front.store, base, attr, s[j].dn, dn);
      SweptShape(base, s, last.store, attr, raws, dn);
      LogOne(base, s, front.store, last.store, front.result.value, last.result.value, attr, raws[..n], dn, j);
    }
  }

  lemma SweptNone(base: DN, s: Contents, attr: Str, dn: DN)
    requires Sound(base, s) && Closed(s) && Clean(dn) && attr in [MEMBER, MEMBEROF]
    ensures Swept(base, s, s, attr, [], dn) && SweptLog(base, s, s, [], attr, [], dn)
  {
    hide Sound, Clean, Without;
    forall k | k in s
      ensures Without(base, s[k].Get(attr), dn).Some?
    {
      WithoutTakes(base, s, s[k].Get(attr), dn);
    }
  }

  lemma SweptShape(base: DN, s: Contents, t: Contents, attr: Str, raws: seq<Str>, dn: DN)
    requires Swept(base, s, t, attr, raws, dn)
    ensures t.Keys == s.Keys
  {
  }

  lemma LogOne(base: DN, s: Contents, t: Contents, u: Contents, cs: seq<Change>, last: seq<Change>, attr: Str,
               front: seq<Str>, dn: DN, j: Str)
    requires Sound(base, s) && j in s && t.Keys == s.Keys && u.Keys == s.Keys && u == t[j := u[j]]
    requires SweptLog(base, s, t, cs, attr, front, dn)
    requires last == if GivesUp(base, s[j], attr, dn) then [] else [Put(u[j])]
    ensures SweptLog(base, s, u, cs + last, attr, front + [Name(s[j])], dn)
  {
    hide GivesUp, DNString, LastChange, Sound, KeyOf;
    assert KeyOf(u[j]) == j;
    forall k
      ensures LastChange(cs + last, k) == if k in s && Name(s[k]) in front + [Name(s[j])] && !GivesUp(base, s[k], attr, dn)
                                          then Some(Put(u[k])) else None
    {
      LastChangeAppend(cs, last, k);
      OneChange(last, k);
      if k in s && Name(s[k]) == Name(s[j]) { SameNameSameKey(base, s, j, k); }
    }
  }

  lemma OneChange(cs: seq<Change>, k: Str)
    requires |cs| <= 1
    ensures LastChange(cs, k) == if |cs| == 1 && Touched(cs[0]) == k then Some(cs[0]) else None
  {
  }

  /******* Del *******/

  /** The removal from one list of a stored entry takes place. */
  predicate Taken(base: DN, e: Entry, attr: Str, raws: seq<Str>, dn: DN) {
    Name(e) in raws && !GivesUp(base, e, attr, dn)
  }

  /**
   * What a Del leaves under a key: each removal that takes place lasts, also where both are of the same
   * entry, and the deleted entry is there again if it was itself among those written after the deletion.
   */
  ghost predicate RemovalAt(base: DN, s: Contents, t: Contents, dn: DN, k: Str)
    requires Key(dn) in s && k in s
  {
    var e, own := s[k], s[Key(dn)];
    var left := Taken(base, e, MEMBER, own.Get(MEMBEROF), dn);
    var lost := Taken(base, e, MEMBEROF, own.Get(MEMBER), dn);
    && (k in t <==> k != Key(dn) || left || lost)
    && (k in t ==>
          && t[k].dn == e.dn
          && forall v :: && (v in t[k].Get(MEMBER) <==> v in e.Get(MEMBER) && !(v == DNString(dn) && left))
                         && (v in t[k].Get(MEMBEROF) <==> v in e.Get(MEMBEROF) && !(v == DNString(dn) && lost)))
  }

  /** The edits in place, of the groups first and of the members then. */
  ghost predicate BothSwept(base: DN, s: Contents, u: Contents, t: Contents, dn: DN)
    requires Key(dn) in s
  {
    && Swept(base, s, u, MEMBER, s[Key(dn)].Get(MEMBEROF), dn)
    && Swept(base, u, t, MEMBEROF, s[Key(dn)].Get(MEMBER), dn)
  }

  lemma RemovalIs(base: DN, s: Contents, dn: DN)
    requires Sound(base, s) && Closed(s) && Clean(dn) && Key(dn) in s
    ensures Removal(base, s, dn).result.Ok?
    ensures var t := After(Removal(base, s, dn)); t.Keys <= s.Keys && forall k | k in s :: RemovalAt(base, s, t, dn, k)
  {
    hide Sound, Closed, Clean, RawRemoves, Key, ApplyChanges, Swept, SweptLog, RemovalAt, Stored;
    var mo, ml := s[Key(dn)].Get(MEMBEROF), s[Key(dn)].Get(MEMBER);
    ClosedAt(s, Key(dn), MEMBEROF);
    ClosedAt(s, Key(dn), MEMBER);
    Sweeps(base, s, MEMBER, mo, dn);
    var groups := RawRemoves(s, base, MEMBER, mo, dn);
    SweptKeeps(base, s, groups.store, MEMBER, mo, dn);
    Sweeps(base, groups.store, MEMBEROF, ml, dn);
    var members := RawRemoves(groups.store, base, MEMBEROF, ml, dn);
    SweptShape(base, s, groups.store, MEMBER, mo, dn);
    SweptShape(base, groups.store, members.store, MEMBEROF, ml, dn);
    var t := After(Removal(base, s, dn));
    assert t == ApplyChanges(members.store, [Drop(dn)] + groups.result.value + members.result.value);
    hide Removal, After;
    forall k
      ensures k in t ==> k in s
      ensures k in s ==> RemovalAt(base, s, t, dn, k)
    {
      AfterSweeps(base, s, groups, members, dn, k);
      if k in s { SweptTwice(base, s, groups.store, members.store, t, dn, k); }
    }
  }

  /** The log agrees with the edits in place, except for the deleted entry. */
  lemma AfterSweeps(base: DN, s: Contents, groups: Effect, members: Effect, dn: DN, k: Str)
    requires Key(dn) in s && groups.store.Keys == s.Keys && members.store.Keys == s.Keys
    requires groups.result.Ok? && members.result.Ok?
    requires BothSwept(base, s, groups.store, members.store, dn)
    requires SweptLog(base, s, groups.store, groups.result.value, MEMBER, s[Key(dn)].Get(MEMBEROF), dn)
    requires SweptLog(base, groups.store, members.store, members.result.value, MEMBEROF, s[Key(dn)].Get(MEMBER), dn)
    ensures var t := ApplyChanges(members.store, [Drop(dn)] + groups.result.value + members.result.value);
            var left := k in s && Taken(base, s[k], MEMBER, s[Key(dn)].Get(MEMBEROF), dn);
            var lost := k in s && Taken(base, groups.store[k], MEMBEROF, s[Key(dn)].Get(MEMBER), dn);
            && (k in t <==> k in s && (k != Key(dn) || left || lost))
            && (k in t ==> t[k] == members.store[k])
  {
    hide Key, ApplyChanges, LastChange, GivesUp, Without, Rid, DNString;
    AppliedAt(members.store, [Drop(dn)] + groups.result.value + members.result.value, k);
    LastChangeAppend([Drop(dn)] + groups.result.value, members.result.value, k);
    LastChangeAppend([Drop(dn)], groups.result.value, k);
    OneChange([Drop(dn)], k);
    if k in s {
      SweptAt(base, groups.store, members.store, MEMBEROF, s[Key(dn)].Get(MEMBER), dn, k);
      hide Swept;
      if Name(groups.store[k]) in s[Key(dn)].Get(MEMBER) { RidUnless(base, groups.store[k], MEMBEROF, dn); }
    }
  }

  lemma RidUnless(base: DN, e: Entry, attr: Str, dn: DN)
    requires Without(base, e.Get(attr), dn).Some?
    ensures GivesUp(base, e, attr, dn) ==> Rid(base, e, attr, dn) == e
  {
    hide Without;
  }

  lemma SweptTwice(base: DN, s: Contents, u: Contents, v: Contents, t: Contents, dn: DN, k: Str)
    requires Sound(base, s) && Closed(s) && Clean(dn) && Key(dn) in s && k in s && BothSwept(base, s, u, v, dn)
    requires u.Keys == s.Keys && v.Keys == s.Keys
    requires var left := Taken(base, s[k], MEMBER, s[Key(dn)].Get(MEMBEROF), dn);
             var lost := Taken(base, u[k], MEMBEROF, s[Key(dn)].Get(MEMBER), dn);
             && (k in t <==> k != Key(dn) || left || lost) && (k in t ==> t[k] == v[k])
    ensures RemovalAt(base, s, t, dn, k)
  {
    var mo, ml := s[Key(dn)].Get(MEMBEROF), s[Key(dn)].Get(MEMBER);
    hide *;
    BothAt(base, s, u, v, dn, k);
    ClosedAt(s, k, MEMBER);
    ClosedAt(s, k, MEMBEROF);
    ListsDiffer();
    var e := s[k];
    SweptLists(base, s, e, u[k], MEMBER, mo, dn);
    assert u[k].Get(MEMBEROF) == e.Get(MEMBEROF);
    SweptLists(base, s, u[k], v[k], MEMBEROF, ml, dn);
    SameTaken(base, e, u[k], MEMBEROF, ml, dn);
    RemovalAtIs(base, s, t, dn, k);
  }

  lemma ListsDiffer()
    ensures MEMBER != MEMBEROF
  {
    assert |MEMBER| != |MEMBEROF|;
  }

  lemma BothAt(base: DN, s: Contents, u: Contents, v: Contents, dn: DN, k: Str)
    requires Key(dn) in s && k in s && BothSwept(base, s, u, v, dn)
    ensures k in u && k in v && Without(base, s[k].Get(MEMBER), dn).Some? && Without(base, u[k].Get(MEMBEROF), dn).Some?
    ensures u[k] == if Name(s[k]) in s[Key(dn)].Get(MEMBEROF) then Rid(base, s[k], MEMBER, dn) else s[k]
    ensures v[k] == if Name(u[k]) in s[Key(dn)].Get(MEMBER) then Rid(base, u[k], MEMBEROF, dn) else u[k]
  {
    hide Swept;
    SweptAt(base, s, u, MEMBER, s[Key(dn)].Get(MEMBEROF), dn, k);
    SweptAt(base, u, v, MEMBEROF, s[Key(dn)].Get(MEMBER), dn, k);
    hide Without, Rid, Name;
  }

  lemma SweptLists(base: DN, s: Contents, e: Entry, f: Entry, attr: Str, raws: seq<Str>, dn: DN)
    requires Sound(base, s) && Clean(dn) && (forall v | v in e.Get(attr) :: Stored(s, v))
    requires Without(base, e.Get(attr), dn).Some?
    requires f == if Name(e) in raws then Rid(base, e, attr, dn) else e
    ensures f.dn == e.dn && forall a | a != attr :: f.Get(a) == e.Get(a)
    ensures forall v :: v in f.Get(attr) <==> v in e.Get(attr) && !(v == DNString(dn) && Taken(base, e, attr, raws, dn))
  {
    WithoutTakes(base, s, e.Get(attr), dn);
    hide Sound, Clean, Stored, Without, GivesUp, DNString, Rid;
    RidGet(base, e, attr, dn, attr);
    forall a | a != attr
      ensures f.Get(a) == e.Get(a)
    {
      RidGet(base, e, attr, dn, a);
    }
  }

  lemma SameTaken(base: DN, e: Entry, f: Entry, attr: Str, raws: seq<Str>, dn: DN)
    requires f.dn == e.dn && f.Get(attr) == e.Get(attr)
    ensures Taken(base, e, attr, raws, dn) <==> Taken(base, f, attr, raws, dn)
  {
  }

  lemma RemovalAtIs(base: DN, s: Contents, t: Contents, dn: DN, k: Str)
    requires Key(dn) in s && k in s
    requires var left := Taken(base, s[k], MEMBER, s[Key(dn)].Get(MEMBEROF), dn);
             var lost := Taken(base, s[k], MEMBEROF, s[Key(dn)].Get(MEMBER), dn);
             && (k in t <==> k != Key(dn) || left || lost)
             && (k in t ==> && t[k].dn == s[k].dn
                            && forall v ::
                                 && (v in t[k].Get(MEMBER) <==> v in s[k].Get(MEMBER) && !(v == DNString(dn) && left))
                                 && (v in t[k].Get(MEMBEROF) <==> v in s[k].Get(MEMBEROF) && !(v == DNString(dn) && lost)))
    ensures RemovalAt(base, s, t, dn, k)
  {
    hide Taken, DNString;
  }

  /** A group that is its own member is there again after its Del, unless both removals from it give up. */
  ghost predicate Returns(base: DN, s: Contents, dn: DN)
    requires Key(dn) in s
  {
    && DNString(dn) in s[Key(dn)].Get(MEMBER)
    && !(GivesUp(base, s[Key(dn)], MEMBER, dn) && GivesUp(base, s[Key(dn)], MEMBEROF, dn))
  }

  /**
   * When a Del leaves the relations inverse: for an entry that is gone, when no removal from another entry
   * gives up; for one that is there again, when all those give up and both from itself are done.
   */
  ghost predicate Removable(base: DN, s: Contents, dn: DN)
    requires Key(dn) in s
  {
    var again, own := Returns(base, s, dn), s[Key(dn)];
    && (again ==> !GivesUp(base, own, MEMBER, dn) && !GivesUp(base, own, MEMBEROF, dn))
    && forall k | k in s && k != Key(dn) ::
         && (Name(s[k]) in own.Get(MEMBEROF) ==> (GivesUp(base, s[k], MEMBER, dn) <==> again))
         && (Name(s[k]) in own.Get(MEMBER) ==> (GivesUp(base, s[k], MEMBEROF, dn) <==> again))
  }

  /** The same in terms of the lists of the others, as they are and as they become. */
  ghost predicate DelAt(base: DN, s: Contents, t: Contents, dn: DN, k: Str)
    requires Key(dn) in s && k in s
  {
    var n := DNString(dn);
    && (k in t <==> k != Key(dn) || Returns(base, s, dn))
    && (k in t ==>
          && Name(t[k]) == Name(s[k])
          && forall v ::
               && (v in t[k].Get(MEMBER) <==>
                     v in s[k].Get(MEMBER) && (v == n ==> GivesUp(base, s[k], MEMBER, dn)))
               && (v in t[k].Get(MEMBEROF) <==>
                     v in s[k].Get(MEMBEROF) && (v == n ==> GivesUp(base, s[k], MEMBEROF, dn))))
  }

  lemma ListsOwn(base: DN, s: Contents, dn: DN, k: Str)
    requires Sound(base, s) && Mutual(s) && Clean(dn) && Key(dn) in s && k in s
    ensures DNString(dn) in s[k].Get(MEMBER) <==> Name(s[k]) in s[Key(dn)].Get(MEMBEROF)
    ensures DNString(dn) in s[k].Get(MEMBEROF) <==> Name(s[k]) in s[Key(dn)].Get(MEMBER)
    ensures Name(s[Key(dn)]) == DNString(dn)
  {
    NameTells(base, s, dn, Key(dn));
    hide Sound, Clean, Key, DNString;
    var own := Key(dn);
    assert Name(s[own]) in s[k].Get(MEMBER) <==> Name(s[k]) in s[own].Get(MEMBEROF);
    assert Name(s[k]) in s[own].Get(MEMBER) <==> Name(s[own]) in s[k].Get(MEMBEROF);
  }

  /** Whether a removal is done of an entry goes by its own lists: the name is in those it is taken out of. */
  lemma RemovalLists(base: DN, s: Contents, t: Contents, dn: DN, k: Str)
    requires Key(dn) in s && k in s && RemovalAt(base, s, t, dn, k)
    requires DNString(dn) in s[k].Get(MEMBER) <==> Name(s[k]) in s[Key(dn)].Get(MEMBEROF)
    requires DNString(dn) in s[k].Get(MEMBEROF) <==> Name(s[k]) in s[Key(dn)].Get(MEMBER)
    ensures k in t <==> || k != Key(dn)
                        || (DNString(dn) in s[k].Get(MEMBER) && !GivesUp(base, s[k], MEMBER, dn))
                        || (DNString(dn) in s[k].Get(MEMBEROF) && !GivesUp(base, s[k], MEMBEROF, dn))
    ensures k in t ==>
              && Name(t[k]) == Name(s[k])
              && forall v ::
                   && (v in t[k].Get(MEMBER) <==>
                         v in s[k].Get(MEMBER) && (v == DNString(dn) ==> GivesUp(base, s[k], MEMBER, dn)))
                   && (v in t[k].Get(MEMBEROF) <==>
                         v in s[k].Get(MEMBEROF) && (v == DNString(dn) ==> GivesUp(base, s[k], MEMBEROF, dn)))
  {
    hide Key, GivesUp, DNString;
  }

  lemma DelAtIs(base: DN, s: Contents, t: Contents, dn: DN, k: Str)
    requires Sound(base, s) && Mutual(s) && Clean(dn) && Key(dn) in s && k in s && RemovalAt(base, s, t, dn, k)
    ensures DelAt(base, s, t, dn, k)
  {
    hide Sound, Clean, Key, GivesUp, Name, DNString, Mutual, RemovalAt;
    ListsOwn(base, s, dn, k);
    ListsOwn(base, s, dn, Key(dn));
    RemovalLists(base, s, t, dn, k);
  }

  lemma DelKeepsInverseIff(base: DN, s: Contents, dn: DN)
    requires Sound(base, s) && Inverse(s) && Clean(dn) && Key(dn) in s
    ensures Removal(base, s, dn).result.Ok?
    ensures Key(dn) in After(Removal(base, s, dn)) <==> Returns(base, s, dn)
    ensures Inverse(After(Removal(base, s, dn))) <==> Removable(base, s, dn)
  {
    hide Key, Clean, Sound, Removal, RemovalAt, DelAt, After, Closed, Mutual, Removable, Returns, DNString;
    RemovalIs(base, s, dn);
    var t := After(Removal(base, s, dn));
    forall k | k in s
      ensures DelAt(base, s, t, dn, k)
    {
      DelAtIs(base, s, t, dn, k);
    }
    OwnAfter(base, s, t, dn);
    if Removable(base, s, dn) {
      RemovableClosed(base, s, t, dn);
      RemovableMutual(base, s, t, dn);
    } else if Inverse(t) {
      InverseRemovable(base, s, t, dn);
    }
  }

  lemma OwnAfter(base: DN, s: Contents, t: Contents, dn: DN)
    requires Key(dn) in s && DelAt(base, s, t, dn, Key(dn))
    ensures Key(dn) in t <==> Returns(base, s, dn)
  {
    hide Returns, GivesUp, DNString;
  }

  /** What one key of another entry or of the deleted one comes to, with the condition met. */
  lemma RemovableAt(base: DN, s: Contents, t: Contents, dn: DN, k: Str)
    requires Sound(base, s) && Mutual(s) && Clean(dn) && Key(dn) in s && Removable(base, s, dn)
    requires k in s && DelAt(base, s, t, dn, k)
    ensures k in t <==> k != Key(dn) || Returns(base, s, dn)
    ensures Name(s[k]) == DNString(dn) <==> k == Key(dn)
    ensures k in t ==> Name(t[k]) == Name(s[k])
    ensures k in t ==> forall v :: v in t[k].Get(MEMBER) <==>
              v in s[k].Get(MEMBER) && (v == DNString(dn) ==> k != Key(dn) && Returns(base, s, dn))
    ensures k in t ==> forall v :: v in t[k].Get(MEMBEROF) <==>
              v in s[k].Get(MEMBEROF) && (v == DNString(dn) ==> k != Key(dn) && Returns(base, s, dn))
  {
    NameTells(base, s, dn, k);
    ListsOwn(base, s, dn, k);
    ListsOwn(base, s, dn, Key(dn));
    hide Sound, Clean, Key, GivesUp, DNString, Returns, Mutual;
  }

  lemma RemovableClosed(base: DN, s: Contents, t: Contents, dn: DN)
    requires Sound(base, s) && Inverse(s) && Clean(dn) && Key(dn) in s && Removable(base, s, dn)
    requires t.Keys <= s.Keys && forall k | k in s :: DelAt(base, s, t, dn, k)
    ensures Closed(t)
  {
    hide DelAt, Removable, Key, Clean, Sound, Mutual, Returns, DNString;
    forall k, v | k in t && (v in t[k].Get(MEMBER) || v in t[k].Get(MEMBEROF))
      ensures Stored(t, v)
    {
      RemovableAt(base, s, t, dn, k);
      assert Stored(s, v);
      var j :| j in s && Name(s[j]) == v;
      RemovableAt(base, s, t, dn, j);
      assert Name(t[j]) == v;
    }
  }

  lemma RemovableMutual(base: DN, s: Contents, t: Contents, dn: DN)
    requires Sound(base, s) && Inverse(s) && Clean(dn) && Key(dn) in s && Removable(base, s, dn)
    requires t.Keys <= s.Keys && forall k | k in s :: DelAt(base, s, t, dn, k)
    ensures Mutual(t)
  {
    hide DelAt, Removable, Key, Clean, Sound, Returns, Closed, DNString;
    forall g, m | g in t && m in t
      ensures Name(t[m]) in t[g].Get(MEMBER) <==> Name(t[g]) in t[m].Get(MEMBEROF)
    {
      RemovableAt(base, s, t, dn, g);
      RemovableAt(base, s, t, dn, m);
      assert Name(s[m]) in s[g].Get(MEMBER) <==> Name(s[g]) in s[m].Get(MEMBEROF);
    }
  }

  /** Without the deleted entry nothing may list it; with it, the others must list it as it lists them. */
  lemma InverseRemovable(base: DN, s: Contents, t: Contents, dn: DN)
    requires Sound(base, s) && Inverse(s) && Clean(dn) && Key(dn) in s && Inverse(t)
    requires t.Keys <= s.Keys && forall k | k in s :: DelAt(base, s, t, dn, k)
    ensures Removable(base, s, dn)
  {
    hide DelAt, Key, Clean, Sound, Returns, Closed, Mutual, DNString, GivesUp;
    if Returns(base, s, dn) {
      OwnBoth(base, s, t, dn);
      forall k | k in s && k != Key(dn)
        ensures Name(s[k]) in s[Key(dn)].Get(MEMBEROF) ==> GivesUp(base, s[k], MEMBER, dn)
        ensures Name(s[k]) in s[Key(dn)].Get(MEMBER) ==> GivesUp(base, s[k], MEMBEROF, dn)
      {
        OthersList(base, s, t, dn, k);
      }
    } else {
      forall k | k in s && k != Key(dn)
        ensures Name(s[k]) in s[Key(dn)].Get(MEMBEROF) ==> !GivesUp(base, s[k], MEMBER, dn)
        ensures Name(s[k]) in s[Key(dn)].Get(MEMBER) ==> !GivesUp(base, s[k], MEMBEROF, dn)
      {
        NoneLists(base, s, t, dn, k);
      }
    }
  }

  lemma OwnBoth(base: DN, s: Contents, t: Contents, dn: DN)
    requires Sound(base, s) && Mutual(s) && Clean(dn) && Key(dn) in s && Returns(base, s, dn)
    requires Mutual(t) && DelAt(base, s, t, dn, Key(dn))
    ensures !GivesUp(base, s[Key(dn)], MEMBER, dn) && !GivesUp(base, s[Key(dn)], MEMBEROF, dn)
  {
    var own := Key(dn);
    NameTells(base, s, dn, own);
    hide Sound, Clean, Key, GivesUp, DNString;
    assert Name(s[own]) in s[own].Get(MEMBER) <==> Name(s[own]) in s[own].Get(MEMBEROF);
    assert Name(t[own]) in t[own].Get(MEMBER) <==> Name(t[own]) in t[own].Get(MEMBEROF);
    hide Mutual;
  }

  lemma OthersList(base: DN, s: Contents, t: Contents, dn: DN, k: Str)
    requires Sound(base, s) && Mutual(s) && Clean(dn) && Key(dn) in s && Returns(base, s, dn)
    requires Mutual(t) && k in s && k != Key(dn) && DelAt(base, s, t, dn, k) && DelAt(base, s, t, dn, Key(dn))
    ensures Name(s[k]) in s[Key(dn)].Get(MEMBEROF) ==> GivesUp(base, s[k], MEMBER, dn)
    ensures Name(s[k]) in s[Key(dn)].Get(MEMBER) ==> GivesUp(base, s[k], MEMBEROF, dn)
  {
    var own := Key(dn);
    NameTells(base, s, dn, own);
    NameTells(base, s, dn, k);
    hide Sound, Clean, Key, GivesUp, DNString, Returns;
    assert Name(t[own]) in t[k].Get(MEMBER) <==> Name(t[k]) in t[own].Get(MEMBEROF);
    assert Name(t[k]) in t[own].Get(MEMBER) <==> Name(t[own]) in t[k].Get(MEMBEROF);
    hide Mutual;
  }

  lemma NoneLists(base: DN, s: Contents, t: Contents, dn: DN, k: Str)
    requires Sound(base, s) && Mutual(s) && Clean(dn) && Key(dn) in s && !Returns(base, s, dn) && Closed(t)
    requires t.Keys <= s.Keys && forall j | j in s :: DelAt(base, s, t, dn, j)
    requires k in s && k != Key(dn)
    ensures Name(s[k]) in s[Key(dn)].Get(MEMBEROF) ==> !GivesUp(base, s[k], MEMBER, dn)
    ensures Name(s[k]) in s[Key(dn)].Get(MEMBER) ==> !GivesUp(base, s[k], MEMBEROF, dn)
  {
    var own := Key(dn);
    NameTells(base, s, dn, own);
    assert DelAt(base, s, t, dn, k) && DelAt(base, s, t, dn, own);
    NotThere(base, s, t, dn);
    ListsOwn(base, s, dn, k);
    hide Sound, Clean, Key, GivesUp, DNString, Returns, Stored, Mutual;
    assert DNString(dn) !in t[k].Get(MEMBER) && DNString(dn) !in t[k].Get(MEMBEROF);
  }

  lemma NotThere(base: DN, s: Contents, t: Contents, dn: DN)
    requires Sound(base, s) && Clean(dn) && Key(dn) in s && !Returns(base, s, dn)
    requires t.Keys <= s.Keys && forall j | j in s :: DelAt(base, s, t, dn, j)
    ensures !Stored(t, DNString(dn))
  {
    hide Sound, Clean, Key, GivesUp, DNString, Returns;
    forall j | j in t
      ensures Name(t[j]) != DNString(dn)
    {
      NameTells(base, s, dn, j);
      assert DelAt(base, s, t, dn, j);
    }
  }

  /**
   * A Del that passes the leaf check always completes, and keeps the relations inverse exactly when it
   * may. The entry is then still stored exactly when it was its own member and not both removals gave up.
   */
  lemma DelKeepsInverse(base: DN, s: Contents, allowed: bool, raw: Str)
    requires Tree(base, s) && Inverse(s)
    ensures DelChanges(s, base, allowed, raw).result.Fail? ==> Refused(s, DelChanges(s, base, allowed, raw))
    ensures DelChanges(s, base, allowed, raw).result.Ok? ==>
              var dn := ParseUnder(base, raw, false).value;
              && Key(dn) in s
              && (Key(dn) in After(DelChanges(s, base, allowed, raw)) <==> Returns(base, s, dn))
              && (Inverse(After(DelChanges(s, base, allowed, raw))) <==> Removable(base, s, dn))
  {
    assert Sound(base, s);
    hide *;
    DelIs(base, s, allowed, raw);
    var d, parsed := DelChanges(s, base, allowed, raw), ParseUnder(base, raw, false);
    if Runs(base, s, parsed, d) {
      RunsOn(base, s, parsed, d);
      DelKeepsInverseIff(base, s, parsed.value);
    } else {
      AfterRefusal(s, d);
    }
  }

  /******* Add *******/

  lemma {:induction false} MembersStored(s: Contents, base: DN, vals: seq<Str>)
    requires Members(s, base, vals).Ok?
    ensures forall m | m in Members(s, base, vals).value :: Lookup(s, m).Some?
  {
    hide ParseUnder, Lookup;
    if vals != [] { MembersStored(s, base, vals[..|vals| - 1]); }
  }

  /** The drafted entry lists the members it names, all of them stored, and no memberof. */
  ghost predicate Drafts(s: Contents, d: Draft) {
    && MEMBEROF !in d.attributes
    && (if MEMBER in d.attributes then d.attributes[MEMBER] == Strings(d.members) else d.members == [])
    && forall m | m in d.members :: Lookup(s, m).Some?
  }

  lemma {:induction false} DraftShape(s: Contents, base: DN, attributes: seq<Attribute>)
    requires Drafted(s, base, attributes).Ok?
    ensures Drafts(s, Drafted(s, base, attributes).value)
  {
    hide Lookup, Members, AttributeKey, Strings;
    if attributes != [] {
      var n := |attributes| - 1;
      DraftShape(s, base, attributes[..n]);
      if Members(s, base, attributes[n].vals).Ok? { MembersStored(s, base, attributes[n].vals); }
    }
  }

  lemma NewEntryLists(s: Contents, dn: DN, d: Draft, meta: Meta)
    requires dn != [] && Drafts(s, d)
    ensures var e, rdn := NewEntry(dn, WithSystem(d.attributes, meta)), AttributeKey(dn[0].typ);
            && (rdn !in [MEMBER, MEMBEROF] ==> e.Get(MEMBER) == Strings(d.members) && e.Get(MEMBEROF) == [])
            && e.dn == dn
  {
    hide Lookup, AttributeKey;
    assert Strings([]) == [];
  }

  lemma NotListed(base: DN, s: Contents, dn: DN, k: Str)
    requires Sound(base, s) && Closed(s) && Clean(dn) && Key(dn) !in s && k in s
    ensures DNString(dn) !in s[k].Get(MEMBER) && DNString(dn) !in s[k].Get(MEMBEROF) && Name(s[k]) != DNString(dn)
  {
    forall j | j in s
      ensures Name(s[j]) != DNString(dn)
    {
      NameTells(base, s, dn, j);
    }
    assert !Stored(s, DNString(dn));
  }

  /** The entry with the name among its groups. */
  function Joined(e: Entry, dn: DN): (r: Entry)
    ensures r.dn == e.dn
  {
    if DNString(dn) in e.Get(MEMBEROF) then e else With(e, MEMBEROF, e.Get(MEMBEROF) + [DNString(dn)])
  }

  /** In place, the members have the group among theirs. */
  ghost predicate Grown(s: Contents, t: Contents, members: seq<DN>, dn: DN) {
    t.Keys == s.Keys && forall k | k in s :: t[k] == if s[k].dn in members then Joined(s[k], dn) else s[k]
  }

  /** The log writes those who had not. */
  ghost predicate GrownLog(s: Contents, t: Contents, cs: seq<Change>, members: seq<DN>, dn: DN)
    requires t.Keys == s.Keys
  {
    forall k :: LastChange(cs, k)
                == if k in s && s[k].dn in members && DNString(dn) !in s[k].Get(MEMBEROF) then Some(Put(t[k])) else None
  }

  /** The first time a member is met it is edited; a second time its group is there already. */
  lemma GrowOne(base: DN, s: Contents, t: Contents, front: seq<DN>, m: DN, dn: DN)
    requires Sound(base, s) && Closed(s) && Lookup(s, m).Some? && Grown(s, t, front, dn)
    ensures var e, j := MembershipAdd(t, MEMBEROF, m, dn), Key(m);
            && j in s && s[j].dn == m && e.store == t[j := Joined(s[j], dn)]
            && e.result == Ok(if m in front || DNString(dn) in s[j].Get(MEMBEROF) then [] else [Put(e.store[j])])
  {
    var j := Key(m);
    LookedUp(s, m);
    LookedUp(t, m);
    hide Sound, Closed, Lookup, DNString, Key, Rewrite;
    JoinedLists(s[j], dn);
    if m in front || DNString(dn) in s[j].Get(MEMBEROF) {
      assert t[j := t[j]] == t;
    } else {
      RewriteOther(base, s, t, j, s[j].Get(MEMBEROF) + [DNString(dn)]);
    }
  }

  lemma JoinedLists(e: Entry, dn: DN)
    ensures DNString(dn) in Joined(e, dn).Get(MEMBEROF)
  {
    hide DNString;
  }

  /** An entry not edited so far. */
  lemma RewriteOther(base: DN, s: Contents, t: Contents, k: Str, vals: seq<Str>)
    requires Sound(base, s) && Closed(s) && k in s && k in t && t[k] == s[k]
    ensures var e := With(s[k], MEMBEROF, vals); Rewrite(t, s[k], MEMBEROF, vals) == Effect(t[k := e], Ok([Put(e)]))
  {
    RewriteIs(base, s, k, MEMBEROF, vals);
    hide Sound, Closed, NewEntry, Key;
    assert KeyOf(With(s[k], MEMBEROF, vals)) == KeyOf(s[k]) == k;
  }

  lemma {:induction false} Grows(base: DN, s: Contents, members: seq<DN>, dn: DN)
    requires Sound(base, s) && Closed(s) && forall m | m in members :: Lookup(s, m).Some?
    ensures var e := MembershipAdds(s, MEMBEROF, members, dn);
            && e.result.Ok? && Grown(s, e.store, members, dn)
            && GrownLog(s, e.store, e.result.value, members, dn)
  {
    hide Sound, Closed, Lookup, MembershipAdd, Grown, GrownLog, Key, Joined;
    if members == [] {
      GrownNone(s, dn);
    } else {
      var n := |members| - 1;
      var front := MembershipAdds(s, MEMBEROF, members[..n], dn);
      assert members == members[..n] + [members[n]] && members[n] in members;
      Grows(base, s, members[..n], dn);
      GrownShape(s, front.store, members[..n], dn);
      GrowOne(base, s, front.store, members[..n], members[n], dn);
      var last := MembershipAdd(front.store, MEMBEROF, members[n], dn);
      assert last.store.Keys == s.Keys;
      GrownMore(base, s, front.store, last.store, members[..n], Key(members[n]), dn);
      GrownLogMore(s, front.store, last.store, front.result.value, last.result.value, members[..n], Key(members[n]), dn);
    }
  }

  lemma GrownNone(s: Contents, dn: DN)
    ensures Grown(s, s, [], dn) && GrownLog(s, s, [], [], dn)
  {
  }

  lemma GrownShape(s: Contents, t: Contents, members: seq<DN>, dn: DN)
    requires Grown(s, t, members, dn)
    ensures t.Keys == s.Keys
  {
  }

  lemma GrownMore(base: DN, s: Contents, t: Contents, u: Contents, front: seq<DN>, j: Str, dn: DN)
    requires Sound(base, s) && j in s && Grown(s, t, front, dn) && u == t[j := Joined(s[j], dn)]
    ensures Grown(s, u, front + [s[j].dn], dn)
  {
    hide Joined, Key, Sound;
    forall k | k in s
      ensures s[k].dn == s[j].dn ==> k == j
    {
      assert KeyOf(s[k]) == k && KeyOf(s[j]) == j;
    }
  }

  lemma GrownLogMore(s: Contents, t: Contents, u: Contents, cs: seq<Change>, last: seq<Change>, front: seq<DN>,
      j: Str, dn: DN)
    requires j in s && t.Keys == s.Keys && u.Keys == s.Keys && u == t[j := Joined(s[j], dn)] && Grown(s, t, front, dn)
    requires GrownLog(s, t, cs, front, dn)
    requires last == if s[j].dn in front || DNString(dn) in s[j].Get(MEMBEROF) then [] else [Put(u[j])]
    ensures GrownLog(s, u, cs + last, front + [s[j].dn], dn)
  {
    hide Joined, Key, LastChange, DNString;
    assert KeyOf(u[j]) == j;
    forall k
      ensures LastChange(cs + last, k) == if k in s && s[k].dn in front + [s[j].dn] && DNString(dn) !in s[k].Get(MEMBEROF)
                                          then Some(Put(u[k])) else None
    {
      LastChangeAppend(cs, last, k);
      OneChange(last, k);
      if k in s { assert KeyOf(s[k]) == k && KeyOf(s[j]) == j; }
    }
  }

  /** What an Add leaves stored: the new entry, and each of its members with one more group. */
  ghost predicate Added(s: Contents, t: Contents, e: Entry, members: seq<DN>) {
    && t.Keys == s.Keys + {KeyOf(e)} && t[KeyOf(e)] == e
    && forall k | k in s :: t[k] == if s[k].dn in members then Joined(s[k], e.dn) else s[k]
  }

  lemma AddLeaves(base: DN, s: Contents, e: Entry, members: seq<DN>)
    requires Sound(base, s) && Closed(s) && Clean(e.dn) && KeyOf(e) !in s
    requires forall m | m in members :: Lookup(s, m).Some?
    ensures MembershipAdds(s, MEMBEROF, members, e.dn).result.Ok?
    ensures var adds := MembershipAdds(s, MEMBEROF, members, e.dn);
            Added(s, ApplyChanges(adds.store, [Put(e)] + adds.result.value), e, members)
  {
    hide Sound, Closed, Clean, Lookup, MembershipAdds, ApplyChanges, LastChange, Joined, Key, DNString;
    Grows(base, s, members, e.dn);
    var adds := MembershipAdds(s, MEMBEROF, members, e.dn);
    var cs := adds.result.value;
    var t := ApplyChanges(adds.store, [Put(e)] + cs);
    forall k
      ensures k in t <==> k in s || k == KeyOf(e)
      ensures k == KeyOf(e) ==> t[k] == e
      ensures k in s ==> t[k] == if s[k].dn in members then Joined(s[k], e.dn) else s[k]
    {
      AppliedAt(adds.store, [Put(e)] + cs, k);
      LastChangeAppend([Put(e)], cs, k);
      OneChange([Put(e)], k);
      if k in s { JoinedListed(s[k], e.dn); }
    }
  }

  lemma JoinedListed(e: Entry, dn: DN)
    ensures DNString(dn) in e.Get(MEMBEROF) ==> Joined(e, dn) == e
  {
    hide DNString;
  }

  lemma NamesIn(base: DN, s: Contents, members: seq<DN>, k: Str)
    requires Sound(base, s) && k in s && forall m | m in members :: Lookup(s, m).Some?
    ensures Name(s[k]) in Strings(members) <==> s[k].dn in members
  {
    forall i | 0 <= i < |members|
      ensures DNString(members[i]) == Name(s[k]) <==> members[i] == s[k].dn
    {
      LookedUp(s, members[i]);
      assert SoundEntry(base, s[Key(members[i])]);
      NameTells(base, s, members[i], k);
    }
    if s[k].dn in members {
      var i :| 0 <= i < |members| && members[i] == s[k].dn;
      assert Strings(members)[i] == Name(s[k]);
    }
  }

  lemma AddedInverse(base: DN, s: Contents, t: Contents, e: Entry, members: seq<DN>)
    requires Sound(base, s) && Inverse(s) && Clean(e.dn) && KeyOf(e) !in s && Added(s, t, e, members)
    requires forall m | m in members :: Lookup(s, m).Some?
    requires e.Get(MEMBER) == Strings(members) && e.Get(MEMBEROF) == []
    ensures Inverse(t)
  {
    NewNotMember(base, s, e, members);
    AddedClosed(base, s, t, e, members);
    hide Sound, Clean, DNString, Key, Lookup, Strings, Added, Closed;
    forall g, m | g in t && m in t
      ensures Name(t[m]) in t[g].Get(MEMBER) <==> Name(t[g]) in t[m].Get(MEMBEROF)
    {
      AddedAt(base, s, t, e, members, g);
      AddedAt(base, s, t, e, members, m);
      if g in s && m in s {
        assert Name(s[m]) in s[g].Get(MEMBER) <==> Name(s[g]) in s[m].Get(MEMBEROF);
      }
    }
  }

  /** One stored entry before and after. */
  lemma AddedAt(base: DN, s: Contents, t: Contents, e: Entry, members: seq<DN>, k: Str)
    requires Sound(base, s) && Closed(s) && Clean(e.dn) && KeyOf(e) !in s && Added(s, t, e, members) && k in t
    requires forall m | m in members :: Lookup(s, m).Some?
    ensures k !in s ==> k == KeyOf(e) && t[k] == e
    ensures k in s ==> Name(t[k]) == Name(s[k]) != Name(e) && t[k].Get(MEMBER) == s[k].Get(MEMBER)
    ensures k in s ==> t[k].Get(MEMBEROF) == s[k].Get(MEMBEROF) + if s[k].dn in members then [Name(e)] else []
    ensures k in s ==> Name(e) !in s[k].Get(MEMBER) && Name(e) !in s[k].Get(MEMBEROF)
    ensures k in s ==> (Name(s[k]) in Strings(members) <==> s[k].dn in members)
  {
    if k in s {
      NotListed(base, s, e.dn, k);
      NamesIn(base, s, members, k);
      JoinedGets(s[k], e.dn);
    }
    hide Sound, Closed, Clean, DNString, Key, Lookup, Strings, Joined;
  }

  lemma JoinedGets(e: Entry, dn: DN)
    ensures Joined(e, dn).Get(MEMBER) == e.Get(MEMBER)
    ensures Joined(e, dn).Get(MEMBEROF) == e.Get(MEMBEROF) + if DNString(dn) in e.Get(MEMBEROF) then [] else [DNString(dn)]
  {
    hide DNString;
    ListsDiffer();
  }

  lemma NewNotMember(base: DN, s: Contents, e: Entry, members: seq<DN>)
    requires Sound(base, s) && Closed(s) && Clean(e.dn) && KeyOf(e) !in s
    requires forall m | m in members :: Lookup(s, m).Some?
    ensures Name(e) !in Strings(members)
    ensures forall v | v in Strings(members) :: Stored(s, v)
  {
    forall i | 0 <= i < |members|
      ensures Strings(members)[i] != Name(e) && Stored(s, Strings(members)[i])
    {
      LookedUp(s, members[i]);
      NotListed(base, s, e.dn, Key(members[i]));
      assert Name(s[Key(members[i])]) == Strings(members)[i];
    }
  }

  lemma AddedClosed(base: DN, s: Contents, t: Contents, e: Entry, members: seq<DN>)
    requires Sound(base, s) && Closed(s) && Clean(e.dn) && KeyOf(e) !in s && Added(s, t, e, members)
    requires forall m | m in members :: Lookup(s, m).Some?
    requires e.Get(MEMBER) == Strings(members) && e.Get(MEMBEROF) == []
    ensures Closed(t)
  {
    NewNotMember(base, s, e, members);
    hide Sound, Clean, DNString, Key, Lookup, Strings, Added, Stored;
    StoredGrows(base, s, t, e, members);
    forall k, v | k in t && (v in t[k].Get(MEMBER) || v in t[k].Get(MEMBEROF))
      ensures Stored(t, v)
    {
      AddedAt(base, s, t, e, members, k);
      assert v == Name(e) || Stored(s, v);
    }
  }

  lemma StoredGrows(base: DN, s: Contents, t: Contents, e: Entry, members: seq<DN>)
    requires Sound(base, s) && Closed(s) && Clean(e.dn) && KeyOf(e) !in s && Added(s, t, e, members)
    requires forall m | m in members :: Lookup(s, m).Some?
    ensures Stored(t, Name(e)) && forall v | Stored(s, v) :: Stored(t, v)
  {
    hide Sound, Closed, Clean, DNString, Key, Lookup, Added;
    AddedKeys(s, t, e, members);
    assert Name(t[KeyOf(e)]) == Name(e);
    forall v | Stored(s, v)
      ensures Stored(t, v)
    {
      var j :| j in s && Name(s[j]) == v;
      AddedAt(base, s, t, e, members, j);
      assert Name(t[j]) == v;
    }
  }

  lemma AddedKeys(s: Contents, t: Contents, e: Entry, members: seq<DN>)
    requires Added(s, t, e, members)
    ensures s.Keys <= t.Keys && KeyOf(e) in t && t[KeyOf(e)] == e
  {
  }

  lemma {:induction false} AddsComplete(s: Contents, members: seq<DN>, group: DN)
    requires forall m | m in members :: Lookup(s, m).Some?
    ensures MembershipAdds(s, MEMBEROF, members, group).result.Ok?
  {
    hide Lookup;
    if members != [] {
      var n := |members| - 1;
      assert members == members[..n] + [members[n]] && members[n] in members;
      AddsComplete(s, members[..n], group);
      AddsEdit(s, MEMBEROF, members[..n], group);
      StillFound(s, MembershipAdds(s, MEMBEROF, members[..n], group).store, members[n]);
    }
  }

  lemma StillFound(s: Contents, t: Contents, dn: DN)
    requires SameNames(s, t)
    ensures Lookup(s, dn).Some? <==> Lookup(t, dn).Some?
  {
    LookedUp(s, dn);
    LookedUp(t, dn);
    SameKey(s, t, Key(dn));
    hide SameNames, Key, Lookup;
  }

  /** What is not done leaves everything as it is. */
  ghost predicate Atomic(s: Contents, e: Effect) {
    e.result != Fail(OperationsError) && (e.result.Fail? ==> After(e) == s)
  }

  lemma AtomicFail(s: Contents, f: Failure)
    requires f != OperationsError
    ensures Atomic(s, Effect(s, Fail(f)))
  {
  }

  /** An Add that passes its checks always completes: one that fails has changed nothing. */
  lemma AddCompletes(base: DN, s: Contents, allowed: bool, r: AddRequest, meta: Meta)
    ensures Atomic(s, AddChanges(s, base, allowed, r, meta))
  {
    DraftNeverOperations(s, base, r.attributes);
    var parsed, drafted := ParseUnder(base, r.entry, false), Drafted(s, base, r.attributes);
    if parsed.Some? && drafted.Ok? {
      DraftShape(s, base, r.attributes);
      DraftedAdds(s, drafted.value, parsed.value);
      ThenCompletes(s, [Put(NewEntry(parsed.value, WithSystem(drafted.value.attributes, meta)))],
                    MembershipAdds(s, MEMBEROF, drafted.value.members, parsed.value), OperationsError);
    }
    AtomicFail(s, InvalidDNSyntax);
    AtomicFail(s, InsufficientAccessRights);
    AtomicFail(s, EntryAlreadyExists);
    AtomicFail(s, NoSuchObject);
    if drafted.Fail? { AtomicFail(s, drafted.failure); }
    hide Lookup, MembershipAdds, WithSystem, NewEntry, ParseUnder, Drafted, Drafts, Then, Atomic;
  }

  lemma ThenCompletes(s: Contents, first: seq<Change>, second: Effect, f: Failure)
    requires second.result.Ok?
    ensures Atomic(s, Then(first, second, f))
  {
  }

  lemma DraftedAdds(s: Contents, d: Draft, dn: DN)
    requires Drafts(s, d)
    ensures MembershipAdds(s, MEMBEROF, d.members, dn).result.Ok?
  {
    AddsComplete(s, d.members, dn);
  }

  lemma {:induction false} DraftNeverOperations(s: Contents, base: DN, attributes: seq<Attribute>)
    ensures Drafted(s, base, attributes) != Fail(OperationsError)
  {
    if attributes != [] {
      var n := |attributes| - 1;
      DraftNeverOperations(s, base, attributes[..n]);
      MembersNeverOperations(s, base, attributes[n].vals);
    }
  }

  lemma {:induction false} MembersNeverOperations(s: Contents, base: DN, vals: seq<Str>)
    ensures Members(s, base, vals) != Fail(OperationsError)
  {
    if vals != [] { MembersNeverOperations(s, base, vals[..|vals| - 1]); }
  }

  /** A successful Add keeps the relations inverse exactly when neither of them names the new entry. */
  lemma AddKeepsInverse(base: DN, s: Contents, allowed: bool, r: AddRequest, meta: Meta)
    requires Tree(base, s) && Inverse(s) && SLASH !in r.entry
    ensures AddChanges(s, base, allowed, r, meta).result.Ok? ==>
              var dn := ParseUnder(base, r.entry, false).value;
              && dn != []
              && (Inverse(After(AddChanges(s, base, allowed, r, meta)))
                  <==> AttributeKey(dn[0].typ) !in [MEMBER, MEMBEROF])
  {
    hide Key, Clean, Lookup, MembershipAdds, ApplyChanges, Inverse, WithSystem, NewEntry, AttributeKey, Sound,
         ParseUnder, Drafted, Drafts, Rooted;
    if ParseUnder(base, r.entry, false).Some? && Drafted(s, base, r.attributes).Ok? {
      var dn, d := ParseUnder(base, r.entry, false).value, Drafted(s, base, r.attributes).value;
      ParsedClean(base, r.entry);
      LookupByKey(base, s, dn);
      DraftShape(s, base, r.attributes);
      if Lookup(s, dn).None? {
        AddInverseIff(base, s, dn, d, meta);
        AddKeepsTree(base, s, allowed, r, meta);
      }
    }
  }

  lemma AddInverseIff(base: DN, s: Contents, dn: DN, d: Draft, meta: Meta)
    requires Sound(base, s) && Inverse(s) && Clean(dn) && Under(dn, base) && Key(dn) !in s && Drafts(s, d)
    ensures MembershipAdds(s, MEMBEROF, d.members, dn).result.Ok?
    ensures var adds := MembershipAdds(s, MEMBEROF, d.members, dn);
            var t := ApplyChanges(adds.store, [Put(NewEntry(dn, WithSystem(d.attributes, meta)))] + adds.result.value);
            Sound(base, t) ==> (Inverse(t) <==> dn != [] && AttributeKey(dn[0].typ) !in [MEMBER, MEMBEROF])
  {
    hide Key, Lookup, MembershipAdds, ApplyChanges, WithSystem, Under, AttributeKey, Added;
    var e := NewEntry(dn, WithSystem(d.attributes, meta));
    NewEntryLists(s, dn, d, meta);
    AddLeaves(base, s, e, d.members);
    var adds := MembershipAdds(s, MEMBEROF, d.members, dn);
    var t := ApplyChanges(adds.store, [Put(e)] + adds.result.value);
    if AttributeKey(dn[0].typ) !in [MEMBER, MEMBEROF] {
      AddedInverse(base, s, t, e, d.members);
    } else if Sound(base, t) && Closed(t) {
      AddedKeys(s, t, e, d.members);
      RdnOther(base, t, Key(dn));
    }
  }
}

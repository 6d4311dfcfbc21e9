/** What a list of changes does to one entry: per attribute a fold, and per member a journal. */
module ModifyTheory {
  import opened Wrappers
  import opened Text
  import opened Names
  import opened DirectoryStore
  import opened Directory
  import opened DirectoryTree
  import opened Membership

  /******* One change *******/

  /** Section 4.6 of RFC 4511, value by value. */
  lemma ModifiedMeans(vals: seq<Str>, operation: Operation, values: seq<Str>, v: Str)
    ensures v in Modified(vals, operation, values) <==>
            match operation
            case Add => v in vals || v in values
            case Delete => values != [] && v in vals && v !in values
            case Replace => v in values
  {
  }

  lemma {:induction false} AppendedNew(vals: seq<Str>, more: seq<Str>, v: Str)
    ensures v in Appended(vals, more)[|vals|..] <==> v in more && v !in vals
  {
    if more == [] {
      assert Appended(vals, more)[|vals|..] == [];
    } else {
      var n := |more| - 1;
      AppendedNew(vals, more[..n], v);
      assert more == more[..n] + [more[n]];
      var front := Appended(vals, more[..n]);
      if more[n] !in front { assert (front + [more[n]])[|vals|..] == front[|vals|..] + [more[n]]; }
    }
  }

  /** The journals record exactly what the change adds to the values and takes from them. */
  lemma JournalsExact(vals: seq<Str>, operation: Operation, values: seq<Str>, v: Str)
    ensures v in Gains(vals, operation, values) <==> v in Modified(vals, operation, values) && v !in vals
    ensures v in Losses(vals, operation, values) <==> v in vals && v !in Modified(vals, operation, values)
  {
    AppendedNew(vals, values, v);
  }

  /******* A list of changes *******/

  /** The values of one change, canonical if they are members. */
  function CanonicalValues(base: DN, m: Modification): seq<Str> {
    if AttributeKey(m.typ) == MEMBER && ParseEach(base, m.vals).Some? then Strings(ParseEach(base, m.vals).value)
        else m.vals
  }

  /** The changes of one attribute, applied from left to right. */
  function Fold(base: DN, attr: Str, vals: seq<Str>, changes: seq<Modification>): seq<Str> {
    if changes == [] then vals
    else
      var m, before := changes[|changes| - 1], Fold(base, attr, vals, changes[..|changes| - 1]);
      if AttributeKey(m.typ) == attr then Modified(before, m.operation, CanonicalValues(base, m)) else before
  }

  predicate Touches(changes: seq<Modification>, attr: Str) {
    exists i :: 0 <= i < |changes| && AttributeKey(changes[i].typ) == attr
  }

  function Current(entry: Entry, e: Edit, attr: Str): seq<Str> {
    if attr in e.attributes then e.attributes[attr] else entry.Get(attr)
  }

  lemma ModifyStep(base: DN, entry: Entry, allowed: set<Str>, e: Edit, m: Modification, attr: Str)
    requires ModifyOne(base, entry, allowed, e, m).Ok?
    ensures var after, key := ModifyOne(base, entry, allowed, e, m).value, AttributeKey(m.typ);
            && Current(entry, after, attr) == (if key == attr
                then Modified(Current(entry, e, attr), m.operation, CanonicalValues(base, m))
                                               else Current(entry, e, attr))
            && (attr in after.attributes <==>
                  attr in e.attributes
                  || (key == attr && !(m.operation.Add? && m.vals == [] && attr !in entry.attributes)))
            && (key == attr ==>
                  CanUpdate(attr) && attr in allowed && (entry.dn != [] ==> attr != AttributeKey(entry.dn[0].typ)))
  {
    hide Modified, Gains, Losses, ParseUnder, AttributeKey, Strings, CanUpdate;
    if m.vals == [] { NoValues(base, m, Current(entry, e, attr)); }
  }

  lemma NoValues(base: DN, m: Modification, vals: seq<Str>)
    requires m.vals == []
    ensures CanonicalValues(base, m) == [] && Modified(vals, Add, []) == vals
  {
    assert Strings([]) == [];
  }

  /** The stored value of every attribute is the fold of its own changes, however they are interleaved. */
  lemma {:induction false} ModifyFolds(base: DN, entry: Entry, allowed: set<Str>, changes: seq<Modification>, attr: Str)
    requires Modifies(base, entry, allowed, changes).Ok?
    ensures var e := Modifies(base, entry, allowed, changes).value;
            && Current(entry, e, attr) == Fold(base, attr, entry.Get(attr), changes)
            && (attr in e.attributes ==> Touches(changes, attr) && CanUpdate(attr)
                                         && (entry.dn != [] ==> attr != AttributeKey(entry.dn[0].typ)))
            && (Touches(changes, attr) && attr !in e.attributes ==> Fold(base, attr, entry.Get(attr), changes) == [])
  {
    if changes != [] {
      hide ModifyOne, Modified, AttributeKey, CanonicalValues, CanUpdate;
      var n := |changes| - 1;
      var before, m := changes[..n], changes[n];
      ModifyFolds(base, entry, allowed, before, attr);
      ModifyStep(base, entry, allowed, Modifies(base, entry, allowed, before).value, m, attr);
      assert forall i | 0 <= i < n :: before[i] == changes[i];
      if AttributeKey(m.typ) == attr && attr !in Modifies(base, entry, allowed, changes).value.attributes {
        NoValues(base, m, entry.Get(attr));
      }
    }
  }

  /******* The journals *******/

  lemma {:induction false} ParseEachHolds(base: DN, raws: seq<Str>, v: Str)
    requires ParseEach(base, raws).Some? && v in raws
    ensures ParseUnder(base, v, false).Some? && ParseUnder(base, v, false).value in ParseEach(base, raws).value
  {
    hide ParseUnder;
    var n := |raws| - 1;
    assert raws == raws[..n] + [raws[n]];
    if v != raws[n] { ParseEachHolds(base, raws[..n], v); }
  }

  /** Some name in a journal is what the value stands for. */
  ghost predicate Journalled(base: DN, journal: seq<DN>, v: Str) {
    ParseUnder(base, v, false).Some? && ParseUnder(base, v, false).value in journal
  }

  lemma JournalStep(base: DN, entry: Entry, allowed: set<Str>, e: Edit, m: Modification, v: Str)
    requires ModifyOne(base, entry, allowed, e, m).Ok?
    ensures var after := ModifyOne(base, entry, allowed, e, m).value;
            var was, now := Current(entry, e, MEMBER), Current(entry, after, MEMBER);
            && (v in now && v !in was ==> Journalled(base, after.added, v))
            && (v in was && v !in now ==> Journalled(base, after.removed, v))
            && (Journalled(base, e.added, v) ==> Journalled(base, after.added, v))
            && (Journalled(base, e.removed, v) ==> Journalled(base, after.removed, v))
  {
    hide Modified, Gains, Losses, ParseUnder, AttributeKey, Strings, CanUpdate, ParseEach;
    ModifyStep(base, entry, allowed, e, m, MEMBER);
    if AttributeKey(m.typ) == MEMBER && !(m.operation.Add? && m.vals == [] && MEMBER !in e.attributes
        && MEMBER !in entry.attributes) {
      var vals, values := Current(entry, e, MEMBER), Strings(ParseEach(base, m.vals).value);
      JournalsExact(vals, m.operation, values, v);
      if v in Gains(vals, m.operation, values) { ParseEachHolds(base, Gains(vals, m.operation, values), v); }
      if v in Losses(vals, m.operation, values) { ParseEachHolds(base, Losses(vals, m.operation, values), v); }
    }
  }

  /** Every member gained is in the one journal and every member lost in the other. */
  lemma {:induction false} JournalsCover(base: DN, entry: Entry, allowed: set<Str>, changes: seq<Modification>, v: Str)
    requires Modifies(base, entry, allowed, changes).Ok?
    ensures var e := Modifies(base, entry, allowed, changes).value;
            var was, now := entry.Get(MEMBER), Current(entry, e, MEMBER);
            && (v in now && v !in was ==> Journalled(base, e.added, v))
            && (v in was && v !in now ==> Journalled(base, e.removed, v))
  {
    if changes != [] {
      hide ModifyOne, Journalled;
      var n := |changes| - 1;
      JournalsCover(base, entry, allowed, changes[..n], v);
      JournalStep(base, entry, allowed, Modifies(base, entry, allowed, changes[..n]).value, changes[n], v);
    }
  }

  /******* What is stored *******/

  /** A membership update rewrites the entry that is being modified. */
  ghost predicate RewritesItself(base: DN, entry: Entry, e: Edit) {
    || (entry.dn in e.added && DNString(entry.dn) !in entry.Get(MEMBEROF))
    || (entry.dn in e.removed && !GivesUp(base, entry, MEMBEROF, entry.dn))
  }

  /** What one update comes to for the key of the entry that is being modified. */
  ghost predicate TouchesOnly(cs: seq<Change>, k: Str, kept: set<Str>, touches: bool) {
    && |cs| <= 1
    && (touches <==> |cs| == 1 && Touched(cs[0]) == k)
    && (touches ==> cs[0].Put? && kept + {MEMBEROF} <= cs[0].entry.attributes.Keys)
  }

  ghost predicate AllClean(s: Contents) {
    forall k | k in s :: Clean(s[k].dn)
  }

  lemma CleanAfter(s: Contents, t: Contents)
    requires AllClean(s) && SameNames(s, t)
    ensures AllClean(t)
  {
    hide Clean, HoldsName;
  }

  /** One update: whether it writes the entry, and what it leaves of it. */
  ghost predicate Touch(s: Contents, e: Effect, k: Str, touches: bool) {
    && k in s && k in e.store && e.result.Ok? && TouchesOnly(e.result.value, k, s[k].attributes.Keys, touches)
    && s[k].attributes.Keys <= e.store[k].attributes.Keys && (!touches ==> e.store[k] == s[k])
  }

  lemma NoTouch(s: Contents, k: Str)
    requires k in s
    ensures Touch(s, Effect(s, Ok([])), k, false)
  {
  }

  lemma RewriteTouch(s: Contents, j: Str, vals: seq<Str>, k: Str)
    requires j in s && k in s
    ensures Touch(s, Rewrite(s, s[j], MEMBEROF, vals), k, j == k)
    ensures j == k ==>
              var t := Rewrite(s, s[j], MEMBEROF, vals).store; k in t && t[k] == With(s[k], MEMBEROF, vals)
  {
    hide Key, AttributeKey;
    var edited := With(s[j], MEMBEROF, vals);
    assert KeyOf(edited) == KeyOf(s[j]) == j;
    assert NewEntry(edited.dn, edited.attributes).dn == edited.dn;
  }

  lemma CleanKeys(s: Contents, m: DN, dn: DN)
    requires AllClean(s) && Lookup(s, m).Some? && Lookup(s, dn).Some?
    ensures Key(m) in s && Key(dn) in s && s[Key(m)] == Lookup(s, m).value && s[Key(dn)].dn == dn
    ensures Key(m) == Key(dn) <==> m == dn
  {
    LookedUp(s, m);
    LookedUp(s, dn);
    StringsTellApart(s[Key(m)].dn, s[Key(dn)].dn);
  }

  lemma AddTouches(s: Contents, m: DN, dn: DN)
    requires Lookup(s, dn).Some? && MembershipAdd(s, MEMBEROF, m, dn).result.Ok? && AllClean(s)
    ensures Key(dn) in s
    ensures var e, k := MembershipAdd(s, MEMBEROF, m, dn), Key(dn);
            var touches := m == dn && DNString(dn) !in s[k].Get(MEMBEROF);
            Touch(s, e, k, touches) && (touches ==> e.store[k] == Joined(s[k], dn))
  {
    hide Key, DNString, Lookup, Rewrite, Touch;
    CleanKeys(s, m, dn);
    NoTouch(s, Key(dn));
    RewriteTouch(s, Key(m), s[Key(m)].Get(MEMBEROF) + [DNString(dn)], Key(dn));
  }

  lemma RemoveTouches(s: Contents, base: DN, m: DN, dn: DN)
    requires Lookup(s, dn).Some? && MembershipRemove(s, base, MEMBEROF, m, dn).result.Ok? && AllClean(s)
    ensures Key(dn) in s
    ensures Touch(s, MembershipRemove(s, base, MEMBEROF, m, dn), Key(dn),
                  m == dn && !GivesUp(base, s[Key(dn)], MEMBEROF, dn))
  {
    hide Key, DNString, Lookup, Rewrite, Touch, Without;
    CleanKeys(s, m, dn);
    NoTouch(s, Key(dn));
    RewriteTouch(s, Key(m), Without(base, s[Key(m)].Get(MEMBEROF), dn).value, Key(dn));
  }

  /** What a list of updates comes to for that key: whether it is written, and with which attributes. */
  ghost predicate Leaves(s: Contents, e: Effect, k: Str, written: bool) {
    && k in s && k in e.store && e.result.Ok?
    && s[k].attributes.Keys <= e.store[k].attributes.Keys && (!written ==> e.store[k] == s[k])
    && var last := LastChange(e.result.value, k);
       && (last.Some? <==> written)
       && (written ==> last.value.Put? && s[k].attributes.Keys + {MEMBEROF} <= last.value.entry.attributes.Keys)
  }

  lemma LeavesNone(s: Contents, k: Str)
    requires k in s
    ensures Leaves(s, Effect(s, Ok([])), k, false)
  {
  }

  lemma LeavesMore(s: Contents, front: Effect, last: Effect, k: Str, was: bool, touches: bool)
    requires Leaves(s, front, k, was) && Touch(front.store, last, k, touches)
    ensures Leaves(s, Then(front.result.value, last, OperationsError), k, was || touches)
  {
    LastChangeAppend(front.result.value, last.result.value, k);
    OneChange(last.result.value, k);
    hide LastChange, Touched;
  }

  lemma JoinedKeys(e: Entry, dn: DN)
    ensures e.attributes.Keys <= Joined(e, dn).attributes.Keys && Joined(e, dn).dn == e.dn
    ensures DNString(dn) !in e.Get(MEMBEROF) ==> Joined(e, dn).Get(MEMBEROF) == e.Get(MEMBEROF) + [DNString(dn)]
    ensures DNString(dn) in e.Get(MEMBEROF) ==> Joined(e, dn) == e
    ensures DNString(dn) in Joined(e, dn).Get(MEMBEROF)
  {
    hide DNString;
  }

  lemma AddsSplit(s: Contents, members: seq<DN>, dn: DN)
    requires members != [] && MembershipAdds(s, MEMBEROF, members, dn).result.Ok?
    ensures var front := MembershipAdds(s, MEMBEROF, members[..|members| - 1], dn);
            var last := MembershipAdd(front.store, MEMBEROF, members[|members| - 1], dn);
            && front.result.Ok? && last.result.Ok?
            && MembershipAdds(s, MEMBEROF, members, dn) == Then(front.result.value, last, OperationsError)
  {
    hide MembershipAdd;
  }

  lemma RemovesSplit(s: Contents, base: DN, members: seq<DN>, dn: DN)
    requires members != [] && MembershipRemoves(s, base, MEMBEROF, members, dn).result.Ok?
    ensures var front := MembershipRemoves(s, base, MEMBEROF, members[..|members| - 1], dn);
            var last := MembershipRemove(front.store, base, MEMBEROF, members[|members| - 1], dn);
            && front.result.Ok? && last.result.Ok?
            && MembershipRemoves(s, base, MEMBEROF, members, dn) == Then(front.result.value, last, OperationsError)
  {
    hide MembershipRemove;
  }

  lemma NothingAdded(s: Contents, dn: DN)
    ensures MembershipAdds(s, MEMBEROF, [], dn) == Effect(s, Ok([]))
  {
  }

  lemma NothingRemoved(s: Contents, base: DN, dn: DN)
    ensures MembershipRemoves(s, base, MEMBEROF, [], dn) == Effect(s, Ok([]))
  {
  }

  lemma ThenStore(first: seq<Change>, second: Effect)
    ensures Then(first, second, OperationsError).store == second.store
  {
  }

  lemma {:induction false} AddsTouch(s: Contents, members: seq<DN>, dn: DN)
    requires Lookup(s, dn).Some? && MembershipAdds(s, MEMBEROF, members, dn).result.Ok? && AllClean(s)
    ensures Key(dn) in s
    ensures var e, k := MembershipAdds(s, MEMBEROF, members, dn), Key(dn);
            var written := dn in members && DNString(dn) !in s[k].Get(MEMBEROF);
            Leaves(s, e, k, written) && e.store[k] == if written then Joined(s[k], dn) else s[k]
  {
    hide *;
    CleanKeys(s, dn, dn);
    if members == [] {
      NothingAdded(s, dn);
      LeavesNone(s, Key(dn));
    } else {
      var n, k := |members| - 1, Key(dn);
      var front := MembershipAdds(s, MEMBEROF, members[..n], dn);
      assert members == members[..n] + [members[n]];
      AddsSplit(s, members, dn);
      AddsTouch(s, members[..n], dn);
      AddsEdit(s, MEMBEROF, members[..n], dn);
      EditsNames(s, front);
      CleanAfter(s, front.store);
      StillFound(s, front.store, dn);
      AddTouches(front.store, members[n], dn);
      JoinedKeys(s[k], dn);
      var last := MembershipAdd(front.store, MEMBEROF, members[n], dn);
      var was, touches := dn in members[..n] && DNString(dn) !in s[k].Get(MEMBEROF),
                          members[n] == dn && DNString(dn) !in front.store[k].Get(MEMBEROF);
      TouchLeaves(front.store, last, k, touches);
      LeavesMore(s, front, last, k, was, touches);
      ThenStore(front.result.value, last);
      assert dn in members <==> dn in members[..n] || members[n] == dn;
    }
  }

  lemma EditsNames(s: Contents, e: Effect)
    requires Edits(s, e)
    ensures SameNames(s, e.store)
  {
  }

  lemma TouchLeaves(s: Contents, e: Effect, k: Str, touches: bool)
    requires Touch(s, e, k, touches)
    ensures k in s && k in e.store && (!touches ==> e.store[k] == s[k])
  {
  }

  lemma {:induction false} RemovesTouch(s: Contents, base: DN, members: seq<DN>, dn: DN)
    requires Lookup(s, dn).Some? && MembershipRemoves(s, base, MEMBEROF, members, dn).result.Ok? && AllClean(s)
    ensures Key(dn) in s
    ensures Leaves(s, MembershipRemoves(s, base, MEMBEROF, members, dn), Key(dn),
                   dn in members && !GivesUp(base, s[Key(dn)], MEMBEROF, dn))
  {
    hide *;
    CleanKeys(s, dn, dn);
    if members == [] {
      NothingRemoved(s, base, dn);
      LeavesNone(s, Key(dn));
    } else {
      var n, k := |members| - 1, Key(dn);
      var front := MembershipRemoves(s, base, MEMBEROF, members[..n], dn);
      assert members == members[..n] + [members[n]];
      RemovesSplit(s, base, members, dn);
      RemovesTouch(s, base, members[..n], dn);
      RemovesEdit(s, base, MEMBEROF, members[..n], dn);
      EditsNames(s, front);
      CleanAfter(s, front.store);
      StillFound(s, front.store, dn);
      RemoveTouches(front.store, base, members[n], dn);
      var last := MembershipRemove(front.store, base, MEMBEROF, members[n], dn);
      var was, touches := dn in members[..n] && !GivesUp(base, s[k], MEMBEROF, dn),
                          members[n] == dn && !GivesUp(base, front.store[k], MEMBEROF, dn);
      LeavesSame(s, front, k, was);
      LeavesMore(s, front, last, k, was, touches);
      assert dn in members <==> dn in members[..n] || members[n] == dn;
    }
  }

  lemma LeavesSame(s: Contents, e: Effect, k: Str, written: bool)
    requires Leaves(s, e, k, written)
    ensures k in s && k in e.store && (!written ==> e.store[k] == s[k])
  {
  }

  /** A name added to the memberships of its own entry makes no difference to its removal. */
  lemma JoinedGivesUp(base: DN, e: Entry, dn: DN)
    requires Clean(dn) && Under(dn, base)
    ensures GivesUp(base, Joined(e, dn), MEMBEROF, dn) <==> GivesUp(base, e, MEMBEROF, dn)
  {
    WithoutSnoc(base, e.Get(MEMBEROF), dn, dn);
    JoinedKeys(e, dn);
    hide Joined, Clean, Under, DNString, Without;
  }

  /** The attributes kept are the touched ones, the two about the modifier, and the one that names the entry. */
  lemma StampedKeys(entry: Entry, attributes: Attributes, meta: Meta)
    requires entry.dn != []
    ensures Stamped(entry.dn, attributes, meta).attributes.Keys
            == attributes.Keys + {MODIFIERSNAME, MODIFYTIMESTAMP, AttributeKey(entry.dn[0].typ)}
  {
  }

  /** Their values are the edited ones, the modifier and the time, and the value that names the entry. */
  lemma StampedKeeps(entry: Entry, attributes: Attributes, meta: Meta)
    requires entry.dn != []
    ensures var e, rdn := Stamped(entry.dn, attributes, meta), AttributeKey(entry.dn[0].typ);
            && (forall a | a in attributes && a !in {MODIFIERSNAME, MODIFYTIMESTAMP, rdn} :: e.Get(a) == attributes[a])
            && e.Get(rdn) == [entry.dn[0].value]
            && (rdn != MODIFIERSNAME ==> e.Get(MODIFIERSNAME) == [meta.user])
            && (rdn != MODIFYTIMESTAMP ==> e.Get(MODIFYTIMESTAMP) == [meta.timestamp])
  {
  }

  /** What the transaction leaves under the key of its entry: the edit, or the old entry with other memberships. */
  lemma EditAt(base: DN, s: Contents, dn: DN, e: Edit, meta: Meta)
    requires Tree(base, s) && Lookup(s, dn).Some? && EditChanges(s, base, dn, e, meta).result.Ok?
    ensures var t, k := After(EditChanges(s, base, dn, e, meta)), Key(dn);
            && k in s && k in t
            && if RewritesItself(base, s[k], e) then s[k].attributes.Keys + {MEMBEROF} <= t[k].attributes.Keys
               else t[k] == Stamped(dn, e.attributes, meta)
  {
    LookedUp(s, dn);
    var k := Key(dn);
    assert SoundEntry(base, s[k]);
    assert AllClean(s) by { assert forall j | j in s :: SoundEntry(base, s[j]); }
    var adds := MembershipAdds(s, MEMBEROF, e.added, dn);
    var removes := MembershipRemoves(adds.store, base, MEMBEROF, e.removed, dn);
    AddsTouch(s, e.added, dn);
    AddsEdit(s, MEMBEROF, e.added, dn);
    CleanAfter(s, adds.store);
    StillFound(s, adds.store, dn);
    RemovesTouch(adds.store, base, e.removed, dn);
    JoinedGivesUp(base, s[k], dn);
    var first := Put(Stamped(dn, e.attributes, meta));
    StampedName(dn, e.attributes, meta);
    var added := dn in e.added && DNString(dn) !in s[k].Get(MEMBEROF);
    var removed := dn in e.removed && !GivesUp(base, adds.store[k], MEMBEROF, dn);
    assert RewritesItself(base, s[k], e) <==> added || removed;
    var t := After(EditChanges(s, base, dn, e, meta));
    assert t == ApplyChanges(removes.store, [first] + adds.result.value + removes.result.value);
    hide *;
    WrittenAt(s, adds, removes, first, k, added, removed);
  }

  lemma WrittenAt(s: Contents, adds: Effect, removes: Effect, first: Change, k: Str, added: bool, removed: bool)
    requires Leaves(s, adds, k, added) && Leaves(adds.store, removes, k, removed) && first.Put? && Touched(first) == k
    ensures var t := ApplyChanges(removes.store, [first] + adds.result.value + removes.result.value);
            && k in t
            && if added || removed then s[k].attributes.Keys + {MEMBEROF} <= t[k].attributes.Keys else t[k] == first.entry
  {
    var cs := [first] + adds.result.value + removes.result.value;
    AppliedAt(removes.store, cs, k);
    LastChangeAppend([first] + adds.result.value, removes.result.value, k);
    LastChangeAppend([first], adds.result.value, k);
    OneChange([first], k);
    hide LastChange, Touched, ApplyChanges;
  }

  /** The same of a Modify that succeeds. */
  lemma ModifyAt(base: DN, s: Contents, allowed: bool, allowedAttrs: set<Str>, r: ModifyRequest, meta: Meta)
    requires Tree(base, s) && ModifyChanges(s, base, allowed, allowedAttrs, r, meta).result.Ok?
    ensures ParseUnder(base, r.entry, false).Some?
    ensures var dn := ParseUnder(base, r.entry, false).value;
            var t := After(ModifyChanges(s, base, allowed, allowedAttrs, r, meta));
            && Key(dn) in s && s[Key(dn)].dn == dn != [] && Key(dn) in t
            && Modifies(base, s[Key(dn)], allowedAttrs, r.changes).Ok?
            && var e := Modifies(base, s[Key(dn)], allowedAttrs, r.changes).value;
               if RewritesItself(base, s[Key(dn)], e)
               then s[Key(dn)].attributes.Keys + {MEMBEROF} <= t[Key(dn)].attributes.Keys
               else t[Key(dn)] == Stamped(dn, e.attributes, meta)
  {
    hide Tree, Lookup, ParseUnder, Modifies, EditChanges, Key, RewritesItself, Stamped, After;
    var dn := ParseUnder(base, r.entry, false).value;
    LookedUp(s, dn);
    EditAt(base, s, dn, Modifies(base, s[Key(dn)], allowedAttrs, r.changes).value, meta);
  }

  /**
   * A successful Modify stores the edited entry, with the fold of its changes in every touched attribute
   * and without the attributes that no change touches, exactly when no membership update writes the
   * same entry after it: a group that becomes or ceases to be its own member loses the edit.
   */
  lemma ModifyStores(base: DN, s: Contents, allowed: bool, allowedAttrs: set<Str>, r: ModifyRequest, meta: Meta)
    requires Tree(base, s) && ModifyChanges(s, base, allowed, allowedAttrs, r, meta).result.Ok?
    requires AttributeKey(ParseUnder(base, r.entry, false).value[0].typ) != MEMBEROF
    ensures var dn := ParseUnder(base, r.entry, false).value;
            var t := After(ModifyChanges(s, base, allowed, allowedAttrs, r, meta));
            && Key(dn) in s && s[Key(dn)].dn == dn && Key(dn) in t
            && var e := Modifies(base, s[Key(dn)], allowedAttrs, r.changes).value;
               t[Key(dn)] == Stamped(dn, e.attributes, meta) <==> !RewritesItself(base, s[Key(dn)], e)
  {
    ModifyAt(base, s, allowed, allowedAttrs, r, meta);
    hide Tree, ParseUnder, ModifyChanges, Modifies, Key, RewritesItself, AttributeKey, Stamped, Clean;
    var dn := ParseUnder(base, r.entry, false).value;
    NoMemberOf(base, s[Key(dn)], allowedAttrs, r.changes, meta);
  }

  /**
   * Section 4.6 of RFC 4511 leaves the attributes that no change names alone. Here such an attribute is
   * still there afterwards exactly when the edit itself is lost.
   */
  lemma ModifyForgets(base: DN, s: Contents, allowed: bool, allowedAttrs: set<Str>, r: ModifyRequest, meta: Meta,
      attr: Str)
    requires Tree(base, s) && ModifyChanges(s, base, allowed, allowedAttrs, r, meta).result.Ok?
    requires var dn := ParseUnder(base, r.entry, false).value;
             && Key(dn) in s && attr in s[Key(dn)].attributes && !Touches(r.changes, attr)
             && attr !in {MODIFIERSNAME, MODIFYTIMESTAMP, MEMBEROF, AttributeKey(dn[0].typ)}
             && AttributeKey(dn[0].typ) != MEMBEROF
    ensures var dn := ParseUnder(base, r.entry, false).value;
            var t := After(ModifyChanges(s, base, allowed, allowedAttrs, r, meta));
            && Key(dn) in t
            && (attr in t[Key(dn)].attributes
                <==> RewritesItself(base, s[Key(dn)], Modifies(base, s[Key(dn)], allowedAttrs, r.changes).value))
  {
    hide *;
    ModifyAt(base, s, allowed, allowedAttrs, r, meta);
    var entry := s[Key(ParseUnder(base, r.entry, false).value)];
    ModifyFolds(base, entry, allowedAttrs, r.changes, attr);
    StampedKeys(entry, Modifies(base, entry, allowedAttrs, r.changes).value.attributes, meta);
  }

  lemma StampedName(dn: DN, attributes: Attributes, meta: Meta)
    ensures Stamped(dn, attributes, meta).dn == dn
  {
  }

  /** An edit never writes memberof. */
  lemma NoMemberOf(base: DN, entry: Entry, allowed: set<Str>, changes: seq<Modification>, meta: Meta)
    requires Modifies(base, entry, allowed, changes).Ok? && entry.dn != [] && AttributeKey(entry.dn[0].typ) != MEMBEROF
    ensures var e := Stamped(entry.dn, Modifies(base, entry, allowed, changes).value.attributes, meta);
            MEMBEROF !in e.attributes && e.dn == entry.dn
  {
    ModifyFolds(base, entry, allowed, changes, MEMBEROF);
    hide AttributeKey, Modifies;
  }
}

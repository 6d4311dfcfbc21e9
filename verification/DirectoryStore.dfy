/** The stores of the directory: entries in a tree ordered by their keys, in memory or in a pgcache table. */
module DirectoryStore {
  import opened Wrappers
  import opened Text
  import opened Names
  import opened SortedMaps

  type Attributes = map<Str, seq<Str>>

  datatype Entry = Entry(dn: DN, attributes: Attributes) {
    function Get(attr: Str): seq<Str> {
      if attr in attributes then attributes[attr] else []
    }
  }

  /** The attribute that names the entry always holds the value it is named by. */
  function NewEntry(dn: DN, attributes: Attributes): Entry {
    if dn == [] then Entry(dn, attributes)
    else Entry(dn, attributes[AttributeKey(dn[0].typ) := [dn[0].value]])
  }

  function KeyOf(e: Entry): Str {
    Key(e.dn)
  }

  /** Entries by key. */
  type Contents = m: map<Str, Entry> | forall k | k in m :: KeyOf(m[k]) == k

  datatype Change = Put(entry: Entry) | Drop(dn: DN)

  function Touched(c: Change): Str {
    if c.Put? then KeyOf(c.entry) else Key(c.dn)
  }

  function ApplyChange(s: Contents, c: Change): Contents {
    if c.Put? then s[KeyOf(c.entry) := c.entry] else s - {Key(c.dn)}
  }

  function ApplyChanges(s: Contents, cs: seq<Change>): Contents {
    if cs == [] then s else ApplyChange(ApplyChanges(s, cs[..|cs| - 1]), cs[|cs| - 1])
  }

  /******* The ordered tree as a map *******/

  ghost predicate Ordered(tr: seq<Entry>) {
    Ascending(KeyOf, tr)
  }

  /** The stored entries, one after the other in the order of their keys. */
  ghost predicate InOrder(s: Contents, tr: seq<Entry>) {
    Ordered(tr) && forall e :: e in tr <==> KeyOf(e) in s && s[KeyOf(e)] == e
  }

  /******* Listing *******/

  function Exactly(s: Contents, p: Prefix): Option<Entry> {
    var k := PrefixString(p);
    if p != [] && k in s && Reverse(s[k].dn) == p then Some(s[k]) else None
  }

  /** What the in-memory store answers. */
  ghost predicate MemLists(s: Contents, p: Prefix, exact: bool, entries: seq<Entry>) {
    if exact then entries == (if Exactly(s, p).Some? then [Exactly(s, p).value] else [])
    else ListsRange(s, p, entries)
  }

  /** The entries the scan meets, each once, in the order of their keys. */
  ghost predicate ListsRange(s: Contents, p: Prefix, entries: seq<Entry>) {
    && Ordered(entries)
    && forall e :: e in entries <==> KeyOf(e) in s && s[KeyOf(e)] == e && Scanned(p, KeyOf(e))
  }

  /** The attributes of an entry: everyone who holds the entry shares the map. */
  class AttributeMap {
    var m: Attributes

    constructor (m: Attributes)
      ensures this.m == m
    {
      this.m := m;
    }
  }

  /** An entry as it is stored, listed and logged. */
  datatype Row = Row(dn: DN, attributes: AttributeMap)

  /** What the row says now. */
  function View(r: Row): Entry
    reads r.attributes
  {
    Entry(r.dn, r.attributes.m)
  }

  function Views(rows: seq<Row>): (entries: seq<Entry>)
    reads set r | r in rows :: r.attributes
    ensures |entries| == |rows|
  {
    seq(|rows|, i requires 0 <= i < |rows| reads set r | r in rows :: r.attributes => View(rows[i]))
  }

  /** `NewEntry` copies the attributes: nobody else holds the new map. */
  method CloneEntry(dn: DN, attributes: Attributes) returns (row: Row)
    ensures fresh(row.attributes) && View(row) == NewEntry(dn, attributes)
  {
    var m := new AttributeMap(NewEntry(dn, attributes).attributes);
    row := Row(dn, m);
  }

  ghost predicate Arranges(order: seq<DN>, rows: map<Str, Row>) {
    && Ascending(Key, order)
    && (forall dn | dn in order :: Key(dn) in rows && rows[Key(dn)].dn == dn)
    && forall k | k in rows :: rows[k].dn in order && Key(rows[k].dn) == k
  }

  ghost predicate Unshared(rows: map<Str, Row>) {
    forall j, k | j in rows && k in rows && rows[j].attributes == rows[k].attributes :: j == k
  }

  lemma ArrangesInsert(order: seq<DN>, rows: map<Str, Row>, row: Row)
    requires Arranges(order, rows)
    ensures Arranges(Insert(Key, order, row.dn), rows[Key(row.dn) := row])
  {
    InsertKeeps(Key, order, row.dn);
    hide Ascending, Insert, Key;
  }

  lemma ArrangesRemove(order: seq<DN>, rows: map<Str, Row>, dn: DN)
    requires Arranges(order, rows)
    ensures Arranges(Remove(Key, order, dn), rows - {Key(dn)})
  {
    RemoveKeeps(Key, order, dn);
    hide Ascending, Remove, Key;
  }

  class Mem {
    /** The names of the rows, as the B-tree orders them. */
    var order: seq<DN>
    var rows: map<Str, Row>

    constructor ()
      ensures Valid() && Contents() == map[] && Maps() == {}
    {
      order, rows := [], map[];
    }

    /** No two rows share a map. */
    ghost predicate Valid()
      reads this
    {
      Arranges(order, rows) && Unshared(rows)
    }

    ghost function Maps(): set<AttributeMap>
      reads this
    {
      set k | k in rows :: rows[k].attributes
    }

    ghost function Contents(): Contents
      requires Valid()
      reads this, Maps()
    {
      map k | k in rows :: View(rows[k])
    }

    /** The row is the stored one: a change of its map is a change of the store. */
    ghost predicate Holds(r: Row)
      reads this
    {
      Key(r.dn) in rows && rows[Key(r.dn)] == r
    }

    lemma InOrderOf()
      requires Valid()
      ensures (forall dn | dn in order :: Key(dn) in Contents()) && InOrder(Contents(), Arranged(Contents(), order))
      ensures forall i | 0 <= i < |order| ::
                Key(order[i]) in rows && Holds(rows[Key(order[i])]) && rows[Key(order[i])].dn == order[i]
                && Arranged(Contents(), order)[i] == View(rows[Key(order[i])])
    {
      hide Ascending, Key, Unshared, InOrder;
      var s := Contents();
      assert forall dn | dn in order :: Key(dn) in s && s[Key(dn)].dn == dn;
      assert forall k | k in s :: s[k].dn in order;
      ArrangedInOrder(s, order);
    }

    /** `List`: the ascending scan of a range, which an exact listing stops at the first match. */
    method List(prefix: Prefix, exact: bool) returns (found: seq<Row>)
      requires Valid()
      ensures Valid() && Contents() == old(Contents()) && forall r | r in found :: Holds(r)
      ensures MemLists(Contents(), prefix, exact, Views(found))
    {
      hide *;
      InOrderOf();
      ghost var s, tr := Contents(), Arranged(Contents(), order);
      found := [];
      NothingSoFar(tr, prefix);
      for i := 0 to |order|
        invariant Valid() && Contents() == s && forall r | r in found :: Holds(r)
        invariant if exact then found == [] && Missed(tr, i, prefix) else SoFar(tr, i, prefix, Views(found))
      {
        var row := rows[Key(order[i])];
        KeyOfView(row);
        if Scanned(prefix, Key(row.dn)) {
          if !exact {
            FoundNext(s, tr, i, prefix, Views(found));
            ViewsSnoc(found, row);
            found := found + [row];
          } else {
            if Reverse(row.dn) == prefix {
              FoundIt(s, tr, prefix, tr[i]);
              ViewsSnoc([], row);
              assert [] + [row] == [row];
              found := [row];
              assert Views(found) == [tr[i]];
              assert forall r | r in found :: r == row;
              return;
            }
            MissedNext(tr, i, prefix);
          }
        } else {
          PassedOver(tr, i, prefix, Views(found));
          MissedNext(tr, i, prefix);
        }
      }
      ListsAll(s, tr, prefix, exact, Views(found));
    }

    twostate lemma Inserted(row: Row)
      requires old(Valid()) && Valid() && rows == old(rows)[Key(row.dn) := row] && unchanged(old(Maps()))
      ensures Contents() == old(Contents())[Key(row.dn) := View(row)]
    {
      hide Arranges, Key, Unshared;
    }

    twostate lemma Deleted(dn: DN)
      requires old(Valid()) && Valid() && rows == old(rows) - {Key(dn)} && unchanged(old(Maps()))
      ensures Contents() == old(Contents()) - {Key(dn)}
    {
      hide Arranges, Key, Unshared;
    }

    /** `ReplaceOrInsert` of the B-tree. */
    method ReplaceOrInsert(row: Row)
      requires Valid() && row.attributes !in Maps()
      modifies this
      ensures Valid() && Contents() == old(Contents())[Key(row.dn) := View(row)]
      ensures Maps() <= old(Maps()) + {row.attributes}
    {
      hide Arranges, Insert, Key, Contents;
      ArrangesInsert(order, rows, row);
      order, rows := Insert(Key, order, row.dn), rows[Key(row.dn) := row];
      assert Valid();
      Inserted(row);
    }

    method DeleteRow(dn: DN)
      requires Valid()
      modifies this
      ensures Valid() && Contents() == old(Contents()) - {Key(dn)} && Maps() <= old(Maps())
    {
      hide Arranges, Remove, Key, Contents;
      ArrangesRemove(order, rows, dn);
      order, rows := Remove(Key, order, dn), rows - {Key(dn)};
      assert Valid();
      Deleted(dn);
    }
  }

  ghost function Arranged(s: Contents, order: seq<DN>): (tr: seq<Entry>)
    requires forall dn | dn in order :: Key(dn) in s
    ensures |tr| == |order|
  {
    seq(|order|, i requires 0 <= i < |order| => s[Key(order[i])])
  }

  lemma ArrangedInOrder(s: Contents, order: seq<DN>)
    requires Ascending(Key, order)
    requires forall dn | dn in order :: Key(dn) in s && s[Key(dn)].dn == dn
    requires forall k | k in s :: s[k].dn in order
    ensures InOrder(s, Arranged(s, order))
  {
    hide Less, Key;
    forall e | KeyOf(e) in s && s[KeyOf(e)] == e
      ensures e in Arranged(s, order)
    {
      var i :| 0 <= i < |order| && order[i] == e.dn;
      assert Arranged(s, order)[i] == e;
    }
  }

  lemma KeyOfView(row: Row)
    ensures KeyOf(View(row)) == Key(row.dn) && View(row).dn == row.dn
  {
  }

  lemma ViewsSnoc(rows: seq<Row>, r: Row)
    ensures Views(rows + [r]) == Views(rows) + [View(r)] && Views([]) == []
  {
  }

  /** What a scan has listed when it has gone through the first entries. */
  ghost predicate SoFar(tr: seq<Entry>, i: nat, p: Prefix, entries: seq<Entry>)
    requires i <= |tr|
  {
    Ordered(entries) && forall e :: e in entries <==> e in tr[..i] && Scanned(p, KeyOf(e))
  }

  ghost predicate Missed(tr: seq<Entry>, i: nat, p: Prefix)
    requires i <= |tr|
  {
    forall e | e in tr[..i] && Scanned(p, KeyOf(e)) :: Reverse(e.dn) != p
  }

  lemma NothingSoFar(tr: seq<Entry>, p: Prefix)
    ensures SoFar(tr, 0, p, []) && Missed(tr, 0, p) && Views([]) == []
  {
  }

  lemma FoundNext(s: Contents, tr: seq<Entry>, i: nat, p: Prefix, entries: seq<Entry>)
    requires InOrder(s, tr) && i < |tr| && Scanned(p, KeyOf(tr[i]))
    ensures SoFar(tr, i, p, entries) ==> SoFar(tr, i + 1, p, entries + [tr[i]])
  {
    hide Less, Key, Scanned;
    assert tr[..i + 1] == tr[..i] + [tr[i]];
    if SoFar(tr, i, p, entries) {
      assert forall e | e in entries :: exists j :: 0 <= j < i && tr[j] == e;
      OrderedSnoc(entries, tr[i]);
    }
  }

  lemma PassedOver(tr: seq<Entry>, i: nat, p: Prefix, entries: seq<Entry>)
    requires i < |tr| && !Scanned(p, KeyOf(tr[i]))
    ensures SoFar(tr, i, p, entries) ==> SoFar(tr, i + 1, p, entries)
  {
    hide Ordered, Key, Scanned;
    assert tr[..i + 1] == tr[..i] + [tr[i]];
  }

  lemma MissedNext(tr: seq<Entry>, i: nat, p: Prefix)
    requires i < |tr| && (Scanned(p, KeyOf(tr[i])) ==> Reverse(tr[i].dn) != p)
    ensures Missed(tr, i, p) ==> Missed(tr, i + 1, p)
  {
    hide Scanned;
    assert tr[..i + 1] == tr[..i] + [tr[i]];
  }

  lemma ListsAll(s: Contents, tr: seq<Entry>, p: Prefix, exact: bool, entries: seq<Entry>)
    requires InOrder(s, tr)
    requires if exact then entries == [] && Missed(tr, |tr|, p) else SoFar(tr, |tr|, p, entries)
    ensures MemLists(s, p, exact, entries)
  {
    hide Scanned, Ordered, Key;
    assert tr[..|tr|] == tr;
    if exact { NotFound(s, tr, p); }
  }

  lemma OrderedSnoc(entries: seq<Entry>, e: Entry)
    requires Ordered(entries) && forall x | x in entries :: Less(KeyOf(x), KeyOf(e))
    ensures Ordered(entries + [e])
  {
  }

  lemma FoundIt(s: Contents, tr: seq<Entry>, p: Prefix, e: Entry)
    requires InOrder(s, tr) && e in tr && Scanned(p, KeyOf(e)) && Reverse(e.dn) == p
    ensures forall exact | exact :: MemLists(s, p, exact, [e])
  {
    ScannedExactly(p, KeyOf(e));
  }

  lemma NotFound(s: Contents, tr: seq<Entry>, p: Prefix)
    requires InOrder(s, tr) && forall e | e in tr && Scanned(p, KeyOf(e)) :: Reverse(e.dn) != p
    ensures Exactly(s, p).None?
  {
    ScannedExactly(p, PrefixString(p));
  }

  /******* Transactions *******/

  datatype Logged = PutRow(row: Row) | DropRow(dn: DN)

  function ViewOf(c: Logged): Change
    reads if c.PutRow? then {c.row.attributes} else {}
  {
    match c
    case PutRow(row) => Put(View(row))
    case DropRow(dn) => Drop(dn)
  }

  ghost predicate Distinct(changes: seq<Logged>) {
    forall i, j | 0 <= i < j < |changes| && changes[i].PutRow? && changes[j].PutRow? ::
      changes[i].row.attributes != changes[j].row.attributes
  }

  class MemTransaction {
    const mem: Mem
    var changes: seq<Logged>
    var committed: bool

    constructor (mem: Mem)
      requires mem.Valid()
      ensures Valid() && this.mem == mem && changes == [] && Log() == [] && Maps() == {} && !committed
      ensures mem.Contents() == old(mem.Contents())
    {
      this.mem, changes, committed := mem, [], false;
    }

    ghost function Maps(): set<AttributeMap>
      reads this
    {
      MapsOf(changes)
    }

    /** The logged rows share no maps, neither with one another nor with the store. */
    ghost predicate Valid()
      reads this, mem
    {
      mem.Valid() && (!committed ==> Maps() !! mem.Maps()) && Distinct(changes)
    }

    ghost function Log(): (cs: seq<Change>)
      reads this, Maps()
      ensures |cs| == |changes|
    {
      seq(|changes|, i requires 0 <= i < |changes| reads this, Maps() => Logs(i))
    }

    ghost function Logs(i: nat): Change
      requires i < |changes|
      reads this, Maps()
    {
      assert changes[i] in changes;
      ViewOf(changes[i])
    }

    method Store(row: Row) returns (ok: bool)
      requires Valid() && row.attributes !in Maps() && row.attributes !in mem.Maps()
      modifies `changes
      ensures Valid() && (ok <==> !committed)
      ensures Log() == (if ok then old(Log()) + [Put(View(row))] else old(Log()))
      ensures Maps() <= old(Maps()) + {row.attributes}
    {
      if committed { return false; }
      changes := changes + [PutRow(row)];
      return true;
    }

    method Delete(dn: DN) returns (ok: bool)
      requires Valid()
      modifies `changes
      ensures Valid() && (ok <==> !committed)
      ensures Log() == (if ok then old(Log()) + [Drop(dn)] else old(Log())) && Maps() <= old(Maps())
    {
      if committed { return false; }
      changes := changes + [DropRow(dn)];
      return true;
    }

    method ApplyOne(c: Logged)
      requires mem.Valid() && (c.PutRow? ==> c.row.attributes !in mem.Maps())
      modifies mem
      ensures mem.Valid() && mem.Contents() == ApplyChange(old(mem.Contents()), ViewOf(c))
      ensures mem.Maps() <= old(mem.Maps()) + if c.PutRow? then {c.row.attributes} else {}
    {
      hide Key, mem.Contents, mem.Valid, mem.Maps;
      match c
      case PutRow(row) =>
        KeyOfView(row);
        mem.ReplaceOrInsert(row);
      case DropRow(dn) => mem.DeleteRow(dn);
    }

    /** What is logged does not change by what is stored. */
    method Commit() returns (ok: bool)
      requires Valid()
      modifies mem, `committed
      ensures mem.Valid() && (ok <==> !old(committed)) && committed
      ensures mem.Contents() == if ok then ApplyChanges(old(mem.Contents()), old(Log())) else old(mem.Contents())
      ensures mem.Maps() <= old(mem.Maps()) + Maps()
    {
      hide Key, mem.Contents, mem.Valid, mem.Maps, ApplyChanges, ApplyChange, Distinct, MapsOf;
      if committed { return false; }
      ghost var s, log := mem.Contents(), Log();
      assert forall i | 0 <= i < |changes| :: ViewOf(changes[i]) == Logs(i) == log[i];
      hide Log, Logs, Valid, Maps;
      ApplyNone(s, log, changes);
      for i := 0 to |changes|
        invariant mem.Valid() && !committed && forall j | i <= j < |changes| :: ViewOf(changes[j]) == log[j]
        invariant mem.Contents() == ApplyChanges(s, log[..i])
        invariant mem.Maps() <= old(mem.Maps()) + MapsOf(changes[..i])
      {
        ApplyNext(s, log, i);
        MapsNext(changes, i);
        ApplyOne(changes[i]);
      }
      assert log[..|changes|] == log && changes[..|changes|] == changes;
      committed := true;
      return true;
    }
  }

  ghost function MapsOf(changes: seq<Logged>): set<AttributeMap> {
    set c | c in changes && c.PutRow? :: c.row.attributes
  }

  lemma ApplyNone(s: Contents, log: seq<Change>, changes: seq<Logged>)
    ensures ApplyChanges(s, log[..0]) == s && MapsOf(changes[..0]) == {}
  {
  }

  lemma ApplyNext(s: Contents, log: seq<Change>, i: nat)
    requires i < |log|
    ensures ApplyChanges(s, log[..i + 1]) == ApplyChange(ApplyChanges(s, log[..i]), log[i])
  {
    assert log[..i + 1][..i] == log[..i];
  }

  lemma MapsNext(changes: seq<Logged>, i: nat)
    requires i < |changes| && Distinct(changes)
    ensures MapsOf(changes[..i + 1]) == MapsOf(changes[..i]) + if changes[i].PutRow? then {changes[i].row.attributes}
            else {}
    ensures changes[i].PutRow? ==>
              changes[i].row.attributes !in MapsOf(changes[..i]) && changes[i].row.attributes in MapsOf(changes)
    ensures MapsOf(changes[..i]) <= MapsOf(changes)
  {
    assert changes[..i + 1] == changes[..i] + [changes[i]];
    assert forall c | c in changes[..i] :: exists j :: 0 <= j < i && changes[j] == c;
  }

  /******* The same store over a pgcache table *******/

  ghost predicate PsqlLists(s: Contents, p: Prefix, exact: bool, entries: seq<Entry>) {
    if exact then entries == (if PrefixString(p) in s then [s[PrefixString(p)]] else [])
    else ListsRange(s, p, entries)
  }

  class Psql {
    const table: SortedMap<Prefix, Entry>

    constructor ()
      ensures Valid() && table.Contents() == map[] && fresh(table) && fresh(table.ptr)
    {
      table := new SortedMap((p: Prefix) => PrefixString(p));
    }

    /** The cache of the table: every entry lies under its own key. */
    ghost predicate Valid()
      reads this, table, table.ptr
    {
      && table.Valid() && (forall p :: table.name(p) == PrefixString(p))
      && forall k | k in table.Contents() :: KeyOf(table.Contents()[k]) == k
    }

    method List(prefix: Prefix, exact: bool) returns (entries: seq<Entry>)
      requires Valid()
      ensures PsqlLists(table.Contents(), prefix, exact, entries)
    {
      entries := [];
      if exact {
        var entry := table.Load(prefix);
        if entry.Some? { entries := entries + [entry.value]; }
      } else {
        var from, to := Some(PrefixString(prefix)), Some(PrefixString(PrefixEnd(prefix)));
        var pairs := table.Scan(from, to);
        entries := Values(pairs);
        ScanLists(table.name, table.Contents(), prefix, pairs);
      }
    }
  }

  datatype CommitError = AlreadyCommitted | NotifyFailed | CommitFailed

  class PsqlTransaction {
    const psql: Psql
    var changes: seq<Change>
    var committed: bool

    constructor (psql: Psql)
      ensures this.psql == psql && changes == [] && !committed
    {
      this.psql, changes, committed := psql, [], false;
    }

    /** `accepted` is the database's answer to the statement. */
    method Store(entry: Entry, accepted: bool) returns (ok: bool)
      modifies `changes
      ensures ok <==> !committed && accepted
      ensures changes == if ok then old(changes) + [Put(entry)] else old(changes)
    {
      if committed || !accepted { return false; }
      changes := changes + [Put(entry)];
      return true;
    }

    method Delete(dn: DN, accepted: bool) returns (ok: bool)
      modifies `changes
      ensures ok <==> !committed && accepted
      ensures changes == if ok then old(changes) + [Drop(dn)] else old(changes)
    {
      if committed || !accepted { return false; }
      changes := changes + [Drop(dn)];
      return true;
    }

    /** The notice goes out first; only then is the transaction committed, and the own cache changed. */
    method Commit(notifies: bool, commits: bool) returns (error: Option<CommitError>)
      requires psql.Valid()
      modifies `changes, `committed, psql.table`ptr
      ensures psql.Valid() && (fresh(psql.table.ptr) || psql.table.ptr == old(psql.table.ptr))
      ensures error == if old(committed) then Some(AlreadyCommitted)
                       else if old(changes) != [] && !notifies then Some(NotifyFailed)
                       else if !commits then Some(CommitFailed) else None
      ensures error.Some? ==> psql.table.Contents() == old(psql.table.Contents())
                              && changes == old(changes) && committed == old(committed)
      ensures error.None? ==> psql.table.Contents() == ApplyChanges(old(psql.table.Contents()), old(changes))
                              && changes == [] && committed
    {
      if committed { return Some(AlreadyCommitted); }
      if |changes| != 0 && !notifies { return Some(NotifyFailed); }
      if !commits { return Some(CommitFailed); }
      hide PrefixString, Reverse, ApplyChanges;
      ghost var s: Contents := psql.table.Contents();
      ApplyNone(s, changes, []);
      for i := 0 to |changes|
        invariant psql.Valid() && (fresh(psql.table.ptr) || psql.table.ptr == old(psql.table.ptr))
        invariant changes == old(changes) && psql.table.Contents() == ApplyChanges(s, changes[..i])
      {
        ApplyNext(s, changes, i);
        match changes[i]
        case Put(entry) => psql.table.Store(Reverse(entry.dn), entry);
        case Drop(dn) => psql.table.Delete(Reverse(dn));
      }
      assert changes[..|changes|] == changes;
      changes := [];
      committed := true;
      return None;
    }
  }

  function Values(pairs: seq<(Prefix, Entry)>): seq<Entry> {
    seq(|pairs|, i requires 0 <= i < |pairs| => pairs[i].1)
  }

  lemma ScanLists(name: Prefix -> Str, s: Contents, p: Prefix, pairs: seq<(Prefix, Entry)>)
    requires IsScan(name, s, Some(PrefixString(p)), Some(PrefixString(PrefixEnd(p))), pairs)
    ensures ListsRange(s, p, Values(pairs))
  {
    hide Less, PrefixString, Key, PrefixEnd;
    var from, to := Some(PrefixString(p)), Some(PrefixString(PrefixEnd(p)));
    forall i | 0 <= i < |pairs|
      ensures KeyOf(pairs[i].1) == name(pairs[i].0) && Scanned(p, KeyOf(pairs[i].1))
      ensures name(pairs[i].0) in s && s[name(pairs[i].0)] == pairs[i].1
    {
      assert Holds(name, s, from, to, pairs[i]);
    }
    forall e | KeyOf(e) in s && s[KeyOf(e)] == e && Scanned(p, KeyOf(e))
      ensures e in Values(pairs)
    {
      assert InRange(KeyOf(e), from, to);
      var q :| q in pairs && name(q.0) == KeyOf(e);
      var i :| 0 <= i < |pairs| && pairs[i] == q;
      assert Values(pairs)[i] == e;
    }
  }

  /******* The two agree *******/

  lemma ReverseInjective(a: DN, b: DN)
    ensures Reverse(a) == Reverse(b) <==> a == b
    ensures Reverse(Reverse(a)) == a
  {
    if Reverse(a) == Reverse(b) {
      forall i | 0 <= i < |a|
        ensures a[i] == b[i]
      {
        assert Reverse(a)[|a| - 1 - i] == Reverse(b)[|a| - 1 - i];
      }
    }
  }

  /** A scan has one answer only. */
  lemma {:induction false} RangeUnique(s: Contents, p: Prefix, a: seq<Entry>, b: seq<Entry>)
    requires ListsRange(s, p, a) && ListsRange(s, p, b)
    ensures a == b
  {
    OrderedUnique(a, b);
  }

  lemma EmptyTogether(a: seq<Entry>, b: seq<Entry>)
    requires forall e :: e in a <==> e in b
    ensures a == [] <==> b == []
  {
    if a != [] { assert a[0] in a; }
    if b != [] { assert b[0] in b; }
  }

  lemma {:induction false} OrderedUnique(a: seq<Entry>, b: seq<Entry>)
    requires Ordered(a) && Ordered(b) && forall e :: e in a <==> e in b
    ensures a == b
  {
    EmptyTogether(a, b);
    if a != [] {
      AscendingTail(KeyOf, a);
      AscendingTail(KeyOf, b);
      assert a[0] in b && b[0] in a;
      LessTotal(KeyOf(a[0]), KeyOf(b[0]));
      assert a[0] == b[0];
      forall e
        ensures e in a[1..] <==> e in b[1..]
      {
        LessTotal(KeyOf(e), KeyOf(e));
        assert e in a <==> e == a[0] || e in a[1..];
        assert e in b <==> e == b[0] || e in b[1..];
      }
      OrderedUnique(a[1..], b[1..]);
    }
  }

  /**
   * Over the same entries the two stores give the same listing, except that an exact one over a table
   * goes by the key alone: it differs exactly when the entry under the key has another name.
   */
  lemma StoresAgree(s: Contents, p: Prefix, exact: bool, a: seq<Entry>, b: seq<Entry>)
    requires MemLists(s, p, exact, a) && PsqlLists(s, p, exact, b)
    ensures a == b <==> (exact && PrefixString(p) in s ==> p != [] && Reverse(s[PrefixString(p)].dn) == p)
  {
    if !exact { RangeUnique(s, p, a, b); }
  }

  /** With names free of slashes, stored and asked for, they always agree. */
  lemma StoresAgreeOnClean(s: Contents, dn: DN, exact: bool, a: seq<Entry>, b: seq<Entry>)
    requires Clean(dn) && forall k | k in s :: Clean(s[k].dn)
    requires MemLists(s, Reverse(dn), exact, a) && PsqlLists(s, Reverse(dn), exact, b)
    ensures a == b
  {
    StoresAgree(s, Reverse(dn), exact, a, b);
    if Key(dn) in s { StringsTellApart(s[Key(dn)].dn, dn); }
  }

  /** What a list of transactions comes to, in either store. */
  function ApplyTransactions(s: Contents, txs: seq<seq<Change>>): Contents {
    if txs == [] then s else ApplyChanges(ApplyTransactions(s, txs[..|txs| - 1]), txs[|txs| - 1])
  }

  predicate CleanPuts(cs: seq<Change>) {
    forall c | c in cs && c.Put? :: Clean(c.entry.dn)
  }

  ghost predicate CleanContents(s: Contents) {
    forall k | k in s :: Clean(s[k].dn)
  }

  lemma {:induction false} ChangesKeepClean(s: Contents, cs: seq<Change>)
    requires CleanContents(s) && CleanPuts(cs)
    ensures CleanContents(ApplyChanges(s, cs))
  {
    hide Clean, Key;
    if cs != [] {
      assert cs[|cs| - 1] in cs && forall c | c in cs[..|cs| - 1] :: c in cs;
      ChangesKeepClean(s, cs[..|cs| - 1]);
    }
  }

  lemma {:induction false} TransactionsKeepClean(txs: seq<seq<Change>>)
    requires forall cs | cs in txs :: CleanPuts(cs)
    ensures CleanContents(ApplyTransactions(map[], txs))
  {
    hide CleanPuts, ApplyChanges;
    if txs != [] {
      hide CleanContents;
      assert txs[|txs| - 1] in txs && forall cs | cs in txs[..|txs| - 1] :: cs in txs;
      TransactionsKeepClean(txs[..|txs| - 1]);
      ChangesKeepClean(ApplyTransactions(map[], txs[..|txs| - 1]), txs[|txs| - 1]);
    }
  }

  /** After any transactions that store no name with a slash, the two stores answer every listing alike. */
  lemma TransactionsAgree(txs: seq<seq<Change>>, dn: DN, exact: bool, a: seq<Entry>, b: seq<Entry>)
    requires Clean(dn) && forall cs | cs in txs :: CleanPuts(cs)
    requires var s := ApplyTransactions(map[], txs);
             MemLists(s, Reverse(dn), exact, a) && PsqlLists(s, Reverse(dn), exact, b)
    ensures a == b
  {
    TransactionsKeepClean(txs);
    StoresAgreeOnClean(ApplyTransactions(map[], txs), dn, exact, a, b);
  }

  method LogOne(tx: MemTransaction, c: Change)
    requires tx.Valid() && !tx.committed
    modifies tx`changes
    ensures tx.Valid() && tx.Log() == old(tx.Log()) + [c] && fresh(tx.Maps() - old(tx.Maps()))
  {
    var ok;
    match c
    case Put(entry) =>
      var m := new AttributeMap(entry.attributes);
      ok := tx.Store(Row(entry.dn, m));
    case Drop(dn) => ok := tx.Delete(dn);
  }

  /** One transaction on the in-memory store. */
  method RunMem(mem: Mem, cs: seq<Change>)
    requires mem.Valid()
    modifies mem
    ensures mem.Valid() && mem.Contents() == ApplyChanges(old(mem.Contents()), cs)
  {
    hide ApplyChanges, Arranges, Unshared, Distinct, Key, mem.Contents;
    ghost var s := mem.Contents();
    var tx := new MemTransaction(mem);
    for i := 0 to |cs|
      invariant tx.mem == mem && mem.Valid() && mem.Contents() == s
      invariant tx.Valid() && !tx.committed && tx.Log() == cs[..i] && fresh(tx.Maps())
    {
      LogOne(tx, cs[i]);
    }
    assert cs[..|cs|] == cs;
    var ok := tx.Commit();
  }

  /** Transactions on an in-memory store that starts empty. */
  method MemAfter(txs: seq<seq<Change>>) returns (mem: Mem)
    ensures fresh(mem) && mem.Valid() && mem.Contents() == ApplyTransactions(map[], txs)
  {
    hide ApplyChanges, mem.Contents, mem.Valid;
    mem := new Mem();
    for i := 0 to |txs|
      invariant fresh(mem) && mem.Valid() && mem.Contents() == ApplyTransactions(map[], txs[..i])
    {
      assert txs[..i + 1][..i] == txs[..i];
      RunMem(mem, txs[i]);
    }
    assert txs[..|txs|] == txs;
  }

  /** The same transaction on the other one, whose database takes it. */
  method RunPsql(psql: Psql, cs: seq<Change>)
    requires psql.Valid()
    modifies psql.table`ptr
    ensures psql.Valid() && (fresh(psql.table.ptr) || psql.table.ptr == old(psql.table.ptr))
    ensures psql.table.Contents() == ApplyChanges(old(psql.table.Contents()), cs)
  {
    hide ApplyChanges, PrefixString;
    ghost var s := psql.table.Contents();
    var tx := new PsqlTransaction(psql);
    for i := 0 to |cs|
      invariant tx.psql == psql && !tx.committed && tx.changes == cs[..i]
      invariant psql.Valid() && psql.table.Contents() == s && psql.table.ptr == old(psql.table.ptr)
    {
      var ok;
      match cs[i]
      case Put(entry) => ok := tx.Store(entry, true);
      case Drop(dn) => ok := tx.Delete(dn, true);
    }
    assert cs[..|cs|] == cs;
    var error := tx.Commit(true, true);
  }

  method PsqlAfter(txs: seq<seq<Change>>) returns (psql: Psql)
    ensures fresh(psql) && psql.Valid() && psql.table.Contents() == ApplyTransactions(map[], txs)
  {
    hide ApplyChanges, psql.Valid;
    psql := new Psql();
    for i := 0 to |txs|
      invariant fresh(psql) && fresh(psql.table) && fresh(psql.table.ptr)
      invariant psql.Valid() && psql.table.Contents() == ApplyTransactions(map[], txs[..i])
    {
      assert txs[..i + 1][..i] == txs[..i];
      RunPsql(psql, txs[i]);
    }
    assert txs[..|txs|] == txs;
  }

  /**
   * Slashes can make two names share a key: "y=3,x=1/2" and "2/y=3,x=1". With the first one stored, the
   * stores disagree on whether the second one is there.
   */
  lemma SlashedNamesDisagree() returns (s: Contents, dn: DN, a: seq<Entry>, b: seq<Entry>)
    ensures ParseDN(DNString(dn)) == Some(dn)
    ensures MemLists(s, Reverse(dn), true, a) && PsqlLists(s, Reverse(dn), true, b)
    ensures a == [] && |b| == 1
  {
    hide PrefixString, ParseComponents, JoinComponents, Reverse, Canonical, Free, Norm;
    var x, y, one, two, three: Str := [0x78], [0x79], [0x31], [0x32], [0x33];
    var stored := [Component(y, three), Component(x, one + [SLASH] + two)];
    dn := [Component(two + [SLASH] + y, three), Component(x, one)];
    SlashMoves(x, one, two, y, three);
    SlashedCanonical();
    ParsePrint(dn, COMMA);
    assert stored[1].value != dn[1].value;
    ReverseInjective(stored, dn);
    var e := Entry(stored, map[]);
    s := map[Key(stored) := e];
    a, b := [], [e];
  }

  lemma SlashedCanonical()
    ensures Canonical(Component([0x32] + [SLASH] + [0x79], [0x33])) && Canonical(Component([0x78], [0x31]))
    ensures Free(Component([0x32] + [SLASH] + [0x79], [0x33]), COMMA) && Free(Component([0x78], [0x31]), COMMA)
  {
  }

  /** "t=v,x=a/b" and "b/t=v,x=a" have the same key. */
  lemma SlashMoves(x: Str, a: Str, b: Str, t: Str, v: Str)
    ensures Key([Component(t, v), Component(x, a + [SLASH] + b)]) == Key([Component(b + [SLASH] + t, v), Component(x, a)])
  {
    TwoComponents(Component(t, v), Component(x, a + [SLASH] + b));
    TwoComponents(Component(b + [SLASH] + t, v), Component(x, a));
    hide Key;
    calc {
      x + [EQUALS] + (a + [SLASH] + b) + [SLASH] + (t + [EQUALS] + v);
      x + [EQUALS] + a + [SLASH] + (b + [SLASH] + t + [EQUALS] + v);
    }
  }

  lemma TwoComponents(c: Component, d: Component)
    ensures Key([c, d]) == Print(d) + [SLASH] + Print(c)
  {
    assert Reverse([c, d]) == [d, c];
    assert PrintAll([d, c]) == [Print(d), Print(c)];
    assert [Print(d), Print(c)][1..] == [Print(c)];
    assert Join([Print(c)], SLASH) == Print(c);
  }
}

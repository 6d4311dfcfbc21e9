/**
 * pgcache: a table kept whole in memory, and the notifications that tell the other replicas which keys
 * a transaction touched.
 */
module Replica {
  import opened Wrappers
  import opened Text
  import opened SortedMaps

  datatype Object = Object(key: Str, body: Str)

  /** Objects by key: what a table holds, and what a replica holds in memory. */
  type DB = m: map<Str, Object> | forall k | k in m :: m[k].key == k

  datatype Update = Store(row: Object) | Delete(key: Str)

  datatype EventType = StoreEvent | DeleteEvent
  datatype Event = Event(kind: EventType, key: Str)

  /** A notification: per key, the type of the last event. */
  type Notice = map<Str, EventType>

  function KeyOf(u: Update): Str {
    if u.Store? then u.row.key else u.key
  }

  function EventOf(u: Update): Event {
    Event(if u.Store? then StoreEvent else DeleteEvent, KeyOf(u))
  }

  function ApplyOne(db: DB, u: Update): DB {
    if u.Store? then db[u.row.key := u.row] else db - {u.key}
  }

  /** What a transaction does to the database. */
  function Apply(db: DB, us: seq<Update>): DB {
    if us == [] then db else ApplyOne(Apply(db, us[..|us| - 1]), us[|us| - 1])
  }

  function EventsOf(us: seq<Update>): (events: seq<Event>)
    ensures |events| == |us|
  {
    seq(|us|, i requires 0 <= i < |us| => EventOf(us[i]))
  }

  function Merged(events: seq<Event>): Notice {
    if events == [] then map[]
    else Merged(events[..|events| - 1])[events[|events| - 1].key := events[|events| - 1].kind]
  }

  function NoticeOf(us: seq<Update>): Notice {
    Merged(EventsOf(us))
  }

  function Stores(n: Notice): set<Str> {
    set k | k in n && n[k].StoreEvent?
  }

  function Deletes(n: Notice): set<Str> {
    set k | k in n && n[k].DeleteEvent?
  }

  function Rows(view: DB, keys: set<Str>): (rows: DB) {
    map k | k in keys && k in view :: view[k]
  }

  /**
   * Merging loses nothing a replica needs: the merged type of a key says whether the transaction leaves
   * it in the table, and a key that is not named is left as it was.
   */
  lemma {:induction false} MergedTells(db: DB, us: seq<Update>, k: Str)
    ensures k in NoticeOf(us) <==> exists u :: u in us && KeyOf(u) == k
    ensures k !in NoticeOf(us) ==> Agree(Apply(db, us), db, k)
    ensures k in NoticeOf(us) ==> (k in Stores(NoticeOf(us)) <==> k in Apply(db, us))
  {
    if us != [] {
      var n := |us| - 1;
      var before, u := us[..n], us[n];
      assert us == before + [u];
      assert EventsOf(us)[..n] == EventsOf(before);
      MergedTells(db, before, k);
      if KeyOf(u) == k {
        assert u in us;
      } else {
        assert forall v | v in us && KeyOf(v) == k :: v in before;
        assert forall v | v in before :: v in us;
      }
    }
  }

  predicate Agree(a: DB, b: DB, k: Str) {
    (k in a <==> k in b) && (k in a ==> a[k] == b[k])
  }

  /******* Sending and receiving *******/

  /** The merging loop of `encode`. */
  method Encode(events: seq<Event>) returns (n: Notice)
    ensures n == Merged(events)
  {
    n := map[];
    for i := 0 to |events|
      invariant n == Merged(events[..i])
    {
      assert events[..i + 1][..i] == events[..i];
      n := n[events[i].key := events[i].kind];
    }
    assert events[..|events|] == events;
  }

  /** The events are those of the notice, each once, in some order. */
  ghost predicate Lists(events: seq<Event>, n: Notice) {
    && (forall i, j | 0 <= i < j < |events| :: events[i].key != events[j].key)
    && (forall i | 0 <= i < |events| :: events[i].key in n && n[events[i].key] == events[i].kind)
    && forall k | k in n :: Event(n[k], k) in events
  }

  /** `decode` walks the key map, in whatever order the map gives. */
  method Decode(n: Notice) returns (events: seq<Event>)
    ensures Lists(events, n)
  {
    events := [];
    var left := n;
    while left != map[]
      invariant left.Keys <= n.Keys && forall k | k in left :: left[k] == n[k]
      invariant Lists(events, n - left.Keys)
      decreases |left|
    {
      var k :| k in left;
      var rest := left - {k};
      assert |rest.Keys| < |left.Keys| by { assert rest.Keys == left.Keys - {k}; }
      forall j | j in n - rest.Keys
        ensures Event(n[j], j) in events + [Event(left[k], k)]
      {
        if j != k { assert j in n - left.Keys; }
      }
      events := events + [Event(left[k], k)];
      left := rest;
    }
    assert n - left.Keys == n;
  }

  /******* One replica *******/

  /** The rows for these keys, in the order asked for; keys that are not in the table give no row. */
  function Get(view: DB, keys: seq<Str>): (rows: seq<Object>)
    ensures |rows| <= |keys|
    ensures |rows| == |keys| <==> forall k | k in keys :: k in view
    ensures |rows| == |keys| ==> forall i | 0 <= i < |keys| :: keys[i] in view && rows[i] == view[keys[i]]
  {
    if keys == [] then []
    else
      assert forall k | k in keys :: k == keys[0] || k in keys[1..];
      var rest := Get(view, keys[1..]);
      if keys[0] in view then [view[keys[0]]] + rest else rest
  }

  const MAX_TRIES := 3

  class Table {
    const cache: SortedMap<Str, Object>

    constructor ()
      ensures Valid() && Contents() == map[] && fresh(cache) && fresh(cache.ptr)
    {
      cache := new SortedMap((k: Str) => k);
    }

    ghost predicate Valid()
      reads this, cache, cache.ptr
    {
      && cache.Valid() && (forall k :: cache.name(k) == k)
      && forall k | k in cache.Contents() :: cache.Contents()[k].key == k
    }

    ghost function Contents(): DB
      requires Valid()
      reads this, cache, cache.ptr
    {
      cache.Contents()
    }

    method Store(key: Str, row: Object)
      requires Valid() && row.key == key
      modifies cache`ptr
      ensures Valid() && fresh(cache.ptr) && Contents() == old(Contents())[key := row]
    {
      cache.Store(key, row);
    }

    method Delete(key: Str)
      requires Valid()
      modifies cache`ptr
      ensures Valid() && fresh(cache.ptr) && Contents() == old(Contents()) - {key}
    {
      cache.Delete(key);
    }

    /**
     * Handles the events of one notice. `views` is the table as each try of the fetch sees it. Without
     * an error the deleted keys are gone and the stored keys hold what the first complete fetch saw.
     */
    method HandleEvents(events: seq<Event>, views: seq<DB>, ghost n: Notice) returns (ok: bool)
      requires Valid() && Lists(events, n) && |views| == MAX_TRIES
      modifies cache`ptr
      ensures Valid() && (fresh(cache.ptr) || cache.ptr == old(cache.ptr))
      ensures ok <==> exists j :: 0 <= j < MAX_TRIES && Stores(n) <= views[j].Keys
      ensures ok ==> exists j :: 0 <= j < MAX_TRIES && Stores(n) <= views[j].Keys
                                 && (forall i | 0 <= i < j :: !(Stores(n) <= views[i].Keys))
                                 && Contents() == old(Contents()) - Deletes(n) + Rows(views[j], Stores(n))
      ensures !ok ==> Contents() == old(Contents()) - Deletes(n)
    {
      hide Valid, Lists, Get;
      var refresh := Forget(events, n);
      ghost var forgotten := Contents();
      if refresh == [] {
        assert Rows(views[0], Stores(n)) == map[];
        assert Contents() == forgotten + Rows(views[0], Stores(n));
        return true;
      }
      hide Rows, Stores, Deletes;
      for tries := 0 to MAX_TRIES
        invariant Contents() == forgotten
        invariant forall i | 0 <= i < tries :: !(Stores(n) <= views[i].Keys)
      {
        var rows := Get(views[tries], refresh);
        if |rows| == |refresh| {
          StoreAll(views[tries], refresh, rows);
          assert Elements(refresh) == Stores(n);
          return true;
        }
        assert !(Stores(n) <= views[tries].Keys);
      }
      return false;
    }

    /** The first loop: drops the deleted keys and collects the stored ones. */
    method Forget(events: seq<Event>, ghost n: Notice) returns (refresh: seq<Str>)
      requires Valid() && Lists(events, n)
      modifies cache`ptr
      ensures Valid() && (fresh(cache.ptr) || cache.ptr == old(cache.ptr))
      ensures Elements(refresh) == Stores(n) && Contents() == old(Contents()) - Deletes(n)
    {
      hide Valid, Lists, Merged, Stores, Deletes;
      refresh := [];
      NothingYet(events);
      for i := 0 to |events|
        invariant Valid() && (fresh(cache.ptr) || cache.ptr == old(cache.ptr))
        invariant Elements(refresh) == Stores(Merged(events[..i]))
        invariant Contents() == old(Contents()) - Deletes(Merged(events[..i]))
      {
        MergeStep(events, n, i);
        match events[i].kind
        case StoreEvent => refresh := refresh + [events[i].key];
        case DeleteEvent => Delete(events[i].key);
      }
      MergeAll(events, n);
    }

    method StoreAll(ghost view: DB, ghost keys: seq<Str>, rows: seq<Object>)
      requires Valid() && |rows| == |keys|
      requires forall i | 0 <= i < |keys| :: keys[i] in view && rows[i] == view[keys[i]]
      modifies cache`ptr
      ensures Valid() && (fresh(cache.ptr) || cache.ptr == old(cache.ptr))
      ensures Contents() == old(Contents()) + Rows(view, Elements(keys))
    {
      hide Valid, Rows;
      RowsNone(Contents(), view, keys);
      for i := 0 to |rows|
        invariant Valid() && (fresh(cache.ptr) || cache.ptr == old(cache.ptr))
        invariant Contents() == old(Contents()) + Rows(view, Elements(keys[..i]))
      {
        assert keys[..i + 1] == keys[..i] + [keys[i]];
        RowsStep(old(Contents()), view, keys[..i], keys[i]);
        Store(rows[i].key, rows[i]);
      }
      assert keys[..|rows|] == keys;
    }

    /** The last loop of `Commit`. */
    method ApplyAll(updates: seq<Update>)
      requires Valid()
      modifies cache`ptr
      ensures Valid() && (fresh(cache.ptr) || cache.ptr == old(cache.ptr))
      ensures Contents() == Apply(old(Contents()), updates)
    {
      hide Valid;
      for i := 0 to |updates|
        invariant Valid() && (fresh(cache.ptr) || cache.ptr == old(cache.ptr))
        invariant Contents() == Apply(old(Contents()), updates[..i])
      {
        assert updates[..i + 1][..i] == updates[..i];
        match updates[i]
        case Store(row) => Store(row.key, row);
        case Delete(key) => Delete(key);
      }
      assert updates[..|updates|] == updates;
    }
  }

  lemma RowsNone(m: map<Str, Object>, view: DB, keys: seq<Str>)
    ensures m + Rows(view, Elements(keys[..0])) == m
  {
  }

  lemma RowsStep(m: map<Str, Object>, view: DB, keys: seq<Str>, k: Str)
    requires k in view
    ensures m + Rows(view, Elements(keys + [k])) == (m + Rows(view, Elements(keys)))[k := view[k]]
  {
    assert Elements(keys + [k]) == Elements(keys) + {k};
  }

  lemma NothingYet(events: seq<Event>)
    ensures Stores(Merged(events[..0])) == {} && Deletes(Merged(events[..0])) == {}
  {
  }

  /** Events of distinct keys meet no earlier event of their own key. */
  lemma MergeStep(events: seq<Event>, n: Notice, i: nat)
    requires Lists(events, n) && i < |events|
    ensures var before, after, k := Merged(events[..i]), Merged(events[..i + 1]), events[i].key;
            && Stores(after) == Stores(before) + (if events[i].kind.StoreEvent? then {k} else {})
            && Deletes(after) == Deletes(before) + (if events[i].kind.DeleteEvent? then {k} else {})
  {
    assert events[..i + 1][..i] == events[..i];
    forall k | k in Merged(events[..i])
      ensures k != events[i].key
    {
      MergedKeys(events[..i], k);
    }
  }

  lemma {:induction false} MergedKeys(events: seq<Event>, k: Str)
    ensures k in Merged(events) ==> Event(Merged(events)[k], k) in events
    ensures (exists i :: 0 <= i < |events| && events[i].key == k) ==> k in Merged(events)
  {
    if events != [] {
      var before := events[..|events| - 1];
      MergedKeys(before, k);
      assert events == before + [events[|events| - 1]];
      assert forall i | 0 <= i < |before| :: before[i] == events[i];
    }
  }

  lemma MergeAll(events: seq<Event>, n: Notice)
    requires Lists(events, n)
    ensures Merged(events) == n && events[..|events|] == events
  {
    forall k
      ensures k in Merged(events) <==> k in n
      ensures k in n ==> Merged(events)[k] == n[k]
    {
      MergedKeys(events, k);
      if k in n {
        var i :| 0 <= i < |events| && events[i] == Event(n[k], k);
      }
    }
  }

  /******* A transaction of this process *******/

  datatype CommitError = AlreadyCommitted | NotifyFailed | CommitFailed

  class TableTx {
    const table: Table
    var updates: seq<Update>
    var committed: bool

    constructor (table: Table)
      ensures this.table == table && updates == [] && !committed
    {
      this.table, updates, committed := table, [], false;
    }

    /** `Store`: `accepted` is the database's answer to the statements. */
    method Store(objects: seq<Object>, accepted: bool) returns (ok: bool)
      modifies `updates
      ensures ok <==> !committed && accepted
      ensures updates == old(updates) + if ok then seq(|objects|, i requires 0 <= i < |objects| => Update.Store(objects[i])) else []
    {
      if committed { return false; }
      if !accepted { return false; }
      for i := 0 to |objects|
        invariant updates == old(updates) + seq(i, j requires 0 <= j < i => Update.Store(objects[j]))
      {
        updates := updates + [Update.Store(objects[i])];
      }
      return true;
    }

    method Delete(keys: seq<Str>, accepted: bool) returns (ok: bool)
      modifies `updates
      ensures ok <==> !committed && accepted
      ensures updates == old(updates) + if ok then seq(|keys|, i requires 0 <= i < |keys| => Update.Delete(keys[i])) else []
    {
      if committed { return false; }
      if !accepted { return false; }
      for i := 0 to |keys|
        invariant updates == old(updates) + seq(i, j requires 0 <= j < i => Update.Delete(keys[j]))
      {
        updates := updates + [Update.Delete(keys[i])];
      }
      return true;
    }

    method Events() returns (events: seq<Event>)
      ensures events == EventsOf(updates)
    {
      events := [];
      for i := 0 to |updates|
        invariant events == EventsOf(updates[..i])
      {
        events := events + [EventOf(updates[i])];
      }
      assert updates[..|updates|] == updates;
    }

    /**
     * Sends the notice first, commits the transaction next and updates the own cache last, by the same
     * updates; a failed commit leaves table and cache as they were, though the notice may already be out.
     */
    method Commit(db: DB, notifies: bool, commits: bool)
      returns (error: Option<CommitError>, sent: Option<Notice>, after: DB)
      requires table.Valid()
      modifies this`updates, this`committed, table.cache`ptr
      ensures table.Valid() && (fresh(table.cache.ptr) || table.cache.ptr == old(table.cache.ptr))
      ensures error == if old(committed) then Some(AlreadyCommitted)
                       else if old(updates) != [] && !notifies then Some(NotifyFailed)
                       else if !commits then Some(CommitFailed) else None
      ensures sent == if old(committed) || old(updates) == [] || !notifies then None else Some(NoticeOf(old(updates)))
      ensures error.Some? ==> after == db && table.Contents() == old(table.Contents())
                              && updates == old(updates) && committed == old(committed)
      ensures error.None? ==> after == Apply(db, old(updates)) && updates == [] && committed
      ensures error.None? ==> table.Contents() == Apply(old(table.Contents()), old(updates))
    {
      hide table.Valid, Apply, EventsOf, Merged;
      sent, after := None, db;
      if committed { return Some(AlreadyCommitted), sent, after; }
      var events := Events();
      if |events| != 0 {
        if !notifies { return Some(NotifyFailed), sent, after; }
        var n := Encode(events);
        sent := Some(n);
      }
      if !commits { return Some(CommitFailed), sent, after; }
      after := Apply(db, updates);
      table.ApplyAll(updates);
      updates := [];
      committed := true;
      error := None;
    }
  }
}

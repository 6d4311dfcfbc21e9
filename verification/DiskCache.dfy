/**
 * The disk cache in front of S3: one data file per entry and one metadata file. Any step on the disk may
 * fail, and the process may die after any step.
 */
module DiskCache {
  import opened Wrappers
  import opened Text

  /** Name of a data file. */
  type Uid = nat

  datatype Entry = Entry(id: Uid, key: Str, hash: Str, size: nat, storedAt: int, lastAccess: int)

  type Entries = m: map<Str, Entry> | forall k | k in m :: m[k].key == k

  /** What would survive a crash: the metadata file and the data files. */
  datatype Disk = Disk(metadata: Entries, files: map<Uid, Str>)

  /** Sum of the tracked sizes. */
  ghost function Total(m: Entries): nat {
    if m == map[] then 0 else var k :| k in m; m[k].size + Total(m - {k})
  }

  lemma {:induction false} TotalTake(m: Entries, k: Str)
    requires k in m
    ensures Total(m) == m[k].size + Total(m - {k})
    decreases |m|
  {
    var j :| j in m && Total(m) == m[j].size + Total(m - {j});
    if j != k {
      Fewer(m, j);
      Fewer(m, k);
      TotalTake(m - {j}, k);
      TotalTake(m - {k}, j);
      assert m - {j} - {k} == m - {k} - {j};
    }
  }

  lemma Fewer(m: Entries, k: Str)
    requires k in m
    ensures |m - {k}| < |m|
  {
    assert (m - {k}).Keys == m.Keys - {k};
  }

  lemma PutMinus(m: Entries, e: Entry)
    ensures m[e.key := e] - {e.key} == m - {e.key}
  {
  }

  lemma TotalNone()
    ensures Total(map[]) == 0
  {
  }

  /** No other entry has this data file. */
  ghost predicate Owns(m: Entries, key: Str, id: Uid) {
    forall k | k in m && k != key :: m[k].id != id
  }

  lemma TotalPut(m: Entries, e: Entry)
    ensures Total(m[e.key := e]) == Total(m) + e.size - (if e.key in m then m[e.key].size else 0)
  {
    TotalTake(m[e.key := e], e.key);
    assert m[e.key := e] - {e.key} == m - {e.key};
    if e.key in m { TotalTake(m, e.key); } else { assert m - {e.key} == m; }
  }

  ghost predicate Distinct(m: Entries) {
    forall j, k | j in m && k in m && m[j].id == m[k].id :: j == k
  }

  /** Every entry of the metadata file has its data file, of its own. */
  ghost predicate Intact(d: Disk) {
    (forall k | k in d.metadata :: d.metadata[k].id in d.files) && Distinct(d.metadata)
  }

  /** And what it accounts for is within the limit. */
  ghost predicate Consistent(d: Disk, limit: int) {
    Intact(d) && Total(d.metadata) <= limit
  }

  ghost predicate Older(a: Entry, b: Entry) {
    a.lastAccess <= b.lastAccess && a.key != b.key
  }

  ghost predicate OldestFirst(heap: seq<Entry>) {
    forall i, j | 0 <= i < j < |heap| :: Older(heap[i], heap[j])
  }

  /** All entries, the least recently used first. */
  ghost predicate IsLruHeap(heap: seq<Entry>, m: Entries) {
    OldestFirst(heap) && forall e :: e in heap <==> e.key in m && m[e.key] == e
  }

  /** Where sorting puts one more entry. */
  function Sorted(heap: seq<Entry>, e: Entry): seq<Entry> {
    if heap == [] || e.lastAccess < heap[0].lastAccess then [e] + heap else [heap[0]] + Sorted(heap[1..], e)
  }

  lemma OldestCons(x: Entry, rest: seq<Entry>)
    requires OldestFirst(rest) && forall y | y in rest :: Older(x, y)
    ensures OldestFirst([x] + rest)
  {
  }

  lemma OldestTail(heap: seq<Entry>)
    requires OldestFirst(heap) && heap != []
    ensures OldestFirst(heap[1..]) && (forall y | y in heap[1..] :: Older(heap[0], y)) && heap == [heap[0]] + heap[1..]
  {
  }

  lemma {:induction false} SortedKeeps(heap: seq<Entry>, e: Entry)
    requires OldestFirst(heap) && forall x | x in heap :: x.key != e.key
    ensures OldestFirst(Sorted(heap, e)) && forall x :: x in Sorted(heap, e) <==> x == e || x in heap
  {
    if heap == [] {
      OldestCons(e, heap);
    } else {
      var head, rest := heap[0], heap[1..];
      OldestTail(heap);
      hide OldestFirst;
      if e.lastAccess < head.lastAccess {
        OldestCons(e, heap);
      } else {
        SortedKeeps(rest, e);
        OldestCons(head, Sorted(rest, e));
      }
    }
  }

  function Keys(heap: seq<Entry>): set<Str> {
    set e | e in heap :: e.key
  }

  /** The next candidate is still tracked when its turn comes. */
  lemma HeapAt(heap: seq<Entry>, m: Entries, next: nat)
    requires IsLruHeap(heap, m) && next < |heap|
    ensures var e, left := heap[next], m - Keys(heap[..next]);
            && e.key in left && left[e.key] == e
            && Keys(heap[..next + 1]) == Keys(heap[..next]) + {e.key}
            && left - {e.key} == m - Keys(heap[..next + 1])
  {
    assert heap[next] in heap && heap[..next + 1] == heap[..next] + [heap[next]];
    forall e | e in heap[..next]
      ensures e.key != heap[next].key
    {
      var i :| 0 <= i < next && heap[i] == e;
      assert Older(heap[i], heap[next]);
    }
  }

  lemma HeapNone(heap: seq<Entry>, m: Entries)
    ensures m - Keys(heap[..0]) == m
  {
  }

  lemma HeapAll(heap: seq<Entry>, m: Entries)
    requires IsLruHeap(heap, m)
    ensures m - Keys(heap[..|heap|]) == map[]
  {
    assert heap[..|heap|] == heap;
    forall k | k in m
      ensures k in Keys(heap)
    {
      assert m[k] in heap;
    }
  }

  /** The tracked entries have distinct files, which hold what was last stored. */
  ghost predicate Tracking(m: Entries, files: map<Uid, Str>, stored: map<Str, (Str, Str)>) {
    && Distinct(m)
    && forall k | k in m :: m[k].id in files && k in stored && stored[k] == (m[k].hash, files[m[k].id])
  }

  /** The disk after every step, the last of them now. */
  ghost predicate Logged(trace: seq<Disk>, disk: Disk, limit: int) {
    && trace != [] && trace[|trace| - 1] == disk
    && forall d | d in trace :: Consistent(d, limit)
  }

  lemma LogStep(trace: seq<Disk>, was: Disk, disk: Disk, limit: int)
    requires Logged(trace, was, limit) && Consistent(disk, limit)
    ensures Logged(trace + [disk], disk, limit) && trace <= trace + [disk]
  {
    hide Consistent;
  }

  lemma LogNow(trace: seq<Disk>, disk: Disk, limit: int)
    requires Logged(trace, disk, limit)
    ensures Consistent(disk, limit)
  {
    hide Consistent;
  }

  lemma TrackedPersists(m: Entries, files: map<Uid, Str>, stored: map<Str, (Str, Str)>, limit: int)
    requires Tracking(m, files, stored) && Total(m) <= limit
    ensures Consistent(Disk(m, files), limit)
  {
    hide Total;
  }

  /** Fewer entries are tracked no worse. */
  lemma TrackLess(m: Entries, less: Entries, files: map<Uid, Str>, stored: map<Str, (Str, Str)>)
    requires Tracking(m, files, stored) && forall k | k in less :: k in m && less[k] == m[k]
    ensures Tracking(less, files, stored)
  {
  }

  lemma TrackPut(m: Entries, files: map<Uid, Str>, stored: map<Str, (Str, Str)>, e: Entry, data: Str)
    requires Tracking(m, files, stored) && Owns(m, e.key, e.id)
    ensures Tracking(m[e.key := e], files[e.id := data], stored[e.key := (e.hash, data)])
  {
  }

  lemma TrackTouch(m: Entries, files: map<Uid, Str>, stored: map<Str, (Str, Str)>, e: Entry)
    requires Tracking(m, files, stored) && e.key in m && m[e.key].id == e.id && m[e.key].hash == e.hash
    ensures Tracking(m[e.key := e], files, stored)
  {
  }

  lemma TrackDelete(m: Entries, files: map<Uid, Str>, stored: map<Str, (Str, Str)>, id: Uid)
    requires Tracking(m, files, stored) && forall k | k in m :: m[k].id != id
    ensures Tracking(m, files - {id}, stored)
  {
  }

  lemma OwnsFile(m: Entries, files: map<Uid, Str>, stored: map<Str, (Str, Str)>, key: Str, id: Uid)
    requires Tracking(m, files, stored) && if key in m then id == m[key].id else id !in files
    ensures Owns(m, key, id) && Owns(map[], key, id)
  {
  }

  /** Writing a file that stays or is new takes none away. */
  lemma MoreFiles(d: Disk, id: Uid, data: Str, limit: int)
    requires Consistent(d, limit)
    ensures Consistent(Disk(d.metadata, d.files[id := data]), limit)
  {
    hide Total;
  }

  lemma LessFiles(d: Disk, id: Uid, limit: int)
    requires Consistent(d, limit) && forall k | k in d.metadata :: d.metadata[k].id != id
    ensures Consistent(Disk(d.metadata, d.files - {id}), limit)
  {
    hide Total;
  }

  function OldSize(m: Entries, key: Str): nat {
    if key in m then m[key].size else 0
  }

  /** What making room for `n` bytes under a key leaves tracked: all or nothing. */
  function Kept(m: Entries, key: Str, n: nat, capacity: int, free: int): Entries {
    var diff := n - OldSize(m, key);
    if n < capacity && free < diff && diff > 0 then map[] else m
  }

  /**
   * What was tracked still is, unless more is written than before and the capacity does not hold it all; a
   * key that was stored under is not spoken of.
   */
  ghost predicate Spared(m: Entries, after: Entries, key: Str, n: nat, capacity: int, size: nat, tracked: bool) {
    var was := if key in m then m[key].size else 0;
    && after.Keys <= m.Keys + (if tracked then {key} else {})
    && forall k | k in m && (k == key ==> !tracked) ::
         && (k in after <==> n <= was || n >= capacity || size + Total(m) + (n - was) <= capacity)
         && (k in after ==> after[k] == m[k])
  }

  lemma KeptSpares(m: Entries, after: Entries, key: Str, n: nat, capacity: int, size: nat, tracked: bool)
    requires var kept := Kept(m, key, n, capacity, capacity - size - Total(m));
             if tracked then key in after && after - {key} == kept - {key} else after == kept
    ensures Spared(m, after, key, n, capacity, size, tracked)
  {
    hide Total;
    var kept := Kept(m, key, n, capacity, capacity - size - Total(m));
    assert forall k | k != key :: k in after <==> k in after - {key};
    assert forall k | k != key :: k in kept <==> k in kept - {key};
  }

  /** What a start makes of the metadata file: the times of the last uses are not in it. */
  function Loaded(m: Entries): Entries {
    map k | k in m :: m[k].(lastAccess := m[k].storedAt)
  }

  lemma {:induction false} TotalLoaded(m: Entries)
    ensures Total(Loaded(m)) == Total(m)
    decreases |m|
  {
    hide Total;
    if m == map[] {
      assert Loaded(m) == map[];
    } else {
      var k :| k in m;
      TotalTake(m, k);
      TotalTake(Loaded(m), k);
      Fewer(m, k);
      assert Loaded(m) - {k} == Loaded(m - {k});
      TotalLoaded(m - {k});
    }
  }

  class S3Cache {
    const capacity: int
    /** The capacity, or what was tracked at the start if the capacity has become smaller than that. */
    ghost const limit: int
    var byKey: Entries
    /** Size of the metadata file as last written, or tried. */
    var size: nat
    var disk: Disk
    /** The disk after every step so far. */
    ghost var trace: seq<Disk>
    /** Hash and bytes of the last store of each key. */
    ghost var stored: map<Str, (Str, Str)>

    /**
     * `newMetadataStore`: what a start finds on the disk, whatever step the last run ended at. The capacity
     * is that of the file system at this start.
     */
    constructor (capacity: int, disk: Disk)
      requires Intact(disk)
      ensures Valid() && this.capacity == capacity && this.disk == disk && byKey == Loaded(disk.metadata)
      ensures limit == if Total(disk.metadata) <= capacity then capacity else Total(disk.metadata)
    {
      TotalLoaded(disk.metadata);
      this.capacity, this.disk, byKey, size := capacity, disk, Loaded(disk.metadata), 0;
      limit := if Total(disk.metadata) <= capacity then capacity else Total(disk.metadata);
      trace := [disk];
      stored := map k | k in disk.metadata :: (disk.metadata[k].hash, disk.files[disk.metadata[k].id]);
    }

    ghost predicate Valid()
      reads this
    {
      && Tracking(byKey, disk.files, stored) && Total(byKey) <= limit && capacity <= limit
      && Logged(trace, disk, limit)
    }

    ghost function FreeSpace(): int
      reads this
    {
      capacity - size - Total(byKey)
    }

    method CacheSize() returns (total: nat)
      ensures total == Total(byKey)
    {
      total := 0;
      var left := byKey;
      while left != map[]
        invariant forall k | k in left :: k in byKey && left[k] == byKey[k]
        invariant total + Total(left) == Total(byKey)
        decreases |left|
      {
        var k :| k in left;
        TotalTake(left, k);
        Fewer(left, k);
        total := total + left[k].size;
        left := left - {k};
      }
    }

    method LruHeap() returns (heap: seq<Entry>)
      ensures IsLruHeap(heap, byKey)
    {
      heap := [];
      var left := byKey.Keys;
      while left != {}
        invariant left <= byKey.Keys && IsLruHeap(heap, byKey - left)
        decreases |left|
      {
        var k :| k in left;
        SortedKeeps(heap, byKey[k]);
        assert (byKey - left)[k := byKey[k]] == byKey - (left - {k});
        hide OldestFirst, Sorted;
        heap := Sorted(heap, byKey[k]);
        left := left - {k};
      }
      assert byKey - left == byKey;
    }

    /** `persistLocked`: replaces the metadata file, or fails and leaves it. */
    method Persist() returns (ok: bool)
      requires Valid()
      modifies `size, `disk, `trace
      ensures Valid() && old(trace) <= trace
      ensures disk == if ok then Disk(byKey, old(disk.files)) else old(disk)
    {
      hide Total, Tracking, Logged, Consistent;
      size := *;
      ok := *;
      if ok {
        TrackedPersists(byKey, disk.files, stored, limit);
        LogStep(trace, disk, Disk(byKey, disk.files), limit);
        disk := disk.(metadata := byKey);
        trace := trace + [disk];
      }
    }

    /**
     * Writes a data file, replacing what was there, and tracks it; or fails and leaves all as it was. Its
     * metadata is not on the disk yet.
     */
    method WriteAndPut(key: Str, id: Uid, data: Str, hash: Str, now: int) returns (ok: bool)
      requires Valid() && Owns(byKey, key, id)
      requires Total(byKey) + |data| - OldSize(byKey, key) <= limit
      modifies `byKey, `disk, `trace, `stored
      ensures Valid() && old(trace) <= trace
      ensures disk == if ok then Disk(old(disk.metadata), old(disk.files)[id := data]) else old(disk)
      ensures stored == if ok then old(stored)[key := (hash, data)] else old(stored)
      ensures byKey == if ok then old(byKey)[key := Entry(id, key, hash, |data|, now, now)] else old(byKey)
    {
      ok := *;
      if ok {
        hide Total, Tracking, Logged, Consistent, Owns;
        var e := Entry(id, key, hash, |data|, now, now);
        LogNow(trace, disk, limit);
        MoreFiles(disk, id, data, limit);
        LogStep(trace, disk, Disk(disk.metadata, disk.files[id := data]), limit);
        TrackPut(byKey, disk.files, stored, e, data);
        TotalPut(byKey, e);
        disk := disk.(files := disk.files[id := data]);
        trace := trace + [disk];
        byKey := byKey[key := e];
        stored := stored[key := (hash, data)];
      }
    }

    /** Deletes a data file that the metadata file does not name, or fails and leaves it. */
    method DeleteFile(id: Uid) returns (ok: bool)
      requires Valid() && (forall k | k in disk.metadata :: disk.metadata[k].id != id)
      requires forall k | k in byKey :: byKey[k].id != id
      modifies `disk, `trace
      ensures Valid() && old(trace) <= trace
      ensures disk == if ok then Disk(old(disk.metadata), old(disk.files) - {id}) else old(disk)
    {
      ok := *;
      if ok {
        hide Total, Tracking, Logged, Consistent;
        LogNow(trace, disk, limit);
        LessFiles(disk, id, limit);
        LogStep(trace, disk, Disk(disk.metadata, disk.files - {id}), limit);
        TrackDelete(byKey, disk.files, stored, id);
        disk := disk.(files := disk.files - {id});
        trace := trace + [disk];
      }
    }

    /**
     * Evicts entries: all of them when space is asked for, because what is freed is counted downwards,
     * and none otherwise. The metadata goes to the disk before any file is deleted.
     */
    method ReclaimSpace(diff: int) returns (ok: bool)
      requires Valid()
      modifies `byKey, `size, `disk, `trace
      ensures Valid() && old(trace) <= trace
      ensures byKey == if diff > 0 then map[] else old(byKey)
      ensures ok ==> disk.metadata == byKey
      ensures ok && diff > 0 ==> forall k | k in old(byKey) :: old(byKey)[k].id !in disk.files
    {
      hide Total, Logged, Tracking, Keys, OldestFirst;
      var heap := LruHeap();
      var next, freed := 0, 0;
      ghost var before := byKey;
      HeapNone(heap, before);
      while next < |heap| && freed < diff
        invariant 0 <= next <= |heap| && freed <= 0 && (next > 0 ==> diff > 0)
        invariant byKey == before - Keys(heap[..next])
        invariant Valid() && disk == old(disk) && trace == old(trace)
      {
        HeapAt(heap, before, next);
        TotalTake(byKey, heap[next].key);
        TrackLess(byKey, byKey - {heap[next].key}, disk.files, stored);
        byKey := byKey - {heap[next].key};
        freed := freed - heap[next].size;
        next := next + 1;
      }
      HeapAll(heap, before);
      ghost var kept := byKey;
      assert kept == if diff > 0 then map[] else before;
      ok := Persist();
      if !ok { return; }
      for i := 0 to next
        invariant Valid() && disk.metadata == byKey == kept && (next > 0 ==> kept == map[]) && old(trace) <= trace
        invariant forall j | 0 <= j < i :: heap[j].id !in disk.files
      {
        ok := DeleteFile(heap[i].id);
        if !ok { return; }
      }
      if diff > 0 {
        forall k | k in before
          ensures before[k].id !in disk.files
        {
          assert before[k] in heap;
        }
      }
      ok := true;
    }

    /** Reclaims space if there is less than this. */
    method MakeRoom(sizeDiff: int) returns (ok: bool)
      requires Valid()
      modifies `byKey, `size, `disk, `trace
      ensures Valid() && old(trace) <= trace
      ensures byKey == if old(FreeSpace()) < sizeDiff && sizeDiff > 0 then map[] else old(byKey)
      ensures ok ==> Total(byKey) + sizeDiff <= capacity || sizeDiff <= 0 || byKey == map[]
    {
      hide Valid, Total;
      var total := CacheSize();
      ok := true;
      if capacity - size - total < sizeDiff { ok := ReclaimSpace(sizeDiff); }
      Within();
    }

    lemma Identified(key: Str, id: Uid)
      requires Valid() && if key in byKey then id == byKey[key].id else id !in disk.files
      ensures Owns(byKey, key, id) && Owns(map[], key, id)
    {
      OwnsFile(byKey, disk.files, stored, key, id);
    }

    lemma Within()
      requires Valid()
      ensures Total(byKey) <= limit && capacity <= limit
    {
    }

    /**
     * `store`: `fresh_` is the identifier a new key gets. Reports whether the entry is tracked afterwards.
     * Space is made only by evicting everything, the entry that is rewritten included.
     */
    method Store(key: Str, data: Str, hash: Str, now: int, fresh_: Uid) returns (ok: bool, tracked: bool)
      requires Valid() && fresh_ !in disk.files
      modifies this
      ensures Valid() && old(trace) <= trace
      ensures stored == if tracked then old(stored)[key := (hash, data)] else old(stored)
      ensures var kept := Kept(old(byKey), key, |data|, capacity, old(FreeSpace()));
              if tracked then key in byKey && byKey[key].hash == hash && byKey[key].size == |data| < capacity
                              && byKey - {key} == kept - {key}
              else byKey == kept
      ensures Spared(old(byKey), byKey, key, |data|, capacity, old(size), tracked)
      ensures ok ==> tracked || |data| >= capacity
      ensures ok && tracked ==> disk.metadata == byKey
      ensures tracked ==> disk.files[byKey[key].id] == data
      ensures |data| >= capacity ==> ok && !tracked && disk == old(disk)
      ensures Total(byKey) <= capacity || Total(byKey) <= Total(old(byKey))
    {
      hide Total, Owns, Valid, Spared;
      if |data| >= capacity {
        ok, tracked := true, false;
      } else {
        ok, tracked := StoreFitting(key, data, hash, now, fresh_);
      }
      KeptSpares(old(byKey), byKey, key, |data|, capacity, old(size), tracked);
    }

    /** The rest of it, for what could be held by an empty cache. */
    method StoreFitting(key: Str, data: Str, hash: Str, now: int, fresh_: Uid) returns (ok: bool, tracked: bool)
      requires Valid() && fresh_ !in disk.files && |data| < capacity
      modifies this
      ensures Valid() && old(trace) <= trace
      ensures stored == if tracked then old(stored)[key := (hash, data)] else old(stored)
      ensures var kept := Kept(old(byKey), key, |data|, capacity, old(FreeSpace()));
              if tracked then key in byKey && byKey[key].hash == hash && byKey[key].size == |data|
                              && byKey - {key} == kept - {key}
              else byKey == kept
      ensures ok ==> tracked && disk.metadata == byKey
      ensures tracked ==> disk.files[byKey[key].id] == data
      ensures Total(byKey) <= capacity || Total(byKey) <= Total(old(byKey))
    {
      hide Total, Owns, Valid;
      TotalNone();
      var uid, oldSize := fresh_, 0;
      if key in byKey { uid, oldSize := byKey[key].id, byKey[key].size; }
      Identified(key, uid);
      var sizeDiff := |data| - oldSize;
      ok := MakeRoom(sizeDiff);
      if !ok { return false, false; }
      ghost var kept := byKey;
      Within();
      ok := WriteAndPut(key, uid, data, hash, now);
      if !ok { return false, false; }
      PutMinus(kept, byKey[key]);
      TotalPut(kept, byKey[key]);
      ok := Persist();
      return ok, true;
    }

    /** `Remove`, once S3 has deleted the object: the metadata first, then the file. */
    method Remove(key: Str) returns (ok: bool)
      requires Valid()
      modifies `byKey, `size, `disk, `trace
      ensures Valid() && old(trace) <= trace
      ensures byKey == old(byKey) - {key}
      ensures if key in old(byKey) then ok ==> disk.metadata == byKey else ok && disk == old(disk)
      ensures disk.files == old(disk.files) || (key in old(byKey) && disk.files == old(disk.files) - {old(byKey)[key].id})
    {
      if key !in byKey { return true; }
      var candidate := byKey[key];
      TotalTake(byKey, key);
      TrackLess(byKey, byKey - {key}, disk.files, stored);
      OwnsFile(byKey, disk.files, stored, key, candidate.id);
      hide Total, Tracking, Logged;
      byKey := byKey - {key};
      ok := Persist();
      if !ok { return; }
      var deleted := DeleteFile(candidate.id);
      return true;
    }

    /** A hit is served exactly when the entry is tracked under the expected hash, unless the read fails. */
    method ReadCached(key: Str, expected: Str, now: int) returns (data: Option<Str>, failed: bool)
      requires Valid()
      modifies `byKey
      ensures Valid()
      ensures data.Some? ==> key in stored && stored[key] == (expected, data.value)
      ensures data.Some? || failed <==> key in old(byKey) && old(byKey)[key].hash == expected
      ensures data.Some? ==> key in old(byKey) && byKey == old(byKey)[key := old(byKey)[key].(lastAccess := now)]
      ensures data.None? ==> byKey == old(byKey)
    {
      if key !in byKey || byKey[key].hash != expected { return None, false; }
      failed := *;
      if failed { return None, true; }
      data := Some(disk.files[byKey[key].id]);
      var e := byKey[key].(lastAccess := now);
      TotalPut(byKey, e);
      TrackTouch(byKey, disk.files, stored, e);
      hide Total, Tracking, Logged;
      byKey := byKey[key := e];
    }
  }

  /** What a start from this disk would serve. */
  function Served(d: Disk, key: Str, expected: Str): Option<Str>
    requires forall k | k in d.metadata :: d.metadata[k].id in d.files
  {
    if key in d.metadata && d.metadata[key].hash == expected then Some(d.files[d.metadata[key].id]) else None
  }

  /**
   * A crash after a rewritten data file and before its metadata leaves a consistent disk, but the next
   * start serves other bytes under the old hash, unless the bytes were the same.
   */
  lemma CrashTears(d: Disk, key: Str, data: Str, capacity: int)
    requires Consistent(d, capacity) && key in d.metadata
    ensures var torn := Disk(d.metadata, d.files[d.metadata[key].id := data]);
            && Consistent(torn, capacity)
            && (Served(torn, key, d.metadata[key].hash) == Served(d, key, d.metadata[key].hash)
                <==> data == d.files[d.metadata[key].id])
            && forall k, h | k != key :: Served(torn, k, h) == Served(d, k, h)
  {
    MoreFiles(d, d.metadata[key].id, data, capacity);
    hide Total;
  }
}

/** Listing the calendars (or the objects of one) below a path: by prefix in memory, by range online. */
module CalendarStore {
  import opened Wrappers
  import opened Text
  import opened SortedMaps
  import opened BerInteger

  /** A calendar and its metadata, or an object and its data. */
  datatype Resource = Resource(path: Str, data: Str)

  type Resources = m: map<Str, Resource> | forall p | p in m :: m[p].path == p

  /** The paths the filter of the in-memory store keeps. */
  function Below(stored: Resources, base: Str): set<Str> {
    set p | p in stored && HasPrefix(p, base)
  }

  /** The paths the range of the online store holds. */
  function Ranged(stored: Resources, base: Str): set<Str> {
    set p | p in stored && InRange(p, Some(base), Some(base + MAX_RUNE))
  }

  /** Exactly the resources at these paths, each once. */
  ghost predicate Lists(stored: Resources, paths: set<Str>, found: seq<Resource>) {
    && (forall r :: r in found <==> r.path in paths && r.path in stored && stored[r.path] == r)
    && forall i, j | 0 <= i < j < |found| :: found[i].path != found[j].path
  }

  class Mem {
    var calendars: Resources
    var objects: Resources

    constructor ()
      ensures calendars == map[] && objects == map[]
    {
      calendars, objects := map[], map[];
    }

    method CreateCalendar(calendar: Resource) returns (created: bool)
      modifies `calendars
      ensures created <==> calendar.path !in old(calendars)
      ensures calendars == if created then old(calendars)[calendar.path := calendar] else old(calendars)
    {
      if calendar.path in calendars { return false; }
      calendars := calendars[calendar.path := calendar];
      return true;
    }

    method CreateCalendarObject(object_: Resource) returns (created: bool)
      modifies `objects
      ensures created <==> object_.path !in old(objects)
      ensures objects == if created then old(objects)[object_.path := object_] else old(objects)
    {
      if object_.path in objects { return false; }
      objects := objects[object_.path := object_];
      return true;
    }

    method DeleteCalendarObject(path: Str) returns (deleted: bool)
      modifies `objects
      ensures deleted <==> path in old(objects)
      ensures objects == old(objects) - {path}
    {
      if path !in objects { return false; }
      objects := objects - {path};
      return true;
    }

    method ListCalendars(base: Str) returns (found: seq<Resource>)
      ensures Lists(calendars, Below(calendars, base), found)
    {
      found := Filter(calendars, base);
    }

    method ListCalendarObjects(base: Str) returns (found: seq<Resource>)
      ensures Lists(objects, Below(objects, base), found)
    {
      found := Filter(objects, base);
    }
  }

  /** The filtering loop of both listings, in whatever order the map gives. */
  method Filter(stored: Resources, base: Str) returns (found: seq<Resource>)
    ensures Lists(stored, Below(stored, base), found)
  {
    found := [];
    var left := stored.Keys;
    while left != {}
      invariant left <= stored.Keys && Lists(stored, Below(stored, base) - left, found)
      decreases |left|
    {
      var p :| p in left;
      if HasPrefix(p, base) {
        assert forall r | r in found :: r.path != p;
        found := found + [stored[p]];
      }
      left := left - {p};
    }
    assert Below(stored, base) - left == Below(stored, base);
  }

  class Online {
    const table: SortedMap<Str, Resource>

    constructor ()
      ensures Valid() && table.Contents() == map[] && fresh(table) && fresh(table.ptr)
    {
      table := new SortedMap((p: Str) => p);
    }

    ghost predicate Valid()
      reads this, table, table.ptr
    {
      && table.Valid() && (forall p :: table.name(p) == p)
      && forall p | p in table.Contents() :: table.Contents()[p].path == p
    }

    method ListCalendars(base: Str) returns (found: seq<Resource>)
      requires Valid()
      ensures Lists(table.Contents(), Ranged(table.Contents(), base), found)
    {
      var pairs := table.Scan(Some(base), Some(base + MAX_RUNE));
      found := seq(|pairs|, i requires 0 <= i < |pairs| => pairs[i].1);
      Listed(table.name, table.Contents(), base, pairs, found);
    }
  }

  lemma Listed(name: Str -> Str, stored: Resources, base: Str, pairs: seq<(Str, Resource)>, found: seq<Resource>)
    requires IsScan(name, stored, Some(base), Some(base + MAX_RUNE), pairs)
    requires |found| == |pairs| && forall i | 0 <= i < |pairs| :: found[i] == pairs[i].1
    ensures Lists(stored, Ranged(stored, base), found)
  {
    var from, to := Some(base), Some(base + MAX_RUNE);
    forall i | 0 <= i < |pairs|
      ensures found[i].path == name(pairs[i].0) && found[i].path in Ranged(stored, base)
      ensures stored[found[i].path] == found[i]
    {
      assert Holds(name, stored, from, to, pairs[i]);
    }
    hide InRange, Less;
    forall i, j | 0 <= i < j < |found|
      ensures found[i].path != found[j].path
    {
      assert Less(name(pairs[i].0), name(pairs[j].0));
      LessTotal(name(pairs[i].0), name(pairs[j].0));
    }
    forall p | p in Ranged(stored, base)
      ensures stored[p] in found
    {
      assert p in stored && InRange(p, from, to);
      var q :| q in pairs && name(q.0) == p;
      var i :| 0 <= i < |pairs| && pairs[i] == q;
      assert found[i] == stored[p];
    }
  }

  /**
   * The two listings hold the same resources exactly when the rest of every path below the base sorts
   * below U+10FFFF; the online one never has more.
   */
  lemma ListingsAgree(stored: Resources, base: Str, mem: seq<Resource>, online: seq<Resource>)
    requires Lists(stored, Below(stored, base), mem) && Lists(stored, Ranged(stored, base), online)
    ensures forall r | r in online :: r in mem
    ensures (forall r :: r in mem <==> r in online)
            <==> forall p | p in stored && HasPrefix(p, base) :: Less(p[|base|..], MAX_RUNE)
  {
    forall p | p in stored
      ensures p in Ranged(stored, base) <==> HasPrefix(p, base) && Less(p[|base|..], MAX_RUNE)
    {
      RangeScan(base, MAX_RUNE, p);
    }
    hide Less, InRange;
    if forall r :: r in mem <==> r in online {
      forall p | p in stored && HasPrefix(p, base)
        ensures Less(p[|base|..], MAX_RUNE)
      {
        assert p in Below(stored, base) && stored[p] in mem && stored[p] in online;
      }
    }
  }

  /** The start of well-formed UTF-8: no byte above F4, and F4 followed by 80 to 8F and two of 80 to BF. */
  predicate Utf8Start(s: Str) {
    s == [] || (s[0] <= 0xF4 && (s[0] == 0xF4 ==> |s| >= 4 && s[1] <= 0x8F && s[2] <= 0xBF && s[3] <= 0xBF))
  }

  /** Of well-formed text, only what begins with U+10FFFF itself does not sort below it. */
  lemma BelowLastRune(s: Str)
    requires Utf8Start(s)
    ensures Less(s, MAX_RUNE) <==> !HasPrefix(s, MAX_RUNE)
  {
    assert MAX_RUNE[1..] == [0x8F, 0xBF, 0xBF] && MAX_RUNE[1..][1..] == [0xBF, 0xBF] && MAX_RUNE[1..][1..][1..] == [0xBF];
    if |s| >= 4 {
      assert s == [s[0], s[1], s[2], s[3]] + s[4..];
      LessStep(s, MAX_RUNE);
      LessStep(s[1..], MAX_RUNE[1..]);
      LessStep(s[2..], MAX_RUNE[2..]);
      LessStep(s[3..], MAX_RUNE[3..]);
      assert s[1..][1..] == s[2..] && s[2..][1..] == s[3..];
      assert MAX_RUNE[1..][1..] == MAX_RUNE[2..] && MAX_RUNE[2..][1..] == MAX_RUNE[3..];
      assert MAX_RUNE[3..][1..] == [];
    }
  }

  lemma LessStep(a: Str, b: Str)
    requires a != [] && b != []
    ensures Less(a, b) <==> a[0] < b[0] || (a[0] == b[0] && Less(a[1..], b[1..]))
  {
  }
}

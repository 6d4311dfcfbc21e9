/** The memo in front of the linearization, keyed by the names of the units. */
module LinearizeMemo {
  import opened Wrappers
  import opened Text
  import opened Kahn = Linearize
  import opened SortedMaps
  import N = Names
  import opened BerInteger

  const COLON: byte := 0x3A

  function KindString(kind: DependencyType): (r: Str)
    ensures COLON !in r && N.COMMA !in r
  {
    match kind
    case Style => [0x73, 0x74, 0x79, 0x6C, 0x65]
    case Script => [0x73, 0x63, 0x72, 0x69, 0x70, 0x74]
    case Invalid => [0x69, 0x6E, 0x76, 0x61, 0x6C, 0x69, 0x64]
  }

  function DependencyString(d: Dependency): (r: Str)
    ensures r != []
  {
    KindString(d.kind) + [COLON] + d.name
  }

  function ParseKind(raw: Str): Option<DependencyType> {
    if raw == KindString(Style) then Some(Style) else if raw == KindString(Script) then Some(Script) else None
  }

  function ParseDependency(raw: Str): Option<Dependency> {
    var parts := N.Split(raw, COLON);
    if |parts| != 2 then None
    else match ParseKind(parts[0]) case None => None case Some(kind) => Some(Dependency(kind, parts[1]))
  }

  /** Parsing inverts printing for exactly the valid kinds and the names without a colon. */
  lemma DependencyInverts(d: Dependency)
    ensures ParseDependency(DependencyString(d)) == Some(d) <==> d.kind != Invalid && COLON !in d.name
  {
    N.SplitAt(KindString(d.kind), COLON, d.name);
    N.SplitNone(KindString(d.kind), COLON);
    N.SplitPieces(d.name, COLON, COLON);
    assert |KindString(Style)| == 5 && |KindString(Script)| == 6 && |KindString(Invalid)| == 7;
    if COLON !in d.name {
      N.SplitNone(d.name, COLON);
    } else {
      var parts := N.Split(DependencyString(d), COLON);
      if |parts| == 2 { assert parts[1] == N.Split(d.name, COLON)[0]; }
    }
  }

  lemma StringTells(a: Dependency, b: Dependency)
    ensures DependencyString(a) == DependencyString(b) <==> a == b
  {
    if DependencyString(a) == DependencyString(b) {
      FirstColon(KindString(a.kind), a.name, KindString(b.kind), b.name);
      assert |KindString(Style)| == 5 && |KindString(Script)| == 6 && |KindString(Invalid)| == 7;
    }
  }

  lemma FirstColon(k: Str, n: Str, l: Str, m: Str)
    requires COLON !in k && COLON !in l && k + [COLON] + n == l + [COLON] + m
    ensures k == l && n == m
  {
    N.SplitAt(k, COLON, n);
    N.SplitNone(k, COLON);
    N.SplitAt(l, COLON, m);
    N.SplitNone(l, COLON);
    assert ([k] + N.Split(n, COLON))[0] == ([l] + N.Split(m, COLON))[0];
    assert n == (k + [COLON] + n)[|k| + 1..] && m == (l + [COLON] + m)[|l| + 1..];
  }

  /******* The key *******/

  function Same(s: Str): Str {
    s
  }

  /** The names of the units, sorted. */
  ghost predicate Sorted(units: set<Dependency>, entries: seq<Str>) {
    Ascending(Same, entries) && forall s :: s in entries <==> exists d :: d in units && DependencyString(d) == s
  }

  ghost predicate IsKey(units: set<Dependency>, key: Str) {
    exists entries :: Sorted(units, entries) && key == N.Join(entries, N.COMMA)
  }

  method CacheKey(units: set<Dependency>) returns (key: Str)
    ensures IsKey(units, key)
  {
    hide Ascending, Insert, DependencyString;
    var entries: seq<Str> := [];
    Empty();
    var left := units;
    while left != {}
      invariant left <= units && Sorted(units - left, entries)
      decreases |left|
    {
      var d :| d in left;
      InsertKeeps(Same, entries, DependencyString(d));
      var more := Insert(Same, entries, DependencyString(d));
      forall s
        ensures s in more <==> exists x :: x in units - (left - {d}) && DependencyString(x) == s
      {
        if s in more && s != DependencyString(d) {
          var x :| x in units - left && DependencyString(x) == s;
          assert x in units - (left - {d});
        }
        if s == DependencyString(d) { assert d in units - (left - {d}); }
      }
      entries := more;
      left := left - {d};
    }
    assert units - left == units;
    key := N.Join(entries, N.COMMA);
  }

  lemma Empty()
    ensures Ascending(Same, [])
  {
  }

  /******* Which sets share a key *******/

  /** The string starts like the printed name of a dependency, and then is one. */
  predicate Begins(s: Str) {
    || KindString(Style) + [COLON] <= s
    || KindString(Script) + [COLON] <= s
    || KindString(Invalid) + [COLON] <= s
  }

  lemma BeginsIs(s: Str) returns (d: Dependency)
    requires Begins(s)
    ensures DependencyString(d) == s
  {
    var kind := if KindString(Style) + [COLON] <= s then Style else if KindString(Script) + [COLON] <= s then Script
        else Invalid;
    var n := |KindString(kind) + [COLON]|;
    d := Dependency(kind, s[n..]);
    assert s == s[..n] + s[n..] && s[..n] == KindString(kind) + [COLON];
  }

  lemma IsBegins(d: Dependency)
    ensures Begins(DependencyString(d))
  {
  }

  /** A comma that begins a dependency. */
  predicate CutAt(s: Str, i: nat) {
    i < |s| && s[i] == N.COMMA && Begins(s[i + 1..])
  }

  /** Cut there, the printed name gives two in ascending order. */
  predicate Splits(s: Str) {
    exists i | 0 <= i < |s| :: CutAt(s, i) && Less(s[..i], s[i + 1..])
  }

  /** What stands before a cut begins a dependency too. */
  lemma CutBefore(s: Str, i: nat)
    requires Begins(s) && CutAt(s, i)
    ensures Begins(s[..i]) && s == s[..i] + [N.COMMA] + s[i + 1..]
  {
    var d := BeginsIs(s);
    var start := KindString(d.kind) + [COLON];
    assert forall j | 0 <= j < |start| :: s[j] == start[j] && start[j] != N.COMMA;
    assert KindString(d.kind) + [COLON] <= s[..i];
  }

  /** Another set has the same key. */
  ghost predicate Shares(units: set<Dependency>) {
    exists other, key :: other != units && IsKey(units, key) && IsKey(other, key)
  }

  lemma KeyOfOne(d: Dependency)
    ensures IsKey({d}, DependencyString(d))
  {
    var s := DependencyString(d);
    hide DependencyString;
    assert Sorted({d}, [s]) && N.Join([s], N.COMMA) == s;
  }

  lemma KeyOfTwo(x: Dependency, y: Dependency)
    requires Less(DependencyString(x), DependencyString(y))
    ensures IsKey({x, y}, DependencyString(x) + [N.COMMA] + DependencyString(y))
  {
    var s, t := DependencyString(x), DependencyString(y);
    hide DependencyString, Less;
    assert Sorted({x, y}, [s, t]);
    assert [s, t][1..] == [t];
    assert N.Join([s, t], N.COMMA) == s + [N.COMMA] + t;
  }

  lemma SortedExists(units: set<Dependency>) returns (entries: seq<Str>)
    ensures Sorted(units, entries)
    decreases |units|
  {
    hide Ascending, Insert, DependencyString;
    if units == {} {
      Empty();
      entries := [];
    } else {
      var d :| d in units;
      var rest := SortedExists(units - {d});
      InsertKeeps(Same, rest, DependencyString(d));
      entries := Insert(Same, rest, DependencyString(d));
      forall s
        ensures s in entries <==> exists x :: x in units && DependencyString(x) == s
      {
        if s in entries && s != DependencyString(d) {
          var x :| x in units - {d} && DependencyString(x) == s;
          assert x in units;
        }
        if x :| x in units && DependencyString(x) == s {
          if x != d { assert x in units - {d}; }
        }
      }
    }
  }

  lemma EntryBegins(units: set<Dependency>, entries: seq<Str>, i: nat)
    requires Sorted(units, entries) && i < |entries|
    ensures Begins(entries[i]) && entries[i] != []
  {
    hide Ascending;
    assert entries[i] in entries;
    var d :| d in units && DependencyString(d) == entries[i];
    IsBegins(d);
  }

  lemma OneEntry(units: set<Dependency>, entries: seq<Str>)
    requires Sorted(units, entries)
    ensures entries == [] <==> units == {}
    ensures |entries| == 1 ==> exists d :: units == {d} && DependencyString(d) == entries[0]
    ensures |units| == 1 ==> |entries| == 1
  {
    hide DependencyString;
    if entries != [] { assert entries[0] in entries; }
    if d :| d in units {
      assert DependencyString(d) in entries;
      if |entries| == 1 {
        forall x | x in units
          ensures x == d
        {
          assert DependencyString(x) in entries;
          StringTells(x, d);
        }
        assert units == {d};
      }
      if |units| == 1 {
        OnlyElement(units, d);
        if |entries| > 1 {
          assert entries[0] in entries && entries[1] in entries;
          LessTotal(entries[0], entries[1]);
        }
      }
    }
  }

  lemma OnlyElement<T>(s: set<T>, x: T)
    requires |s| == 1 && x in s
    ensures s == {x}
  {
    assert |s - {x}| == 0;
  }

  /** The key of several entries: the first, and then what begins with the second. */
  lemma JoinedCut(units: set<Dependency>, entries: seq<Str>)
    requires Sorted(units, entries) && |entries| >= 2
    ensures var key := N.Join(entries, N.COMMA); Begins(key) && Splits(key)
  {
    var key, first, rest := N.Join(entries, N.COMMA), entries[0], N.Join(entries[1..], N.COMMA);
    EntryBegins(units, entries, 0);
    EntryBegins(units, entries, 1);
    assert key == first + [N.COMMA] + rest;
    JoinStarts(entries[1..]);
    assert entries[1] <= rest;
    LessExtends(first, entries[1], rest);
    hide N.Join, Less;
    assert key[..|first|] == first && key[|first| + 1..] == rest && key[|first|] == N.COMMA;
    PrefixBegins(first, key);
    PrefixBegins(entries[1], rest);
    assert CutAt(key, |first|);
  }

  lemma PrefixBegins(a: Str, b: Str)
    requires Begins(a) && a <= b
    ensures Begins(b)
  {
  }

  lemma JoinStarts(entries: seq<Str>)
    requires entries != []
    ensures entries[0] <= N.Join(entries, N.COMMA)
  {
  }

  lemma {:induction false} LessExtends(a: Str, b: Str, c: Str)
    requires Less(a, b) && b <= c
    ensures Less(a, c)
  {
    if a != [] && a[0] == b[0] { LessExtends(a[1..], b[1..], c[1..]); }
  }

  /**
   * A set shares its key with another exactly when it has several units, which a single one with commas
   * in its name can stand for, or has a single one whose printed name splits into two in ascending order
   * at a comma that begins a dependency.
   */
  lemma SharesIff(units: set<Dependency>)
    ensures Shares(units) <==> |units| >= 2 || exists d :: units == {d} && Splits(DependencyString(d))
  {
    var entries := SortedExists(units);
    OneEntry(units, entries);
    hide Splits, DependencyString, Sorted, N.Join, IsKey;
    if |entries| >= 2 {
      SeveralShare(units, entries);
    } else if |entries| == 1 {
      var d :| units == {d} && DependencyString(d) == entries[0];
      OneShares(d);
      forall x | units == {x}
        ensures x == d
      {
        assert x in units;
      }
    } else {
      NoneShares();
    }
  }

  lemma SeveralShare(units: set<Dependency>, entries: seq<Str>)
    requires Sorted(units, entries) && |entries| >= 2
    ensures |units| >= 2 && Shares(units)
  {
    OneEntry(units, entries);
    JoinedCut(units, entries);
    var key := N.Join(entries, N.COMMA);
    var d := BeginsIs(key);
    KeyOfOne(d);
    assert IsKey(units, key);
    hide Sorted, N.Join, DependencyString, IsKey;
    if |units| == 1 { assert false; }
    assert |units| != 0;
    assert {d} != units by { assert |{d}| == 1; }
  }

  lemma OneShares(d: Dependency)
    ensures Shares({d}) <==> Splits(DependencyString(d))
  {
    KeyOfOne(d);
    var s := DependencyString(d);
    IsBegins(d);
    if Splits(s) {
      SplitShares(d);
    } else if Shares({d}) {
      var other, key :| other != {d} && IsKey({d}, key) && IsKey(other, key);
      KeyUnique({d}, key, s);
      var fs :| Sorted(other, fs) && key == N.Join(fs, N.COMMA);
      hide DependencyString, Splits, Begins;
      OneEntry(other, fs);
      if |fs| >= 2 {
        JoinedCut(other, fs);
      } else if |fs| == 1 {
        var x :| other == {x} && DependencyString(x) == fs[0];
        assert key == fs[0];
        StringTells(x, d);
      }
    }
  }

  lemma SplitShares(d: Dependency)
    requires Splits(DependencyString(d))
    ensures Shares({d})
  {
    KeyOfOne(d);
    IsBegins(d);
    var s := DependencyString(d);
    var i :| 0 <= i < |s| && CutAt(s, i) && Less(s[..i], s[i + 1..]);
    CutBefore(s, i);
    var x := BeginsIs(s[..i]);
    var y := BeginsIs(s[i + 1..]);
    KeyOfTwo(x, y);
    LessTotal(s[..i], s[i + 1..]);
    hide DependencyString, Begins, Less, IsKey;
    assert x != y;
    assert {x, y} != {d} by { assert x in {x, y} && y in {x, y}; }
  }

  /** A set has one key only. */
  lemma KeyUnique(units: set<Dependency>, key: Str, other: Str)
    requires IsKey(units, key) && IsKey(units, other)
    ensures key == other
  {
    var es :| Sorted(units, es) && key == N.Join(es, N.COMMA);
    var fs :| Sorted(units, fs) && other == N.Join(fs, N.COMMA);
    hide N.Join, DependencyString;
    AscendingUnique(es, fs);
  }

  lemma EmptyTogether(a: seq<Str>, b: seq<Str>)
    requires forall s :: s in a <==> s in b
    ensures a == [] <==> b == []
  {
    if a != [] { assert a[0] in a; }
    if b != [] { assert b[0] in b; }
  }

  lemma {:induction false} AscendingUnique(a: seq<Str>, b: seq<Str>)
    requires Ascending(Same, a) && Ascending(Same, b) && forall s :: s in a <==> s in b
    ensures a == b
  {
    EmptyTogether(a, b);
    if a != [] {
      AscendingTail(Same, a);
      AscendingTail(Same, b);
      hide Ascending, Less;
      assert a[0] in b && b[0] in a;
      LessTotal(a[0], b[0]);
      assert a[0] == b[0];
      forall s
        ensures s in a[1..] <==> s in b[1..]
      {
        assert s in a <==> s == a[0] || s in a[1..];
        assert s in b <==> s == b[0] || s in b[1..];
      }
      AscendingUnique(a[1..], b[1..]);
    }
  }

  lemma KeyEmpty(units: set<Dependency>, key: Str)
    requires IsKey(units, key)
    ensures key == [] <==> units == {}
  {
    var entries :| Sorted(units, entries) && key == N.Join(entries, N.COMMA);
    OneEntry(units, entries);
    if entries != [] {
      EntryBegins(units, entries, 0);
      JoinStarts(entries);
    }
  }

  lemma NoneShares()
    ensures !Shares({})
  {
    forall other, key | IsKey({}, key) && IsKey(other, key)
      ensures other == {}
    {
      KeyEmpty({}, key);
      KeyEmpty(other, key);
    }
  }

  /** For instance: "a,style:b" alone, and "a" with "b". */
  lemma KeysCollide(a: Str, b: Str)
    requires Less(DependencyString(Dependency(Style, a)), DependencyString(Dependency(Style, b)))
    ensures var one := Dependency(Style, a + [N.COMMA] + DependencyString(Dependency(Style, b)));
            exists key :: IsKey({one}, key) && IsKey({Dependency(Style, a), Dependency(Style, b)}, key)
  {
    var x, y := Dependency(Style, a), Dependency(Style, b);
    var one := Dependency(Style, a + [N.COMMA] + DependencyString(y));
    assert DependencyString(one) == DependencyString(x) + [N.COMMA] + DependencyString(y);
    hide DependencyString, Less, IsKey;
    KeyOfOne(one);
    KeyOfTwo(x, y);
  }

  /******* Sets that do not *******/

  /** No printed name has a comma that begins a dependency. */
  predicate CutFree(units: set<Dependency>) {
    forall d | d in units :: Uncut(DependencyString(d))
  }

  predicate Uncut(s: Str) {
    forall i | 0 <= i < |s| :: !CutAt(s, i)
  }

  /** The start of a dependency has no comma, so it does not reach over one. */
  lemma BeginsWithin(s: Str, rest: Str)
    requires Begins(s + [N.COMMA] + rest)
    ensures Begins(s)
  {
    var t := s + [N.COMMA] + rest;
    var d := BeginsIs(t);
    var start := KindString(d.kind) + [COLON];
    assert start <= t;
    assert forall j | 0 <= j < |start| :: t[j] == start[j] && start[j] != N.COMMA;
    assert t[|s|] == N.COMMA;
    assert |start| <= |s|;
    assert start == t[..|start|] == s[..|start|];
  }

  ghost predicate AllUncut(entries: seq<Str>) {
    forall i | 0 <= i < |entries| :: Begins(entries[i]) && Uncut(entries[i])
  }

  lemma AllUncutOf(units: set<Dependency>, entries: seq<Str>)
    requires CutFree(units) && Sorted(units, entries)
    ensures AllUncut(entries)
  {
    hide Ascending, Uncut;
    forall i | 0 <= i < |entries|
      ensures Begins(entries[i]) && Uncut(entries[i])
    {
      EntryBegins(units, entries, i);
      assert entries[i] in entries;
      var d :| d in units && DependencyString(d) == entries[i];
    }
  }

  /** Neither list can have the longer first entry: there would be a cut in it. */
  lemma FirstNotLonger(es: seq<Str>, fs: seq<Str>)
    requires AllUncut(es) && AllUncut(fs) && es != [] && fs != [] && N.Join(es, N.COMMA) == N.Join(fs, N.COMMA)
    ensures |fs[0]| <= |es[0]|
  {
    var key, n := N.Join(es, N.COMMA), |es[0]|;
    JoinStarts(es);
    JoinStarts(fs);
    if n < |fs[0]| {
      assert n < |key|;
      assert |es| > 1;
      var rest := N.Join(es[1..], N.COMMA);
      assert key == es[0] + [N.COMMA] + rest;
      JoinStarts(es[1..]);
      PrefixBegins(es[1], rest);
      assert key[n + 1..] == rest && key[n] == N.COMMA;
      assert fs[0] == key[..|fs[0]|];
      var tail := fs[0][n + 1..];
      if |fs| > 1 {
        assert key == fs[0] + [N.COMMA] + N.Join(fs[1..], N.COMMA);
        assert key[n + 1..] == tail + [N.COMMA] + N.Join(fs[1..], N.COMMA);
        BeginsWithin(tail, N.Join(fs[1..], N.COMMA));
      }
      assert CutAt(fs[0], n);
    }
  }

  lemma {:induction false} UncutJoin(es: seq<Str>, fs: seq<Str>)
    requires AllUncut(es) && AllUncut(fs) && N.Join(es, N.COMMA) == N.Join(fs, N.COMMA)
    ensures es == fs
  {
    JoinNone(es);
    JoinNone(fs);
    if es != [] {
      FirstNotLonger(es, fs);
      FirstNotLonger(fs, es);
      JoinStarts(es);
      JoinStarts(fs);
      assert es[0] == fs[0];
      JoinTails(es, fs);
      assert AllUncut(es[1..]) && AllUncut(fs[1..]);
      hide N.Join, Begins, Uncut;
      UncutJoin(es[1..], fs[1..]);
      assert es == [es[0]] + es[1..] && fs == [fs[0]] + fs[1..];
    }
  }

  lemma JoinNone(es: seq<Str>)
    requires AllUncut(es)
    ensures N.Join(es, N.COMMA) == [] <==> es == []
  {
    if es != [] {
      JoinStarts(es);
      assert Begins(es[0]);
    }
  }

  /** What follows the first entry says whether there are more, and which. */
  lemma JoinRest(es: seq<Str>)
    requires es != []
    ensures N.Join(es, N.COMMA)[|es[0]|..] == if |es| == 1 then [] else [N.COMMA] + N.Join(es[1..], N.COMMA)
    ensures es[0] <= N.Join(es, N.COMMA)
    ensures |es| == 1 ==> N.Join(es[1..], N.COMMA) == []
  {
  }

  lemma JoinTails(es: seq<Str>, fs: seq<Str>)
    requires es != [] && fs != [] && es[0] == fs[0] && N.Join(es, N.COMMA) == N.Join(fs, N.COMMA)
    ensures N.Join(es[1..], N.COMMA) == N.Join(fs[1..], N.COMMA)
  {
    JoinRest(es);
    JoinRest(fs);
    var x, y := N.Join(es[1..], N.COMMA), N.Join(fs[1..], N.COMMA);
    hide N.Join;
    assert ([N.COMMA] + x)[1..] == x && ([N.COMMA] + y)[1..] == y;
  }

  /** Sets of units of which no printed name has such a comma have different keys. */
  lemma KeyTells(a: set<Dependency>, b: set<Dependency>, key: Str)
    requires CutFree(a) && CutFree(b) && IsKey(a, key) && IsKey(b, key)
    ensures a == b
  {
    var es :| Sorted(a, es) && key == N.Join(es, N.COMMA);
    var fs :| Sorted(b, fs) && key == N.Join(fs, N.COMMA);
    AllUncutOf(a, es);
    AllUncutOf(b, fs);
    UncutJoin(es, fs);
    hide Ascending, DependencyString;
    forall d
      ensures d in a <==> d in b
    {
      Member(a, es, d);
      Member(b, fs, d);
    }
  }

  lemma Member(units: set<Dependency>, entries: seq<Str>, d: Dependency)
    requires Sorted(units, entries)
    ensures d in units <==> DependencyString(d) in entries
  {
    hide Ascending, DependencyString;
    if DependencyString(d) in entries {
      var x :| x in units && DependencyString(x) == DependencyString(d);
      StringTells(x, d);
    }
  }

  /******* The memo *******/

  class Renderer {
    /** Results by key; the digest that the code uses is taken to tell keys apart. */
    var linearized: map<Str, seq<Dependency>>
    /** The units and the graph each result was computed for. */
    ghost var origin: map<Str, (set<Dependency>, Graph)>

    constructor ()
      ensures Valid() && origin == map[]
    {
      linearized, origin := map[], map[];
    }

    ghost predicate Valid()
      reads this
    {
      && linearized.Keys == origin.Keys
      && forall k | k in linearized :: IsKey(origin[k].0, k) && IsLinearization(origin[k].0, origin[k].1, linearized[k])
    }

    /** What earlier calls asked for: the same graph, and units that no other such set shares a key with. */
    ghost predicate Alike(graph: Graph)
      reads this
    {
      forall k | k in origin :: CutFree(origin[k].0) && origin[k].1 == graph
    }

    /**
     * A result of the first call whose units have this key. It is right for these units and this graph
     * when earlier calls were for the same graph, and no name of theirs or of these has a cut.
     */
    method Linearize(units: set<Dependency>, graph: Graph) returns (r: Option<seq<Dependency>>, ghost key: Str)
      requires Valid()
      modifies this
      ensures Valid() && IsKey(units, key)
      ensures key in old(origin) ==>
                origin == old(origin) && linearized == old(linearized) && r == Some(old(linearized)[key])
      ensures key !in old(origin) ==>
                && (r.Some? <==> !Cyclic(units, graph)) && (r.Some? ==> IsLinearization(units, graph, r.value))
                && origin == (if r.Some? then old(origin)[key := (units, graph)] else old(origin))
                && linearized == (if r.Some? then old(linearized)[key := r.value] else old(linearized))
      ensures old(Alike(graph)) && CutFree(units) ==>
                && (r.Some? <==> !Cyclic(units, graph)) && (r.Some? ==> IsLinearization(units, graph, r.value))
                && Alike(graph)
    {
      hide IsKey, IsLinearization, Cyclic, CutFree;
      var k := CacheKey(units);
      key := k;
      if k in linearized {
        r := Some(linearized[k]);
        if Alike(graph) && CutFree(units) {
          KeyTells(units, origin[k].0, k);
          OrderExcludesCycles(units, graph, r.value);
        }
        return;
      }
      r := Kahn.Linearize(units, graph);
      KeyExcludes(units, graph, r);
      if r.Some? {
        linearized := linearized[k := r.value];
        origin := origin[k := (units, graph)];
      }
    }
  }

  lemma KeyExcludes(units: set<Dependency>, graph: Graph, r: Option<seq<Dependency>>)
    requires r.Some? ==> IsLinearization(units, graph, r.value)
    ensures r.Some? ==> !Cyclic(units, graph)
  {
    if r.Some? { OrderExcludesCycles(units, graph, r.value); }
  }

  /** The graph is no part of the key: asked again with the requirement turned round, the memo answers as before. */
  method GraphForgotten(a: Dependency, b: Dependency) returns (r: Option<seq<Dependency>>)
    requires a != b
    ensures r.Some? && !IsLinearization({a, b}, map[b := [a]], r.value) && !Cyclic({a, b}, map[b := [a]])
  {
    var renderer := new Renderer();
    ghost var key, again;
    TwoAcyclic(a, b);
    TwoAcyclic(b, a);
    hide *;
    assert {a, b} == {b, a};
    r, key := renderer.Linearize({a, b}, map[a := [b]]);
    TurnedRound(a, b, r.value);
    r, again := renderer.Linearize({a, b}, map[b := [a]]);
    KeyUnique({a, b}, key, again);
  }

  lemma TwoAcyclic(a: Dependency, b: Dependency)
    requires a != b
    ensures !Cyclic({a, b}, map[a := [b]])
  {
    var graph := map[a := [b]];
    var s := [b, a];
    forall i, req | 0 <= i < |s| && Edge({a, b}, graph, s[i], req)
      ensures req in s[..i]
    {
      assert i == 1 && req == b && s[..i][0] == b;
    }
    assert |{a, b}| == 2;
    OrderExcludesCycles({a, b}, graph, s);
  }

  lemma TurnedRound(a: Dependency, b: Dependency, s: seq<Dependency>)
    requires a != b && IsLinearization({a, b}, map[a := [b]], s)
    ensures !IsLinearization({a, b}, map[b := [a]], s)
  {
    assert a in s;
    var i :| 0 <= i < |s| && s[i] == a;
    assert Edge({a, b}, map[a := [b]], s[i], b);
    assert b in s[..i];
    var j :| 0 <= j < i && s[j] == b;
    assert Edge({a, b}, map[b := [a]], s[j], a) && a !in s[..j];
  }
}

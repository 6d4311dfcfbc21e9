/** The copy-on-write sorted index of pgcache: a tree of keys beside a map of values. */
module SortedMaps {
  import opened Wrappers
  import opened Text

  /******* The ordered set that the B-tree is *******/

  /** The keys in strictly increasing order of their names. */
  ghost predicate Ascending<K(!new)>(name: K -> Str, tree: seq<K>) {
    forall i, j | 0 <= i < j < |tree| :: Less(name(tree[i]), name(tree[j]))
  }

  /** `ReplaceOrInsert`. */
  function Insert<K>(name: K -> Str, tree: seq<K>, k: K): seq<K> {
    if tree == [] || Less(name(k), name(tree[0])) then [k] + tree
    else if name(k) == name(tree[0]) then [k] + tree[1..]
    else [tree[0]] + Insert(name, tree[1..], k)
  }

  function Remove<K>(name: K -> Str, tree: seq<K>, k: K): seq<K> {
    if tree == [] then []
    else if name(k) == name(tree[0]) then tree[1..]
    else [tree[0]] + Remove(name, tree[1..], k)
  }

  ghost function Names<K>(name: K -> Str, tree: seq<K>): set<Str> {
    set k | k in tree :: name(k)
  }

  lemma AscendingCons<K(!new)>(name: K -> Str, x: K, rest: seq<K>)
    requires Ascending(name, rest) && forall y | y in rest :: Less(name(x), name(y))
    ensures Ascending(name, [x] + rest)
  {
  }

  lemma AscendingTail<K(!new)>(name: K -> Str, tree: seq<K>)
    requires Ascending(name, tree) && tree != []
    ensures Ascending(name, tree[1..]) && tree == [tree[0]] + tree[1..]
    ensures forall y | y in tree[1..] :: Less(name(tree[0]), name(y)) && name(y) != name(tree[0])
  {
    forall y | y in tree[1..]
      ensures Less(name(tree[0]), name(y)) && name(y) != name(tree[0])
    {
      LessTotal(name(tree[0]), name(y));
    }
  }

  lemma {:induction false} InsertKeeps<K(!new)>(name: K -> Str, tree: seq<K>, k: K)
    requires Ascending(name, tree)
    ensures Ascending(name, Insert(name, tree, k))
    ensures forall x :: x in Insert(name, tree, k) <==> x == k || (x in tree && name(x) != name(k))
  {
    if tree == [] {
      AscendingCons(name, k, tree);
    } else {
      var head, rest := tree[0], tree[1..];
      AscendingTail(name, tree);
      LessTotal(name(k), name(head));
      hide Ascending;
      if Less(name(k), name(head)) {
        forall y | y in tree
          ensures Less(name(k), name(y)) && name(y) != name(k)
        {
          if y != head { LessTransitive(name(k), name(head), name(y)); }
          LessTotal(name(k), name(y));
        }
        AscendingCons(name, k, tree);
      } else if name(k) == name(head) {
        AscendingCons(name, k, rest);
      } else {
        InsertKeeps(name, rest, k);
        forall y | y in Insert(name, rest, k)
          ensures Less(name(head), name(y))
        {
          if y != k { assert y in rest; }
        }
        AscendingCons(name, head, Insert(name, rest, k));
      }
    }
  }

  lemma {:induction false} RemoveKeeps<K(!new)>(name: K -> Str, tree: seq<K>, k: K)
    requires Ascending(name, tree)
    ensures Ascending(name, Remove(name, tree, k))
    ensures forall x :: x in Remove(name, tree, k) <==> x in tree && name(x) != name(k)
  {
    if tree != [] {
      var head, rest := tree[0], tree[1..];
      AscendingTail(name, tree);
      hide Ascending;
      if name(k) != name(head) {
        RemoveKeeps(name, rest, k);
        forall y | y in Remove(name, rest, k)
          ensures Less(name(head), name(y))
        {
          assert y in rest;
        }
        AscendingCons(name, head, Remove(name, rest, k));
      }
    }
  }

  /******* The map *******/

  class Snapshot<K(==,!new), V(!new)> {
    var tree: seq<K>
    var vals: map<Str, V>

    constructor (tree: seq<K>, vals: map<Str, V>)
      ensures this.tree == tree && this.vals == vals
    {
      this.tree, this.vals := tree, vals;
    }

    /** The tree and the map hold the same keys. */
    ghost predicate Valid(name: K -> Str)
      reads this
    {
      Ascending(name, tree) && Names(name, tree) == vals.Keys
    }

    /** What a scan has yielded when it has gone past the first `i` keys. */
    ghost predicate Passed(name: K -> Str, from: Option<Str>, to: Option<Str>, i: nat, pairs: seq<(K, V)>)
      requires i <= |tree|
      reads this
    {
      && Rising(name, pairs) && (forall p | p in pairs :: p.0 in tree[..i] && Holds(name, vals, from, to, p))
      && forall k | k in tree[..i] && InRange(name(k), from, to) :: exists p :: p in pairs && p.0 == k
    }

    lemma PassedNext(name: K -> Str, from: Option<Str>, to: Option<Str>, i: nat, pairs: seq<(K, V)>, p: (K, V))
      requires Valid(name) && i < |tree| && Passed(name, from, to, i, pairs)
      requires p.0 == tree[i] && Holds(name, vals, from, to, p)
      ensures Passed(name, from, to, i + 1, pairs + [p])
    {
      hide Less, InRange, Names;
      assert tree[..i + 1] == tree[..i] + [tree[i]];
      forall q | q in pairs
        ensures Less(name(q.0), name(p.0))
      {
        var j :| 0 <= j < i && tree[j] == q.0;
      }
      RisingSnoc(name, pairs, p);
      hide Rising, Holds, Ascending;
      assert (pairs + [p])[|pairs|] == p;
      assert forall q | q in pairs :: q in pairs + [p];
    }

    /** One step of a scan. */
    method Visit(name: K -> Str, from: Option<Str>, to: Option<Str>, i: nat, pairs: seq<(K,
        V)>) returns (more: seq<(K, V)>)
      requires Valid(name) && i < |tree| && Passed(name, from, to, i, pairs)
      ensures Passed(name, from, to, i + 1, more)
    {
      hide Less, Ascending, Rising;
      assert tree[i] in tree && tree[..i + 1] == tree[..i] + [tree[i]];
      var k := tree[i];
      more := pairs;
      if InRange(name(k), from, to) {
        assert name(k) in Names(name, tree);
        more := pairs + [(k, vals[name(k)])];
        PassedNext(name, from, to, i, pairs, (k, vals[name(k)]));
      }
    }

    lemma PassedAll(name: K -> Str, from: Option<Str>, to: Option<Str>, pairs: seq<(K, V)>)
      requires Valid(name) && Passed(name, from, to, |tree|, pairs)
      ensures IsScan(name, vals, from, to, pairs) && forall p | p in pairs :: p.0 in tree
    {
      assert tree[..|tree|] == tree;
      forall s | s in vals && InRange(s, from, to)
        ensures exists p :: p in pairs && name(p.0) == s
      {
        assert s in Names(name, tree);
        var k :| k in tree && name(k) == s;
      }
    }

    /** The pairs whose key is in the half-open range, in order; None stands for no bound. */
    method Scan(name: K -> Str, from: Option<Str>, to: Option<Str>) returns (pairs: seq<(K, V)>)
      requires Valid(name)
      ensures IsScan(name, vals, from, to, pairs) && forall p | p in pairs :: p.0 in tree
    {
      pairs := [];
      for i := 0 to |tree|
        invariant Passed(name, from, to, i, pairs)
      {
        pairs := Visit(name, from, to, i, pairs);
      }
      PassedAll(name, from, to, pairs);
    }
  }

  predicate InRange(s: Str, from: Option<Str>, to: Option<Str>) {
    (from.Some? ==> !Less(s, from.value)) && (to.Some? ==> Less(s, to.value))
  }

  ghost predicate Rising<K, V>(name: K -> Str, pairs: seq<(K, V)>) {
    forall i, j | 0 <= i < j < |pairs| :: Less(name(pairs[i].0), name(pairs[j].0))
  }

  lemma RisingSnoc<K, V>(name: K -> Str, pairs: seq<(K, V)>, p: (K, V))
    requires Rising(name, pairs) && forall q | q in pairs :: Less(name(q.0), name(p.0))
    ensures Rising(name, pairs + [p])
  {
  }

  ghost predicate Holds<K, V>(name: K -> Str, vals: map<Str, V>, from: Option<Str>, to: Option<Str>, p: (K, V)) {
    name(p.0) in vals && vals[name(p.0)] == p.1 && InRange(name(p.0), from, to)
  }

  /** Exactly the entries of the map in the range, in strictly increasing order. */
  ghost predicate IsScan<K(!new), V(!new)>(name: K -> Str, vals: map<Str, V>, from: Option<Str>, to: Option<Str>,
                                           pairs: seq<(K, V)>) {
    && Rising(name, pairs)
    && (forall p | p in pairs :: Holds(name, vals, from, to, p))
    && forall s | s in vals && InRange(s, from, to) :: exists p :: p in pairs && name(p.0) == s
  }

  class SortedMap<K(==,!new), V(!new)> {
    const name: K -> Str
    var ptr: Snapshot<K, V>

    constructor (name: K -> Str)
      ensures Valid() && this.name == name && Contents() == map[] && fresh(ptr)
    {
      this.name := name;
      ptr := new Snapshot([], map[]);
    }

    ghost predicate Valid()
      reads this, ptr
    {
      ptr.Valid(name)
    }

    /** The map that is refined: values by the name of their key. */
    ghost function Contents(): map<Str, V>
      reads this, ptr
    {
      ptr.vals
    }

    method Copy() returns (s: Snapshot<K, V>)
      requires Valid()
      ensures fresh(s) && s.tree == ptr.tree && s.vals == ptr.vals
    {
      s := new Snapshot(ptr.tree, ptr.vals);
    }

    /** Only the pointer changes: snapshots taken before stay as they were. */
    method Store(k: K, v: V)
      requires Valid()
      modifies `ptr
      ensures Valid() && fresh(ptr) && Contents() == old(Contents())[name(k) := v]
      ensures ptr.tree == Insert(name, old(ptr.tree), k)
    {
      var s := Copy();
      InsertKeeps(name, s.tree, k);
      s.tree := Insert(name, s.tree, k);
      s.vals := s.vals[name(k) := v];
      ptr := s;
    }

    method Delete(k: K)
      requires Valid()
      modifies `ptr
      ensures Valid() && fresh(ptr) && Contents() == old(Contents()) - {name(k)}
      ensures ptr.tree == Remove(name, old(ptr.tree), k)
    {
      var s := Copy();
      RemoveKeeps(name, s.tree, k);
      s.tree := Remove(name, s.tree, k);
      s.vals := s.vals - {name(k)};
      ptr := s;
    }

    method Load(k: K) returns (v: Option<V>)
      requires Valid()
      ensures v == if name(k) in Contents() then Some(Contents()[name(k)]) else None
    {
      v := if name(k) in ptr.vals then Some(ptr.vals[name(k)]) else None;
    }

    /** `All`, `From` and `Between`: the scan runs on the snapshot the pointer holds when it starts. */
    method Scan(from: Option<Str>, to: Option<Str>) returns (pairs: seq<(K, V)>)
      requires Valid()
      ensures IsScan(name, Contents(), from, to, pairs)
    {
      pairs := ptr.Scan(name, from, to);
    }

    method Update(changes: seq<Change<K, V>>)
      requires Valid()
      modifies `ptr
      ensures Valid() && (fresh(ptr) || ptr == old(ptr)) && Contents() == Changed(name, old(Contents()), changes)
    {
      for i := 0 to |changes|
        invariant Valid() && (fresh(ptr) || ptr == old(ptr))
        invariant Contents() == Changed(name, old(Contents()), changes[..i])
      {
        assert changes[..i + 1][..i] == changes[..i];
        match changes[i]
        case Set(k, v) => Store(k, v);
        case Unset(k) => Delete(k);
      }
      assert changes[..|changes|] == changes;
    }

    /**
     * A scan with any changes made meanwhile: `changes[i]` before it goes past the i-th key, and what is
     * left after the last. It still yields the map as it was when it started.
     */
    method ScanAcrossUpdates(from: Option<Str>, to: Option<Str>,
        changes: seq<seq<Change<K, V>>>) returns (pairs: seq<(K, V)>)
      requires Valid()
      modifies `ptr
      ensures Valid() && Contents() == ChangedAll(name, old(Contents()), changes)
      ensures IsScan(name, old(Contents()), from, to, pairs)
    {
      hide Changed, Snapshot.Passed;
      var started := ptr;
      NothingPassed(started, name, from, to);
      pairs := [];
      var done := 0;
      for i := 0 to |started.tree|
        invariant Valid() && started.Valid(name) && (fresh(ptr) || ptr == started)
        invariant started.tree == old(ptr.tree) && started.vals == old(ptr.vals)
        invariant started.Passed(name, from, to, i, pairs)
        invariant done <= |changes| && Contents() == ChangedAll(name, old(Contents()), changes[..done])
      {
        if done < |changes| {
          assert changes[..done + 1][..done] == changes[..done];
          Update(changes[done]);
          done := done + 1;
        }
        pairs := started.Visit(name, from, to, i, pairs);
      }
      started.PassedAll(name, from, to, pairs);
      while done < |changes|
        invariant Valid() && (fresh(ptr) || ptr == started) && done <= |changes|
        invariant Contents() == ChangedAll(name, old(Contents()), changes[..done])
      {
        assert changes[..done + 1][..done] == changes[..done];
        Update(changes[done]);
        done := done + 1;
      }
      assert changes[..done] == changes;
    }
  }

  lemma NothingPassed<K(!new), V(!new)>(s: Snapshot<K, V>, name: K -> Str, from: Option<Str>, to: Option<Str>)
    ensures s.Passed(name, from, to, 0, [])
  {
  }

  /** A change made next to a scan. */
  datatype Change<K, V> = Set(key: K, value: V) | Unset(key: K)

  function Changed<K, V>(name: K -> Str, m: map<Str, V>, changes: seq<Change<K, V>>): map<Str, V> {
    if changes == [] then m
    else
      var before := Changed(name, m, changes[..|changes| - 1]);
      match changes[|changes| - 1]
      case Set(k, v) => before[name(k) := v]
      case Unset(k) => before - {name(k)}
  }

  function ChangedAll<K, V>(name: K -> Str, m: map<Str, V>, changes: seq<seq<Change<K, V>>>): map<Str, V> {
    if changes == [] then m else Changed(name, ChangedAll(name, m, changes[..|changes| - 1]), changes[|changes| - 1])
  }

  /** Two scans of the same range of the same map meet the same names and values. */
  lemma {:induction false} ScanUnique<K(!new), V(!new)>(name: K -> Str, vals: map<Str, V>, from: Option<Str>,
                                                        to: Option<Str>, ps: seq<(K, V)>, qs: seq<(K, V)>)
    requires IsScan(name, vals, from, to, ps) && IsScan(name, vals, from, to, qs)
    ensures |ps| == |qs| && forall i | 0 <= i < |ps| :: name(ps[i].0) == name(qs[i].0) && ps[i].1 == qs[i].1
  {
    if ps == [] {
      if qs != [] { Met(name, vals, from, to, ps, qs, qs[0]); }
    } else if qs == [] {
      Met(name, vals, from, to, qs, ps, ps[0]);
    } else {
      FirstLeast(name, vals, from, to, ps, qs);
      FirstLeast(name, vals, from, to, qs, ps);
      var s := name(ps[0].0);
      LessTotal(s, name(qs[0].0));
      Shorten(name, vals, from, to, ps);
      Shorten(name, vals, from, to, qs);
      ScanUnique(name, vals - {s}, from, to, ps[1..], qs[1..]);
      assert Holds(name, vals, from, to, ps[0]) && Holds(name, vals, from, to, qs[0]);
      forall i | 0 <= i < |ps|
        ensures name(ps[i].0) == name(qs[i].0) && ps[i].1 == qs[i].1
      {
        if i > 0 { assert ps[i] == ps[1..][i - 1] && qs[i] == qs[1..][i - 1]; }
      }
    }
  }

  lemma Met<K(!new), V(!new)>(name: K -> Str, vals: map<Str, V>, from: Option<Str>, to: Option<Str>,
                              ps: seq<(K, V)>, qs: seq<(K, V)>, q: (K, V))
    requires IsScan(name, vals, from, to, ps) && IsScan(name, vals, from, to, qs) && q in qs
    ensures exists p :: p in ps && name(p.0) == name(q.0)
  {
    assert Holds(name, vals, from, to, q);
  }

  lemma FirstLeast<K(!new), V(!new)>(name: K -> Str, vals: map<Str, V>, from: Option<Str>, to: Option<Str>,
                                     ps: seq<(K, V)>, qs: seq<(K, V)>)
    requires IsScan(name, vals, from, to, ps) && IsScan(name, vals, from, to, qs) && ps != [] && qs != []
    ensures !Less(name(qs[0].0), name(ps[0].0))
  {
    Met(name, vals, from, to, ps, qs, qs[0]);
    var p :| p in ps && name(p.0) == name(qs[0].0);
    var j :| 0 <= j < |ps| && ps[j] == p;
    if j > 0 { assert Less(name(ps[0].0), name(ps[j].0)); }
    LessTotal(name(ps[0].0), name(p.0));
  }

  lemma Shorten<K(!new), V(!new)>(name: K -> Str, vals: map<Str, V>, from: Option<Str>, to: Option<Str>, ps: seq<(K,
      V)>)
    requires IsScan(name, vals, from, to, ps) && ps != []
    ensures IsScan(name, vals - {name(ps[0].0)}, from, to, ps[1..])
  {
    var s := name(ps[0].0);
    forall p | p in ps[1..]
      ensures Holds(name, vals - {s}, from, to, p)
    {
      var j :| 0 <= j < |ps[1..]| && ps[1..][j] == p;
      assert Less(name(ps[0].0), name(ps[j + 1].0));
      LessTotal(s, name(p.0));
      assert Holds(name, vals, from, to, p);
    }
    forall x | x in vals - {s} && InRange(x, from, to)
      ensures exists p :: p in ps[1..] && name(p.0) == x
    {
      var p :| p in ps && name(p.0) == x;
      assert p in ps[1..] by { assert ps == [ps[0]] + ps[1..]; }
    }
  }
}

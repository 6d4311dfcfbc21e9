/** Evaluating a search filter on an entry, as `Search` does it. */
module FilterMatch {
  import opened BerInteger
  import opened Wrappers
  import opened Text
  import opened Names
  import opened DirectoryStore
  import opened Directory
  import L = Ldap

  const USERPASSWORD := Ascii("userpassword")

  /** Passwords are compared as they are, everything else without regard to case. */
  predicate ValueMatch(attr: Str, a: Str, b: Str) {
    if attr == USERPASSWORD then a == b else LowerAll(a) == LowerAll(b)
  }

  /** The values of an attribute, by any spelling of its key; stored keys are lower-case. */
  function ValuesOf(e: Entry, desc: Str): seq<Str> {
    e.Get(AttributeKey(desc))
  }

  /** None is the error for a kind of filter that is not supported. */
  function ApplyFilter(e: Entry, f: L.Filter): Option<bool> {
    match f
    case And(filters) => ApplyAnd(e, filters)
    case Or(filters) => ApplyOr(e, filters)
    case Not(filter) => (match ApplyFilter(e, filter) case None => None case Some(b) => Some(!b))
    case Present(desc) => Some(ValuesOf(e, desc) != [])
    case Compare(comparison, desc, value) =>
      if comparison.Equality? then
        Some(exists i :: 0 <= i < |ValuesOf(e, desc)| && ValueMatch(AttributeKey(desc), ValuesOf(e, desc)[i], value))
      else None
    case _ => None
  }

  function ApplyAnd(e: Entry, fs: seq<L.Filter>): Option<bool> {
    if fs == [] then Some(true)
    else
      match ApplyFilter(e, fs[0])
      case None => None
      case Some(b) => if !b then Some(false) else ApplyAnd(e, fs[1..])
  }

  function ApplyOr(e: Entry, fs: seq<L.Filter>): Option<bool> {
    if fs == [] then Some(false)
    else
      match ApplyFilter(e, fs[0])
      case None => None
      case Some(b) => if b then Some(true) else ApplyOr(e, fs[1..])
  }

  /** The same letter, or its other case. */
  predicate SameLetter(a: byte, b: byte) {
    || a == b
    || (0x41 <= a <= 0x5A && b == a + 0x20)
    || (0x41 <= b <= 0x5A && a == b + 0x20)
  }

  predicate SameLetters(a: Str, b: Str) {
    |a| == |b| && forall i | 0 <= i < |a| :: SameLetter(a[i], b[i])
  }

  /** Lower-casing both sides decides whether they differ in case only. */
  lemma LowerSame(a: Str, b: Str)
    ensures LowerAll(a) == LowerAll(b) <==> SameLetters(a, b)
  {
    if LowerAll(a) == LowerAll(b) {
      forall i | 0 <= i < |a|
        ensures SameLetter(a[i], b[i])
      {
        assert LowerAll(a)[i] == LowerAll(b)[i];
      }
    }
  }

  /** A password is the same byte by byte, every other value up to the case of its letters. */
  predicate SameValue(attr: Str, a: Str, b: Str) {
    if attr == USERPASSWORD then a == b else SameLetters(a, b)
  }

  /** Section 4.5.1.7 of RFC 4511, where every part of the filter has a truth value. */
  ghost predicate Matches(e: Entry, f: L.Filter) {
    match f
    case And(filters) => forall i | 0 <= i < |filters| :: Matches(e, filters[i])
    case Or(filters) => exists i | 0 <= i < |filters| :: Matches(e, filters[i])
    case Not(filter) => !Matches(e, filter)
    case Present(desc) => exists v :: v in ValuesOf(e, desc)
    case Compare(_, desc, value) => exists v :: v in ValuesOf(e, desc) && SameValue(AttributeKey(desc), v, value)
    case _ => false
  }

  predicate Supported(f: L.Filter) {
    match f
    case And(filters) => forall i | 0 <= i < |filters| :: Supported(filters[i])
    case Or(filters) => forall i | 0 <= i < |filters| :: Supported(filters[i])
    case Not(filter) => Supported(filter)
    case Present(_) => true
    case Compare(comparison, _, _) => comparison.Equality?
    case _ => false
  }

  /**
   * Going through the parts from left to right meets one of an unsupported kind, before an And is decided by
   * a part that does not match or an Or by one that does.
   */
  ghost predicate Stuck(e: Entry, f: L.Filter)
    decreases f
  {
    match f
    case And(filters) => StuckAmong(e, filters, true)
    case Or(filters) => StuckAmong(e, filters, false)
    case Not(filter) => Stuck(e, filter)
    case Present(_) => false
    case Compare(comparison, _, _) => !comparison.Equality?
    case Substrings(_, _) => true
    case ExtensibleMatch(_, _, _, _) => true
  }

  ghost predicate StuckAmong(e: Entry, fs: seq<L.Filter>, all: bool)
    decreases fs, 1
  {
    exists i | 0 <= i < |fs| :: StuckAt(e, fs, i, all)
  }

  /** This part gets stuck, and each part before it has this truth value. */
  ghost predicate StuckAt(e: Entry, fs: seq<L.Filter>, i: nat, all: bool)
    requires i < |fs|
    decreases fs, 0
  {
    Stuck(e, fs[i]) && forall j | 0 <= j < i :: Matches(e, fs[j]) == all
  }

  /** Evaluation fails exactly when it gets stuck; every other answer is the one the standard gives. */
  lemma {:induction false} FilterExactly(e: Entry, f: L.Filter)
    ensures ApplyFilter(e, f) == if Stuck(e, f) then None else Some(Matches(e, f))
  {
    match f
    case And(filters) => AndExactly(e, filters);
    case Or(filters) => OrExactly(e, filters);
    case Not(filter) => FilterExactly(e, filter);
    case Present(desc) => if ValuesOf(e, desc) != [] { assert ValuesOf(e, desc)[0] in ValuesOf(e, desc); }
    case Compare(_, desc, value) =>
      forall v ensures ValueMatch(AttributeKey(desc), v, value)
          <==> SameValue(AttributeKey(desc), v, value) { LowerSame(v, value); }
      hide ValueMatch, SameValue, AttributeKey, USERPASSWORD;
    case _ =>
  }

  lemma {:induction false} AndExactly(e: Entry, fs: seq<L.Filter>)
    ensures ApplyAnd(e, fs) == if StuckAmong(e, fs, true) then None else Some(Matches(e, L.And(fs)))
  {
    if fs != [] {
      FilterExactly(e, fs[0]);
      AndExactly(e, fs[1..]);
      assert forall i | 1 <= i < |fs| :: fs[i] == fs[1..][i - 1];
      StuckFirst(e, fs, true);
      assert Matches(e, L.And(fs)) <==> Matches(e, fs[0]) && Matches(e, L.And(fs[1..]));
    }
  }

  lemma {:induction false} OrExactly(e: Entry, fs: seq<L.Filter>)
    ensures ApplyOr(e, fs) == if StuckAmong(e, fs, false) then None else Some(Matches(e, L.Or(fs)))
  {
    if fs != [] {
      FilterExactly(e, fs[0]);
      OrExactly(e, fs[1..]);
      assert forall i | 1 <= i < |fs| :: fs[i] == fs[1..][i - 1];
      StuckFirst(e, fs, false);
      assert Matches(e, L.Or(fs)) <==> Matches(e, fs[0]) || Matches(e, L.Or(fs[1..]));
    }
  }

  lemma StuckFirst(e: Entry, fs: seq<L.Filter>, all: bool)
    requires fs != []
    ensures StuckAmong(e, fs, all) <==> Stuck(e, fs[0]) || (Matches(e, fs[0]) == all && StuckAmong(e, fs[1..], all))
  {
    hide Stuck, Matches;
    var rest := fs[1..];
    if i :| 0 <= i < |fs| && StuckAt(e, fs, i, all) && i > 0 { assert StuckAt(e, rest, i - 1, all); }
    if Stuck(e, fs[0]) { assert StuckAt(e, fs, 0, all); }
    if i :| 0 <= i < |rest| && StuckAt(e, rest, i, all) && Matches(e, fs[0]) == all {
      assert forall j | 1 <= j < i + 1 :: fs[j] == rest[j - 1];
      assert StuckAt(e, fs, i + 1, all);
    }
  }

  /** In particular a filter of one of these kinds has no answer, whatever the entry. */
  lemma UnsupportedFails(e: Entry, f: L.Filter)
    requires f.Substrings? || f.ExtensibleMatch? || (f.Compare? && !f.comparison.Equality?)
    ensures ApplyFilter(e, f) == None
  {
    FilterExactly(e, f);
  }

  lemma {:induction false} SupportedRuns(e: Entry, f: L.Filter)
    requires Supported(f)
    ensures !Stuck(e, f)
  {
    match f
    case And(filters) => NoneStuck(e, filters);
    case Or(filters) => NoneStuck(e, filters);
    case Not(filter) => SupportedRuns(e, filter);
    case _ =>
  }

  lemma {:induction false} NoneStuck(e: Entry, fs: seq<L.Filter>)
    requires forall i | 0 <= i < |fs| :: Supported(fs[i])
    ensures forall all :: !StuckAmong(e, fs, all)
  {
    forall i | 0 <= i < |fs|
      ensures !Stuck(e, fs[i])
    {
      SupportedRuns(e, fs[i]);
    }
  }

  /** A filter of supported parts always has an answer, and it is the one the standard gives. */
  lemma FilterMeans(e: Entry, f: L.Filter)
    requires Supported(f)
    ensures ApplyFilter(e, f) == Some(Matches(e, f))
  {
    FilterExactly(e, f);
    SupportedRuns(e, f);
    hide ApplyFilter, Stuck, Matches;
  }

  function Negated(fs: seq<L.Filter>): (r: seq<L.Filter>)
    ensures |r| == |fs|
  {
    seq(|fs|, i requires 0 <= i < |fs| => L.Not(fs[i]))
  }

  function Flip(o: Option<bool>): Option<bool> {
    match o case None => None case Some(b) => Some(!b)
  }

  lemma {:induction false} FlipEach(e: Entry, fs: seq<L.Filter>)
    ensures Flip(ApplyAnd(e, fs)) == ApplyOr(e, Negated(fs))
    ensures Flip(ApplyOr(e, fs)) == ApplyAnd(e, Negated(fs))
  {
    if fs != [] {
      FlipEach(e, fs[1..]);
      assert Negated(fs)[1..] == Negated(fs[1..]);
      assert ApplyFilter(e, L.Not(fs[0])) == Flip(ApplyFilter(e, fs[0]));
    }
  }

  /** De Morgan's laws hold of the evaluation itself, errors and early answers included. */
  lemma DeMorgan(e: Entry, fs: seq<L.Filter>)
    ensures ApplyFilter(e, L.Not(L.And(fs))) == ApplyFilter(e, L.Or(Negated(fs)))
    ensures ApplyFilter(e, L.Not(L.Or(fs))) == ApplyFilter(e, L.And(Negated(fs)))
  {
    FlipEach(e, fs);
    assert ApplyFilter(e, L.And(fs)) == ApplyAnd(e, fs) && ApplyFilter(e, L.Or(fs)) == ApplyOr(e, fs);
  }
}

/**
 * A reading replica of a pgcache table next to the writers of other processes. Announcing, committing,
 * and the parts of handling a notice are separate steps that interleave freely.
 */
module Convergence {
  import opened Wrappers
  import opened Text
  import opened Replica

  /** Between the loops of `handleEvents`: deletes done, then the rows fetched but not yet stored. */
  datatype Phase = Idle | Fetching | Storing(rows: DB)

  /**
   * `txs` are the transactions in the order of their notices; the first `committed` of them are in the
   * database, the notices of the first `handled` are dealt with.
   */
  datatype State = State(db: DB, replica: DB, txs: seq<seq<Update>>, committed: nat, handled: nat, phase: Phase)
  {
    ghost predicate InStep() {
      handled <= |txs| && committed <= |txs| && (phase != Idle ==> handled < |txs|)
    }
  }

  datatype Step = Announce(us: seq<Update>) | Commit | Begin | Fetch | Finish

  ghost predicate Next(s: State, step: Step, t: State) {
    match step
    case Announce(us) =>
      us != [] && t == s.(txs := s.txs + [us])
    case Commit =>
      s.committed < |s.txs| && t == s.(db := Apply(s.db, s.txs[s.committed]), committed := s.committed + 1)
    case Begin =>
      && s.phase.Idle? && s.handled < |s.txs|
      && t == s.(replica := s.replica - Deletes(NoticeOf(s.txs[s.handled])), phase := Fetching)
    case Fetch =>
      && s.phase.Fetching? && s.handled < |s.txs|
      && var wanted := Stores(NoticeOf(s.txs[s.handled]));
         wanted <= s.db.Keys && t == s.(phase := Storing(Rows(s.db, wanted)))
    case Finish =>
      s.phase.Storing? && t == s.(replica := s.replica + s.phase.rows, handled := s.handled + 1, phase := Idle)
  }

  function ApplyAll(db: DB, txs: seq<seq<Update>>): DB {
    if txs == [] then db else Apply(ApplyAll(db, txs[..|txs| - 1]), txs[|txs| - 1])
  }

  /** The table with the transaction of the notice at hand, and those before it, committed. */
  function Settled(s: State): DB
    requires s.InStep() && s.handled < |s.txs|
  {
    if s.handled < s.committed then s.db else ApplyAll(s.db, s.txs[s.committed..s.handled + 1])
  }

  /** What a fetch finds is what its notice is about; deletions, and whatever it does not ask for, may be early. */
  ghost predicate Timely(s: State, step: Step) {
    step.Fetch? && s.InStep() && s.handled < |s.txs| ==>
      forall k | k in Stores(NoticeOf(s.txs[s.handled])) && k in s.db :: k in Settled(s) && Settled(s)[k] == s.db[k]
  }

  /** So is every fetch after the commit of its transaction, and every one that asks for nothing. */
  lemma TimelyWhen(s: State, step: Step)
    requires s.InStep() && s.handled < |s.txs|
    requires s.handled < s.committed || Stores(NoticeOf(s.txs[s.handled])) == {}
    ensures Timely(s, step)
  {
    hide ApplyAll, NoticeOf, Stores;
  }

  ghost predicate Init(s: State) {
    s.replica == s.db && s.txs == [] && s.committed == 0 && s.handled == 0 && s.phase.Idle?
  }

  /** What the last of these transactions to touch a key did to it. */
  function LastTouch(txs: seq<seq<Update>>, k: Str): Option<EventType> {
    if txs == [] then None
    else
      var last := NoticeOf(txs[|txs| - 1]);
      if k in last then Some(last[k]) else LastTouch(txs[..|txs| - 1], k)
  }

  lemma {:induction false} LastTouchFront(us: seq<Update>, rest: seq<seq<Update>>, k: Str)
    ensures LastTouch([us] + rest, k) == if LastTouch(rest, k).Some? then LastTouch(rest, k)
                                         else if k in NoticeOf(us) then Some(NoticeOf(us)[k]) else None
  {
    if rest == [] {
      assert ([us] + rest)[..0] == [];
      assert LastTouch([us][..0], k) == None;
    } else {
      var before := rest[..|rest| - 1];
      assert ([us] + rest)[..|rest|] == [us] + before;
      LastTouchFront(us, before, k);
    }
  }

  lemma LastTouchBack(txs: seq<seq<Update>>, us: seq<Update>, k: Str)
    ensures LastTouch(txs + [us], k) == if k in NoticeOf(us) then Some(NoticeOf(us)[k]) else LastTouch(txs, k)
  {
    assert (txs + [us])[..|txs|] == txs;
  }

  lemma {:induction false} ApplyAllFront(db: DB, us: seq<Update>, rest: seq<seq<Update>>)
    ensures ApplyAll(db, [us] + rest) == ApplyAll(Apply(db, us), rest)
  {
    hide Apply;
    var all := [us] + rest;
    if rest == [] {
      assert all[..0] == [] && ApplyAll(db, all[..0]) == db;
    } else {
      assert all[..|rest|] == [us] + rest[..|rest| - 1];
      ApplyAllFront(db, us, rest[..|rest| - 1]);
    }
  }

  /** Committed, and not dealt with yet. */
  function Pending(s: State): seq<seq<Update>>
    requires s.handled <= s.committed <= |s.txs|
  {
    s.txs[s.handled..s.committed]
  }

  /** The table with all transactions committed whose notices are dealt with. */
  function Ahead(s: State): DB
    requires s.committed <= s.handled <= |s.txs|
  {
    ApplyAll(s.db, s.txs[s.committed..s.handled])
  }

  /**
   * A key no pending transaction touched is the same in replica and database; of a touched key, the
   * last touch says whether the database has it.
   */
  ghost predicate Tracks(db: DB, replica: DB, pending: seq<seq<Update>>, k: Str) {
    match LastTouch(pending, k)
    case None => Agree(replica, db, k)
    case Some(kind) => kind.StoreEvent? <==> k in db
  }

  /** What the part of the handling that is done has achieved for a key. */
  ghost predicate HalfDone(s: State, k: Str)
    requires s.phase != Idle && s.handled < s.committed <= |s.txs|
  {
    var notice := NoticeOf(s.txs[s.handled]);
    && (k in Deletes(notice) ==> k !in s.replica)
    && (s.phase.Storing? ==>
          && (k in s.phase.rows <==> k in Stores(notice))
          && (k in s.phase.rows && LastTouch(s.txs[s.handled + 1..s.committed], k).None? ==>
                k in s.db && s.phase.rows[k] == s.db[k]))
  }

  /** The replica may also be ahead of the table, and is then what the table is about to become. */
  ghost predicate EarlyInv(s: State, k: Str)
    requires s.InStep() && s.committed <= s.handled
  {
    if s.phase.Idle? then Agree(s.replica, Ahead(s), k)
    else
      var notice := NoticeOf(s.txs[s.handled]);
      && (if k in Deletes(notice) then k !in s.replica else Agree(s.replica, Ahead(s), k))
      && (s.phase.Storing? ==>
            && (k in s.phase.rows <==> k in Stores(notice))
            && (k in s.phase.rows ==> k in Settled(s) && s.phase.rows[k] == Settled(s)[k]))
  }

  ghost predicate KeyInv(s: State, k: Str)
    requires s.InStep()
  {
    if s.handled < s.committed then Tracks(s.db, s.replica, Pending(s), k) && (s.phase != Idle ==> HalfDone(s, k))
    else EarlyInv(s, k)
  }

  ghost predicate Inv(s: State) {
    s.InStep() && forall k :: KeyInv(s, k)
  }

  lemma AnnounceKeeps(s: State, us: seq<Update>, t: State, k: Str)
    requires s.InStep() && KeyInv(s, k) && Next(s, Announce(us), t)
    ensures t.InStep() && KeyInv(t, k)
  {
    hide Apply, NoticeOf, LastTouch, ApplyAll;
    if s.handled < s.committed {
      assert Pending(t) == Pending(s);
      assert t.txs[t.handled + 1..t.committed] == s.txs[s.handled + 1..s.committed];
    } else {
      assert t.txs[t.committed..t.handled] == s.txs[s.committed..s.handled];
      if s.phase != Idle { assert t.txs[t.committed..t.handled + 1] == s.txs[s.committed..s.handled + 1]; }
    }
    if s.phase != Idle { assert t.txs[t.handled] == s.txs[s.handled]; }
  }

  /** A commit is one more pending transaction. */
  lemma CommitKeeps(s: State, t: State, k: Str)
    requires s.InStep() && s.handled < s.committed && KeyInv(s, k) && Next(s, Commit, t)
    ensures t.InStep() && KeyInv(t, k)
  {
    hide Apply, NoticeOf, LastTouch;
    var us := s.txs[s.committed];
    MergedTells(s.db, us, k);
    assert Pending(t) == Pending(s) + [us];
    LastTouchBack(Pending(s), us, k);
    if s.phase != Idle {
      var later := s.txs[s.handled + 1..s.committed];
      assert s.txs[s.handled + 1..t.committed] == later + [us];
      LastTouchBack(later, us, k);
      PendingFront(s, k);
    }
  }

  /** A commit the replica is ahead of leaves what the table is about to become as it is. */
  lemma ExpectedSame(s: State, t: State)
    requires s.InStep() && s.committed < s.handled && Next(s, Commit, t)
    ensures Ahead(t) == Ahead(s) && (s.handled < |s.txs| ==> Settled(t) == Settled(s))
  {
    hide Apply, ApplyAll;
    var us, rest := s.txs[s.committed], s.txs[s.committed + 1..s.handled];
    assert s.txs[s.committed..s.handled] == [us] + rest;
    ApplyAllFront(s.db, us, rest);
    if s.handled < |s.txs| {
      assert s.txs[s.committed..s.handled + 1] == [us] + s.txs[s.committed + 1..s.handled + 1];
      ApplyAllFront(s.db, us, s.txs[s.committed + 1..s.handled + 1]);
    }
  }

  lemma ExpectedKeeps(s: State, t: State, k: Str)
    requires s.InStep() && s.committed < s.handled && KeyInv(s, k) && Next(s, Commit, t)
    ensures t.InStep() && KeyInv(t, k)
  {
    ExpectedSame(s, t);
    hide Apply, NoticeOf, Ahead, Settled, Stores, Deletes, Agree;
  }

  /** The commit of the very transaction whose notice is being dealt with. */
  lemma OwnCommitKeeps(s: State, t: State, k: Str)
    requires s.InStep() && s.committed == s.handled && KeyInv(s, k) && Next(s, Commit, t)
    ensures t.InStep() && KeyInv(t, k)
  {
    var us := s.txs[s.committed];
    MergedTells(s.db, us, k);
    assert s.txs[s.committed..s.handled] == [] && s.txs[s.committed..s.handled + 1] == [us];
    assert Pending(t) == [us] && t.txs[t.handled + 1..t.committed] == [];
    OneTransaction(s.db, us);
    LastTouchBack([], us, k);
    assert [] + [us] == [us];
    hide Apply, NoticeOf, ApplyAll;
  }

  lemma OneTransaction(db: DB, us: seq<Update>)
    ensures ApplyAll(db, []) == db && ApplyAll(db, [us]) == Apply(db, us)
  {
    assert [us][..0] == [];
  }

  /** The transaction being handled is the first of the pending ones. */
  lemma PendingFront(s: State, k: Str)
    requires s.handled < s.committed <= |s.txs|
    ensures var notice, later := NoticeOf(s.txs[s.handled]), LastTouch(s.txs[s.handled + 1..s.committed], k);
            LastTouch(Pending(s), k) == if later.Some? then later
                                        else if k in notice then Some(notice[k]) else None
  {
    assert Pending(s) == [s.txs[s.handled]] + s.txs[s.handled + 1..s.committed];
    LastTouchFront(s.txs[s.handled], s.txs[s.handled + 1..s.committed], k);
  }

  lemma HandlingKeeps(s: State, step: Step, t: State, k: Str)
    requires s.InStep() && s.handled < s.committed && KeyInv(s, k) && Next(s, step, t)
    requires step.Begin? || step.Fetch? || step.Finish?
    ensures t.InStep() && KeyInv(t, k)
  {
    PendingFront(s, k);
    if step.Finish? {
      assert Pending(t) == s.txs[s.handled + 1..s.committed];
      if t.handled == t.committed { OneTransaction(s.db, s.txs[s.handled]); }
    }
    hide Apply, NoticeOf, LastTouch, ApplyAll;
  }

  /** Neither depends on the replica or on how far the handling is. */
  lemma SameTable(s: State, t: State)
    requires s.InStep() && t.InStep() && s.committed <= s.handled
    requires t.db == s.db && t.txs == s.txs && t.committed == s.committed
    ensures t.handled == s.handled ==> Ahead(t) == Ahead(s) && (s.handled < |s.txs| ==> Settled(t) == Settled(s))
    ensures t.handled == s.handled + 1 ==> Ahead(t) == Settled(s)
  {
    hide Apply, ApplyAll;
  }

  lemma EarlyBegin(s: State, t: State, k: Str)
    requires s.InStep() && s.committed <= s.handled && KeyInv(s, k) && Next(s, Begin, t)
    ensures t.InStep() && KeyInv(t, k)
  {
    hide Apply, NoticeOf, Ahead, Settled;
    SameTable(s, t);
  }

  lemma EarlyFetch(s: State, t: State, k: Str)
    requires s.InStep() && s.committed <= s.handled && KeyInv(s, k) && Next(s, Fetch, t) && Timely(s, Fetch)
    ensures t.InStep() && KeyInv(t, k)
  {
    hide Apply, NoticeOf, Ahead, Settled;
    SameTable(s, t);
  }

  lemma EarlyFinish(s: State, t: State, k: Str)
    requires s.InStep() && s.committed <= s.handled && KeyInv(s, k) && Next(s, Finish, t)
    ensures t.InStep() && KeyInv(t, k)
  {
    SettledStep(s, k);
    hide Apply, NoticeOf, Ahead, Settled;
    SameTable(s, t);
  }

  lemma EarlyKeeps(s: State, step: Step, t: State, k: Str)
    requires s.InStep() && s.committed <= s.handled && KeyInv(s, k) && Next(s, step, t) && Timely(s, step)
    requires step.Begin? || step.Fetch? || step.Finish?
    ensures t.InStep() && KeyInv(t, k)
  {
    hide *;
    match step
    case Begin => EarlyBegin(s, t, k);
    case Fetch => EarlyFetch(s, t, k);
    case Finish => EarlyFinish(s, t, k);
  }

  /** What the transaction at hand does to a key, on top of those before it. */
  lemma SettledStep(s: State, k: Str)
    requires s.InStep() && s.committed <= s.handled < |s.txs|
    ensures var notice := NoticeOf(s.txs[s.handled]);
            && (k !in notice ==> Agree(Settled(s), Ahead(s), k))
            && (k in notice ==> (k in Stores(notice) <==> k in Settled(s)))
    ensures Settled(s) == ApplyAll(s.db, s.txs[s.committed..s.handled + 1])
  {
    hide Apply, NoticeOf;
    var txs := s.txs[s.committed..s.handled + 1];
    var before := ApplyAll(s.db, s.txs[s.committed..s.handled]);
    assert txs[..|txs| - 1] == s.txs[s.committed..s.handled];
    assert ApplyAll(s.db, txs) == Apply(before, s.txs[s.handled]);
    hide ApplyAll;
    MergedTells(before, s.txs[s.handled], k);
    SettledEarly(s);
    hide Settled, Ahead;
  }

  lemma SettledEarly(s: State)
    requires s.InStep() && s.committed <= s.handled < |s.txs|
    ensures Settled(s) == ApplyAll(s.db, s.txs[s.committed..s.handled + 1])
    ensures Ahead(s) == ApplyAll(s.db, s.txs[s.committed..s.handled])
  {
    hide ApplyAll;
  }

  lemma StepKeeps(s: State, step: Step, t: State)
    requires Inv(s) && Next(s, step, t) && Timely(s, step)
    ensures Inv(t)
  {
    hide Apply, NoticeOf, LastTouch, KeyInv, ApplyAll, Timely;
    assert t.InStep();
    forall k
      ensures KeyInv(t, k)
    {
      assert KeyInv(s, k);
      match step
      case Announce(us) => AnnounceKeeps(s, us, t, k);
      case Commit =>
        if s.handled < s.committed {
          CommitKeeps(s, t, k);
        } else if s.committed < s.handled {
          ExpectedKeeps(s, t, k);
        } else {
          OwnCommitKeeps(s, t, k);
        }
      case _ =>
        if s.handled < s.committed { HandlingKeeps(s, step, t, k); } else { EarlyKeeps(s, step, t, k); }
    }
  }

  ghost predicate Follows(states: seq<State>, steps: seq<Step>) {
    |states| == |steps| + 1 && forall i | 0 <= i < |steps| :: Next(states[i], steps[i], states[i + 1])
  }

  ghost predicate Run(states: seq<State>, steps: seq<Step>) {
    Follows(states, steps) && Init(states[0])
  }

  /** Every transaction announced is committed and its notice dealt with. */
  ghost predicate CaughtUp(s: State) {
    s.handled == s.committed == |s.txs| && s.phase.Idle?
  }

  /**
   * Whatever commits the fetches already see, and however early notices are begun: when every fetch is
   * timely, a replica that has caught up equals the database.
   */
  lemma {:induction false} Converges(states: seq<State>, steps: seq<Step>)
    requires Run(states, steps) && forall i | 0 <= i < |steps| :: Timely(states[i], steps[i])
    ensures Inv(states[|steps|])
    ensures CaughtUp(states[|steps|]) ==> states[|steps|].replica == states[|steps|].db
  {
    hide KeyInv, Timely;
    var n := |steps|;
    if n == 0 {
      InitInv(states[0]);
    } else {
      Converges(states[..n], steps[..n - 1]);
      assert Next(states[n - 1], steps[n - 1], states[n]) && Timely(states[n - 1], steps[n - 1]);
      StepKeeps(states[n - 1], steps[n - 1], states[n]);
    }
    if CaughtUp(states[n]) { CaughtUpEqual(states[n]); }
  }

  lemma InitInv(s: State)
    requires Init(s)
    ensures Inv(s)
  {
    assert s.txs[s.committed..s.handled] == [];
    hide Apply;
  }

  lemma CaughtUpEqual(s: State)
    requires Inv(s) && CaughtUp(s)
    ensures s.replica == s.db
  {
    assert s.txs[s.committed..s.handled] == [] && Ahead(s) == s.db;
    forall k
      ensures k in s.replica <==> k in s.db
      ensures k in s.db ==> s.replica[k] == s.db[k]
    {
      assert KeyInv(s, k);
    }
  }

  /**
   * The fetch of a notice comes back short exactly when a later commit, whose own notice is still to
   * come, has already deleted one of the keys.
   */
  lemma FetchShort(s: State)
    requires Inv(s) && s.phase.Fetching? && s.handled < s.committed
    ensures var wanted := Stores(NoticeOf(s.txs[s.handled]));
            !(wanted <= s.db.Keys) <==>
            exists k :: k in wanted && LastTouch(s.txs[s.handled + 1..s.committed], k) == Some(DeleteEvent)
  {
    hide Apply, NoticeOf, LastTouch;
    forall k | k in Stores(NoticeOf(s.txs[s.handled]))
      ensures k !in s.db <==> LastTouch(s.txs[s.handled + 1..s.committed], k) == Some(DeleteEvent)
    {
      assert KeyInv(s, k);
      PendingFront(s, k);
    }
  }

  /******* Fetches that come too early *******/

  /** With nothing left to deal with, the commits that are due. */
  lemma CommitAll(s: State) returns (states: seq<State>, steps: seq<Step>)
    requires s.committed <= |s.txs|
    ensures Follows(states, steps) && states[0] == s
    ensures states[|steps|] == s.(db := ApplyAll(s.db, s.txs[s.committed..]), committed := |s.txs|)
    decreases |s.txs| - s.committed
  {
    hide Apply, ApplyAll;
    OneTransaction(s.db, []);
    if s.committed == |s.txs| {
      assert s.txs[s.committed..] == [];
      states, steps := [s], [];
    } else {
      var us := s.txs[s.committed];
      var t := s.(db := Apply(s.db, us), committed := s.committed + 1);
      var more, rest := CommitAll(t);
      ApplyAllFront(s.db, us, s.txs[t.committed..]);
      assert s.txs[s.committed..] == [us] + s.txs[t.committed..];
      states, steps := [s] + more, [Commit] + rest;
      FollowsCons(s, Commit, more, rest);
    }
  }

  lemma FollowsCons(s: State, step: Step, states: seq<State>, steps: seq<Step>)
    requires Follows(states, steps) && Next(s, step, states[0])
    ensures Follows([s] + states, [step] + steps) && ([s] + states)[|[step] + steps|] == states[|steps|]
  {
    hide Next;
    var more, rest := [s] + states, [step] + steps;
    forall i | 0 <= i < |rest|
      ensures Next(more[i], rest[i], more[i + 1])
    {
      if i > 0 { assert Next(states[i - 1], steps[i - 1], states[i]); }
    }
  }

  /**
   * Take any fetch of the latest notice that comes before its commit and finds all it asks for. When
   * the due commits then follow and nothing else, the replica ends up caught up, and equal to the
   * database exactly when the fetch was timely.
   */
  lemma EarlyFetchEnds(s: State) returns (states: seq<State>, steps: seq<Step>)
    requires Inv(s) && s.phase.Fetching? && s.committed <= s.handled == |s.txs| - 1
    requires Stores(NoticeOf(s.txs[s.handled])) <= s.db.Keys
    ensures Follows(states, steps) && states[0] == s && steps != [] && steps[0] == Fetch
    ensures CaughtUp(states[|steps|])
    ensures states[|steps|].replica == states[|steps|].db <==> Timely(s, Fetch)
  {
    hide Apply, ApplyAll, NoticeOf, Stores, Deletes;
    var wanted := Stores(NoticeOf(s.txs[s.handled]));
    var storing := s.(phase := Storing(Rows(s.db, wanted)));
    var idle := s.(replica := s.replica + Rows(s.db, wanted), handled := s.handled + 1, phase := Idle);
    var more, rest := CommitAll(idle);
    FollowsCons(storing, Finish, more, rest);
    FollowsCons(s, Fetch, [storing] + more, [Finish] + rest);
    states, steps := [s] + ([storing] + more), [Fetch] + ([Finish] + rest);
    assert s.txs[s.committed..] == s.txs[s.committed..s.handled + 1];
    FetchedIs(s);
  }

  /** The rows fetched on top of the replica are the table to be exactly when each of them is. */
  lemma FetchedIs(s: State)
    requires Inv(s) && s.phase.Fetching? && s.committed <= s.handled < |s.txs|
    requires Stores(NoticeOf(s.txs[s.handled])) <= s.db.Keys
    ensures s.replica + Rows(s.db, Stores(NoticeOf(s.txs[s.handled]))) == ApplyAll(s.db, s.txs[s.committed..s.handled + 1])
            <==> Timely(s, Fetch)
  {
    hide Apply, ApplyAll, NoticeOf;
    var wanted := Stores(NoticeOf(s.txs[s.handled]));
    var got := s.replica + Rows(s.db, wanted);
    forall k
      ensures k !in wanted ==> (k in got <==> k in Settled(s)) && (k in got ==> got[k] == Settled(s)[k])
      ensures k in wanted ==> k in got && k in Settled(s) && got[k] == s.db[k]
    {
      assert KeyInv(s, k);
      SettledStep(s, k);
    }
    SettledIs(s);
    hide Settled, KeyInv, Stores, Rows;
    if Timely(s, Fetch) {
      assert forall k | k in got :: k in Settled(s) && got[k] == Settled(s)[k];
      assert got == Settled(s);
    }
  }

  lemma SettledIs(s: State)
    requires s.InStep() && s.committed <= s.handled < |s.txs|
    ensures Settled(s) == ApplyAll(s.db, s.txs[s.committed..s.handled + 1])
  {
  }

  /**
   * The hypothesis is needed, because the notice goes out before the commit: a replica that handles it
   * in between fetches the old row, and stays with it after everything is committed and handled.
   */
  lemma StaleWhenHandledEarly(k: Str, before: Str, after: Str) returns (states: seq<State>, steps: seq<Step>)
    requires before != after
    ensures Run(states, steps) && CaughtUp(states[|steps|])
    ensures k in states[|steps|].replica && states[|steps|].replica[k].body == before
    ensures k in states[|steps|].db && states[|steps|].db[k].body == after
  {
    hide Apply, NoticeOf, Stores, Deletes, Rows;
    var us := [Store(Object(k, after))];
    var db: DB := map[k := Object(k, before)];
    var s0 := State(db, db, [], 0, 0, Idle);
    var s1 := s0.(txs := [us]);
    assert s0.txs + [us] == s1.txs;
    OneStore(db, us[0]);
    var s4 := HandledEarly(s1);
    var s2, s3 := s1.(phase := Fetching), s1.(phase := Storing(db));
    var s5 := s4.(db := map[k := Object(k, after)], committed := 1);
    assert Apply(db, us) == s5.db;
    states, steps := [s0, s1, s2, s3, s4, s5], [Announce(us), Begin, Fetch, Finish, Commit];
    assert Next(s0, steps[0], s1) && Next(s4, steps[4], s5);
  }

  /** Handling a single store before its commit leaves the replica as it was. */
  lemma HandledEarly(s: State) returns (t: State)
    requires s.phase.Idle? && s.handled < |s.txs| && s.replica == s.db
    requires Deletes(NoticeOf(s.txs[s.handled])) == {} && Stores(NoticeOf(s.txs[s.handled])) == s.db.Keys
    ensures var fetching, storing := s.(phase := Fetching), s.(phase := Storing(s.db));
            Next(s, Begin, fetching) && Next(fetching, Fetch, storing) && Next(storing, Finish, t)
    ensures t == s.(handled := s.handled + 1)
  {
    t := s.(handled := s.handled + 1);
    assert s.replica - {} == s.replica && s.replica + s.db == s.replica;
    assert Rows(s.db, s.db.Keys) == s.db;
    hide NoticeOf, Stores, Deletes, Rows;
  }

  lemma OneStore(db: DB, u: Update)
    requires u.Store? && db.Keys == {KeyOf(u)}
    ensures Stores(NoticeOf([u])) == {KeyOf(u)} && Deletes(NoticeOf([u])) == {}
    ensures Apply(db, [u]) == db[KeyOf(u) := u.row] && Rows(db, {KeyOf(u)}) == db
  {
    assert [u][..0] == [];
    assert EventsOf([u]) == [EventOf(u)];
    assert Merged([EventOf(u)][..0]) == map[];
  }

  /******* The steps of the code *******/

  /** Some commits, and what comes after them. */
  lemma {:induction false} CommitThen(s: State, m: nat, more: seq<State>, rest: seq<Step>)
      returns (states: seq<State>, steps: seq<Step>)
    requires s.committed + m <= |s.txs| && Follows(more, rest)
    requires more[0] == s.(db := ApplyAll(s.db, s.txs[s.committed..s.committed + m]), committed := s.committed + m)
    ensures Follows(states, steps) && states[0] == s && states[|steps|] == more[|rest|]
    decreases m
  {
    hide Apply, ApplyAll;
    if m == 0 {
      OneTransaction(s.db, []);
      assert s.txs[s.committed..s.committed + m] == [];
      states, steps := more, rest;
    } else {
      var us := s.txs[s.committed];
      var t := s.(db := Apply(s.db, us), committed := s.committed + 1);
      ApplyAllFront(s.db, us, s.txs[t.committed..t.committed + m - 1]);
      assert s.txs[s.committed..s.committed + m] == [us] + s.txs[t.committed..t.committed + m - 1];
      var later, last := CommitThen(t, m - 1, more, rest);
      states, steps := [s] + later, [Commit] + last;
      FollowsCons(s, Commit, later, last);
    }
  }

  /** Handling a notice, with some commits before the fetch that succeeds. */
  lemma HandlingSteps(s: State, m: nat) returns (states: seq<State>, steps: seq<Step>)
    requires s.InStep() && s.phase.Idle? && s.handled < |s.txs| && s.committed + m <= |s.txs|
    requires Stores(NoticeOf(s.txs[s.handled])) <= ApplyAll(s.db, s.txs[s.committed..s.committed + m]).Keys
    ensures Follows(states, steps) && states[0] == s
    ensures var view, n := ApplyAll(s.db, s.txs[s.committed..s.committed + m]), NoticeOf(s.txs[s.handled]);
            states[|steps|] == s.(db := view, committed := s.committed + m, handled := s.handled + 1,
                                  replica := s.replica - Deletes(n) + Rows(view, Stores(n)))
  {
    hide Apply, ApplyAll, NoticeOf, Stores, Deletes, Rows;
    var n, view := NoticeOf(s.txs[s.handled]), ApplyAll(s.db, s.txs[s.committed..s.committed + m]);
    var begun := s.(replica := s.replica - Deletes(n), phase := Fetching);
    var seen := begun.(db := view, committed := s.committed + m);
    var fetched := seen.(phase := Storing(Rows(view, Stores(n))));
    var done := fetched.(replica := fetched.replica + Rows(view, Stores(n)), handled := s.handled + 1, phase := Idle);
    assert Follows([done], []);
    FollowsCons(fetched, Finish, [done], []);
    FollowsCons(seen, Fetch, [fetched] + [done], [Finish] + []);
    var more, rest := CommitThen(begun, m, [seen] + ([fetched] + [done]), [Fetch] + ([Finish] + []));
    FollowsCons(s, Begin, more, rest);
    states, steps := [s] + more, [Begin] + rest;
  }

  /** What the fetches of a handler see: the table after some more commits each. */
  ghost predicate Sees(s: State, views: seq<DB>, ms: seq<nat>) {
    && |views| == |ms| == MAX_TRIES
    && forall i | 0 <= i < MAX_TRIES ::
         s.committed + ms[i] <= |s.txs| && views[i] == ApplyAll(s.db, s.txs[s.committed..s.committed + ms[i]])
  }

  /** The next notice has been dealt with, and the replica is this. */
  ghost predicate LeadsTo(s: State, states: seq<State>, steps: seq<Step>, replica: DB) {
    && Follows(states, steps) && states[0] == s
    && var t := states[|steps|]; t.replica == replica && t.handled == s.handled + 1 && t.phase.Idle? && t.txs == s.txs
  }

  /** What `handleEvents` then leaves is reached by these steps. */
  lemma HandledSteps(s: State, views: seq<DB>, ms: seq<nat>, replica: DB) returns (states: seq<State>, steps: seq<Step>)
    requires s.InStep() && s.phase.Idle? && s.handled < |s.txs| && Sees(s, views, ms)
    requires var n := NoticeOf(s.txs[s.handled]);
             exists j :: 0 <= j < MAX_TRIES && Stores(n) <= views[j].Keys
                         && replica == s.replica - Deletes(n) + Rows(views[j], Stores(n))
    ensures LeadsTo(s, states, steps, replica)
  {
    hide ApplyAll, NoticeOf, Stores, Deletes, Rows, LeadsTo;
    var n := NoticeOf(s.txs[s.handled]);
    var j :| 0 <= j < MAX_TRIES && Stores(n) <= views[j].Keys
             && replica == s.replica - Deletes(n) + Rows(views[j], Stores(n));
    states, steps := HandledAt(s, ms[j], replica);
  }

  lemma HandledAt(s: State, m: nat, replica: DB) returns (states: seq<State>, steps: seq<Step>)
    requires s.InStep() && s.phase.Idle? && s.handled < |s.txs| && s.committed + m <= |s.txs|
    requires var n, view := NoticeOf(s.txs[s.handled]), ApplyAll(s.db, s.txs[s.committed..s.committed + m]);
             Stores(n) <= view.Keys && replica == s.replica - Deletes(n) + Rows(view, Stores(n))
    ensures LeadsTo(s, states, steps, replica)
  {
    hide ApplyAll, NoticeOf, Stores, Deletes, Rows, Follows;
    states, steps := HandlingSteps(s, m);
  }

  /** The code's handling of the next notice is a path of these steps. */
  method HandleNext(table: Table, events: seq<Event>, views: seq<DB>, ghost s: State, ghost ms: seq<nat>)
      returns (ok: bool, ghost states: seq<State>, ghost steps: seq<Step>)
    requires table.Valid() && table.Contents() == s.replica
    requires s.InStep() && s.phase.Idle? && s.handled < |s.txs| && Lists(events, NoticeOf(s.txs[s.handled]))
    requires Sees(s, views, ms)
    modifies table.cache`ptr
    ensures table.Valid() && (ok ==> LeadsTo(s, states, steps, table.Contents()))
  {
    hide *;
    SeesAll(s, views, ms);
    ok := table.HandleEvents(events, views, NoticeOf(s.txs[s.handled]));
    states, steps := [s], [];
    if ok { states, steps := HandledSteps(s, views, ms, table.Contents()); }
  }

  lemma SeesAll(s: State, views: seq<DB>, ms: seq<nat>)
    requires Sees(s, views, ms)
    ensures |views| == MAX_TRIES
  {
  }
}

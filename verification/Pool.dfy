/** The LDAP connection pool: workers that turn tokens into connections, and callers that take them. */
module ConnectionPool {

  /** Connections are numbered by the dials that succeed. */
  type Conn = nat

  /** Where a filling worker stands; all but Waiting and Stopped hold a token. */
  datatype Filler = Waiting | Dialing | Retrying | Dialed(conn: Conn) | Stopped

  /**
   * Where a caller stands; one that is Returning has taken a connection and not given its token back. Got and
   * Failed are the two ways the call ends.
   */
  datatype Getter = Asking | Returning(conn: Conn) | Checking(conn: Conn) | Got(conn: Conn) | Failed

  /** `demand` is the number of tokens in the one channel, `source` the other one; both have the capacity `size`. */
  datatype State = State(size: nat, demand: nat, source: seq<Conn>, fillers: seq<Filler>, getters: seq<Getter>,
                         cancelled: bool, made: nat, closed: seq<Conn>)

  datatype Step =
    | Arrive
    | Cancel
    | TakeToken(worker: nat)
    | Stop(worker: nat)
    | DialFails(worker: nat)
    | DialSucceeds(worker: nat)
    | RetryLater(worker: nat)
    | Deliver(worker: nat)
    | Abandon(worker: nat)
    | TakeConnection(caller: nat)
    | GiveTokenBack(caller: nat)
    | Found(caller: nat)
    | FoundDead(caller: nat)
    | CloseFails(caller: nat)
    | GiveUp(caller: nat)

  predicate FillerAt(s: State, i: nat, f: Filler) {
    i < |s.fillers| && s.fillers[i] == f
  }

  predicate GetterAt(s: State, j: nat, g: Getter) {
    j < |s.getters| && s.getters[j] == g
  }

  predicate DialedAt(s: State, i: nat) {
    i < |s.fillers| && s.fillers[i].Dialed?
  }

  predicate ReturningAt(s: State, j: nat) {
    j < |s.getters| && s.getters[j].Returning?
  }

  predicate CheckingAt(s: State, j: nat) {
    j < |s.getters| && s.getters[j].Checking?
  }

  /** A step can be taken: receiving needs something in the channel, sending needs room in it. */
  predicate Enabled(s: State, step: Step) {
    match step
    case Arrive => true
    case Cancel => true
    case TakeToken(i) => FillerAt(s, i, Waiting) && s.demand > 0
    case Stop(i) => FillerAt(s, i, Waiting) && s.cancelled
    case DialFails(i) => FillerAt(s, i, Dialing)
    case DialSucceeds(i) => FillerAt(s, i, Dialing)
    case RetryLater(i) => FillerAt(s, i, Retrying) && s.demand < s.size
    case Deliver(i) => DialedAt(s, i) && |s.source| < s.size
    case Abandon(i) => DialedAt(s, i) && s.cancelled
    case TakeConnection(j) => GetterAt(s, j, Asking) && s.source != []
    case GiveTokenBack(j) => ReturningAt(s, j) && s.demand < s.size
    case Found(j) => CheckingAt(s, j)
    case FoundDead(j) => CheckingAt(s, j)
    case CloseFails(j) => CheckingAt(s, j)
    case GiveUp(j) => GetterAt(s, j, Asking)
  }

  function SetFiller(s: State, i: nat, f: Filler): State
    requires i < |s.fillers|
  {
    s.(fillers := s.fillers[i := f])
  }

  function SetGetter(s: State, j: nat, g: Getter): State
    requires j < |s.getters|
  {
    s.(getters := s.getters[j := g])
  }

  function Close(s: State, c: Conn): State {
    s.(closed := s.closed + [c])
  }

  function Next(s: State, step: Step): State
    requires Enabled(s, step)
  {
    match step
    case Arrive => s.(getters := s.getters + [Asking])
    case Cancel => s.(cancelled := true)
    case TakeToken(i) => SetFiller(s, i, Dialing).(demand := s.demand - 1)
    case Stop(i) => SetFiller(s, i, Stopped)
    case DialFails(i) => SetFiller(s, i, Retrying)
    case DialSucceeds(i) => SetFiller(s, i, Dialed(s.made)).(made := s.made + 1)
    case RetryLater(i) => SetFiller(s, i, Waiting).(demand := s.demand + 1)
    case Deliver(i) => SetFiller(s, i, Waiting).(source := s.source + [s.fillers[i].conn])
    case Abandon(i) => Close(SetFiller(s, i, Stopped), s.fillers[i].conn)
    case TakeConnection(j) => SetGetter(s, j, Returning(s.source[0])).(source := s.source[1..])
    case GiveTokenBack(j) => SetGetter(s, j, Checking(s.getters[j].conn)).(demand := s.demand + 1)
    case Found(j) => SetGetter(s, j, Got(s.getters[j].conn))
    case FoundDead(j) => Close(SetGetter(s, j, Asking), s.getters[j].conn)
    case CloseFails(j) => Close(SetGetter(s, j, Failed), s.getters[j].conn)
    case GiveUp(j) => SetGetter(s, j, Failed)
  }

  /** `newPool` fills the demand channel. */
  function Initial(size: nat, workers: nat): State {
    State(size, size, [], seq(workers, _ => Waiting), [], false, 0, [])
  }

  /** What every state of a run satisfies. */
  ghost predicate Reached(size: nat, workers: nat, steps: seq<Step>, s: State) {
    if steps == [] then s == Initial(size, workers)
    else
      var last := steps[|steps| - 1];
      exists before :: Reached(size, workers, steps[..|steps| - 1], before) && Enabled(before, last) && s == Next(before, last)
  }

  /******* Counting tokens *******/

  predicate Busy(f: Filler) {
    f.Dialing? || f.Retrying? || f.Dialed?
  }

  function Filling(fs: seq<Filler>): nat {
    if fs == [] then 0 else Filling(fs[..|fs| - 1]) + if Busy(fs[|fs| - 1]) then 1 else 0
  }

  function Returned(gs: seq<Getter>): nat {
    if gs == [] then 0 else Returned(gs[..|gs| - 1]) + if gs[|gs| - 1].Returning? then 1 else 0
  }

  function Tokens(s: State): nat {
    s.demand + |s.source| + Filling(s.fillers) + Returned(s.getters)
  }

  lemma {:induction false} FillingUpdate(fs: seq<Filler>, i: nat, f: Filler)
    requires i < |fs|
    ensures Filling(fs[i := f]) == Filling(fs) - (if Busy(fs[i]) then 1 else 0) + (if Busy(f) then 1 else 0)
    ensures Busy(fs[i]) ==> Filling(fs) > 0
  {
    var n := |fs| - 1;
    if i < n {
      assert fs[i := f][..n] == fs[..n][i := f];
      FillingUpdate(fs[..n], i, f);
    } else {
      assert fs[i := f][..n] == fs[..n];
    }
  }

  lemma {:induction false} ReturnedUpdate(gs: seq<Getter>, j: nat, g: Getter)
    requires j < |gs|
    ensures Returned(gs[j := g]) == Returned(gs) - (if gs[j].Returning? then 1 else 0) + (if g.Returning? then 1 else 0)
    ensures gs[j].Returning? ==> Returned(gs) > 0
  {
    var n := |gs| - 1;
    if j < n {
      assert gs[j := g][..n] == gs[..n][j := g];
      ReturnedUpdate(gs[..n], j, g);
    } else {
      assert gs[j := g][..n] == gs[..n];
    }
  }

  lemma {:induction false} NoneFilling(fs: seq<Filler>)
    ensures Filling(fs) == 0 <==> forall i | 0 <= i < |fs| :: !Busy(fs[i])
  {
    if fs != [] {
      NoneFilling(fs[..|fs| - 1]);
    }
  }

  lemma {:induction false} NoneReturned(gs: seq<Getter>)
    ensures Returned(gs) == 0 <==> forall j | 0 <= j < |gs| :: !gs[j].Returning?
  {
    if gs != [] {
      NoneReturned(gs[..|gs| - 1]);
    }
  }

  /******* Conservation *******/

  /** No token is made; none is lost before the cancellation, and no worker stops before it. */
  ghost predicate Inv(s: State) {
    && Tokens(s) <= s.size
    && (!s.cancelled ==> Tokens(s) == s.size && forall i | 0 <= i < |s.fillers| :: s.fillers[i] != Stopped)
  }

  /** Every step keeps the tokens, but for a worker that abandons a connection. */
  lemma StepCounts(s: State, step: Step)
    requires Enabled(s, step)
    ensures Tokens(Next(s, step)) == Tokens(s) - if step.Abandon? then 1 else 0
    ensures Next(s, step).size == s.size
  {
    match step
    case Arrive => assert (s.getters + [Asking])[..|s.getters|] == s.getters;
    case Cancel =>
    case TakeToken(i) => FillingUpdate(s.fillers, i, Dialing);
    case Stop(i) => FillingUpdate(s.fillers, i, Stopped);
    case DialFails(i) => FillingUpdate(s.fillers, i, Retrying);
    case DialSucceeds(i) => FillingUpdate(s.fillers, i, Dialed(s.made));
    case RetryLater(i) => FillingUpdate(s.fillers, i, Waiting);
    case Deliver(i) => FillingUpdate(s.fillers, i, Waiting);
    case Abandon(i) => FillingUpdate(s.fillers, i, Stopped);
    case TakeConnection(j) => ReturnedUpdate(s.getters, j, Returning(s.source[0]));
    case GiveTokenBack(j) => ReturnedUpdate(s.getters, j, Checking(s.getters[j].conn));
    case Found(j) => ReturnedUpdate(s.getters, j, Got(s.getters[j].conn));
    case FoundDead(j) => ReturnedUpdate(s.getters, j, Asking);
    case CloseFails(j) => ReturnedUpdate(s.getters, j, Failed);
    case GiveUp(j) => ReturnedUpdate(s.getters, j, Failed);
  }

  lemma {:induction false} InitialInv(size: nat, workers: nat)
    ensures Inv(Initial(size, workers))
  {
    NoneFilling(Initial(size, workers).fillers);
  }

  lemma StepInv(s: State, step: Step)
    requires Inv(s) && Enabled(s, step)
    ensures Inv(Next(s, step)) && Next(s, step).size == s.size && |Next(s, step).fillers| == |s.fillers|
  {
    StepCounts(s, step);
    hide Filling, Returned, Tokens;
  }

  /** In every interleaving of workers and callers the tokens are conserved. */
  lemma {:induction false} RunsConserve(size: nat, workers: nat, steps: seq<Step>, s: State)
    requires Reached(size, workers, steps, s)
    ensures s.size == size && |s.fillers| == workers && Inv(s)
  {
    hide Inv, Next, Enabled;
    if steps == [] {
      InitialInv(size, workers);
    } else {
      var last := steps[|steps| - 1];
      var before :| Reached(size, workers, steps[..|steps| - 1], before) && Enabled(before, last) && s == Next(before, last);
      RunsConserve(size, workers, steps[..|steps| - 1], before);
      StepInv(before, last);
    }
  }

  /** No send blocks: whoever is about to send finds room in the channel. */
  lemma SendsNeverBlock(size: nat, workers: nat, steps: seq<Step>, s: State, i: nat)
    requires Reached(size, workers, steps, s)
    ensures FillerAt(s, i, Retrying) ==> Enabled(s, RetryLater(i))
    ensures DialedAt(s, i) ==> Enabled(s, Deliver(i))
    ensures ReturningAt(s, i) ==> Enabled(s, GiveTokenBack(i))
  {
    hide Reached;
    RunsConserve(size, workers, steps, s);
    if i < |s.fillers| { FillingUpdate(s.fillers, i, s.fillers[i]); }
    if i < |s.getters| { ReturnedUpdate(s.getters, i, s.getters[i]); }
  }

  /** Before the cancellation a caller that asks is never stuck: a worker or a caller can move towards it. */
  lemma NeverStuck(size: nat, workers: nat, steps: seq<Step>, s: State, j: nat)
    requires Reached(size, workers, steps, s) && size > 0 && workers > 0 && !s.cancelled && GetterAt(s, j, Asking)
    ensures exists step :: Enabled(s, step) && step !in {Arrive, Cancel} && !step.GiveUp?
  {
    RunsConserve(size, workers, steps, s);
    NoneFilling(s.fillers);
    NoneReturned(s.getters);
    if s.source != [] {
      assert Enabled(s, TakeConnection(j));
    } else if i :| 0 <= i < |s.fillers| && Busy(s.fillers[i]) {
      SendsNeverBlock(size, workers, steps, s, i);
      var step := if s.fillers[i].Dialing? then DialFails(i) else if s.fillers[i].Retrying? then RetryLater(i) else Deliver(i);
      assert Enabled(s, step);
    } else if i :| 0 <= i < |s.getters| && s.getters[i].Returning? {
      SendsNeverBlock(size, workers, steps, s, i);
      assert Enabled(s, GiveTokenBack(i));
    } else {
      assert s.fillers[0] == Waiting;
      assert Enabled(s, TakeToken(0));
    }
    hide Reached;
  }

  /******* Where the connections are *******/

  predicate FillerHas(f: Filler, c: Conn) {
    f.Dialed? && f.conn == c
  }

  predicate GetterHas(g: Getter, c: Conn) {
    (g.Returning? || g.Checking? || g.Got?) && g.conn == c
  }

  function One(b: bool): nat {
    if b then 1 else 0
  }

  /** How many workers and callers have the connection. */
  function FillersWith(fs: seq<Filler>, c: Conn): nat {
    if fs == [] then 0 else FillersWith(fs[..|fs| - 1], c) + One(FillerHas(fs[|fs| - 1], c))
  }

  function GettersWith(gs: seq<Getter>, c: Conn): nat {
    if gs == [] then 0 else GettersWith(gs[..|gs| - 1], c) + One(GetterHas(gs[|gs| - 1], c))
  }

  function Occurs(q: seq<Conn>, c: Conn): nat {
    if q == [] then 0 else Occurs(q[1..], c) + One(q[0] == c)
  }

  /** In how many places the connection is: in the pool, with a worker or a caller, closed. */
  function Places(s: State, c: Conn): nat {
    Occurs(s.source, c) + FillersWith(s.fillers, c) + GettersWith(s.getters, c) + Occurs(s.closed, c)
  }

  lemma {:induction false} OccursSnoc(q: seq<Conn>, x: Conn, c: Conn)
    ensures Occurs(q + [x], c) == Occurs(q, c) + One(x == c)
  {
    if q != [] {
      assert (q + [x])[1..] == q[1..] + [x];
      OccursSnoc(q[1..], x, c);
    }
  }

  lemma {:induction false} OccursIn(q: seq<Conn>, c: Conn)
    ensures Occurs(q, c) > 0 <==> c in q
  {
    if q != [] {
      OccursIn(q[1..], c);
      assert q == [q[0]] + q[1..];
    }
  }

  lemma {:induction false} FillersUpdate(fs: seq<Filler>, i: nat, f: Filler, c: Conn)
    requires i < |fs|
    ensures FillersWith(fs[i := f], c) == FillersWith(fs, c) - One(FillerHas(fs[i], c)) + One(FillerHas(f, c))
  {
    hide FillerHas;
    var n := |fs| - 1;
    if i < n {
      assert fs[i := f][..n] == fs[..n][i := f];
      FillersUpdate(fs[..n], i, f, c);
    } else {
      assert fs[i := f][..n] == fs[..n];
    }
  }

  lemma {:induction false} GettersUpdate(gs: seq<Getter>, j: nat, g: Getter, c: Conn)
    requires j < |gs|
    ensures GettersWith(gs[j := g], c) == GettersWith(gs, c) - One(GetterHas(gs[j], c)) + One(GetterHas(g, c))
  {
    hide GetterHas;
    var n := |gs| - 1;
    if j < n {
      assert gs[j := g][..n] == gs[..n][j := g];
      GettersUpdate(gs[..n], j, g, c);
    } else {
      assert gs[j := g][..n] == gs[..n];
    }
  }

  /** A step moves connections and makes none, but for a dial that succeeds. */
  lemma StepPlaces(s: State, step: Step, c: Conn)
    requires Enabled(s, step)
    ensures Places(Next(s, step), c) == Places(s, c) + One(step.DialSucceeds? && c == s.made)
    ensures Next(s, step).made == s.made + One(step.DialSucceeds?)
  {
    hide FillersWith, GettersWith, Occurs;
    match step
    case Arrive => ArrivePlaces(s.getters, c);
    case Cancel =>
    case TakeToken(i) => FillersUpdate(s.fillers, i, Dialing, c);
    case Stop(i) => FillersUpdate(s.fillers, i, Stopped, c);
    case DialFails(i) => FillersUpdate(s.fillers, i, Retrying, c);
    case DialSucceeds(i) => FillersUpdate(s.fillers, i, Dialed(s.made), c);
    case RetryLater(i) => FillersUpdate(s.fillers, i, Waiting, c);
    case Deliver(i) =>
      FillersUpdate(s.fillers, i, Waiting, c);
      OccursSnoc(s.source, s.fillers[i].conn, c);
    case Abandon(i) =>
      FillersUpdate(s.fillers, i, Stopped, c);
      OccursSnoc(s.closed, s.fillers[i].conn, c);
    case TakeConnection(j) =>
      GettersUpdate(s.getters, j, Returning(s.source[0]), c);
      OccursFirst(s.source, c);
    case GiveTokenBack(j) => GettersUpdate(s.getters, j, Checking(s.getters[j].conn), c);
    case Found(j) => GettersUpdate(s.getters, j, Got(s.getters[j].conn), c);
    case FoundDead(j) =>
      GettersUpdate(s.getters, j, Asking, c);
      OccursSnoc(s.closed, s.getters[j].conn, c);
    case CloseFails(j) =>
      GettersUpdate(s.getters, j, Failed, c);
      OccursSnoc(s.closed, s.getters[j].conn, c);
    case GiveUp(j) => GettersUpdate(s.getters, j, Failed, c);
  }

  lemma OccursFirst(q: seq<Conn>, c: Conn)
    requires q != []
    ensures Occurs(q, c) == Occurs(q[1..], c) + One(q[0] == c)
  {
  }

  lemma ArrivePlaces(gs: seq<Getter>, c: Conn)
    ensures GettersWith(gs + [Asking], c) == GettersWith(gs, c)
  {
    assert (gs + [Asking])[..|gs|] == gs;
  }

  lemma {:induction false} NowhereYet(workers: nat, c: Conn)
    ensures FillersWith(seq(workers, _ => Waiting), c) == 0
  {
    if workers > 0 {
      assert seq(workers, _ => Waiting)[..workers - 1] == seq(workers - 1, _ => Waiting);
      NowhereYet(workers - 1, c);
    }
  }

  /** How many dials have succeeded. */
  function Successes(steps: seq<Step>): nat {
    if steps == [] then 0 else Successes(steps[..|steps| - 1]) + One(steps[|steps| - 1].DialSucceeds?)
  }

  /** Every connection that a successful dial has made is in one place, and nothing else is anywhere. */
  lemma {:induction false} EachInOnePlace(size: nat, workers: nat, steps: seq<Step>, s: State, c: Conn)
    requires Reached(size, workers, steps, s)
    ensures s.made == Successes(steps) && Places(s, c) == One(c < Successes(steps))
  {
    hide Next, Enabled;
    if steps == [] {
      NowhereYet(workers, c);
    } else {
      hide Places;
      var last := steps[|steps| - 1];
      var before :| Reached(size, workers, steps[..|steps| - 1], before) && Enabled(before, last) && s == Next(before, last);
      EachInOnePlace(size, workers, steps[..|steps| - 1], before, c);
      StepPlaces(before, last, c);
    }
  }

  lemma {:induction false} GettersHave(gs: seq<Getter>, i: nat, j: nat, c: Conn)
    requires i < |gs| && j < |gs| && GetterHas(gs[j], c)
    ensures GettersWith(gs, c) >= One(i != j && GetterHas(gs[i], c)) + 1
  {
    GettersUpdate(gs, j, Asking, c);
    if i != j { GettersUpdate(gs[j := Asking], i, Asking, c); }
  }

  /**
   * What a caller gets comes from a dial that succeeded, is not closed, is not in the pool any more, and no
   * worker and no other caller has it.
   */
  lemma GotForOneself(size: nat, workers: nat, steps: seq<Step>, s: State, j: nat)
    requires Reached(size, workers, steps, s) && j < |s.getters| && s.getters[j].Got?
    ensures var c := s.getters[j].conn;
            && c < Successes(steps) && c !in s.closed && c !in s.source
            && (forall i | 0 <= i < |s.getters| && i != j :: !GetterHas(s.getters[i], c))
            && (forall i | 0 <= i < |s.fillers| :: !FillerHas(s.fillers[i], c))
  {
    hide Reached, Successes, FillersWith, GettersWith, Occurs;
    var c := s.getters[j].conn;
    EachInOnePlace(size, workers, steps, s, c);
    OccursIn(s.source, c);
    OccursIn(s.closed, c);
    GettersHave(s.getters, j, j, c);
    forall i | 0 <= i < |s.getters| && i != j
      ensures !GetterHas(s.getters[i], c)
    {
      GettersHave(s.getters, i, j, c);
    }
    forall i | 0 <= i < |s.fillers|
      ensures !FillerHas(s.fillers[i], c)
    {
      FillersUpdate(s.fillers, i, Waiting, c);
    }
  }
}

/** The hybrid TLS listener: an accept loop, classification workers, consumers
    and Close, as a step system in which any of them may move next. */
module HybridListener {

  type Conn = nat

  const SLOTS: nat := 64

  datatype Result = Classified(conn: Conn) | Terminal

  /** Where the accept loop is. It holds a slot from Accepting until it hands the
      slot to a worker or gives it back. */
  datatype Loop =
    | Acquiring            // select on closed and the slot pool
    | Accepting            // blocked in the raw Accept
    | Got(conn: Conn)      // accepted, about to look at closed
    | Passed(conn: Conn)   // saw it open, about to start a worker
    | Dropped              // connection closed, slot still held
    | Failed               // accept error, slot still held
    | Reporting            // slot returned, about to offer the terminal error
    | Stopped

  /** How far Close has come. */
  datatype Closer = NotCalled | Signalled | Joining | Draining | Returned

  /** Workers stand in one of five sets, one per phase. */
  datatype State = State(
    loop: Loop,
    started: set<Conn>, classifying: set<Conn>, delivering: set<Conn>,
    releasing: set<Conn>, finishing: set<Conn>,
    slots: int, group: int,
    results: seq<Result>, resultsOpen: bool,
    closer: Closer,
    accepted: set<Conn>, delivered: set<Conn>, shut: set<Conn>)
  {
    predicate Closing() { !closer.NotCalled? }

    predicate RawOpen() { closer.NotCalled? || closer.Signalled? }
  }

  const NEW_LISTENER := State(Acquiring, {}, {}, {}, {}, {}, 0, 1, [], true, NotCalled, {}, {}, {})

  datatype LoopEvent =
    | Acquire | Quit | RawAccept(conn: Conn) | RawFail | Drop | DropRelease | Pass | Spawn
    | FailRelease | Report | ReportSkipped

  datatype WorkerEvent = Classify | QuitEarly | Classification | Deliver | Cancel | Release | Done

  datatype CloseEvent = Signal | CloseRaw | Join | Drain | CloseResults

  datatype Event =
    | ByLoop(step: LoopEvent)
    | ByWorker(conn: Conn, phase: WorkerEvent)
    | ByCloser(stage: CloseEvent)
    | ByConsumer

  /** Which events can happen. A send or receive on a channel waits for room or
      for an element; `default` is taken only when no other case is ready. */
  predicate Enabled(s: State, e: Event) {
    match e
    case ByLoop(l) => LoopCan(s, l)
    case ByWorker(c, w) => WorkerCan(s, c, w)
    case ByCloser(x) => CloserCan(s, x)
    case ByConsumer => s.results != []
  }

  predicate LoopCan(s: State, e: LoopEvent) {
    match e
    case Acquire => s.loop.Acquiring? && s.slots < SLOTS
    case Quit => s.loop.Acquiring? && s.Closing()
    case RawAccept(c) => s.loop.Accepting? && s.RawOpen() && c !in s.accepted
    case RawFail => s.loop.Accepting?
    case Drop => s.loop.Got? && s.Closing()
    case DropRelease => s.loop.Dropped?
    case Pass => s.loop.Got? && !s.Closing()
    case Spawn => s.loop.Passed?
    case FailRelease => s.loop.Failed?
    case Report => s.loop.Reporting? && |s.results| < SLOTS
    case ReportSkipped => s.loop.Reporting? && (s.Closing() || |s.results| >= SLOTS)
  }

  predicate WorkerCan(s: State, c: Conn, e: WorkerEvent) {
    match e
    case Classify => c in s.started && !s.Closing()
    case QuitEarly => c in s.started && s.Closing()
    case Classification => c in s.classifying
    case Deliver => c in s.delivering && |s.results| < SLOTS
    case Cancel => c in s.delivering && s.Closing()
    case Release => c in s.releasing
    case Done => c in s.finishing
  }

  predicate CloserCan(s: State, e: CloseEvent) {
    match e
    case Signal => s.closer.NotCalled?
    case CloseRaw => s.closer.Signalled?
    case Join => s.closer.Joining? && s.group == 0
    case Drain => s.closer.Draining? && s.results != []
    case CloseResults => s.closer.Draining? && s.results == []
  }

  function Next(s: State, e: Event): State
    requires Enabled(s, e)
  {
    match e
    case ByLoop(l) => LoopNext(s, l)
    case ByWorker(c, w) => WorkerNext(s, c, w)
    case ByCloser(x) => CloserNext(s, x)
    case ByConsumer => s.(results := s.results[1..], delivered := s.delivered + ConnsOf(s.results[0]))
  }

  function LoopNext(s: State, e: LoopEvent): State
    requires LoopCan(s, e)
  {
    match e
    case Acquire => s.(loop := Accepting, slots := s.slots + 1)
    case Quit => s.(loop := Stopped, group := s.group - 1)
    case RawAccept(c) => s.(loop := Got(c), accepted := s.accepted + {c})
    case RawFail => s.(loop := Failed)
    case Drop => s.(loop := Dropped, shut := s.shut + {s.loop.conn})
    case DropRelease => s.(loop := Stopped, slots := s.slots - 1, group := s.group - 1)
    case Pass => s.(loop := Passed(s.loop.conn))
    case Spawn => s.(loop := Acquiring, group := s.group + 1, started := s.started + {s.loop.conn})
    case FailRelease => s.(loop := Reporting, slots := s.slots - 1)
    case Report => s.(loop := Stopped, group := s.group - 1, results := s.results + [Terminal])
    case ReportSkipped => s.(loop := Stopped, group := s.group - 1)
  }

  function WorkerNext(s: State, c: Conn, e: WorkerEvent): State
    requires WorkerCan(s, c, e)
  {
    match e
    case Classify => s.(started := s.started - {c}, classifying := s.classifying + {c})
    case QuitEarly => s.(started := s.started - {c}, releasing := s.releasing + {c}, shut := s.shut + {c})
    case Classification => s.(classifying := s.classifying - {c}, delivering := s.delivering + {c})
    case Deliver =>
      s.(delivering := s.delivering - {c}, releasing := s.releasing + {c}, results := s.results + [Classified(c)])
    case Cancel => s.(delivering := s.delivering - {c}, releasing := s.releasing + {c}, shut := s.shut + {c})
    case Release => s.(releasing := s.releasing - {c}, finishing := s.finishing + {c}, slots := s.slots - 1)
    case Done => s.(finishing := s.finishing - {c}, group := s.group - 1)
  }

  function CloserNext(s: State, e: CloseEvent): State
    requires CloserCan(s, e)
  {
    match e
    case Signal => s.(closer := Signalled)
    case CloseRaw => s.(closer := Joining)
    case Join => s.(closer := Draining)
    case Drain => s.(results := s.results[1..], shut := s.shut + ConnsOf(s.results[0]))
    case CloseResults => s.(closer := Returned, resultsOpen := false)
  }

  function ConnsOf(r: Result): set<Conn> { if r.Classified? then {r.conn} else {} }

  /** The connections waiting in the result channel. */
  function Queued(results: seq<Result>): set<Conn> {
    if results == [] then {} else ConnsOf(results[0]) + Queued(results[1..])
  }

  /** No connection waits twice. */
  predicate QueuedOnce(results: seq<Result>) {
    results == [] || (ConnsOf(results[0]) !! Queued(results[1..]) && QueuedOnce(results[1..]))
  }

  lemma {:induction false} QueuedOneMore(results: seq<Result>, r: Result)
    ensures Queued(results + [r]) == Queued(results) + ConnsOf(r)
    ensures QueuedOnce(results) && Queued(results) !! ConnsOf(r) ==> QueuedOnce(results + [r])
    decreases |results|
  {
    if results == [] {
      assert results + [r] == [r] && [r][1..] == [];
    } else {
      QueuedOneMore(results[1..], r);
      assert (results + [r])[1..] == results[1..] + [r];
    }
  }

  // ── what every step keeps ────────────────────────────────────────────────

  function LoopConn(l: Loop): set<Conn> { if l.Got? || l.Passed? then {l.conn} else {} }

  function Size(a: set<Conn>): nat { |a| }

  lemma SizeFollows(a: set<Conn>, c: Conn)
    ensures c in a ==> Size(a - {c}) == Size(a) - 1
    ensures c !in a ==> Size(a + {c}) == Size(a) + 1
    ensures Size(a + {c}) <= Size(a) + 1
  {
    if c in a { assert a + {c} == a; }
  }

  lemma SizesFollow(s: State, c: Conn)
    ensures c in s.started ==> Size(s.started - {c}) == Size(s.started) - 1
    ensures c in s.classifying ==> Size(s.classifying - {c}) == Size(s.classifying) - 1
    ensures c !in s.classifying ==> Size(s.classifying + {c}) == Size(s.classifying) + 1
    ensures c in s.delivering ==> Size(s.delivering - {c}) == Size(s.delivering) - 1
    ensures c !in s.delivering ==> Size(s.delivering + {c}) == Size(s.delivering) + 1
    ensures c in s.releasing ==> Size(s.releasing - {c}) == Size(s.releasing) - 1
    ensures c !in s.releasing ==> Size(s.releasing + {c}) == Size(s.releasing) + 1
    ensures c in s.finishing ==> Size(s.finishing - {c}) == Size(s.finishing) - 1
    ensures c !in s.finishing ==> Size(s.finishing + {c}) == Size(s.finishing) + 1
  {
    hide Size;
    SizeFollows(s.started, c);
    SizeFollows(s.classifying, c);
    SizeFollows(s.delivering, c);
    SizeFollows(s.releasing, c);
    SizeFollows(s.finishing, c);
  }

  predicate LoopHoldsSlot(l: Loop) { l.Accepting? || l.Got? || l.Passed? || l.Dropped? || l.Failed? }

  /** Connections someone is still working on. */
  function Undecided(s: State): set<Conn> {
    LoopConn(s.loop) + s.started + s.classifying + s.delivering
  }

  /** The phases of a connection's worker do not overlap. */
  predicate PhasesApart(s: State) {
    && LoopConn(s.loop) !! s.started !! s.classifying !! s.delivering
    && s.releasing !! s.finishing
    && s.releasing + s.finishing <= Queued(s.results) + s.delivered + s.shut
  }

  /** Every accepted connection is in exactly one place: being worked on, waiting
      in the channel, handed to a consumer, or closed. */
  predicate EachInOnePlace(s: State) {
    && s.accepted == Undecided(s) + Queued(s.results) + s.delivered + s.shut
    && Undecided(s) !! Queued(s.results) !! s.delivered !! s.shut
    && QueuedOnce(s.results)
  }

  function SlotHolders(s: State): nat {
    (if LoopHoldsSlot(s.loop) then 1 else 0)
    + Size(s.started) + Size(s.classifying) + Size(s.delivering) + Size(s.releasing)
  }

  function GroupMembers(s: State): nat {
    (if s.loop.Stopped? then 0 else 1)
    + Size(s.started) + Size(s.classifying) + Size(s.delivering) + Size(s.releasing) + Size(s.finishing)
  }

  predicate Counted(s: State) {
    s.slots == SlotHolders(s) <= SLOTS && s.group == GroupMembers(s) && |s.results| <= SLOTS
  }

  /** Once the join is over nobody is left to send; and before Close is called no
      connection is closed. */
  predicate Sealed(s: State) {
    && (s.closer.NotCalled? ==> s.shut == {})
    && (s.closer.Draining? || s.closer.Returned? ==> s.group == 0)
    && (s.resultsOpen <==> !s.closer.Returned?)
    && (s.closer.Returned? ==> s.results == [])
  }

  predicate Inv(s: State) { PhasesApart(s) && EachInOnePlace(s) && Counted(s) && Sealed(s) }

  lemma NewListenerIsFine()
    ensures Inv(NEW_LISTENER)
  {
  }

  lemma LoopKeepsPlaces(s: State, e: LoopEvent)
    requires PhasesApart(s) && EachInOnePlace(s) && LoopCan(s, e)
    ensures PhasesApart(LoopNext(s, e)) && EachInOnePlace(LoopNext(s, e))
  {
    if e.Report? { QueuedOneMore(s.results, Terminal); }
    hide Queued, QueuedOnce;
  }

  lemma WorkerKeepsPlaces(s: State, c: Conn, e: WorkerEvent)
    requires PhasesApart(s) && EachInOnePlace(s) && WorkerCan(s, c, e)
    ensures PhasesApart(WorkerNext(s, c, e)) && EachInOnePlace(WorkerNext(s, c, e))
  {
    if e.Deliver? { QueuedOneMore(s.results, Classified(c)); }
    hide Queued, QueuedOnce;
  }

  lemma DequeueKeepsPlaces(s: State, t: State)
    requires PhasesApart(s) && EachInOnePlace(s) && s.results != []
    requires var gone := ConnsOf(s.results[0]);
      || t == s.(results := s.results[1..], delivered := s.delivered + gone)
      || t == s.(results := s.results[1..], shut := s.shut + gone)
    ensures PhasesApart(t) && EachInOnePlace(t)
  {
    assert Queued(s.results) == ConnsOf(s.results[0]) + Queued(s.results[1..]);
    assert ConnsOf(s.results[0]) !! Queued(s.results[1..]) && QueuedOnce(s.results[1..]);
    hide Queued, QueuedOnce, ConnsOf;
  }

  /** After the join the group is empty, so neither loop nor worker exists. */
  lemma NobodyIsLeftBehind(s: State)
    requires Counted(s) && s.group == 0
    ensures s.loop.Stopped?
    ensures s.started == s.classifying == s.delivering == s.releasing == s.finishing == {}
  {
  }

  lemma LoopKeepsCounts(s: State, e: LoopEvent)
    requires Counted(s) && Sealed(s) && LoopCan(s, e)
    requires e.Spawn? ==> s.loop.conn !in s.started
    ensures Counted(LoopNext(s, e)) && Sealed(LoopNext(s, e))
  {
    if s.group == 0 { NobodyIsLeftBehind(s); }
    hide Size;
    if e.Spawn? { SizeFollows(s.started, s.loop.conn); }
  }

  lemma WorkerIsInTheGroup(s: State, c: Conn, e: WorkerEvent)
    requires Counted(s) && WorkerCan(s, c, e)
    ensures s.group > 0
  {
    hide Size;
    SizesFollow(s, c);
    SizeFollows(s.started, c);
  }

  lemma WorkerKeepsCounts(s: State, c: Conn, e: WorkerEvent)
    requires Counted(s) && Sealed(s) && WorkerCan(s, c, e) && TargetIsNew(s, c, e)
    ensures Counted(WorkerNext(s, c, e)) && Sealed(WorkerNext(s, c, e))
  {
    hide Size;
    SizesFollow(s, c);
    WorkerIsInTheGroup(s, c, e);
  }

  /** A worker enters a phase it is not already in. */
  predicate TargetIsNew(s: State, c: Conn, e: WorkerEvent) {
    match e
    case Classify => c !in s.classifying
    case Classification => c !in s.delivering
    case QuitEarly => c !in s.releasing
    case Deliver => c !in s.releasing
    case Cancel => c !in s.releasing
    case Release => c !in s.finishing
    case Done => true
  }

  lemma TargetsAreNew(s: State, c: Conn, e: WorkerEvent)
    requires PhasesApart(s) && EachInOnePlace(s) && WorkerCan(s, c, e)
    ensures TargetIsNew(s, c, e)
  {
    hide Queued, QueuedOnce;
  }

  lemma CloserKeepsCounts(s: State, e: CloseEvent)
    requires Counted(s) && Sealed(s) && CloserCan(s, e)
    ensures Counted(CloserNext(s, e)) && Sealed(CloserNext(s, e))
  {
    hide Size, ConnsOf;
  }

  lemma ConsumerKeepsCounts(s: State)
    requires Counted(s) && Sealed(s) && s.results != []
    ensures Counted(Next(s, ByConsumer)) && Sealed(Next(s, ByConsumer))
  {
    hide Size, ConnsOf;
  }

  lemma CloserKeepsPlaces(s: State, e: CloseEvent)
    requires PhasesApart(s) && EachInOnePlace(s) && CloserCan(s, e)
    ensures PhasesApart(CloserNext(s, e)) && EachInOnePlace(CloserNext(s, e))
  {
    if e.Drain? { DequeueKeepsPlaces(s, CloserNext(s, e)); }
    hide Queued, QueuedOnce, ConnsOf;
  }

  lemma SpawnedIsNew(s: State)
    requires PhasesApart(s) && s.loop.Passed?
    ensures s.loop.conn !in s.started
  {
  }

  lemma StepKeepsTheInvariant(s: State, e: Event)
    requires Inv(s) && Enabled(s, e)
    ensures Inv(Next(s, e))
  {
    hide PhasesApart, EachInOnePlace, LoopNext, WorkerNext, CloserNext, Counted, Sealed;
    match e {
      case ByLoop(l) =>
        LoopKeepsPlaces(s, l);
        if l.Spawn? { SpawnedIsNew(s); }
        LoopKeepsCounts(s, l);
      case ByWorker(c, w) =>
        WorkerKeepsPlaces(s, c, w);
        TargetsAreNew(s, c, w);
        WorkerKeepsCounts(s, c, w);
      case ByCloser(x) =>
        CloserKeepsPlaces(s, x);
        CloserKeepsCounts(s, x);
      case ByConsumer =>
        DequeueKeepsPlaces(s, Next(s, e));
        ConsumerKeepsCounts(s);
    }
  }

  // ── runs ─────────────────────────────────────────────────────────────────

  predicate Possible(s: State, run: seq<Event>)
    decreases |run|
  {
    run == [] || (Enabled(s, run[0]) && Possible(Next(s, run[0]), run[1..]))
  }

  function After(s: State, run: seq<Event>): State
    requires Possible(s, run)
    decreases |run|
  {
    if run == [] then s else After(Next(s, run[0]), run[1..])
  }

  lemma {:induction false} RunKeepsTheInvariant(s: State, run: seq<Event>)
    requires Inv(s) && Possible(s, run)
    ensures Inv(After(s, run))
    decreases |run|
  {
    hide Inv, Enabled, Next;
    if run == [] {
    } else {
      StepKeepsTheInvariant(s, run[0]);
      RunKeepsTheInvariant(Next(s, run[0]), run[1..]);
    }
  }

  /** Safety of every interleaving from the start: at most 64 slots and 64
      results; whoever stands at a send finds the channel open; until Close is called
      every accepted connection is worked on, queued or handed over, and none is
      closed; and once Close has returned each was handed over or closed, not both. */
  lemma EveryRunIsSafe(run: seq<Event>)
    requires Possible(NEW_LISTENER, run)
    ensures var s := After(NEW_LISTENER, run);
      && 0 <= s.slots <= 64 && |s.results| <= 64
      && (s.delivering != {} || s.loop.Reporting? ==> s.resultsOpen)
      && s.delivered !! s.shut
      && (s.closer.NotCalled? ==> s.shut == {} && s.accepted == Undecided(s) + Queued(s.results) + s.delivered)
      && (s.closer.Returned? ==> s.accepted == s.delivered + s.shut)
  {
    NewListenerIsFine();
    RunKeepsTheInvariant(NEW_LISTENER, run);
    AfterTheJoinNobodyWorks(After(NEW_LISTENER, run));
  }

  lemma AfterTheJoinNobodyWorks(s: State)
    requires Inv(s)
    ensures s.group == 0 ==> s.loop.Stopped? && Undecided(s) == {} && s.releasing == {} && s.finishing == {}
  {
  }

  // ── clients are served, in order ─────────────────────────────────────────

  /** A run that is given state by state. */
  lemma {:induction false} Path(run: seq<Event>, states: seq<State>)
    requires |states| == |run| + 1
    requires forall i | 0 <= i < |run| :: Enabled(states[i], run[i]) && Next(states[i], run[i]) == states[i + 1]
    ensures Possible(states[0], run) && After(states[0], run) == states[|run|]
    decreases |run|
  {
    hide Enabled, Next;
    if run == [] {
    } else {
      assert Enabled(states[0], run[0]);
      Path(run[1..], states[1..]);
    }
  }

  function ServingRun(c: Conn): (run: seq<Event>)
    ensures |run| == 5
  {
    [ByWorker(c, Classify), ByWorker(c, Classification), ByWorker(c, Deliver), ByWorker(c, Release), ByWorker(c, Done)]
  }

  /** Where the i-th step of its worker leaves a connection. */
  function WorkerAt(s: State, c: Conn, i: nat): State {
    if i == 0 then s
    else if i == 1 then s.(started := s.started - {c}, classifying := s.classifying + {c})
    else if i == 2 then s.(started := s.started - {c}, delivering := s.delivering + {c})
    else
      var sent := s.(started := s.started - {c}, results := s.results + [Classified(c)]);
      if i == 3 then sent.(releasing := s.releasing + {c})
      else if i == 4 then sent.(finishing := s.finishing + {c}, slots := s.slots - 1)
      else sent.(slots := s.slots - 1, group := s.group - 1)
  }

  lemma PhasesInTurn(s: State, c: Conn, i: nat)
    requires !s.Closing() && c in s.started && |s.results| < SLOTS && i < 5
    requires c !in s.classifying && c !in s.delivering && c !in s.releasing && c !in s.finishing
    ensures Enabled(WorkerAt(s, c, i), ServingRun(c)[i])
    ensures Next(WorkerAt(s, c, i), ServingRun(c)[i]) == WorkerAt(s, c, i + 1)
  {
    assert s.classifying + {c} - {c} == s.classifying && s.delivering + {c} - {c} == s.delivering;
    assert s.releasing + {c} - {c} == s.releasing && s.finishing + {c} - {c} == s.finishing;
  }

  lemma WorkerGoesThrough(s: State, c: Conn)
    requires !s.Closing() && c in s.started && |s.results| < SLOTS
    requires c !in s.classifying && c !in s.delivering && c !in s.releasing && c !in s.finishing
    ensures Possible(s, ServingRun(c)) && After(s, ServingRun(c)) == WorkerAt(s, c, 5)
  {
    var states := seq(6, i requires 0 <= i < 6 => WorkerAt(s, c, i));
    assert WorkerAt(s, c, 0) == s;
    var run := ServingRun(c);
    hide Enabled, Next, Possible, After, WorkerAt, ServingRun;
    forall i | 0 <= i < 5
      ensures Enabled(states[i], run[i]) && Next(states[i], run[i]) == states[i + 1]
    {
      PhasesInTurn(s, c, i);
    }
    Path(run, states);
  }

  /** While the listener is open, a connection handed to a worker can always reach the
      result channel if that has room, and the worker then gives its slot back. */
  lemma WorkerServes(s: State, c: Conn)
    requires Inv(s) && !s.Closing() && c in s.started && |s.results| < SLOTS
    ensures Possible(s, ServingRun(c))
    ensures After(s, ServingRun(c))
         == s.(started := s.started - {c}, slots := s.slots - 1, group := s.group - 1, results := s.results + [Classified(c)])
  {
    PhasesOfAStartedOne(s, c);
    hide Inv, Possible, After, WorkerAt, ServingRun;
    WorkerGoesThrough(s, c);
    LastPhase(s, c);
  }

  lemma LastPhase(s: State, c: Conn)
    ensures WorkerAt(s, c, 5)
         == s.(started := s.started - {c}, slots := s.slots - 1, group := s.group - 1, results := s.results + [Classified(c)])
  {
  }

  lemma PhasesOfAStartedOne(s: State, c: Conn)
    requires Inv(s) && !s.Closing() && c in s.started
    ensures c !in s.classifying && c !in s.delivering && c !in s.releasing && c !in s.finishing
  {
    hide Queued, QueuedOnce;
  }

  function AcceptingRun(c: Conn): seq<Event> { [ByLoop(Acquire), ByLoop(RawAccept(c)), ByLoop(Pass), ByLoop(Spawn)] }

  lemma LoopTakes(s: State, c: Conn)
    requires !s.Closing() && s.loop.Acquiring? && s.slots < SLOTS && c !in s.accepted
    ensures Possible(s, AcceptingRun(c))
    ensures After(s, AcceptingRun(c))
         == s.(slots := s.slots + 1, group := s.group + 1, accepted := s.accepted + {c}, started := s.started + {c})
  {
    var t1 := s.(loop := Accepting, slots := s.slots + 1);
    var t2 := t1.(loop := Got(c), accepted := s.accepted + {c});
    var t3 := t2.(loop := Passed(c));
    var t4 := t3.(loop := Acquiring, group := s.group + 1, started := s.started + {c});
    assert Enabled(s, ByLoop(Acquire)) && Next(s, ByLoop(Acquire)) == t1;
    assert Enabled(t1, ByLoop(RawAccept(c))) && Next(t1, ByLoop(RawAccept(c))) == t2;
    assert Enabled(t2, ByLoop(Pass)) && Next(t2, ByLoop(Pass)) == t3;
    assert Enabled(t3, ByLoop(Spawn)) && Next(t3, ByLoop(Spawn)) == t4;
    hide Enabled, Next, Possible, After;
    Path(AcceptingRun(c), [s, t1, t2, t3, t4]);
  }

  lemma {:induction false} RunInTwoParts(s: State, a: seq<Event>, b: seq<Event>)
    requires Possible(s, a) && Possible(After(s, a), b)
    ensures Possible(s, a + b) && After(s, a + b) == After(After(s, a), b)
    decreases |a|
  {
    if a == [] {
      assert a + b == b;
    } else {
      assert (a + b)[0] == a[0] && (a + b)[1..] == a[1..] + b;
      hide Enabled, Next;
      RunInTwoParts(Next(s, a[0]), a[1..], b);
    }
  }

  /** So an open listener with a free slot and room in the channel can serve any new
      client and be ready for the next. */
  lemma NewClientIsServed(s: State, c: Conn)
    requires Inv(s) && !s.Closing() && s.loop.Acquiring? && s.slots < 64 && |s.results| < 64 && c !in s.accepted
    ensures Possible(s, AcceptingRun(c) + ServingRun(c))
    ensures After(s, AcceptingRun(c) + ServingRun(c))
         == s.(accepted := s.accepted + {c}, results := s.results + [Classified(c)])
  {
    LoopTakes(s, c);
    RunKeepsTheInvariant(s, AcceptingRun(c));
    var t := After(s, AcceptingRun(c));
    assert c !in s.started by { hide Queued, QueuedOnce; }
    WorkerServes(t, c);
    RunInTwoParts(s, AcceptingRun(c), ServingRun(c));
    assert s.started + {c} - {c} == s.started;
    hide Inv, Possible, After;
  }

  /** The connections the workers sent, in order. */
  function Sends(run: seq<Event>): seq<Conn> {
    if run == [] then []
    else (if run[0].ByWorker? && run[0].phase.Deliver? then [run[0].conn] else []) + Sends(run[1..])
  }

  function OneConn(r: Result): seq<Conn> { if r.Classified? then [r.conn] else [] }

  /** The connections in the channel, in order. */
  function Waiting(results: seq<Result>): seq<Conn> {
    if results == [] then [] else OneConn(results[0]) + Waiting(results[1..])
  }

  /** What a consumer got, in order. */
  function Received(s: State, run: seq<Event>): seq<Conn>
    requires Possible(s, run)
    decreases |run|
  {
    if run == [] then []
    else (if run[0].ByConsumer? then OneConn(s.results[0]) else []) + Received(Next(s, run[0]), run[1..])
  }

  lemma {:induction false} WaitingOneMore(results: seq<Result>, r: Result)
    ensures Waiting(results + [r]) == Waiting(results) + OneConn(r)
  {
    if results == [] {
      assert results + [r] == [r] && [r][1..] == [];
    } else {
      WaitingOneMore(results[1..], r);
      assert (results + [r])[1..] == results[1..] + [r];
    }
  }

  predicate BeforeTheDrain(s: State) { !s.closer.Draining? && !s.closer.Returned? }

  /** What one step does to the channel before Close drains it. */
  lemma ChannelStep(s: State, e: Event)
    requires Enabled(s, e) && BeforeTheDrain(Next(s, e))
    ensures e.ByConsumer? ==> s.results != [] && Next(s, e).results == s.results[1..]
    ensures e.ByWorker? && e.phase.Deliver? ==> Next(s, e).results == s.results + [Classified(e.conn)]
    ensures e.ByLoop? && e.step.Report? ==> Next(s, e).results == s.results + [Terminal]
    ensures !e.ByConsumer? && !(e.ByWorker? && e.phase.Deliver?) && !(e.ByLoop? && e.step.Report?) ==>
      Next(s, e).results == s.results
  {
  }

  lemma QueueStep(s: State, e: Event)
    requires Enabled(s, e) && BeforeTheDrain(Next(s, e))
    ensures Waiting(s.results) + Sends([e]) == (if e.ByConsumer? then OneConn(s.results[0]) else []) + Waiting(Next(s, e).results)
  {
    ChannelStep(s, e);
    hide Enabled, Next, BeforeTheDrain;
    assert Sends([e]) == (if e.ByWorker? && e.phase.Deliver? then [e.conn] else []) + [];
    if e.ByConsumer? {
      assert Waiting(s.results) == OneConn(s.results[0]) + Waiting(s.results[1..]);
    } else if e.ByWorker? && e.phase.Deliver? {
      WaitingOneMore(s.results, Classified(e.conn));
    } else if e.ByLoop? && e.step.Report? {
      WaitingOneMore(s.results, Terminal);
    }
    hide Sends, Waiting;
  }

  lemma DrainIsLast(s: State, e: Event)
    requires Enabled(s, e) && BeforeTheDrain(Next(s, e))
    ensures BeforeTheDrain(s)
  {
  }

  lemma {:induction false} DrainComesLast(s: State, run: seq<Event>)
    requires Possible(s, run) && BeforeTheDrain(After(s, run))
    ensures BeforeTheDrain(s)
    decreases |run|
  {
    if run == [] {
    } else {
      hide Enabled, Next, BeforeTheDrain;
      DrainComesLast(Next(s, run[0]), run[1..]);
      DrainIsLast(s, run[0]);
    }
  }

  /** Until Close drains the channel, in every interleaving, what the consumers have got
      and what still waits are together exactly what the workers sent, in that order. */
  lemma {:induction false} ServedInOrder(s: State, run: seq<Event>)
    requires Possible(s, run) && BeforeTheDrain(After(s, run))
    ensures Waiting(s.results) + Sends(run) == Received(s, run) + Waiting(After(s, run).results)
    decreases |run|
  {
    if run == [] {
    } else {
      var t := Next(s, run[0]);
      var got := if run[0].ByConsumer? then OneConn(s.results[0]) else [];
      assert Sends(run) == Sends([run[0]]) + Sends(run[1..]) by { assert Sends([]) == []; }
      assert Received(s, run) == got + Received(t, run[1..]) && After(s, run) == After(t, run[1..]);
      hide Enabled, Next, BeforeTheDrain, Waiting, OneConn, Sends, Received, Possible, After;
      DrainComesLast(t, run[1..]);
      QueueStep(s, run[0]);
      ServedInOrder(t, run[1..]);
      Chained(Waiting(s.results), Sends([run[0]]), got, Waiting(t.results),
              Sends(run[1..]), Received(t, run[1..]), Waiting(After(s, run).results));
    }
  }

  lemma Chained(a: seq<Conn>, x: seq<Conn>, g: seq<Conn>, b: seq<Conn>, y: seq<Conn>, r: seq<Conn>, w: seq<Conn>)
    requires a + x == g + b && b + y == r + w
    ensures a + (x + y) == (g + r) + w
  {
    assert a + (x + y) == (a + x) + y;
    assert (g + b) + y == g + (b + y);
    assert g + (r + w) == (g + r) + w;
  }

  /** From the start: first in, first out. */
  lemma ConsumersGetWhatWasSent(run: seq<Event>)
    requires Possible(NEW_LISTENER, run) && BeforeTheDrain(After(NEW_LISTENER, run))
    ensures Received(NEW_LISTENER, run) <= Sends(run)
    ensures |Sends(run)| <= |Received(NEW_LISTENER, run)| + 64
  {
    NewListenerIsFine();
    RunKeepsTheInvariant(NEW_LISTENER, run);
    RoomBounds(After(NEW_LISTENER, run));
    hide Inv, Possible, After, Sends, Received, Waiting, BeforeTheDrain;
    FromAnEmptyChannel(NEW_LISTENER, run);
  }

  lemma RoomBounds(s: State)
    requires Inv(s)
    ensures |s.results| <= 64
  {
  }

  lemma FromAnEmptyChannel(s: State, run: seq<Event>)
    requires Possible(s, run) && BeforeTheDrain(After(s, run)) && s.results == []
    ensures Received(s, run) <= Sends(run)
    ensures |Sends(run)| <= |Received(s, run)| + |After(s, run).results|
  {
    assert Waiting(s.results) == [] && [] + Sends(run) == Sends(run);
    hide Possible, After, Sends, Received, Waiting, BeforeTheDrain;
    ServedInOrder(s, run);
    FewerThanResults(After(s, run).results);
  }

  lemma {:induction false} FewerThanResults(results: seq<Result>)
    ensures |Waiting(results)| <= |results|
  {
    if results == [] {
    } else {
      FewerThanResults(results[1..]);
    }
  }

  /** A loop that has an error to report can do so while there is room, and a consumer
      can take whatever waits. */
  lemma ChannelsAreUsable(s: State)
    ensures s.loop.Reporting? && |s.results| < 64 ==> Enabled(s, ByLoop(Report))
    ensures s.results != [] ==> Enabled(s, ByConsumer) && Next(s, ByConsumer).results == s.results[1..]
  {
  }

  /** An accept error is reported as long as there is room and Close was not called. */
  lemma NoErrorIsSwallowed(s: State, e: Event)
    requires Enabled(s, e) && s.loop.Reporting? && !Next(s, e).loop.Reporting? && !s.Closing() && |s.results| < 64
    ensures Next(s, e).results == s.results + [Terminal]
  {
  }

  /** Once Close was called no connection enters classification, none passes the loop's
      check, and from the closing of the raw listener on none is accepted. */
  lemma NothingNewAfterTheSignal(s: State, e: Event)
    requires Enabled(s, e) && s.Closing()
    ensures Next(s, e).classifying <= s.classifying
    ensures Next(s, e).started <= s.started + LoopConn(s.loop) && (Next(s, e).loop.Passed? ==> s.loop.Passed?)
    ensures !s.closer.Signalled? ==> Next(s, e).accepted == s.accepted
  {
  }

  const STAGES: seq<Closer> := [NotCalled, Signalled, Joining, Draining, Returned]

  /** Close goes through its stages one by one, and nobody else moves it. */
  lemma CloseGoesStepByStep(s: State, e: Event) returns (i: nat)
    requires Enabled(s, e)
    ensures i < 5 && s.closer == STAGES[i]
    ensures i < 4 && e.ByCloser? && !e.stage.Drain? ==> Next(s, e).closer == STAGES[i + 1]
    ensures !e.ByCloser? || e.stage.Drain? ==> Next(s, e).closer == s.closer
  {
    i := 4 - CloserRank(s.closer);
  }

  // ── shutdown ends ────────────────────────────────────────────────────────

  function LoopRank(l: Loop): nat {
    match l
    case Acquiring => 6
    case Accepting => 5
    case Passed(_) => 13
    case Got(_) => 4
    case Failed => 4
    case Reporting => 3
    case Dropped => 2
    case Stopped => 0
  }

  function CloserRank(c: Closer): nat {
    match c
    case NotCalled => 4
    case Signalled => 3
    case Joining => 2
    case Draining => 1
    case Returned => 0
  }

  /** What is left to do. */
  function Remaining(s: State): nat {
    LoopRank(s.loop) + CloserRank(s.closer) + |s.results|
    + 6 * Size(s.started) + 5 * Size(s.classifying) + 4 * Size(s.delivering) + 2 * Size(s.releasing) + Size(s.finishing)
  }

  lemma LoopMovesForward(s: State, e: LoopEvent)
    requires s.Closing() && LoopCan(s, e)
    ensures LoopNext(s, e).Closing() && Remaining(LoopNext(s, e)) < Remaining(s)
  {
    if e.Spawn? { SizeFollows(s.started, s.loop.conn); }
    hide Size;
  }

  lemma WorkerMovesForward(s: State, c: Conn, e: WorkerEvent)
    requires s.Closing() && WorkerCan(s, c, e) && TargetIsNew(s, c, e)
    ensures WorkerNext(s, c, e).Closing() && Remaining(WorkerNext(s, c, e)) < Remaining(s)
  {
    hide Size;
    SizesFollow(s, c);
  }

  /** Once shutdown has begun every step, whoever takes it, gets closer to the end. */
  lemma ShutdownOnlyMovesForward(s: State, e: Event)
    requires Inv(s) && s.Closing() && Enabled(s, e)
    ensures Next(s, e).Closing() && Remaining(Next(s, e)) < Remaining(s)
  {
    hide PhasesApart, EachInOnePlace, Counted, Sealed, Size, LoopNext, WorkerNext, ConnsOf;
    match e {
      case ByLoop(l) => LoopMovesForward(s, l);
      case ByWorker(c, w) =>
        TargetsAreNew(s, c, w);
        WorkerMovesForward(s, c, w);
      case _ =>
    }
  }

  /** A step that needs neither a consumer nor a client. */
  predicate Internal(e: Event) { !e.ByConsumer? && !(e.ByLoop? && e.step.RawAccept?) }

  lemma NobodyElseIsNeeded(e: Event, c: Conn)
    requires Internal(e)
    ensures e != ByConsumer && e != ByLoop(RawAccept(c))
  {
  }

  ghost predicate CanMove(s: State) { exists e :: Internal(e) && Enabled(s, e) }

  lemma LoopCanMove(s: State)
    requires s.Closing() && !s.loop.Stopped?
    ensures CanMove(s)
  {
    var e := match s.loop
      case Acquiring => Quit
      case Accepting => RawFail
      case Got(_) => Drop
      case Passed(_) => Spawn
      case Dropped => DropRelease
      case Failed => FailRelease
      case Reporting => ReportSkipped
      case Stopped => Quit;
    assert Enabled(s, ByLoop(e));
  }

  lemma WorkersCanMove(s: State)
    requires s.Closing()
    requires s.started + s.classifying + s.delivering + s.releasing + s.finishing != {}
    ensures CanMove(s)
  {
    var c :| c in s.started + s.classifying + s.delivering + s.releasing + s.finishing;
    var e :=
      if c in s.started then QuitEarly
      else if c in s.classifying then Classification
      else if c in s.delivering then Cancel
      else if c in s.releasing then Release
      else Done;
    assert Enabled(s, ByWorker(c, e));
  }

  lemma CloserCanMove(s: State)
    requires s.Closing() && !s.closer.Returned? && (s.closer.Joining? ==> s.group == 0)
    ensures CanMove(s)
  {
    var e := match s.closer
      case Signalled => CloseRaw
      case Joining => Join
      case _ => if s.results != [] then Drain else CloseResults;
    assert Enabled(s, ByCloser(e));
  }

  /** Until Close has returned something can always move without any help from a
      consumer or a client. */
  lemma ShutdownIsNeverStuck(s: State)
    requires Inv(s) && s.Closing() && !s.closer.Returned?
    ensures CanMove(s)
  {
    hide CanMove, PhasesApart, EachInOnePlace;
    if !s.loop.Stopped? {
      LoopCanMove(s);
    } else if s.started + s.classifying + s.delivering + s.releasing + s.finishing != {} {
      WorkersCanMove(s);
    } else {
      assert s.started == s.classifying == s.delivering == s.releasing == s.finishing == {};
      CloserCanMove(s);
    }
  }

  /** The join cannot hang: from any moment of the shutdown on, only so many
      steps are left in any interleaving, and one that can no longer move by
      itself has returned from Close. */
  lemma {:induction false} ShutdownCompletes(s: State, run: seq<Event>)
    requires Inv(s) && s.Closing() && Possible(s, run)
    ensures |run| + Remaining(After(s, run)) <= Remaining(s)
    ensures !CanMove(After(s, run)) ==> After(s, run).closer.Returned?
    decreases |run|
  {
    hide Inv, Enabled, Next, Remaining, CanMove;
    if run == [] {
      if !s.closer.Returned? { ShutdownIsNeverStuck(s); }
    } else {
      StepKeepsTheInvariant(s, run[0]);
      ShutdownOnlyMovesForward(s, run[0]);
      ShutdownCompletes(Next(s, run[0]), run[1..]);
    }
  }
}

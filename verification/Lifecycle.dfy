/**
 The discovery worker and its controllers as interleaved atomic steps.

 Any number of controllers call Start/Pause/Resume/Stop through the monitor's mutex
 (libs/service/threadmonitor.cpp:85-132); one worker runs RunBegin, the tick loop and RunEnd without
 taking the mutex (libs/protocol/discovery.cpp:139-161). Every read or write of `m_state`, `m_thread`
 and `m_mc` is one step (libs/base/thread.cpp:66-127).
 */
module Lifecycle {
  import opened Options
  import opened Ticks

  /** The values of `m_state` that occur while the thread object is alive (libs/base/thread.h:26-38). */
  datatype Phase = Created | Initialized | Running | Paused | Stopping | Stopped

  /** What `m_mc` points to. */
  datatype Channel = Null | Open | Dangling

  /** The next step inside ProcessSecondTick. */
  datatype TickPc =
    | TenSecond       // m_secondCounter % 10, then usable list
    | PrepareHeartbeat
    | Send            // m_mc->Send
    | Minute          // m_secondCounter % 60, then usable list
    | PrepareRemote
    | Count           // ++m_secondCounter

  /** The next step of the worker. */
  datatype WorkerPc =
    | NotSpawned
    | RunBegin        // m_state = Running
    | ChannelCheck    // if (m_mc == nullptr), for the log only
    | LoopHead        // while (m_state != Stopping)
    | ElapsedCheck    // slept; one second passed?
    | Tick(pc: TickPc)
    | Leave           // log after the loop
    | RunEnd          // m_state = Stopped
    | Ended

  datatype Op = StartOp | PauseOp | ResumeOp | StopOp

  /** The next step of a controller. */
  datatype ControlPc =
    | Idle
    | Waiting(op: Op) // blocked on the monitor's mutex
    | Spawn           // new std::thread
    | AssignThread    // m_thread = ...
    | Detach
    | WritePaused
    | WriteRunning
    | TestStopped     // m_state != Stopped
    | TestStopping    // && m_state != Stopping
    | WriteStopping
    | TestThread      // if (m_thread)
    | TestJoinable
    | Join
    | Spin            // while (m_state != Stopped)
    | WriteStopped
    | DeleteChannel   // delete m_mc
    | NullChannel     // m_mc = nullptr
    | Unlock

  /**
   What only the worker touches: its two counters, and as history the number of whole ticks, the sequence
   numbers of all packets prepared, and those of the packets sent.
   */
  datatype Beat = Beat(counter: u32, sequence: u16, ticks: nat, drawn: seq<u16>, sent: seq<u16>)

  /** The memory that controllers and the worker share, and the worker's own program counter. */
  datatype Shared = Shared(
    phase: Phase, thread: bool, detached: bool, startTaken: bool,
    channel: Channel, usable: bool,
    worker: WorkerPc, beat: Beat,
    fault: bool)  // history: a send or a delete hit a channel that is gone

  /** The whole system: the mutex, and a program counter for each controller that is not idle. */
  datatype State = State(x: Shared, lock: Option<nat>, pcs: map<nat, ControlPc>)

  datatype Action =
    | Request(caller: nat, op: Op)  // an idle controller calls one of the monitor's operations
    | Control(id: nat)              // a controller's next step
    | Work(due: bool)               // the worker's next step; `due` is what the clock says

  function PcOf(s: State, c: nat): ControlPc { if c in s.pcs then s.pcs[c] else Idle }

  /** The first step of an operation once the mutex is held. */
  function Entry(op: Op): ControlPc {
    match op
    case StartOp => Spawn
    case PauseOp => WritePaused
    case ResumeOp => WriteRunning
    case StopOp => TestStopped
  }

  /** Where a controller goes from `pc`. */
  function ControlNext(x: Shared, pc: ControlPc): ControlPc {
    match pc
    case Idle => Idle
    case Waiting(op) => Entry(op)
    case Spawn => AssignThread
    case AssignThread => Detach
    case Detach => Unlock
    case WritePaused => Unlock
    case WriteRunning => Unlock
    case TestStopped => if x.phase.Stopped? then DeleteChannel else TestStopping
    case TestStopping => if x.phase.Stopping? then DeleteChannel else WriteStopping
    case WriteStopping => TestThread
    case TestThread => if x.thread then TestJoinable else WriteStopped
    case TestJoinable => if x.detached then Spin else Join
    case Join => Spin
    case Spin => if x.phase.Stopped? then WriteStopped else Spin
    case WriteStopped => DeleteChannel
    case DeleteChannel => NullChannel
    case NullChannel => Unlock
    case Unlock => Idle
  }

  /** What a controller's step at `pc` does to the shared memory. */
  function ControlEffect(x: Shared, pc: ControlPc): Shared {
    match pc
    case Waiting(op) => x.(startTaken := x.startTaken || op.StartOp?)
    case Spawn => x.(worker := RunBegin)
    case AssignThread => x.(thread := true)
    case Detach => x.(detached := true)
    case WritePaused => x.(phase := Paused)
    case WriteRunning => x.(phase := Running)
    case WriteStopping => x.(phase := Stopping)
    case WriteStopped => x.(phase := Stopped)
    case DeleteChannel => x.(channel := if x.channel.Null? then Null else Dangling,
                             fault := x.fault || x.channel.Dangling?)
    case NullChannel => x.(channel := Null)
    case _ => x
  }

  function TickNext(b: Beat, usable: bool, pc: TickPc): WorkerPc {
    match pc
    case TenSecond => Tick(if b.counter % 10 == 0 && usable then PrepareHeartbeat else Minute)
    case PrepareHeartbeat => Tick(Send)
    case Send => Tick(Minute)
    case Minute => Tick(if b.counter % 60 == 0 && usable then PrepareRemote else Count)
    case PrepareRemote => Tick(Count)
    case Count => LoopHead
  }

  /** A packet is prepared under the next sequence number. */
  function Draw(b: Beat): Beat {
    var next := (b.sequence + 1) % U16;
    b.(sequence := next, drawn := b.drawn + [next])
  }

  function TickEffect(b: Beat, pc: TickPc): Beat {
    match pc
    case TenSecond => b
    case PrepareHeartbeat => Draw(b)
    case Send => b.(sent := b.sent + [b.sequence])
    case Minute => b
    case PrepareRemote => Draw(b)
    case Count => b.(counter := (b.counter + 1) % U32, ticks := b.ticks + 1)
  }

  function WorkerNext(x: Shared, due: bool): WorkerPc {
    match x.worker
    case NotSpawned => NotSpawned
    case RunBegin => ChannelCheck
    case ChannelCheck => LoopHead
    case LoopHead => if x.phase.Stopping? then Leave else ElapsedCheck
    case ElapsedCheck => if due then Tick(TenSecond) else LoopHead
    case Tick(pc) => TickNext(x.beat, x.usable, pc)
    case Leave => RunEnd
    case RunEnd => Ended
    case Ended => Ended
  }

  function WorkerStep(x: Shared, due: bool): Shared {
    x.(worker := WorkerNext(x, due),
       phase := if x.worker.RunBegin? then Running else if x.worker.RunEnd? then Stopped else x.phase,
       beat := if x.worker.Tick? then TickEffect(x.beat, x.worker.pc) else x.beat,
       fault := x.fault || (x.worker == Tick(Send) && !x.channel.Open?))
  }

  /** A second Start would run a second worker beside the first: it is not part of this system. */
  predicate Enabled(s: State, a: Action) {
    match a
    case Request(c, _) => PcOf(s, c).Idle?
    case Control(c) =>
      var pc := PcOf(s, c);
      && !pc.Idle?
      && (pc.Waiting? ==> s.lock.None? && (pc.op.StartOp? ==> !s.x.startTaken))
      && (pc.Join? ==> s.x.worker.Ended?)
    case Work(_) => !s.x.worker.NotSpawned? && !s.x.worker.Ended?
  }

  function Apply(s: State, a: Action): State {
    match a
    case Request(c, op) => s.(pcs := s.pcs[c := Waiting(op)])
    case Control(c) =>
      var pc := PcOf(s, c);
      State(ControlEffect(s.x, pc),
            if pc.Waiting? then Some(c) else if pc.Unlock? then None else s.lock,
            s.pcs[c := ControlNext(s.x, pc)])
    case Work(due) => s.(x := WorkerStep(s.x, due))
  }

  /** The state after the one Initialize: `m_mc` exists whenever the usable list is not empty. */
  predicate Initial(s: State) {
    && s.lock.None? && s.pcs == map[]
    && s.x.phase.Initialized? && !s.x.thread && !s.x.detached && !s.x.startTaken
    && !s.x.channel.Dangling? && (s.x.usable ==> s.x.channel.Open?)
    && s.x.worker.NotSpawned?
    && s.x.beat == Beat(0, 0, 0, [], []) && !s.x.fault
  }

  /** The run discipline: no Stop enters the mutex before the Start. */
  predicate StartFirst(s: State, a: Action) {
    a.Control? && PcOf(s, a.id) == Waiting(StopOp) ==> s.x.startTaken
  }

  /** A run of the system, with or without the discipline; Exec gives the state it ends in. */
  predicate Run(s: State, actions: seq<Action>, disciplined: bool)
    decreases |actions|
  {
    actions == [] ||
    (&& Enabled(s, actions[0])
     && (disciplined ==> StartFirst(s, actions[0]))
     && Run(Apply(s, actions[0]), actions[1..], disciplined))
  }

  function Exec(s: State, actions: seq<Action>): State
    decreases |actions|
  {
    if actions == [] then s else Exec(Apply(s, actions[0]), actions[1..])
  }

  // ---------------------------------------------------------------- Invariant

  /** Steps a controller takes only while it holds the mutex. */
  predicate InSection(pc: ControlPc) { !pc.Idle? && !pc.Waiting? }

  predicate InStart(pc: ControlPc) { pc.Spawn? || pc.AssignThread? || pc.Detach? }

  predicate InStop(pc: ControlPc) {
    pc.TestStopped? || pc.TestStopping? || pc.WriteStopping? || StopWaits(pc) || StopEnds(pc)
  }

  /** Stop has written Stopping and not yet read Stopped. */
  predicate StopWaits(pc: ControlPc) { pc.TestThread? || pc.TestJoinable? || pc.Spin? }

  /** Stop tears the thread down. */
  predicate StopEnds(pc: ControlPc) { pc.WriteStopped? || pc.DeleteChannel? || pc.NullChannel? }

  /** The step of the controller inside the mutex, Idle when there is none. */
  function Holder(s: State): ControlPc { if s.lock.Some? then PcOf(s, s.lock.value) else Idle }

  /** The mutex serialises the controllers. */
  ghost predicate MutualExclusion(s: State) {
    && (forall c :: c in s.pcs && InSection(s.pcs[c]) ==> s.lock == Some(c))
    && (s.lock.Some? ==> InSection(PcOf(s, s.lock.value)))
  }

  /** What links the shared memory, the worker and the step `h` of the controller inside the mutex. */
  predicate Core(x: Shared, h: ControlPc) {
    && !x.fault
    && (x.worker.NotSpawned? <==> !x.startTaken || h.Spawn?)
    && (InStart(h) || InStop(h) ==> x.startTaken)
    && (x.startTaken && !h.Spawn? && !h.AssignThread? ==> x.thread)
    && (x.startTaken && !InStart(h) ==> x.detached)
    && !h.Join?
    && (StopEnds(h) ==> x.worker.Ended?)
    && (x.phase.Stopped? ==> x.worker.Ended?)
    && (x.phase.Stopping? ==> StopWaits(h))
    && (x.worker.Leave? || x.worker.RunEnd? ==> x.phase.Stopping?)
    && (x.usable && !x.worker.Ended? ==> x.channel.Open?)
    && (x.channel.Dangling? ==> h.NullChannel?)
    && (x.worker == Tick(PrepareHeartbeat) || x.worker == Tick(Send) || x.worker == Tick(PrepareRemote) ==> x.usable)
  }

  ghost predicate Inv(s: State) { MutualExclusion(s) && Core(s.x, Holder(s)) }

  lemma InitialInv(s: State)
    requires Initial(s)
    ensures Inv(s)
  {}

  lemma ControlKeepsMutex(s: State, c: nat)
    requires MutualExclusion(s) && Enabled(s, Control(c))
    ensures MutualExclusion(Apply(s, Control(c)))
    ensures Holder(Apply(s, Control(c))) == ControlNext(s.x, PcOf(s, c))
    ensures Holder(s) == if PcOf(s, c).Waiting? then Idle else PcOf(s, c)
  {
    var t := Apply(s, Control(c));
    var pc, next := PcOf(s, c), ControlNext(s.x, PcOf(s, c));
    assert InSection(next) <==> !pc.Unlock?;
    assert InSection(pc) ==> s.lock == Some(c);
    assert PcOf(t, c) == next;
  }

  lemma ControlKeepsCore(x: Shared, pc: ControlPc)
    requires Core(x, if pc.Waiting? then Idle else pc)
    requires pc == Waiting(StartOp) ==> !x.startTaken
    requires pc == Waiting(StopOp) ==> x.startTaken
    ensures Core(ControlEffect(x, pc), ControlNext(x, pc))
  {}

  lemma WorkKeepsCore(x: Shared, h: ControlPc, due: bool)
    requires Core(x, h)
    ensures Core(WorkerStep(x, due), h)
  {}

  lemma StepKeepsInv(s: State, a: Action)
    requires Inv(s) && Enabled(s, a) && StartFirst(s, a)
    ensures Inv(Apply(s, a))
  {
    match a
    case Request(c, op) => assert Holder(Apply(s, a)) == Holder(s);
    case Control(c) => ControlKeepsMutex(s, c); ControlKeepsCore(s.x, PcOf(s, c));
    case Work(due) => WorkKeepsCore(s.x, Holder(s), due); assert Holder(Apply(s, a)) == Holder(s);
  }

  lemma {:induction false} RunKeepsInv(s: State, actions: seq<Action>)
    requires Inv(s) && Run(s, actions, true)
    ensures Inv(Exec(s, actions))
    decreases |actions|
  {
    if actions != [] {
      StepKeepsInv(s, actions[0]);
      RunKeepsInv(Apply(s, actions[0]), actions[1..]);
    }
  }

  /**
   Teardown safety, over every interleaving: no tick sends through a deleted or nulled `m_mc`, no
   channel is deleted twice, and `ClearMcGroups` is running only after the worker has left RunEnd.
   */
  lemma TeardownSafe(s: State, actions: seq<Action>)
    requires Initial(s) && Run(s, actions, true)
    ensures var t := Exec(s, actions);
            && !t.x.fault
            && (t.x.worker == Tick(Send) ==> t.x.channel.Open?)
            && (t.x.usable && !t.x.channel.Open? ==> t.x.worker.Ended?)
            && (forall c, d :: InSection(PcOf(t, c)) && InSection(PcOf(t, d)) ==> c == d)
            && (forall c :: StopEnds(PcOf(t, c)) ==> t.x.worker.Ended?)
  {
    InitialInv(s);
    RunKeepsInv(s, actions);
    var t := Exec(s, actions);
    forall c: nat | InSection(PcOf(t, c)) ensures t.lock == Some(c) {}
  }

  /** Controller c calls Stop before the Start, then Start; then comes one tick that is due. */
  function StopThenStart(c: nat): seq<Action> {
    [Request(c, StopOp)] + seq(9, _ => Control(c)) + [Request(c, StartOp)] + seq(2, _ => Control(c))
    + seq(7, _ => Work(true))
  }

  /** The steps of a Stop that finds no thread. */
  const EARLY_STOP: seq<ControlPc> :=
    [Idle, Waiting(StopOp), TestStopped, TestStopping, WriteStopping, TestThread, WriteStopped,
     DeleteChannel, NullChannel, Unlock, Idle, Waiting(StartOp), Spawn, AssignThread]

  const FIRST_TICK: seq<WorkerPc> :=
    [RunBegin, ChannelCheck, LoopHead, ElapsedCheck, Tick(TenSecond), Tick(PrepareHeartbeat), Tick(Send), Tick(Minute)]

  /** Where that run stands after i steps. */
  predicate EarlyStopAt(s: State, c: nat, i: nat) {
    && i <= 20
    && s.x.usable && s.x.beat.counter == 0
    && (i <= 13 ==>
      && PcOf(s, c) == EARLY_STOP[i]
      && (s.lock.None? <==> i < 2 || 10 <= i < 12)
      && !s.x.thread && (s.x.startTaken <==> i >= 12)
      && (i < 13 ==> s.x.worker.NotSpawned?)
      && (i <= 4 ==> !s.x.phase.Stopped? && !s.x.phase.Stopping?)
      && (i >= 9 ==> s.x.channel.Null?))
    && (i >= 13 ==> s.x.worker == FIRST_TICK[i - 13] && s.x.channel.Null?)
    && (i >= 14 ==> s.x.phase.Running?)
    && (i == 20 ==> s.x.fault)
  }

  lemma EarlyControlStep(s: State, c: nat, i: nat)
    requires i < 13 && EarlyStopAt(s, c, i)
    ensures Enabled(s, StopThenStart(c)[i]) && EarlyStopAt(Apply(s, StopThenStart(c)[i]), c, i + 1)
  {
    hide WorkerStep;
    assert StopThenStart(c)[i]
           == if i == 0 then Request(c, StopOp) else if i == 10 then Request(c, StartOp) else Control(c);
    assert PcOf(Apply(s, StopThenStart(c)[i]), c) == EARLY_STOP[i + 1];
  }

  lemma FirstTickStep(s: State, c: nat, i: nat)
    requires 13 <= i < 20 && EarlyStopAt(s, c, i)
    ensures Enabled(s, StopThenStart(c)[i]) && EarlyStopAt(Apply(s, StopThenStart(c)[i]), c, i + 1)
  {
    hide ControlEffect, ControlNext;
    assert StopThenStart(c)[i] == Work(true);
  }

  lemma {:induction false} EarlyStopRuns(s: State, c: nat, i: nat)
    requires EarlyStopAt(s, c, i)
    ensures Run(s, StopThenStart(c)[i..], false) && Exec(s, StopThenStart(c)[i..]).x.fault
    decreases 20 - i
  {
    if i < 20 {
      if i < 13 { EarlyControlStep(s, c, i); } else { FirstTickStep(s, c, i); }
      EarlyStopRuns(Apply(s, StopThenStart(c)[i]), c, i + 1);
      assert StopThenStart(c)[i..][1..] == StopThenStart(c)[i + 1..];
    }
  }

  /** The discipline is needed: from every initial state with a usable interface this run faults. */
  lemma StopBeforeStartFaults(s: State, c: nat)
    requires Initial(s) && s.x.usable
    ensures Run(s, StopThenStart(c), false) && Exec(s, StopThenStart(c)).x.fault
  {
    EarlyStopRuns(s, c, 0);
    assert StopThenStart(c)[0..] == StopThenStart(c);
  }

  /** Before the Start there is no thread and the second counter is zero. */
  predicate Untouched(x: Shared) {
    x.usable && (x.thread ==> x.startTaken) && (x.worker.NotSpawned? ==> x.beat.counter == 0)
  }

  lemma {:induction false} RunKeepsUntouched(s: State, actions: seq<Action>)
    requires Inv(s) && Untouched(s.x) && Run(s, actions, true)
    ensures Untouched(Exec(s, actions).x)
    decreases |actions|
  {
    if actions != [] {
      StepKeepsInv(s, actions[0]);
      StepKeepsUntouched(s, actions[0]);
      RunKeepsUntouched(Apply(s, actions[0]), actions[1..]);
    }
  }

  lemma StepKeepsUntouched(s: State, a: Action)
    requires Inv(s) && Untouched(s.x) && Enabled(s, a)
    ensures Untouched(Apply(s, a).x)
  {
    hide TickEffect;
    match a
    case Request(_, _) =>
    case Control(c) => ControlKeepsMutex(s, c);
    case Work(_) =>
  }

  /**
   The discipline leaves out nothing that is safe: after any disciplined run, from any initial state with
   a usable interface, the first step that breaks it can be continued to a fault.
   */
  lemma BreachLeadsToFault(s: State, actions: seq<Action>, a: Action)
    requires Initial(s) && s.x.usable && Run(s, actions, true)
    requires Enabled(Exec(s, actions), a) && !StartFirst(Exec(s, actions), a)
    ensures a.Control?
    ensures var t, more := Exec(s, actions), StopThenStart(a.id)[1..];
            more[0] == a && Run(t, more, false) && Exec(t, more).x.fault
  {
    InitialInv(s);
    RunKeepsInv(s, actions);
    RunKeepsUntouched(s, actions);
    var t := Exec(s, actions);
    assert Holder(t) == Idle;
    EarlyStopRuns(t, a.id, 1);
  }

  // ---------------------------------------------------------------- One operation

  /** In any state but Stopping, Paused included, the loop goes round, and into a tick once a second has passed. */
  lemma OnlyStoppingEndsLoop(x: Shared, due: bool)
    requires x.worker.LoopHead?
    ensures var y := WorkerStep(WorkerStep(x, due), due);
            if x.phase.Stopping? then y == x.(worker := RunEnd)
            else if due then y == x.(worker := Tick(TenSecond))
            else y == x
  {
    var y := WorkerStep(x, due);
    assert y == x.(worker := if x.phase.Stopping? then Leave else ElapsedCheck);
  }

  /** What a controller alone makes of n steps of its own. */
  function Alone(s: State, c: nat, n: nat): State
    decreases n
  {
    if n == 0 then s else Alone(Apply(s, Control(c)), c, n - 1)
  }

  /** The controller is at pc, alone, and the shared memory is x. */
  predicate At(s: State, c: nat, pc: ControlPc, x: Shared) {
    PcOf(s, c) == pc && s.x == x && s.lock == if InSection(pc) then Some(c) else None
  }

  lemma Advance(s: State, c: nat, pc: ControlPc, x: Shared, n: nat) returns (t: State)
    requires At(s, c, pc, x) && !pc.Idle? && n > 0
    ensures At(t, c, ControlNext(x, pc), ControlEffect(x, pc)) && Alone(s, c, n) == Alone(t, c, n - 1)
    ensures Alone(t, c, 0) == t
  {
    t := Apply(s, Control(c));
    assert InSection(ControlNext(x, pc)) <==> !pc.Unlock?;
  }

  /** What Pause and Resume do, from entering the mutex to returning: they write their state and nothing else. */
  lemma PauseWritesPaused(s: State, c: nat)
    requires At(s, c, Waiting(PauseOp), s.x)
    ensures At(Alone(s, c, 3), c, Idle, s.x.(phase := Paused))
  {
    hide At, Alone;
    var u := Advance(s, c, Waiting(PauseOp), s.x, 3);
    var v := Advance(u, c, WritePaused, s.x, 2);
    var w := Advance(v, c, Unlock, s.x.(phase := Paused), 1);
  }

  lemma ResumeWritesRunning(s: State, c: nat)
    requires At(s, c, Waiting(ResumeOp), s.x)
    ensures At(Alone(s, c, 3), c, Idle, s.x.(phase := Running))
  {
    hide At, Alone;
    var u := Advance(s, c, Waiting(ResumeOp), s.x, 3);
    var v := Advance(u, c, WriteRunning, s.x, 2);
    var w := Advance(v, c, Unlock, s.x.(phase := Running), 1);
  }

  /** Start leaves a detached thread at its first step, whatever the state was, and does not touch the state. */
  lemma StartSpawnsWorker(s: State, c: nat)
    requires At(s, c, Waiting(StartOp), s.x)
    ensures At(Alone(s, c, 5), c, Idle, s.x.(startTaken := true, worker := RunBegin, thread := true, detached := true))
  {
    hide At, Alone;
    var u := Advance(s, c, Waiting(StartOp), s.x, 5);
    var v := Advance(u, c, Spawn, s.x.(startTaken := true), 4);
    var w := Advance(v, c, AssignThread, s.x.(startTaken := true, worker := RunBegin), 3);
    var x := s.x.(startTaken := true, worker := RunBegin, thread := true);
    var y := Advance(w, c, Detach, x, 2);
    var z := Advance(y, c, Unlock, x.(detached := true), 1);
  }

  /** A Stop that finds the thread stopped returns at once, and only drops the channel. */
  lemma LaterStopReturns(s: State, c: nat)
    requires At(s, c, Waiting(StopOp), s.x) && s.x.phase.Stopped? && !s.x.channel.Dangling?
    ensures At(Alone(s, c, 5), c, Idle, s.x.(channel := Null))
  {
    hide At, Alone, ControlEffect, ControlNext;
    StoppedStopSteps(s.x);
    var u := Advance(s, c, Waiting(StopOp), s.x, 5);
    var v := Advance(u, c, TestStopped, s.x, 4);
    var w := Advance(v, c, DeleteChannel, s.x, 3);
    var y := Advance(w, c, NullChannel, ControlEffect(s.x, DeleteChannel), 2);
    var z := Advance(y, c, Unlock, s.x.(channel := Null), 1);
  }

  /** A Stop that finds no thread waits for nothing: it leaves the state Stopped and drops the channel. */
  lemma StopWithoutThread(s: State, c: nat)
    requires At(s, c, Waiting(StopOp), s.x) && !s.x.thread && !s.x.channel.Dangling?
    requires !s.x.phase.Stopped? && !s.x.phase.Stopping?
    ensures At(Alone(s, c, 9), c, Idle, s.x.(phase := Stopped, channel := Null))
  {
    hide At, Alone, ControlEffect, ControlNext;
    ThreadlessStopSteps(s.x);
    var u := Advance(s, c, Waiting(StopOp), s.x, 9);
    var v := Advance(u, c, TestStopped, s.x, 8);
    var w := Advance(v, c, TestStopping, s.x, 7);
    var y := Advance(w, c, WriteStopping, s.x, 6);
    var stopping, stopped := s.x.(phase := Stopping), s.x.(phase := Stopped);
    var z := Advance(y, c, TestThread, stopping, 5);
    var p := Advance(z, c, WriteStopped, stopping, 4);
    StoppedStopSteps(stopped);
    var q := Advance(p, c, DeleteChannel, stopped, 3);
    var r := Advance(q, c, NullChannel, ControlEffect(stopped, DeleteChannel), 2);
    var o := Advance(r, c, Unlock, stopped.(channel := Null), 1);
  }

  lemma ThreadlessStopSteps(x: Shared)
    requires !x.thread && !x.phase.Stopped? && !x.phase.Stopping?
    ensures ControlEffect(x, Waiting(StopOp)) == x && ControlNext(x, Waiting(StopOp)) == TestStopped
    ensures ControlEffect(x, TestStopped) == x && ControlNext(x, TestStopped) == TestStopping
    ensures ControlEffect(x, TestStopping) == x && ControlNext(x, TestStopping) == WriteStopping
    ensures ControlEffect(x, WriteStopping) == x.(phase := Stopping) && ControlNext(x, WriteStopping) == TestThread
    ensures var y := x.(phase := Stopping);
            && ControlEffect(y, TestThread) == y && ControlNext(y, TestThread) == WriteStopped
            && ControlEffect(y, WriteStopped) == x.(phase := Stopped) && ControlNext(y, WriteStopped) == DeleteChannel
  {}

  lemma StoppedStopSteps(x: Shared)
    requires x.phase.Stopped? && !x.channel.Dangling?
    ensures ControlEffect(x, Waiting(StopOp)) == x && ControlEffect(x, TestStopped) == x
    ensures ControlEffect(ControlEffect(x, DeleteChannel), NullChannel) == x.(channel := Null)
    ensures ControlEffect(x.(channel := Null), Unlock) == x.(channel := Null)
    ensures ControlNext(x, Waiting(StopOp)) == TestStopped && ControlNext(x, TestStopped) == DeleteChannel
    ensures forall y :: ControlNext(y, DeleteChannel) == NullChannel && ControlNext(y, NullChannel) == Unlock
    ensures forall y :: ControlNext(y, Unlock) == Idle
  {}

  // ---------------------------------------------------------------- The clock

  /** How many steps of a run find that the second has passed. */
  function DueSteps(actions: seq<Action>): nat {
    if actions == [] then 0 else (if actions[0] == Work(true) then 1 else 0) + DueSteps(actions[1..])
  }

  /** How many of them the worker takes where it looks at the clock. */
  function DueChecks(s: State, actions: seq<Action>): nat
    decreases |actions|
  {
    if actions == [] then 0
    else
      (if actions[0] == Work(true) && s.x.worker.ElapsedCheck? then 1 else 0)
      + DueChecks(Apply(s, actions[0]), actions[1..])
  }

  function TicksBegun(x: Shared): nat { x.beat.ticks + (if x.worker.Tick? then 1 else 0) }

  /** With or without the discipline, a thread is spawned where there is none yet. */
  ghost predicate OneStart(s: State) {
    && MutualExclusion(s)
    && (InStart(Holder(s)) ==> s.x.startTaken)
    && (!s.x.startTaken || Holder(s).Spawn? ==> s.x.worker.NotSpawned?)
  }

  lemma StepKeepsOneStart(s: State, a: Action)
    requires OneStart(s) && Enabled(s, a)
    ensures OneStart(Apply(s, a))
  {
    hide TickNext, TickEffect, MutualExclusion;
    match a
    case Request(c, op) => RequestKeepsMutex(s, c, op);
    case Control(c) => ControlKeepsMutex(s, c);
    case Work(due) => WorkKeepsMutex(s, due);
  }

  lemma RequestKeepsMutex(s: State, c: nat, op: Op)
    requires MutualExclusion(s) && Enabled(s, Request(c, op))
    ensures MutualExclusion(Apply(s, Request(c, op))) && Holder(Apply(s, Request(c, op))) == Holder(s)
  {}

  lemma WorkKeepsMutex(s: State, due: bool)
    requires MutualExclusion(s)
    ensures MutualExclusion(Apply(s, Work(due))) && Holder(Apply(s, Work(due))) == Holder(s)
  {
    hide WorkerStep;
  }

  lemma StepBeginsTick(s: State, a: Action)
    requires OneStart(s) && Enabled(s, a)
    ensures TicksBegun(Apply(s, a).x)
            == TicksBegun(s.x) + (if a == Work(true) && s.x.worker.ElapsedCheck? then 1 else 0)
  {
    hide TicksBegun, WorkerStep, ControlEffect, ControlNext;
    match a
    case Request(_, _) =>
    case Control(c) => ControlKeepsMutex(s, c); ControlBeginsNoTick(s.x, PcOf(s, c));
    case Work(due) => WorkBeginsTick(s.x, due);
  }

  lemma ControlBeginsNoTick(x: Shared, pc: ControlPc)
    requires pc.Spawn? ==> x.worker.NotSpawned?
    ensures TicksBegun(ControlEffect(x, pc)) == TicksBegun(x)
  {}

  lemma WorkBeginsTick(x: Shared, due: bool)
    ensures TicksBegun(WorkerStep(x, due)) == TicksBegun(x) + (if due && x.worker.ElapsedCheck? then 1 else 0)
  {}

  lemma {:induction false} RunBeginsTicks(s: State, actions: seq<Action>, disciplined: bool)
    requires OneStart(s) && Run(s, actions, disciplined)
    ensures TicksBegun(Exec(s, actions).x) == TicksBegun(s.x) + DueChecks(s, actions)
    ensures DueChecks(s, actions) <= DueSteps(actions)
    ensures TicksBegun(s.x) == 0 && DueChecks(s, actions) == 0 ==> Exec(s, actions).x.beat == s.x.beat
    decreases |actions|
  {
    hide Apply, TicksBegun, OneStart;
    if actions != [] {
      StepKeepsOneStart(s, actions[0]);
      StepBeginsTick(s, actions[0]);
      NoTickNoBeat(s, actions[0]);
      RunBeginsTicks(Apply(s, actions[0]), actions[1..], disciplined);
    }
  }

  lemma NoTickNoBeat(s: State, a: Action)
    ensures TicksBegun(s.x) == 0 ==> Apply(s, a).x.beat == s.x.beat
  {}

  /**
   In every run, whatever the controllers do: the ticks begun are exactly the looks at the clock that found
   the second passed, so a tick begins at each of them, in the Paused state too, and at no other step; and
   where none did nothing was prepared or sent.
   */
  lemma TicksFollowClock(s: State, actions: seq<Action>, disciplined: bool)
    requires Initial(s) && Run(s, actions, disciplined)
    ensures var x := Exec(s, actions).x;
            && x.beat.ticks + (if x.worker.Tick? then 1 else 0) == DueChecks(s, actions) <= DueSteps(actions)
            && (DueSteps(actions) == 0 ==> x.beat.ticks == 0 && x.beat.drawn == [] && x.beat.sent == [])
  {
    RunBeginsTicks(s, actions, disciplined);
  }

  // ---------------------------------------------------------------- Heartbeat schedule

  function Bit(b: bool): nat { if b then 1 else 0 }

  /** The heartbeat part of the tick in progress, if any, is over. */
  predicate HeartbeatDone(w: WorkerPc) { w.Tick? && (w.pc.Minute? || w.pc.PrepareRemote? || w.pc.Count?) }

  function SentSoFar(b: Beat, usable: bool, w: WorkerPc): nat {
    if usable then TenSecondTicks(b.ticks + Bit(HeartbeatDone(w))) else 0
  }

  function PreparedSoFar(b: Beat, usable: bool, w: WorkerPc): nat {
    if usable then
      TenSecondTicks(b.ticks + Bit(HeartbeatDone(w) || w == Tick(Send))) + MinuteTicks(b.ticks + Bit(w == Tick(Count)))
    else 0
  }

  /** The two counters are the wrapped numbers of ticks and of prepared packets; the i-th packet got number i. */
  predicate Wrapped(b: Beat) {
    && b.counter == b.ticks % U32 && b.sequence == |b.drawn| % U16
    && forall i :: 0 <= i < |b.drawn| ==> b.drawn[i] == (i + 1) % U16
  }

  /** The prepared packets and the log of sends agree with the number of ticks. */
  predicate Scheduled(b: Beat, usable: bool, w: WorkerPc) {
    && |b.drawn| == PreparedSoFar(b, usable, w)
    && b.sent == HeartbeatSequences(SentSoFar(b, usable, w))
    && (w == Tick(PrepareHeartbeat) || w == Tick(Send) ==> usable && b.ticks % 10 == 0)
    && (w == Tick(PrepareRemote) ==> usable && b.ticks % 60 == 0)
  }

  /** Up to here the 32-bit second counter has not wrapped. */
  predicate Unwrapped(b: Beat, w: WorkerPc) { b.ticks < U32 || (b.ticks == U32 && !w.Tick?) }

  predicate OnSchedule(x: Shared) {
    Wrapped(x.beat) && (Unwrapped(x.beat, x.worker) ==> Scheduled(x.beat, x.usable, x.worker))
  }

  lemma HeartbeatPartKeepsSchedule(b: Beat, usable: bool, pc: TickPc)
    requires Scheduled(b, usable, Tick(pc)) && Wrapped(b) && b.ticks < U32
    requires pc.TenSecond? || pc.PrepareHeartbeat? || pc.Send?
    ensures Scheduled(TickEffect(b, pc), usable, TickNext(b, usable, pc))
  {
    hide TenSecondTicks, MinuteTicks, HeartbeatSequences, HeartbeatSequence;
    OneTickMore(b.ticks);
    if pc.Send? { HeartbeatIsNext(b.ticks); }
  }

  lemma OneTickMore(n: nat)
    ensures TenSecondTicks(n + 1) == TenSecondTicks(n) + Bit(n % 10 == 0)
    ensures MinuteTicks(n + 1) == MinuteTicks(n) + Bit(n % 60 == 0)
    ensures HeartbeatSequences(TenSecondTicks(n) + 1)
            == HeartbeatSequences(TenSecondTicks(n)) + [HeartbeatSequence(TenSecondTicks(n))]
  {}

  lemma MinutePartKeepsSchedule(b: Beat, usable: bool, pc: TickPc)
    requires Scheduled(b, usable, Tick(pc)) && Wrapped(b) && b.ticks < U32
    requires pc.Minute? || pc.PrepareRemote? || pc.Count?
    ensures Scheduled(TickEffect(b, pc), usable, TickNext(b, usable, pc))
  {
    hide TenSecondTicks, MinuteTicks, HeartbeatSequences;
    OneTickMore(b.ticks);
  }

  lemma TickKeepsWrapped(b: Beat, pc: TickPc)
    requires Wrapped(b)
    ensures Wrapped(TickEffect(b, pc))
  {
    WrapSucc(b.ticks, U32);
    WrapSucc(|b.drawn|, U16);
  }

  lemma WorkKeepsSchedule(x: Shared, due: bool)
    requires OnSchedule(x)
    ensures OnSchedule(WorkerStep(x, due))
  {
    if x.worker.Tick? {
      TickKeepsWrapped(x.beat, x.worker.pc);
      if x.beat.ticks < U32 {
        if x.worker.pc.TenSecond? || x.worker.pc.PrepareHeartbeat? || x.worker.pc.Send? {
          HeartbeatPartKeepsSchedule(x.beat, x.usable, x.worker.pc);
        } else {
          MinutePartKeepsSchedule(x.beat, x.usable, x.worker.pc);
        }
      }
    }
  }

  lemma ControlKeepsSchedule(x: Shared, pc: ControlPc)
    requires OnSchedule(x) && (pc.Spawn? ==> x.worker.NotSpawned?)
    ensures OnSchedule(ControlEffect(x, pc))
  {}

  lemma {:induction false} RunKeepsSchedule(s: State, actions: seq<Action>)
    requires Inv(s) && OnSchedule(s.x) && Run(s, actions, true)
    ensures OnSchedule(Exec(s, actions).x)
    decreases |actions|
  {
    if actions != [] {
      StepKeepsInv(s, actions[0]);
      match actions[0] {
        case Request(_, _) =>
        case Control(c) => ControlKeepsMutex(s, c); ControlKeepsSchedule(s.x, PcOf(s, c));
        case Work(due) => WorkKeepsSchedule(s.x, due);
      }
      RunKeepsSchedule(Apply(s, actions[0]), actions[1..]);
    }
  }

  /**
   Whatever the controllers do, after n <= 2^32 whole ticks a worker with a usable interface has sent
   one heartbeat in each ten-second tick, the k-th carrying HeartbeatSequence(k), and has prepared
   PreparedAfter(n) packets in all; a worker without one has done neither.
   */
  lemma HeartbeatsOnSchedule(s: State, actions: seq<Action>)
    requires Initial(s) && Run(s, actions, true)
    requires !Exec(s, actions).x.worker.Tick? && Exec(s, actions).x.beat.ticks <= U32
    ensures var x := Exec(s, actions).x;
            && x.beat.sent == HeartbeatSequences(if x.usable then TenSecondTicks(x.beat.ticks) else 0)
            && |x.beat.drawn| == (if x.usable then PreparedAfter(x.beat.ticks) else 0)
            && x.beat.sequence == |x.beat.drawn| % U16
  {
    InitialInv(s);
    RunKeepsSchedule(s, actions);
  }

  lemma {:induction false} RunKeepsWrapped(s: State, actions: seq<Action>, disciplined: bool)
    requires Wrapped(s.x.beat) && Run(s, actions, disciplined)
    ensures Wrapped(Exec(s, actions).x.beat)
    decreases |actions|
  {
    hide Wrapped;
    if actions != [] {
      if actions[0].Work? && s.x.worker.Tick? { TickKeepsWrapped(s.x.beat, s.x.worker.pc); }
      RunKeepsWrapped(Apply(s, actions[0]), actions[1..], disciplined);
    }
  }

  /**
   In every run, disciplined or not and however long, two prepared packets, heartbeats or for the remote
   office, carry the same number exactly when a multiple of 2^16 preparations lies between them; in
   particular never when fewer do.
   */
  lemma PacketNumbersDistinct(s: State, actions: seq<Action>, disciplined: bool, i: nat, j: nat)
    requires Initial(s) && Run(s, actions, disciplined)
    requires i < j < |Exec(s, actions).x.beat.drawn|
    ensures var drawn := Exec(s, actions).x.beat.drawn;
            && (drawn[i] == drawn[j] <==> (j - i) % U16 == 0)
            && (j - i < U16 ==> drawn[i] != drawn[j])
  {
    RunKeepsWrapped(s, actions, disciplined);
    SameRemainder(i + 1, j + 1);
  }
}

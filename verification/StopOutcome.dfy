/**
 When a Stop that has asked the worker to end completes, and when it waits for ever
 (libs/base/thread.cpp:66-74 and 97-116, libs/protocol/discovery.cpp:139-178).
 */
module StopOutcome {
  import opened Lifecycle
  import opened Options

  /** The worker is past RunBegin and has not ended. */
  predicate Active(w: WorkerPc) { !w.NotSpawned? && !w.RunBegin? && !w.Ended? }

  /** Controller c is inside a Stop that will complete. */
  ghost predicate InProgress(s: State, c: nat) {
    && MutualExclusion(s) && s.lock == Some(c)
    && s.x.thread && s.x.detached
    && (if StopWaits(PcOf(s, c)) then
          (if s.x.worker.Ended? then s.x.phase.Stopped? else Active(s.x.worker) && s.x.phase.Stopping?)
        else
          && (StopEnds(PcOf(s, c)) || PcOf(s, c).Unlock?)
          && s.x.worker.Ended? && s.x.phase.Stopped?
          && (PcOf(s, c).Unlock? ==> s.x.channel.Null?))
  }

  /** The Stop has returned: the worker has ended and the channel is gone. */
  predicate Completed(s: State, c: nat) {
    && PcOf(s, c).Idle? && s.lock.None?
    && s.x.worker.Ended? && s.x.phase.Stopped? && s.x.channel.Null?
  }

  /** How many steps the worker can still take once it is to end. */
  function WorkerRank(w: WorkerPc): nat {
    match w
    case ElapsedCheck => 10
    case Tick(TenSecond) => 9
    case Tick(PrepareHeartbeat) => 8
    case Tick(Send) => 7
    case Tick(Minute) => 6
    case Tick(PrepareRemote) => 5
    case Tick(Count) => 4
    case ChannelCheck => 4
    case LoopHead => 3
    case Leave => 2
    case RunEnd => 1
    case _ => 0
  }

  /** How many steps the stopping controller still needs, not counting vain looks at `m_state`. */
  function StopRank(pc: ControlPc): nat {
    match pc
    case TestThread => 7
    case TestJoinable => 6
    case Spin => 5
    case WriteStopped => 4
    case DeleteChannel => 3
    case NullChannel => 2
    case Unlock => 1
    case _ => 0
  }

  function Rank(s: State, c: nat): nat { WorkerRank(s.x.worker) + StopRank(PcOf(s, c)) }

  /** Every step but another caller's request and a vain look at `m_state` in the waiting loop. */
  predicate Useful(s: State, c: nat, a: Action) {
    a.Work? || (a == Control(c) && !(PcOf(s, c).Spin? && !s.x.phase.Stopped?))
  }

  /** The ticks the worker may still finish: at most the one whose loop body it is in. */
  function TicksLeft(w: WorkerPc): nat { if w.ElapsedCheck? || w.Tick? then 1 else 0 }

  /**
   Every step of the system towards the end of a Stop: `m_state` moves at most from Stopping to
   Stopped, and then by RunEnd; at most the tick in progress is finished; the rank never grows and
   every useful step lowers it, until the Stop has returned.
   */
  lemma StepTowardsEnd(s: State, c: nat, a: Action)
    requires InProgress(s, c) && Enabled(s, a)
    ensures var t := Apply(s, a);
            && t.x.beat.ticks + TicksLeft(t.x.worker) <= s.x.beat.ticks + TicksLeft(s.x.worker)
            && (t.x.phase == s.x.phase || (s.x.phase.Stopping? && t.x.phase.Stopped? && a.Work? && s.x.worker.RunEnd?))
            && if a == Control(c) && PcOf(s, c).Unlock? then Completed(t, c)
               else InProgress(t, c) && Rank(t, c) <= Rank(s, c) && (Useful(s, c, a) ==> Rank(t, c) < Rank(s, c))
  {
    match a
    case Request(d, op) => assert PcOf(Apply(s, a), c) == PcOf(s, c);
    case Control(d) => OnlyHolderMoves(s, c, d); ControlKeepsMutex(s, c); HolderTowardsEnd(s, c);
    case Work(due) => WorkTowardsEnd(s.x, due); assert PcOf(Apply(s, a), c) == PcOf(s, c);
  }

  /** While c holds the mutex no other controller has a step. */
  lemma OnlyHolderMoves(s: State, c: nat, d: nat)
    requires MutualExclusion(s) && s.lock == Some(c) && Enabled(s, Control(d))
    ensures d == c
  {
    assert InSection(PcOf(s, d));
  }

  lemma HolderTowardsEnd(s: State, c: nat)
    requires InProgress(s, c) && MutualExclusion(Apply(s, Control(c)))
    ensures var t := Apply(s, Control(c));
            && t.x.worker == s.x.worker && t.x.beat == s.x.beat && t.x.phase == s.x.phase
            && if PcOf(s, c).Unlock? then Completed(t, c)
               else
                 && InProgress(t, c) && Rank(t, c) <= Rank(s, c)
                 && (Useful(s, c, Control(c)) ==> Rank(t, c) < Rank(s, c))
  {
    hide MutualExclusion;
    assert PcOf(Apply(s, Control(c)), c) == ControlNext(s.x, PcOf(s, c));
  }

  lemma WorkTowardsEnd(x: Shared, due: bool)
    requires Active(x.worker) && x.phase.Stopping?
    ensures var y := WorkerStep(x, due);
            && WorkerRank(y.worker) < WorkerRank(x.worker)
            && (if y.worker.Ended? then y.phase.Stopped? && x.worker.RunEnd? else Active(y.worker) && y.phase.Stopping?)
            && y.beat.ticks + TicksLeft(y.worker) <= x.beat.ticks + TicksLeft(x.worker)
  {}

  /** No deadlock on the way: the worker, or after it the controller, has a useful step. */
  lemma UsefulStepEnabled(s: State, c: nat, due: bool)
    requires InProgress(s, c)
    ensures var a := if s.x.worker.Ended? then Control(c) else Work(due); Enabled(s, a) && Useful(s, c, a)
  {}

  /** Somewhere in the run the Stop returns. */
  predicate CompletesDuring(s: State, c: nat, actions: seq<Action>)
    decreases |actions|
  {
    Completed(s, c) || (actions != [] && CompletesDuring(Apply(s, actions[0]), c, actions[1..]))
  }

  predicate HasWork(actions: seq<Action>) { exists i :: 0 <= i < |actions| && actions[i].Work? }

  /** A stretch of a run in which controller c takes a step, and so does the worker if it has not ended. */
  predicate Round(s: State, c: nat, actions: seq<Action>) {
    && Run(s, actions, false)
    && Control(c) in actions
    && (s.x.worker.Ended? || HasWork(actions))
  }

  predicate Rounds(s: State, c: nat, rounds: seq<seq<Action>>)
    decreases |rounds|
  {
    rounds == [] || (Round(s, c, rounds[0]) && Rounds(Exec(s, rounds[0]), c, rounds[1..]))
  }

  predicate CompletesInRounds(s: State, c: nat, rounds: seq<seq<Action>>)
    decreases |rounds|
  {
    rounds != [] &&
    (CompletesDuring(s, c, rounds[0]) || CompletesInRounds(Exec(s, rounds[0]), c, rounds[1..]))
  }

  lemma {:induction false} StretchTowardsEnd(s: State, c: nat, actions: seq<Action>)
    requires InProgress(s, c) && Run(s, actions, false)
    ensures CompletesDuring(s, c, actions) ||
            (var t := Exec(s, actions);
             && InProgress(t, c) && Rank(t, c) <= Rank(s, c)
             && (HasWork(actions) || (s.x.worker.Ended? && Control(c) in actions) ==> Rank(t, c) < Rank(s, c)))
    decreases |actions|
  {
    if actions != [] {
      var a, rest := actions[0], actions[1..];
      assert actions == [a] + rest;
      StepTowardsEnd(s, c, a);
      if !(a == Control(c) && PcOf(s, c).Unlock?) {
        StretchTowardsEnd(Apply(s, a), c, rest);
        if HasWork(actions) && !a.Work? {
          var i :| 0 <= i < |actions| && actions[i].Work?;
          assert rest[i - 1].Work?;
        }
      }
    }
  }

  /** A fair run completes the Stop: as many rounds as the rank are enough. */
  lemma {:induction false} FairRunCompletes(s: State, c: nat, rounds: seq<seq<Action>>)
    requires InProgress(s, c) && Rounds(s, c, rounds) && |rounds| >= Rank(s, c)
    ensures CompletesInRounds(s, c, rounds)
    decreases |rounds|
  {
    StretchTowardsEnd(s, c, rounds[0]);
    if !CompletesDuring(s, c, rounds[0]) {
      FairRunCompletes(Exec(s, rounds[0]), c, rounds[1..]);
    }
  }

  /** Controller c waits in Stop for a write of Stopped that will never come. */
  ghost predicate Hung(s: State, c: nat) {
    && MutualExclusion(s) && s.lock == Some(c)
    && s.x.thread && s.x.detached && StopWaits(PcOf(s, c))
    && match s.x.worker
       case RunBegin => !s.x.phase.Stopped?
       case Ended => !s.x.phase.Stopped?
       case NotSpawned => false
       case Leave => false
       case RunEnd => false
       case _ => s.x.phase.Running?
  }

  lemma StepStaysHung(s: State, c: nat, a: Action)
    requires Hung(s, c) && Enabled(s, a)
    ensures Hung(Apply(s, a), c)
  {
    match a
    case Request(d, op) => assert PcOf(Apply(s, a), c) == PcOf(s, c);
    case Control(d) =>
      OnlyHolderMoves(s, c, d);
      ControlKeepsMutex(s, c);
      assert PcOf(Apply(s, a), c) == ControlNext(s.x, PcOf(s, c));
    case Work(due) => assert PcOf(Apply(s, a), c) == PcOf(s, c);
  }

  lemma {:induction false} HungForever(s: State, c: nat, actions: seq<Action>)
    requires Hung(s, c) && Run(s, actions, false)
    ensures Hung(Exec(s, actions), c)
    decreases |actions|
  {
    if actions != [] {
      StepStaysHung(s, c, actions[0]);
      HungForever(Apply(s, actions[0]), c, actions[1..]);
    }
  }

  /**
   A Stop about to write Stopping completes in every fair run, within 17 rounds, if the worker is past
   RunBegin and has not ended; otherwise it never returns and keeps the monitor's mutex for ever.
   */
  lemma StopCompletesIff(s: State, actions: seq<Action>, c: nat)
    requires Initial(s) && Run(s, actions, true)
    requires PcOf(Exec(s, actions), c).WriteStopping?
    ensures var t := Exec(s, actions);
            var u := Apply(t, Control(c));
            && (Active(t.x.worker) ==>
                forall rounds :: Rounds(u, c, rounds) && |rounds| >= 17 ==> CompletesInRounds(u, c, rounds))
            && (!Active(t.x.worker) ==>
                forall later :: Run(u, later, false) ==>
                  StopWaits(PcOf(Exec(u, later), c)) && Exec(u, later).lock == Some(c))
  {
    InitialInv(s);
    RunKeepsInv(s, actions);
    var t := Exec(s, actions);
    var u := Apply(t, Control(c));
    ControlKeepsMutex(t, c);
    if Active(t.x.worker) {
      forall rounds | Rounds(u, c, rounds) && |rounds| >= 17 ensures CompletesInRounds(u, c, rounds) {
        FairRunCompletes(u, c, rounds);
      }
    } else {
      forall later | Run(u, later, false) ensures StopWaits(PcOf(Exec(u, later), c)) && Exec(u, later).lock == Some(c) {
        HungForever(u, c, later);
      }
    }
  }

  /** A Start, and a Stop that comes before the new worker has taken its first step. */
  const HASTY_STOP: seq<Action> :=
    [Request(0, StartOp)] + seq(5, _ => Control(0)) + [Request(0, StopOp)] + seq(3, _ => Control(0))

  const HASTY_STEPS: seq<ControlPc> :=
    [Idle, Waiting(StartOp), Spawn, AssignThread, Detach, Unlock,
     Idle, Waiting(StopOp), TestStopped, TestStopping, WriteStopping]

  predicate HastyAt(s: State, i: nat) {
    && i <= 10
    && PcOf(s, 0) == HASTY_STEPS[i]
    && (s.lock.None? <==> i < 2 || 6 <= i < 8)
    && (s.x.startTaken <==> i >= 2)
    && s.x.phase.Initialized?
    && (i >= 3 ==> s.x.worker.RunBegin?)
  }

  lemma {:induction false} HastyRuns(s: State, i: nat)
    requires HastyAt(s, i)
    ensures Run(s, HASTY_STOP[i..], true) && HastyAt(Exec(s, HASTY_STOP[i..]), 10)
    decreases 10 - i
  {
    if i < 10 {
      var a := HASTY_STOP[i];
      assert a == if i == 0 then Request(0, StartOp) else if i == 6 then Request(0, StopOp) else Control(0);
      assert PcOf(Apply(s, a), 0) == HASTY_STEPS[i + 1];
      HastyRuns(Apply(s, a), i + 1);
      assert HASTY_STOP[i..][1..] == HASTY_STOP[i + 1..];
    }
  }

  /** The waiting for ever does happen: a disciplined run from any initial state leads to it. */
  lemma HastyStopHangs(s: State, later: seq<Action>)
    requires Initial(s) && Run(Apply(Exec(s, HASTY_STOP), Control(0)), later, false)
    ensures Run(s, HASTY_STOP, true) && PcOf(Exec(s, HASTY_STOP), 0).WriteStopping?
    ensures StopWaits(PcOf(Exec(Apply(Exec(s, HASTY_STOP), Control(0)), later), 0))
  {
    HastyRuns(s, 0);
    assert HASTY_STOP[0..] == HASTY_STOP;
    StopCompletesIff(s, HASTY_STOP, 0);
  }
}

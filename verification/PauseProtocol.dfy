/** The pause protocol of the task scheduler as interleaved atomic steps: a flag and an auto-reset
    event shared by controllers, which pause and resume, and one worker, which runs the engine loop.
    Memory is sequentially consistent. */
module PauseProtocol {

  /** Where a controller stands: between calls, inside `PauseThreads` (flag tested; event reset), past a
      failed exchange, or inside `ResumeThreads` (flag cleared). */
  datatype Controller = Idle | Testing | Resetting | Exchanging | Failed | Signalling

  /** Where the worker stands: about to test the flag, about to wait on the event, or in an iteration. */
  datatype Worker = AtTest | AtWait | InLoop

  /** `flag` is the pause flag, `signalled` the event; `done` counts finished iterations. */
  datatype State = State(flag: bool, signalled: bool, controllers: seq<Controller>, worker: Worker, done: nat)

  datatype Action =
    | CallPause(who: nat)
    | CallResume(who: nat)
    | Advance(who: nat)
    | Work

  predicate Start(s: State) {
    !s.flag && !s.signalled && s.worker == AtTest && s.done == 0
    && forall i | 0 <= i < |s.controllers| :: s.controllers[i] == Idle
  }

  /** Only a worker waiting on an unsignalled event is blocked. */
  predicate Blocked(s: State) { s.worker == AtWait && !s.signalled }

  predicate Enabled(s: State, a: Action) {
    match a
    case CallPause(who) => who < |s.controllers| && s.controllers[who] == Idle
    case CallResume(who) => who < |s.controllers| && s.controllers[who] == Idle
    case Advance(who) => who < |s.controllers| && s.controllers[who] !in {Idle, Failed}
    case Work => !Blocked(s)
  }

  function At(s: State, who: nat, c: Controller): State
    requires who < |s.controllers|
  {
    s.(controllers := s.controllers[who := c])
  }

  /** One atomic step of a controller inside a call. */
  function Proceed(s: State, who: nat): State
    requires Enabled(s, Advance(who))
  {
    match s.controllers[who]
    case Testing => At(s, who, if s.flag then Idle else Resetting)
    case Resetting => At(s.(signalled := false), who, Exchanging)
    case Exchanging => At(s.(flag := true), who, if s.flag then Failed else Idle)
    case Signalling => At(s.(signalled := true), who, Idle)
    case _ => s
  }

  function Next(s: State, a: Action): State
    requires Enabled(s, a)
  {
    match a
    case CallPause(who) => At(s, who, Testing)
    case CallResume(who) => At(s.(flag := false), who, Signalling)
    case Advance(who) => Proceed(s, who)
    case Work =>
      match s.worker
      case AtTest => s.(worker := if s.flag then AtWait else InLoop)
      case AtWait => s.(worker := InLoop, signalled := false)
      case InLoop => s.(worker := AtTest, done := s.done + 1)
  }

  /* -------- calls that do not overlap -------- */

  predicate AllIdle(s: State) { forall i | 0 <= i < |s.controllers| :: s.controllers[i] == Idle }

  /** A controller calls only while no other is inside a call. */
  predicate Serial(s: State, a: Action) { a.CallPause? || a.CallResume? ==> AllIdle(s) }

  /** All controllers but `who` are between calls. */
  predicate OthersIdle(s: State, who: nat) {
    who < |s.controllers| && forall i | 0 <= i < |s.controllers| && i != who :: s.controllers[i] == Idle
  }

  /** The invariant of the protocol, of which only the controller inside a call takes part. */
  predicate Inv(s: State, who: nat) {
    OthersIdle(s, who) &&
    var c := s.controllers[who];
    && (s.flag ==> !s.signalled && c in {Idle, Testing})
    && (c == Exchanging ==> !s.signalled)
    && (s.worker == AtWait && !s.flag ==> s.signalled || c in {Signalling, Exchanging})
    && c != Failed
  }

  lemma StartEstablishesInv(s: State)
    requires Start(s) && |s.controllers| > 0
    ensures Inv(s, 0)
  {}

  /** The controller inside a call after the step: the one that calls, if one does. */
  function Active(who: nat, a: Action): nat {
    match a
    case CallPause(w) => w
    case CallResume(w) => w
    case _ => who
  }

  lemma NextKeepsInv(s: State, who: nat, a: Action)
    requires Inv(s, who) && Enabled(s, a) && Serial(s, a)
    ensures Inv(Next(s, a), Active(who, a))
  {}

  /* -------- runs -------- */

  predicate Possible(s: State, actions: seq<Action>)
    decreases |actions|
  {
    actions == [] || (Enabled(s, actions[0]) && Possible(Next(s, actions[0]), actions[1..]))
  }

  function Run(s: State, actions: seq<Action>): State
    requires Possible(s, actions)
    decreases |actions|
  {
    if actions == [] then s else Run(Next(s, actions[0]), actions[1..])
  }

  /** The run, in which no two calls overlap. */
  predicate SerialRun(s: State, actions: seq<Action>)
    requires Possible(s, actions)
    decreases |actions|
  {
    actions == [] || (Serial(s, actions[0]) && SerialRun(Next(s, actions[0]), actions[1..]))
  }

  /** A single controller cannot overlap its own calls. */
  lemma {:induction false} OneControllerIsSerial(s: State, actions: seq<Action>)
    requires |s.controllers| <= 1 && Possible(s, actions)
    ensures SerialRun(s, actions)
    decreases |actions|
  {
    if actions != [] { OneControllerIsSerial(Next(s, actions[0]), actions[1..]); }
  }

  lemma {:induction false} RunKeepsInv(s: State, who: nat, actions: seq<Action>) returns (last: nat)
    requires Inv(s, who) && Possible(s, actions) && SerialRun(s, actions)
    ensures Inv(Run(s, actions), last)
    decreases |actions|
  {
    if actions == [] {
      last := who;
    } else {
      NextKeepsInv(s, who, actions[0]);
      last := RunKeepsInv(Next(s, actions[0]), Active(who, actions[0]), actions[1..]);
    }
  }

  /** With any number of controllers whose calls do not overlap, in every reachable state a set flag means
      an unsignalled event, and the exchange never fails. */
  lemma SetMeansUnsignalled(s: State, actions: seq<Action>)
    requires Start(s) && |s.controllers| > 0 && Possible(s, actions) && SerialRun(s, actions)
    ensures var t := Run(s, actions);
      (t.flag ==> !t.signalled) && Failed !in t.controllers
  {
    StartEstablishesInv(s);
    var last := RunKeepsInv(s, 0, actions);
  }

  /** No lost wake-up: a worker that waits while the flag is clear and all controllers are idle can go on. */
  lemma NoLostWakeUp(s: State, actions: seq<Action>)
    requires Start(s) && |s.controllers| > 0 && Possible(s, actions) && SerialRun(s, actions)
    ensures var t := Run(s, actions);
      !t.flag && AllIdle(t) ==> Enabled(t, Work)
  {
    StartEstablishesInv(s);
    var last := RunKeepsInv(s, 0, actions);
  }

  predicate NoResume(actions: seq<Action>) {
    forall i | 0 <= i < |actions| :: !actions[i].CallResume?
  }

  /** How many more iterations a worker can finish once the flag is set. */
  function Budget(w: Worker): nat { if w == InLoop then 1 else 0 }

  lemma {:induction false} PausedRunIsShort(s: State, who: nat, actions: seq<Action>)
    requires Inv(s, who) && s.flag && Possible(s, actions) && SerialRun(s, actions) && NoResume(actions)
    ensures var t := Run(s, actions);
      t.flag && t.done + Budget(t.worker) <= s.done + Budget(s.worker)
    decreases |actions|
  {
    if actions != [] {
      NextKeepsInv(s, who, actions[0]);
      PausedRunIsShort(Next(s, actions[0]), Active(who, actions[0]), actions[1..]);
    }
  }

  /** Pause safety: from any reachable state in which the flag is set, in particular when `PauseThreads`
      has returned, the worker finishes at most the iteration it is in until `ResumeThreads` is called. */
  lemma PauseStopsTheWorker(s: State, before: seq<Action>, after: seq<Action>)
    requires Start(s) && |s.controllers| > 0 && Possible(s, before) && SerialRun(s, before)
    requires var t := Run(s, before); t.flag && Possible(t, after) && SerialRun(t, after) && NoResume(after)
    ensures var t := Run(s, before); Run(t, after).done <= t.done + Budget(t.worker) <= t.done + 1
  {
    StartEstablishesInv(s);
    var who := RunKeepsInv(s, 0, before);
    PausedRunIsShort(Run(s, before), who, after);
  }

  /** A paused worker blocks within two of its own steps, three if it was in an iteration. */
  lemma PausedWorkerBlocks(s: State, who: nat)
    requires Inv(s, who) && s.flag
    ensures Blocked(s)
         || (var t := Next(s, Work); Blocked(t) || (Enabled(t, Work) && Blocked(Next(t, Work))))
  {}

  /* -------- the calls as a whole -------- */

  /** Whatever the worker does meanwhile, a controller that only advances inside `PauseThreads` ends
      idle with the flag set. */
  predicate Pausing(s: State, who: nat)
    requires who < |s.controllers|
  {
    var c := s.controllers[who];
    if c == Idle then s.flag else c in {Testing, Resetting, Exchanging}
  }

  function PauseStepsLeft(c: Controller): nat {
    match c
    case Testing => 3
    case Resetting => 2
    case Exchanging => 1
    case _ => 0
  }

  lemma PauseAdvances(s: State, who: nat, a: Action)
    requires Inv(s, who) && Pausing(s, who) && Enabled(s, a) && (a.Work? || a == Advance(who))
    ensures var t := Next(s, a);
      && |t.controllers| == |s.controllers| && Pausing(t, who)
      && (a.Advance? ==> PauseStepsLeft(t.controllers[who]) < PauseStepsLeft(s.controllers[who]))
      && (a.Work? ==> t.controllers == s.controllers)
  {}

  lemma {:induction false} PauseReturnsWithTheFlagSet(s: State, who: nat, actions: seq<Action>)
    requires Inv(s, who) && Pausing(s, who) && Possible(s, actions)
    requires forall i | 0 <= i < |actions| :: actions[i].Work? || actions[i] == Advance(who)
    ensures var t := Run(s, actions);
      |t.controllers| == |s.controllers| && Pausing(t, who) && (t.controllers[who] == Idle ==> t.flag)
    decreases |actions|
  {
    if actions != [] {
      PauseAdvances(s, who, actions[0]);
      NextKeepsInv(s, who, actions[0]);
      PauseReturnsWithTheFlagSet(Next(s, actions[0]), who, actions[1..]);
    }
  }

  /** The steps of an undisturbed `PauseThreads`, and where they lead. */
  function PauseCall(s: State): seq<Action> {
    if s.flag then [CallPause(0), Advance(0)] else [CallPause(0), Advance(0), Advance(0), Advance(0)]
  }

  function AfterPause(s: State): State { s.(flag := true, signalled := s.flag && s.signalled) }

  function AfterResume(s: State): State { s.(flag := false, signalled := true) }

  lemma PauseCallRuns(s: State)
    requires s.controllers == [Idle]
    ensures Possible(s, PauseCall(s)) && Run(s, PauseCall(s)) == AfterPause(s)
  {
    var s1 := Next(s, CallPause(0));
    var s2 := Next(s1, Advance(0));
    if s.flag {
      Trace(s1, s2, Advance(0), []);
      Trace(s, s1, CallPause(0), [Advance(0)]);
      assert s2.controllers == [Idle];
    } else {
      var s3 := Next(s2, Advance(0));
      var s4 := Next(s3, Advance(0));
      Trace(s3, s4, Advance(0), []);
      Trace(s2, s3, Advance(0), [Advance(0)]);
      Trace(s1, s2, Advance(0), [Advance(0), Advance(0)]);
      Trace(s, s1, CallPause(0), [Advance(0), Advance(0), Advance(0)]);
      assert s4.controllers == [Idle];
    }
  }

  lemma ResumeCallRuns(s: State)
    requires s.controllers == [Idle]
    ensures Possible(s, [CallResume(0), Advance(0)]) && Run(s, [CallResume(0), Advance(0)]) == AfterResume(s)
  {
    var s1 := Next(s, CallResume(0));
    var s2 := Next(s1, Advance(0));
    Trace(s1, s2, Advance(0), []);
    Trace(s, s1, CallResume(0), [Advance(0)]);
    assert s2.controllers == [Idle];
  }

  /* -------- calls that overlap -------- */

  ghost predicate NeverFails(s: State) {
    forall actions | Possible(s, actions) :: Failed !in Run(s, actions).controllers
  }

  /** Without the rule that calls do not overlap, the exchange never fails exactly for at most one
      controller. */
  lemma ExchangeNeverFailsIff(s: State)
    requires Start(s)
    ensures NeverFails(s) <==> |s.controllers| <= 1
  {
    if |s.controllers| >= 2 {
      OverlappingPausesFail(s);
    } else {
      forall actions | Possible(s, actions) ensures Failed !in Run(s, actions).controllers {
        OneControllerIsSerial(s, actions);
        RunKeepsNumber(s, actions);
        if |s.controllers| == 1 { SetMeansUnsignalled(s, actions); }
      }
    }
  }

  lemma {:induction false} RunKeepsNumber(s: State, actions: seq<Action>)
    requires Possible(s, actions)
    ensures |Run(s, actions).controllers| == |s.controllers|
    decreases |actions|
  {
    if actions != [] { RunKeepsNumber(Next(s, actions[0]), actions[1..]); }
  }

  /** Two controllers both find the flag clear, then both exchange. */
  lemma OverlappingPausesFail(s: State)
    requires Start(s) && |s.controllers| >= 2
    ensures exists actions :: Possible(s, actions) && Failed in Run(s, actions).controllers
  {
    var s1 := Next(s, CallPause(0));
    var s2 := Next(s1, Advance(0));
    var s3 := Next(s2, Advance(0));
    var s4 := Next(s3, CallPause(1));
    var s5 := Next(s4, Advance(1));
    var s6 := Next(s5, Advance(1));
    var s7 := Next(s6, Advance(0));
    var s8 := Next(s7, Advance(1));
    var actions := [CallPause(0), Advance(0), Advance(0), CallPause(1), Advance(1), Advance(1), Advance(0), Advance(1)];
    Trace(s7, s8, Advance(1), []);
    Trace(s6, s7, Advance(0), [Advance(1)]);
    Trace(s5, s6, Advance(1), [Advance(0), Advance(1)]);
    Trace(s4, s5, Advance(1), [Advance(1), Advance(0), Advance(1)]);
    Trace(s3, s4, CallPause(1), [Advance(1), Advance(1), Advance(0), Advance(1)]);
    Trace(s2, s3, Advance(0), [CallPause(1), Advance(1), Advance(1), Advance(0), Advance(1)]);
    Trace(s1, s2, Advance(0), [Advance(0), CallPause(1), Advance(1), Advance(1), Advance(0), Advance(1)]);
    Trace(s, s1, CallPause(0), [Advance(0), Advance(0), CallPause(1), Advance(1), Advance(1), Advance(0), Advance(1)]);
    assert Possible(s, actions) && Run(s, actions).controllers[1] == Failed;
  }

  lemma Trace(s: State, t: State, a: Action, rest: seq<Action>)
    requires Enabled(s, a) && t == Next(s, a) && Possible(t, rest)
    ensures Possible(s, [a] + rest) && Run(s, [a] + rest) == Run(t, rest)
  {
    assert ([a] + rest)[1..] == rest;
  }

  /** `CoreTaskScheduler`, its calls run without interference. */
  class CoreTaskScheduler {
    var pauseState: int
    var signalled: bool

    predicate Valid()
      reads this
    {
      pauseState == 0 || pauseState == 1
    }

    /** The shared state seen next to an idle controller and a worker. */
    function Shared(worker: Worker, done: nat): State
      reads this
    {
      State(pauseState == 1, signalled, [Idle], worker, done)
    }

    constructor ()
      ensures Valid() && !signalled && pauseState == 0
    {
      pauseState, signalled := 0, false;
    }

    /** An atomic exchange; true when the flag was clear. */
    method CheckAndSetPause() returns (clear: bool)
      requires Valid()
      modifies this`pauseState
      ensures Valid() && pauseState == 1 && clear == (old(pauseState) == 0)
    {
      clear := pauseState == 0;
      pauseState := 1;
    }

    /** `threw` tells that the exchange found the flag set. */
    method PauseThreads() returns (threw: bool)
      requires Valid()
      modifies this
      ensures Valid() && !threw
      ensures forall w, d :: Shared(w, d) == AfterPause(old(Shared(w, d)))
    {
      threw := false;
      if pauseState == 0 {
        signalled := false;
        var clear := CheckAndSetPause();
        threw := !clear;
      }
    }

    method ResumeThreads()
      requires Valid()
      modifies this
      ensures Valid()
      ensures forall w, d :: Shared(w, d) == AfterResume(old(Shared(w, d)))
    {
      pauseState := 0;
      signalled := true;
    }

    /** `passed` is false where the worker blocks. */
    method PauseWait() returns (passed: bool)
      requires Valid()
      modifies this`signalled
      ensures passed == (pauseState == 0 || old(signalled))
      ensures signalled == (old(signalled) && pauseState == 0)
    {
      passed := true;
      if pauseState == 1 {
        passed := signalled;
        signalled := false;
      }
    }
  }
}

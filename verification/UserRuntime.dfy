/**
 * The loop that drives the two user processes, init and the desktop service: what each return to the kernel means,
 * which process runs next, and when the loop parks.
 */
module UserRuntime {
  import opened Wrappers
  import opened ProcessTable

  const INIT: nat := 0
  const DESKTOP: nat := 1

  /** Why a process came back to the kernel. */
  datatype Event =
    | Called(who: nat, call: Call)
    | Yielded(who: nat)
    | Preempted(who: nat)
    | Left(who: nat)

  /**
   * Where the loop is: a process in user mode; an event in hand; parked on a request until it can complete. `Stuck`
   * and `Broken` stand for stops of the kernel: nothing to run, and any other inconsistency. `Over` is the stop made
   * on purpose when a process exits.
   */
  datatype Place =
    | User(who: nat)
    | Handling(event: Event)
    | Parked(who: nat, call: Call)
    | Stuck
    | Broken
    | Over

  /**
   * `parked` is the request put aside; `owed` the registers each process is to be resumed with; `loaded` the last ones
   * loaded.
   */
  datatype State = State(ps: Processes, place: Place, parked: Option<(nat, Call)>, owed: seq<Frame>, loaded: Frame)

  /** What happens next: a tick or a call in user mode, the kernel handling its event, a parked request completing. */
  datatype Action =
    | Tick(frame: Frame)
    | Request(call: Call, frame: Frame)
    | Quit
    | Handle(result: int)
    | Wake(result: int)

  /**
   * Calls answered at once. Only init has a child to wait for. Only the desktop service may await desktop events, own
   * a connection or listen: for init accept is refused, and every descriptor it polls is reported invalid.
   */
  predicate Refused(who: nat, call: Call) {
    || (call.Wait? && who != INIT)
    || ((call.DesktopWait? || call.WaylandWait? || call.Accept? || call.Poll?) && who != DESKTOP)
  }

  predicate Shaped(s: State) {
    && |s.ps| == |s.owed| == 2 && (s.parked.Some? ==> s.parked.value.0 < 2)
    && match s.place
       case User(i) => i < 2
       case Handling(event) => event.who < 2
       case Parked(i, _) => i < 2
       case _ => true
  }

  /** What a return from user mode means, if state and pending call make sense together. */
  function AfterUser(ps: Processes, i: nat): Option<Event>
    requires i < |ps|
  {
    match (ps[i].state, ps[i].pending)
    case (Exited, None) => Some(Left(i))
    case (Runnable, None) => Some(Preempted(i))
    case (Blocked, Some(call)) => if call.Yield? then None else Some(Called(i, call))
    case (Runnable, Some(Yield)) => Some(Yielded(i))
    case _ => None
  }

  function Return(s: State, i: nat): (t: State)
    requires Shaped(s) && i < 2
    ensures Shaped(t)
  {
    var event := AfterUser(s.ps, i);
    s.(place := if event.Some? then Handling(event.value) else Broken)
  }

  /** Running a process: it must be schedulable with nothing pending but a yield. */
  function RunProcess(s: State, i: nat): (t: State)
    requires Shaped(s) && i < 2
    ensures Shaped(t)
  {
    var p := s.ps[i];
    if !p.Schedulable() || (p.state == Ready && p.pending.Some?) || (p.pending.Some? && p.pending.value != Yield)
    then s.(place := Broken)
    else s.(ps := Enter(s.ps, i), place := User(i), loaded := ResumeFrame(p))
  }

  /** Completing a call: it must be what the process is blocked on. */
  function Resume(s: State, i: nat, call: Call, result: int): (t: State)
    requires Shaped(s) && i < 2
    ensures Shaped(t)
  {
    if s.ps[i].pending != Some(call) || s.ps[i].state != Blocked then s.(place := Broken)
    else
      RunProcess(s.(ps := Complete(s.ps, i, result), owed := s.owed[i := s.ps[i].saved.(rax := result)]), i)
  }

  /** Calls after which the loop turns to another process and may park. */
  predicate Parks(call: Call) {
    call.Accept? || call.Poll? || (call.DesktopWait? && call.config)
  }

  function HandleEvent(s: State, event: Event, result: int): (t: State)
    requires Shaped(s) && event.who < 2
    ensures Shaped(t)
  {
    var next := NextAfter(s.ps, event.who);
    match event
    case Called(i, call) =>
      if Parks(call) then
        if next.Some? then RunProcess(s.(parked := Some((i, call))), next.value) else s.(place := Parked(i, call))
      else if call.Wait? then
        if s.parked.Some? then s.(place := Parked(s.parked.value.0, s.parked.value.1), parked := None)
        else if next.Some? then RunProcess(s, next.value) else s.(place := Stuck)
      else Resume(s, i, call, result)
    case Yielded(_) => if next.Some? then RunProcess(s, next.value) else s.(place := Stuck)
    case Preempted(i) => if next.Some? && next.value != i then RunProcess(s, next.value) else s.(place := Broken)
    case Left(_) => s.(place := Over)
  }

  function Step(s: State, a: Action): (t: State)
    requires Shaped(s)
    ensures Shaped(t)
  {
    match s.place
    case User(i) => UserStep(s, i, a)
    case Handling(event) => if a.Handle? then HandleEvent(s, event, a.result) else s
    case Parked(i, call) => if a.Wake? then Resume(s.(parked := None), i, call, a.result) else s
    case _ => s
  }

  /** What a process in user mode can bring about. */
  function UserStep(s: State, i: nat, a: Action): (t: State)
    requires Shaped(s) && i < 2
    ensures Shaped(t)
  {
    match a
    case Tick(frame) =>
      if AnySchedulable(s.ps) then Return(s.(ps := Preempt(s.ps, i, frame), owed := s.owed[i := frame]), i) else s
    case Request(call, frame) =>
      if Refused(i, call) then s
      else
        var owed := if call.Yield? then s.owed[i := frame.(rax := 0)] else s.owed;
        Return(s.(ps := Suspend(s.ps, i, call, frame), owed := owed), i)
    case Quit => Return(s.(ps := Exit(s.ps, i)), i)
    case _ => s
  }

  function Run(s: State, actions: seq<Action>): (t: State)
    requires Shaped(s)
    ensures Shaped(t)
    decreases |actions|
  {
    if actions == [] then s else Run(Step(s, actions[0]), actions[1..])
  }

  /** Both processes ready, and init entered. */
  function Boot(start: Frame): State {
    State([Process(Running, None, start), Process(Ready, None, start)], User(INIT), None, [start, start], start)
  }

  /** A process waiting to be resumed will be given the registers it is owed. */
  predicate Owed(s: State, i: nat)
    requires i < |s.ps| == |s.owed|
  {
    s.ps[i].state == Runnable ==> ResumeFrame(s.ps[i]) == s.owed[i]
  }

  /** The other of the two. */
  function Other(i: nat): nat { 1 - (if i > 1 then 1 else i) }

  /** The place fits the processes; `put aside` below is a request its process is still blocked on. */
  predicate Fits(s: State)
    requires Shaped(s)
  {
    match s.place
    case User(i) =>
      s.ps[i].state == Running && s.ps[Other(i)].state != Running && (s.ps[i].state == Running ==> s.loaded == s.ps[i].saved)
    case Handling(Called(i, call)) =>
      && s.ps[i].state == Blocked && s.ps[i].pending == Some(call) && !call.Yield? && s.ps[Other(i)].state != Running
      && !Refused(i, call) && (s.parked.Some? ==> s.parked.value.0 != i)
    case Handling(Yielded(i)) => s.ps[i].state == Runnable && s.ps[Other(i)].state != Running
    case Handling(Preempted(i)) => s.ps[i].state == Runnable && s.ps[Other(i)].Schedulable()
    case Handling(Left(i)) => s.ps[Other(i)].state != Running
    case Parked(i, call) =>
      && s.ps[i].state == Blocked && s.ps[i].pending == Some(call) && !call.Yield? && !AnySchedulable(s.ps)
      && s.ps[Other(i)].state != Running && (s.parked.Some? ==> s.parked.value.0 != i)
    case Stuck => !AnySchedulable(s.ps)
    case Broken => false
    case Over => true
  }

  predicate Inv(s: State) {
    && Shaped(s) && Fits(s)
    && (forall i | 0 <= i < 2 :: s.ps[i].Consistent() && Owed(s, i))
    && (s.parked.Some? && !s.place.Over? ==>
          && s.ps[s.parked.value.0].state == Blocked && s.ps[s.parked.value.0].pending == Some(s.parked.value.1)
          && !s.parked.value.1.Yield?)
  }

  lemma UserStepInv(s: State, i: nat, a: Action)
    requires Inv(s) && s.place == User(i)
    ensures Inv(UserStep(s, i, a))
  {
    match a
    case Tick(_) => TickInv(s, i, a);
    case Request(_, _) => RequestInv(s, i, a);
    case _ =>
  }

  lemma TickInv(s: State, i: nat, a: Action)
    requires Inv(s) && s.place == User(i) && a.Tick?
    ensures Inv(UserStep(s, i, a))
  {
    assert s.ps[Other(i)].Schedulable() || !AnySchedulable(s.ps);
  }

  lemma RequestInv(s: State, i: nat, a: Action)
    requires Inv(s) && s.place == User(i) && a.Request?
    ensures Inv(UserStep(s, i, a))
  {
  }

  lemma RunProcessInv(s: State, i: nat)
    requires Shaped(s) && i < 2 && s.ps[i].Schedulable() && s.ps[Other(i)].state != Running
    requires forall k | 0 <= k < 2 :: s.ps[k].Consistent() && Owed(s, k)
    requires s.parked.Some? ==>
      && s.ps[s.parked.value.0].state == Blocked && s.ps[s.parked.value.0].pending == Some(s.parked.value.1)
      && !s.parked.value.1.Yield?
    ensures Inv(RunProcess(s, i)) && RunProcess(s, i).place == User(i)
    ensures s.ps[i].state == Runnable ==> RunProcess(s, i).loaded == s.owed[i]
  {
  }

  lemma ResumeInv(s: State, i: nat, call: Call, result: int)
    requires Shaped(s) && i < 2 && s.ps[i].state == Blocked && s.ps[i].pending == Some(call)
    requires s.ps[Other(i)].state != Running && (s.parked.Some? ==> s.parked.value.0 != i)
    requires forall k | 0 <= k < 2 :: s.ps[k].Consistent() && Owed(s, k)
    requires s.parked.Some? ==>
      && s.ps[s.parked.value.0].state == Blocked && s.ps[s.parked.value.0].pending == Some(s.parked.value.1)
      && !s.parked.value.1.Yield?
    ensures Inv(Resume(s, i, call, result)) && Resume(s, i, call, result).place == User(i)
    ensures Resume(s, i, call, result).loaded == s.ps[i].saved.(rax := result)
  {
    var t := s.(ps := Complete(s.ps, i, result), owed := s.owed[i := s.ps[i].saved.(rax := result)]);
    RunProcessInv(t, i);
  }

  lemma HandleInv(s: State, event: Event, result: int)
    requires Inv(s) && s.place == Handling(event)
    ensures Inv(HandleEvent(s, event, result))
  {
    var next := NextAfter(s.ps, event.who);
    match event
    case Called(i, call) =>
      if Parks(call) {
        if next.Some? {
          RunProcessInv(s.(parked := Some((i, call))), next.value);
        }
      } else if call.Wait? {
        if s.parked.None? && next.Some? {
          RunProcessInv(s, next.value);
        }
      } else {
        ResumeInv(s, i, call, result);
      }
    case Yielded(i) => RunProcessInv(s, next.value);
    case Preempted(i) => RunProcessInv(s, next.value);
    case Left(_) =>
  }

  lemma StepInv(s: State, a: Action)
    requires Inv(s)
    ensures Inv(Step(s, a))
  {
    match s.place
    case User(i) => UserStepInv(s, i, a);
    case Handling(event) => if a.Handle? { HandleInv(s, event, a.result); }
    case Parked(i, call) => if a.Wake? { ResumeInv(s.(parked := None), i, call, a.result); }
    case _ =>
  }

  lemma {:induction false} RunInv(s: State, actions: seq<Action>)
    requires Inv(s)
    ensures Inv(Run(s, actions))
    decreases |actions|
  {
    if actions != [] {
      StepInv(s, actions[0]);
      RunInv(Step(s, actions[0]), actions[1..]);
    }
  }

  /**
   * In every run: state and pending call of each process go together, no consistency check of the scheduler fails,
   * and the loop parks only when nothing is schedulable, on the call its process is blocked on.
   */
  lemma SchedulerConsistent(start: Frame, actions: seq<Action>)
    ensures var s := Run(Boot(start), actions);
      && !s.place.Broken?
      && (forall i | 0 <= i < 2 :: s.ps[i].Consistent())
      && (s.place.Parked? ==>
            !AnySchedulable(s.ps) && s.ps[s.place.who].state == Blocked && s.ps[s.place.who].pending == Some(s.place.call))
  {
    RunInv(Boot(start), actions);
  }

  // ------------------------------------------------------------------ the registers a process comes back with

  /** The process is ready to be entered again. */
  predicate Resumable(p: Process) {
    p.state == Runnable && (p.pending.None? || p.pending == Some(Yield))
  }

  /** Until it is entered nothing touches it, and then it gets its registers back. */
  lemma AwayStep(s: State, i: nat, p: Process, a: Action)
    requires Inv(s) && i < 2 && s.ps[i] == p && Resumable(p)
    ensures var t := Step(s, a); t.ps[i] == p || (t.place == User(i) && t.loaded == ResumeFrame(p))
  {
    hide Fits, HandleEvent, Resume, ResumeFrame;
    match s.place
    case User(k) => if k == i { RunningNow(s, i); }
    case Handling(event) => if a.Handle? { AwayHandle(s, i, p, event, a.result); }
    case Parked(k, call) => if a.Wake? { AwayResume(s.(parked := None), i, p, k, call, a.result); }
    case _ =>
  }

  lemma RunningNow(s: State, i: nat)
    requires Inv(s) && i < 2 && s.place == User(i)
    ensures s.ps[i].state == Running
  {
  }

  lemma AwayResume(s: State, i: nat, p: Process, k: nat, call: Call, result: int)
    requires Shaped(s) && i < 2 && k < 2 && s.ps[i] == p && Resumable(p)
    ensures Resume(s, k, call, result).ps[i] == p
  {
  }

  lemma AwayHandle(s: State, i: nat, p: Process, event: Event, result: int)
    requires Shaped(s) && i < 2 && event.who < 2 && s.ps[i] == p && Resumable(p)
    ensures var t := HandleEvent(s, event, result); t.ps[i] == p || (t.place == User(i) && t.loaded == ResumeFrame(p))
  {
    hide RunProcess, ResumeFrame;
    var next := NextAfter(s.ps, event.who);
    if next.Some? {
      AwayRunProcess(s, i, p, next.value);
    }
    match event
    case Called(k, call) =>
      if next.Some? {
        AwayRunProcess(s.(parked := Some((k, call))), i, p, next.value);
      }
      AwayResume(s, i, p, k, call, result);
    case _ =>
  }

  lemma AwayRunProcess(s: State, i: nat, p: Process, k: nat)
    requires Shaped(s) && i < 2 && k < 2 && s.ps[i] == p && Resumable(p)
    ensures var t := RunProcess(s, k); t.ps[i] == p || (t.place == User(i) && t.loaded == ResumeFrame(p))
  {
  }

  /** The run does not pass through the process's user mode before its end. */
  predicate Away(s: State, i: nat, actions: seq<Action>)
    requires Shaped(s)
    decreases |actions|
  {
    actions != [] ==> s.place != User(i) && Away(Step(s, actions[0]), i, actions[1..])
  }

  lemma {:induction false} AwayRun(s: State, i: nat, p: Process, actions: seq<Action>)
    requires Inv(s) && i < 2 && s.ps[i] == p && Resumable(p) && Away(s, i, actions)
    ensures Run(s, actions).place == User(i) ==> Run(s, actions).loaded == ResumeFrame(p)
    decreases |actions|
  {
    hide ResumeFrame;
    if actions == [] {
      if s.place == User(i) {
        RunningNow(s, i);
      }
    } else {
      var t := Step(s, actions[0]);
      StepInv(s, actions[0]);
      AwayStep(s, i, p, actions[0]);
      if t.ps[i] == p {
        AwayRun(t, i, p, actions[1..]);
      }
    }
  }

  /** A process interrupted by the timer next runs with exactly the registers it was interrupted with. */
  lemma PreemptedResumes(start: Frame, before: seq<Action>, frame: Frame, after: seq<Action>)
    requires Run(Boot(start), before).place.User?
    requires var i := Run(Boot(start), before).place.who; Away(Step(Run(Boot(start), before), Tick(frame)), i, after)
    ensures var s := Run(Boot(start), before);
      var i := s.place.who;
      var t := Run(Step(s, Tick(frame)), after);
      AnySchedulable(s.ps) && t.place == User(i) ==> t.loaded == frame
  {
    var s := Run(Boot(start), before);
    var i := s.place.who;
    RunInv(Boot(start), before);
    StepInv(s, Tick(frame));
    if AnySchedulable(s.ps) {
      AwayRun(Step(s, Tick(frame)), i, Process(Runnable, None, frame), after);
    }
  }

  /** A process that yields next runs with the registers it yielded with, and zero as the result. */
  lemma YieldedResumes(start: Frame, before: seq<Action>, frame: Frame, after: seq<Action>)
    requires Run(Boot(start), before).place.User?
    requires var i := Run(Boot(start), before).place.who; Away(Step(Run(Boot(start), before), Request(Yield, frame)), i, after)
    ensures var s := Run(Boot(start), before);
      var t := Run(Step(s, Request(Yield, frame)), after);
      t.place == User(s.place.who) ==> t.loaded == frame.(rax := 0)
  {
    var s := Run(Boot(start), before);
    RunInv(Boot(start), before);
    StepInv(s, Request(Yield, frame));
    AwayRun(Step(s, Request(Yield, frame)), s.place.who, Process(Runnable, Some(Yield), frame), after);
  }

  /** While its call is open nothing touches the process, and the action that completes the call gives the result. */
  lemma BlockedStep(s: State, i: nat, call: Call, frame: Frame, a: Action)
    requires Inv(s) && i < 2 && s.ps[i] == Process(Blocked, Some(call), frame) && !call.Yield?
    ensures var t := Step(s, a);
      || t.ps[i] == Process(Blocked, Some(call), frame)
      || (t.place == User(i) && (a.Handle? || a.Wake?) && t.loaded == frame.(rax := a.result))
  {
    hide Fits, HandleEvent, Resume, UserStep;
    match s.place
    case User(k) => BlockedUser(s, i, call, frame, k, a);
    case Handling(event) => if a.Handle? { BlockedHandle(s, i, call, frame, event, a.result); }
    case Parked(k, other) => if a.Wake? { BlockedResume(s.(parked := None), i, call, frame, k, other, a.result); }
    case _ =>
  }

  lemma BlockedUser(s: State, i: nat, call: Call, frame: Frame, k: nat, a: Action)
    requires Inv(s) && i < 2 && s.ps[i] == Process(Blocked, Some(call), frame) && s.place == User(k)
    ensures UserStep(s, k, a).ps[i] == Process(Blocked, Some(call), frame)
  {
    if k == i { RunningNow(s, i); }
  }

  lemma BlockedResume(s: State, i: nat, call: Call, frame: Frame, k: nat, other: Call, result: int)
    requires Shaped(s) && i < 2 && k < 2 && s.ps[i] == Process(Blocked, Some(call), frame) && !call.Yield?
    ensures var t := Resume(s, k, other, result);
      t.ps[i] == Process(Blocked, Some(call), frame) || (t.place == User(i) && t.loaded == frame.(rax := result))
  {
  }

  lemma BlockedHandle(s: State, i: nat, call: Call, frame: Frame, event: Event, result: int)
    requires Shaped(s) && i < 2 && event.who < 2 && s.ps[i] == Process(Blocked, Some(call), frame) && !call.Yield?
    ensures var t := HandleEvent(s, event, result);
      t.ps[i] == Process(Blocked, Some(call), frame) || (t.place == User(i) && t.loaded == frame.(rax := result))
  {
    hide RunProcess, Resume;
    var next := NextAfter(s.ps, event.who);
    if next.Some? {
      BlockedRunProcess(s, i, call, frame, next.value);
    }
    match event
    case Called(k, other) =>
      if next.Some? {
        BlockedRunProcess(s.(parked := Some((k, other))), i, call, frame, next.value);
      }
      BlockedResume(s, i, call, frame, k, other, result);
    case _ =>
  }

  lemma BlockedRunProcess(s: State, i: nat, call: Call, frame: Frame, k: nat)
    requires Shaped(s) && i < 2 && k < 2 && s.ps[i] == Process(Blocked, Some(call), frame)
    ensures RunProcess(s, k).ps[i] == Process(Blocked, Some(call), frame)
  {
  }

  /** The value the last action of a run gives to the call it completes. */
  function LastResult(actions: seq<Action>): Option<int> {
    if actions == [] then None
    else
      match actions[|actions| - 1]
      case Handle(result) => Some(result)
      case Wake(result) => Some(result)
      case _ => None
  }

  lemma {:induction false} BlockedRun(s: State, i: nat, call: Call, frame: Frame, actions: seq<Action>)
    requires Inv(s) && i < 2 && s.ps[i] == Process(Blocked, Some(call), frame) && !call.Yield? && Away(s, i, actions)
    ensures Run(s, actions).place == User(i) ==>
      LastResult(actions).Some? && Run(s, actions).loaded == frame.(rax := LastResult(actions).value)
    decreases |actions|
  {
    if actions == [] {
      if s.place == User(i) {
        RunningNow(s, i);
      }
    } else {
      var t, rest := Step(s, actions[0]), actions[1..];
      StepInv(s, actions[0]);
      BlockedStep(s, i, call, frame, actions[0]);
      assert rest != [] ==> rest[|rest| - 1] == actions[|actions| - 1];
      hide Step, Inv;
      if t.ps[i] == Process(Blocked, Some(call), frame) {
        BlockedRun(t, i, call, frame, rest);
      } else {
        assert rest == [];
      }
    }
  }

  /**
   * A process that makes a blocking call next runs with the registers of that call, and as its result the value given
   * by the action that completes it, which is the last one before it runs; whatever ran in between, and also if the
   * call was put aside and parked.
   */
  lemma CallResumes(start: Frame, before: seq<Action>, call: Call, frame: Frame, after: seq<Action>)
    requires Run(Boot(start), before).place.User?
    requires var i := Run(Boot(start), before).place.who;
      !call.Yield? && !Refused(i, call) && Away(Step(Run(Boot(start), before), Request(call, frame)), i, after)
    ensures var s := Run(Boot(start), before);
      var t := Run(Step(s, Request(call, frame)), after);
      t.place == User(s.place.who) ==> LastResult(after).Some? && t.loaded == frame.(rax := LastResult(after).value)
  {
    var s := Run(Boot(start), before);
    RunInv(Boot(start), before);
    StepInv(s, Request(call, frame));
    BlockedRun(Step(s, Request(call, frame)), s.place.who, call, frame, after);
  }

  /**
   * In every run a call is answered at once, with the result it is handled with, unless it waits for a connection, for
   * descriptors, for a configuration to be applied or for another process.
   */
  lemma AnsweredAtOnce(start: Frame, before: seq<Action>, result: int)
    requires var place := Run(Boot(start), before).place;
      place.Handling? && place.event.Called? && var call := place.event.call;
      !call.Accept? && !call.Poll? && !(call.DesktopWait? && call.config) && !call.Wait?
    ensures var s := Run(Boot(start), before);
      var i, t := s.place.event.who, Step(s, Handle(result));
      t.place == User(i) && t.loaded == s.ps[i].saved.(rax := result)
  {
    var s := Run(Boot(start), before);
    RunInv(Boot(start), before);
    ResumeInv(s, s.place.event.who, s.place.event.call, result);
  }

  /** And a parked one as soon as its request completes. */
  lemma WokenAtOnce(start: Frame, before: seq<Action>, result: int)
    requires Run(Boot(start), before).place.Parked?
    ensures var s := Run(Boot(start), before);
      var i, t := s.place.who, Step(s, Wake(result));
      t.place == User(i) && t.loaded == s.ps[i].saved.(rax := result)
  {
    var s := Run(Boot(start), before);
    RunInv(Boot(start), before);
    ResumeInv(s.(parked := None), s.place.who, s.place.call, result);
  }

  /** In every run a tick takes the processor from a process exactly when the other one could run. */
  lemma TickLeaves(start: Frame, before: seq<Action>, frame: Frame)
    requires Run(Boot(start), before).place.User?
    ensures var s := Run(Boot(start), before);
      var i := s.place.who;
      Step(s, Tick(frame)).place == if s.ps[Other(i)].Schedulable() then Handling(Preempted(i)) else User(i)
  {
    var s := Run(Boot(start), before);
    RunInv(Boot(start), before);
    hide Run;
    RunningNow(s, s.place.who);
  }

  /** A call that is not answered at once suspends the process, a yield lets it go on later, leaving ends the run. */
  lemma CallLeaves(start: Frame, before: seq<Action>, call: Call, frame: Frame)
    requires Run(Boot(start), before).place.User?
    ensures var s := Run(Boot(start), before);
      var i := s.place.who;
      && Step(s, Request(call, frame)).place ==
           (if Refused(i, call) then User(i) else if call.Yield? then Handling(Yielded(i)) else Handling(Called(i, call)))
      && (Refused(i, call) ==> Step(s, Request(call, frame)) == s)
  {
    hide Run, Refused;
  }

  lemma QuitLeaves(start: Frame, before: seq<Action>, result: int)
    requires Run(Boot(start), before).place.User?
    ensures Step(Step(Run(Boot(start), before), Quit), Handle(result)).place == Over
  {
    var s := Run(Boot(start), before);
    RunInv(Boot(start), before);
    hide Run;
    assert Step(s, Quit).place == Handling(Left(s.place.who));
  }

  // ------------------------------------------------------------------ who runs next

  /** In every run, a process that gives way is followed by the other one if that can run, and else by itself. */
  lemma GivesWay(start: Frame, before: seq<Action>, result: int)
    requires var place := Run(Boot(start), before).place; place.Handling? && (place.event.Yielded? || place.event.Preempted?)
    ensures var s := Run(Boot(start), before);
      var i := s.place.event.who;
      Step(s, Handle(result)).place == User(if s.ps[Other(i)].Schedulable() then Other(i) else i)
  {
    var s := Run(Boot(start), before);
    RunInv(Boot(start), before);
    HandleInv(s, s.place.event, result);
  }

  /** And one that waits for a connection, descriptors or a configuration leaves the processor to the other if it can run. */
  lemma AsideGivesWay(start: Frame, before: seq<Action>, result: int)
    requires var place := Run(Boot(start), before).place;
      place.Handling? && place.event.Called? && var call := place.event.call;
      call.Accept? || call.Poll? || (call.DesktopWait? && call.config)
    ensures var s := Run(Boot(start), before);
      var i, t := s.place.event.who, Step(s, Handle(result));
      if s.ps[Other(i)].Schedulable() then t.place == User(Other(i)) && t.parked == Some((i, s.place.event.call))
      else t.place == Parked(i, s.place.event.call)
  {
    var s := Run(Boot(start), before);
    RunInv(Boot(start), before);
    HandleInv(s, s.place.event, result);
  }

  // ------------------------------------------------------------------ when the loop has nothing to run

  predicate InHand(s: State, i: nat) {
    s.place.Handling? && s.place.event.Called? && s.place.event.who == i
  }

  /** Init waits for its child, and its wait has been handled. */
  predicate InitWaits(s: State)
    requires Shaped(s)
  {
    s.ps[INIT].state == Blocked && s.ps[INIT].pending.Some? && s.ps[INIT].pending.value.Wait? && !InHand(s, INIT)
  }

  /** Init can still wait, and a blocked process is in hand or put aside. */
  predicate Lively(s: State)
    requires Shaped(s)
  {
    && !s.place.Parked? && s.ps[INIT].state != Exited && s.ps[DESKTOP].state != Exited
    && (s.ps[INIT].state == Blocked ==> InHand(s, INIT))
    && (s.ps[DESKTOP].state == Blocked ==> InHand(s, DESKTOP) || s.parked.Some?)
  }

  predicate ParkedByDesktop(s: State) {
    s.parked.Some? ==> s.parked.value.0 == DESKTOP && Parks(s.parked.value.1)
  }

  predicate Accounted(s: State)
    requires Shaped(s)
  {
    && !s.place.Stuck?
    && (s.place.Parked? ==> s.place.who == DESKTOP && Parks(s.place.call)) && ParkedByDesktop(s)
    && (s.ps[INIT].state == Blocked ==> s.ps[INIT].pending.Some? && !Parks(s.ps[INIT].pending.value))
    && (s.place.Over? || (s.place.Handling? && s.place.event.Left?) || InitWaits(s) || Lively(s))
  }

  lemma UserAccounted(s: State, i: nat, a: Action)
    requires Inv(s) && Accounted(s) && s.place == User(i)
    ensures Accounted(UserStep(s, i, a))
  {
  }

  lemma HandleAccounted(s: State, event: Event, result: int)
    requires Inv(s) && Accounted(s) && s.place == Handling(event)
    ensures Accounted(HandleEvent(s, event, result))
  {
    var next := NextAfter(s.ps, event.who);
    match event
    case Called(i, call) =>
      if Parks(call) && next.Some? {
        RunAccountedOnce(s.(parked := Some((i, call))), next.value);
      } else if call.Wait? && next.Some? {
        RunAccountedOnce(s, next.value);
      }
    case Left(_) =>
    case _ => RunAccountedOnce(s, next.value);
  }

  lemma RunAccountedOnce(s: State, i: nat)
    requires Shaped(s) && i < 2 && s.ps[i].Schedulable() && s.ps[i].Consistent()
    requires ParkedByDesktop(s)
    requires s.ps[INIT].state == Blocked ==> s.ps[INIT].pending.Some? && s.ps[INIT].pending.value.Wait?
    requires s.ps[INIT].state == Blocked ||
      (s.ps[INIT].state != Exited && s.ps[DESKTOP].state != Exited && (s.ps[DESKTOP].state == Blocked ==> s.parked.Some?))
    ensures Accounted(RunProcess(s, i))
  {
  }

  lemma WakeAccounted(s: State, result: int)
    requires Inv(s) && Accounted(s) && s.place.Parked?
    ensures Accounted(Resume(s.(parked := None), s.place.who, s.place.call, result))
  {
  }

  lemma {:induction false} RunAccounted(s: State, actions: seq<Action>)
    requires Inv(s) && Accounted(s)
    ensures Accounted(Run(s, actions))
    decreases |actions|
  {
    if actions != [] {
      var a := actions[0];
      StepInv(s, a);
      match s.place {
        case User(i) => UserAccounted(s, i, a);
        case Handling(event) => if a.Handle? { HandleAccounted(s, event, a.result); }
        case Parked(_, _) => if a.Wake? { WakeAccounted(s, a.result); }
        case _ =>
      }
      hide Accounted;
      RunAccounted(Step(s, a), actions[1..]);
    }
  }

  /** In every run the loop has something to run or parks, and only on a request of the desktop service. */
  lemma NeverStuck(start: Frame, actions: seq<Action>)
    ensures var place := Run(Boot(start), actions).place;
      !place.Stuck? && (place.Parked? ==> place.who == DESKTOP && Parks(place.call))
  {
    RunAccounted(Boot(start), actions);
  }
}

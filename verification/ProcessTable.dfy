/** The process table: the state, pending call and saved registers of each process, and the scheduler's choice. */
module ProcessTable {
  import opened Wrappers

  datatype ProcessState = Ready | Running | Blocked | Runnable | Exited

  /** The suspending calls; each carries what tells one request from another. */
  datatype Call =
    | OpenAt(id: nat)
    | Read(id: nat)
    | RecvMsg(id: nat)
    | Write(id: nat)
    | Close(id: nat)
    | Accept(id: nat)
    | Yield
    | Wait(id: nat)
    | DesktopWait(id: nat, config: bool)
    | WaylandWait(id: nat)
    | Poll(id: nat)

  /** The user registers: the result register and the rest. */
  datatype Frame = Frame(rax: int, rest: nat)

  datatype Process = Process(state: ProcessState, pending: Option<Call>, saved: Frame) {
    predicate Schedulable() { state == Ready || state == Runnable }

    /** State and pending call go together. */
    predicate Consistent() {
      match state
      case Ready => pending.None?
      case Running => pending.None?
      case Blocked => pending.Some? && !pending.value.Yield?
      case Runnable => pending.None? || pending.value.Yield?
      case Exited => pending.None?
    }
  }

  type Processes = seq<Process>

  predicate AnySchedulable(ps: Processes) {
    exists i | 0 <= i < |ps| :: ps[i].Schedulable()
  }

  /** The first schedulable process from an index on. */
  function FirstFrom(ps: Processes, from: nat): (i: Option<nat>)
    ensures i.Some? ==> from <= i.value < |ps| && ps[i.value].Schedulable()
    ensures i.Some? ==> forall j | from <= j < i.value :: !ps[j].Schedulable()
    ensures i.None? ==> forall j | from <= j < |ps| :: !ps[j].Schedulable()
    decreases |ps| - from
  {
    if from >= |ps| then None else if ps[from].Schedulable() then Some(from) else FirstFrom(ps, from + 1)
  }

  /** The cyclic scan: the next schedulable process after this one, itself last. */
  function NextAfter(ps: Processes, i: nat): (r: Option<nat>)
    ensures r.Some? <==> AnySchedulable(ps)
    ensures r.Some? ==> r.value < |ps| && ps[r.value].Schedulable()
    ensures r == Some(i) ==> forall j | 0 <= j < |ps| && j != i :: !ps[j].Schedulable()
  {
    var above := FirstFrom(ps, i + 1);
    if above.Some? then above else FirstFrom(ps, 0)
  }

  /** How many places the scan goes on from `i` before it comes to `j`; `i` itself comes last. */
  function Distance(ps: Processes, i: nat, j: nat): int {
    if j > i then j - i else j + |ps| - i
  }

  /** The next process is the schedulable one the scan comes to first. */
  lemma NextIsNearest(ps: Processes, i: nat, j: nat)
    requires i < |ps| && j < |ps| && ps[j].Schedulable()
    ensures NextAfter(ps, i).Some? && Distance(ps, i, NextAfter(ps, i).value) <= Distance(ps, i, j)
  {
  }

  // ------------------------------------------------------------------ what each operation does to the table

  /** Entering user mode; a yield is answered with zero. */
  function Enter(ps: Processes, i: nat): Processes
    requires i < |ps|
  {
    ps[i := Process(Running, None, ResumeFrame(ps[i]))]
  }

  function ResumeFrame(p: Process): Frame {
    if p.pending == Some(Yield) then p.saved.(rax := 0) else p.saved
  }

  function Preempt(ps: Processes, i: nat, frame: Frame): Processes
    requires i < |ps|
  {
    ps[i := ps[i].(state := Runnable, saved := frame)]
  }

  function Suspend(ps: Processes, i: nat, call: Call, frame: Frame): Processes
    requires i < |ps|
  {
    ps[i := Process(if call.Yield? then Runnable else Blocked, Some(call), frame)]
  }

  function Exit(ps: Processes, i: nat): Processes
    requires i < |ps|
  {
    ps[i := ps[i].(state := Exited)]
  }

  function Complete(ps: Processes, i: nat, result: int): Processes
    requires i < |ps|
  {
    ps[i := Process(Runnable, None, ps[i].saved.(rax := result))]
  }

  // ------------------------------------------------------------------ the table as the kernel keeps it

  /** The per-process arrays; every check whose failure would stop the kernel is an assertion. */
  class Table {
    const states: array<ProcessState>
    const pending: array<Option<Call>>
    const saved: array<Frame>
    var current: Option<nat>

    ghost predicate Shaped()
      reads this, states, pending, saved
    {
      && pending.Length == saved.Length == states.Length
      && (current.Some? ==> current.value < states.Length)
    }

    /** The processes these arrays describe. */
    ghost function View(): Processes
      requires Shaped()
      reads this, states, pending, saved
    {
      seq(states.Length, i requires 0 <= i < states.Length && Shaped() reads this, states, pending, saved =>
        Process(states[i], pending[i], saved[i]))
    }

    /** Consistent, and the one process in user mode is the current one. */
    ghost predicate Valid()
      reads this, states, pending, saved
    {
      && Shaped()
      && forall i | 0 <= i < states.Length ::
           Process(states[i], pending[i], saved[i]).Consistent() && (states[i] == Running <==> current == Some(i))
    }

    constructor (n: nat, start: Frame)
      ensures Valid() && fresh(states) && fresh(pending) && fresh(saved) && current == None
      ensures View() == seq(n, _ => Process(Ready, None, start))
    {
      states := new ProcessState[n](_ => Ready);
      pending := new Option<Call>[n](_ => None);
      saved := new Frame[n](_ => start);
      current := None;
    }

    method NextSchedulableAfter(i: nat) returns (r: Option<nat>)
      requires Valid()
      ensures r == NextAfter(View(), i)
    {
      var j := i + 1;
      while j < states.Length
        invariant i < j && FirstFrom(View(), i + 1) == FirstFrom(View(), j)
        decreases states.Length - j
      {
        if states[j] == Ready || states[j] == Runnable {
          assert View()[j].Schedulable();
          return Some(j);
        }
        j := j + 1;
      }
      j := 0;
      while j < states.Length
        invariant j <= states.Length && FirstFrom(View(), 0) == FirstFrom(View(), j)
      {
        if states[j] == Ready || states[j] == Runnable {
          assert View()[j].Schedulable();
          return Some(j);
        }
        j := j + 1;
      }
      return None;
    }

    /** Puts a schedulable process in user mode with the registers it is owed; `starts` says it starts at its entry. */
    method EnterUser(i: nat) returns (starts: bool, registers: Frame)
      requires Valid() && i < states.Length && current == None
      requires View()[i].Schedulable()
      modifies this, states, pending, saved
      ensures Valid() && current == Some(i)
      ensures View() == Enter(old(View()), i)
      ensures starts == old(View()[i].state == Ready) && registers == ResumeFrame(old(View()[i]))
    {
      starts := states[i] == Ready;
      if !starts {
        if pending[i] == Some(Yield) {
          pending[i] := None;
          saved[i] := saved[i].(rax := 0);
        } else {
          assert pending[i].None?;
        }
      } else {
        assert pending[i].None?;
      }
      registers := saved[i];
      states[i] := Running;
      current := Some(i);
      assert View() == Enter(old(View()), i);
    }

    /** The timer interrupt in user mode; it leaves the process running when no other could run. */
    method PreemptFromTimer(frame: Frame) returns (preempted: bool)
      requires Valid() && current.Some?
      modifies this, states, saved
      ensures Valid() && preempted == AnySchedulable(old(View()))
      ensures preempted ==> current == None && View() == Preempt(old(View()), old(current).value, frame)
      ensures !preempted ==> current == old(current) && View() == old(View())
    {
      var i := current.value;
      assert states[i] == Running;
      var other := NextSchedulableAfter(i);
      if other.None? {
        return false;
      }
      assert pending[i].None?;
      saved[i] := frame;
      states[i] := Runnable;
      current := None;
      assert View() == Preempt(old(View()), i, frame);
      return true;
    }

    /** A suspending call: the process blocks on it, or with a yield stays runnable. */
    method SuspendCall(call: Call, frame: Frame)
      requires Valid() && current.Some?
      modifies this, states, pending, saved
      ensures Valid() && current == None && View() == Suspend(old(View()), old(current).value, call, frame)
      ensures var p := View()[old(current).value];
        p.saved == frame && p.pending == Some(call) && p.Schedulable() == call.Yield?
    {
      var i := current.value;
      assert states[i] == Running && pending[i].None?;
      saved[i] := frame;
      pending[i] := Some(call);
      states[i] := if call.Yield? then Runnable else Blocked;
      current := None;
      assert View() == Suspend(old(View()), i, call, frame);
    }

    /** Completes the call a process is blocked on; the caller names the call it completes. */
    method CompleteCall(i: nat, call: Call, result: int)
      requires Valid() && i < states.Length && View()[i].pending == Some(call) && !call.Yield?
      modifies states, pending, saved
      ensures Valid() && View() == Complete(old(View()), i, result)
      ensures View()[i].saved == old(View()[i].saved).(rax := result) && View()[i].Schedulable()
    {
      pending[i] := None;
      saved[i] := saved[i].(rax := result);
      assert states[i] == Blocked;
      states[i] := Runnable;
      assert View() == Complete(old(View()), i, result);
    }
  }
}

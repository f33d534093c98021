/**
 What verification buys: a verified program runs to an end within its own length,
 without panicking, without touching the frame pointer, and without its outcome
 depending on a register that was never initialised.
 */
module BpfSound {
  import opened Wrappers
  import opened BpfIsa
  import opened BpfVerifier
  import opened BpfExact
  import opened BpfMachine

  /** Control never arrives in the middle of a wide instruction. */
  lemma {:induction false} PathStarts(program: Program, wide: seq<bool>, allowed: seq<i32>, path: seq<nat>, pc: nat)
    requires WellFormed(program, wide, allowed) && PathTo(program, path, pc)
    ensures !wide[pc]
    decreases |path|
  {
    hide LocalOk, Needs, InitOn, Successors, ExitBefore;
    if |path| > 1 {
      PathPrefix(program, path);
      var before := path[..|path| - 1];
      var p := before[|before| - 1];
      PathStarts(program, wide, allowed, before, p);
      assert PathTo(program, before, p) && Fine(program, wide, allowed, p);
      assert path[|path| - 2] == p && path[|path| - 1] == pc;
      SuccessorsStart(program, wide, allowed, p, pc);
    }
  }

  lemma AluDefined(opcode: u8, lhs: u64, rhs: u64)
    requires KindOf(opcode).AluImmediate? || KindOf(opcode).AluRegister?
    ensures !Alu(opcode, lhs, rhs).NoOperation?
  {
    assert opcode / 16 in {0, 1, 2, 3, 4, 5, 6, 7, 9, 10, 12};
  }

  /** What the verifier established about the instruction at the end of a path. */
  predicate Checked(program: Program, wide: seq<bool>, allowed: seq<i32>, pc: nat) {
    && |wide| == |program| && pc < |program| && !wide[pc]
    && EncodedAt(program, wide, pc) && LocalOk(program[pc], wide, allowed, pc)
  }

  lemma PathChecked(program: Program, wide: seq<bool>, allowed: seq<i32>, path: seq<nat>, pc: nat)
    requires WellFormed(program, wide, allowed) && PathTo(program, path, pc)
    ensures Checked(program, wide, allowed, pc) && Needs(program[pc]) <= InitOn(program, path)
  {
    hide LocalOk, Needs, InitOn, Successors, ExitBefore, EncodedAt;
    PathStarts(program, wide, allowed, path, pc);
    assert Fine(program, wide, allowed, pc);
  }

  /** One step of a checked instruction: it goes on along an edge, returns, or fails in one of the two permitted ways. */
  lemma {:induction false} StepSound(program: Program, wide: seq<bool>, allowed: seq<i32>, helpers: Helpers, st: State, steps: nat)
    requires Checked(program, wide, allowed, st.pc) && st.Valid()
    ensures var out := Step(program, helpers, st, steps);
      match out
      case Running(st') =>
        && st'.Valid() && st'.pc in Successors(program[st.pc], st.pc) && st.pc < st'.pc < |program|
        && st'.registers[10] == st.registers[10]
      case Returned(_) => true
      case Failed(DivisionByZero(pc)) => pc == st.pc
      case Failed(InvalidHelper(pc, helper)) =>
        pc == st.pc && helper in allowed && helpers(steps, helper, st.registers).None?
      case _ => false
  {
    hide KindOf, Alu, AccessSize, LoadStack, Compare, StoreStack, SignExtend, Low32;
    var ins := program[st.pc];
    var next := Successors(ins, st.pc);
    var k := KindOf(ins.opcode);
    if k.AluImmediate? {
      AluDefined(ins.opcode, st.registers[ins.Destination()], SignExtend(ins.immediate));
    } else if k.AluRegister? {
      AluDefined(ins.opcode, st.registers[ins.Destination()], st.registers[ins.Source()]);
    }
    assert |next| >= 1 ==> next[0] < |program|;
    assert |next| >= 2 ==> next[1] < |program|;
  }

  /**
   Every run of a verified program ends with a value, a division by zero, or a refused
   helper from the allow-list, and executes at most as many instructions as lie ahead.
   */
  lemma {:induction false} ExecSound(program: Program, wide: seq<bool>, allowed: seq<i32>, helpers: Helpers,
                                     st: State, steps: nat, path: seq<nat>)
    requires WellFormed(program, wide, allowed) && st.Valid()
    requires PathTo(program, path, st.pc) && steps <= st.pc
    ensures
      match Exec(program, helpers, st, steps)
      case Returned(_) => true
      case Failed(DivisionByZero(pc)) => pc < |program|
      case Failed(InvalidHelper(pc, helper)) => pc < |program| && helper in allowed
      case _ => false
    ensures StepCount(program, helpers, st, steps) <= |program| - st.pc
    decreases |program| - st.pc
  {
    hide Step, WellFormed, Successors, InitOn, Needs, Checked;
    PathChecked(program, wide, allowed, path, st.pc);
    CheckedInRange(program, wide, allowed, st.pc);
    WellFormedSize(program, wide, allowed);
    StepSound(program, wide, allowed, helpers, st, steps);
    var out := Step(program, helpers, st, steps);
    if out.Running? {
      PathExtend(program, path, out.state.pc);
      ExecSound(program, wide, allowed, helpers, out.state, steps + 1, path + [out.state.pc]);
    }
  }

  lemma WellFormedSize(program: Program, wide: seq<bool>, allowed: seq<i32>)
    requires WellFormed(program, wide, allowed)
    ensures |program| <= MAX_INSTRUCTIONS
  {
  }

  lemma CheckedInRange(program: Program, wide: seq<bool>, allowed: seq<i32>, pc: nat)
    requires Checked(program, wide, allowed, pc)
    ensures pc < |program|
  {
  }

  /** The whole of a run from its start, for any program the verifier accepted. */
  lemma {:induction false} VerifiedRuns(program: Program, allowed: seq<i32>, helpers: Helpers, context: u64)
    requires Verdict(program, allowed).Ok?
    ensures
      match Exec(program, helpers, Start(context), 0)
      case Returned(_) => true
      case Failed(DivisionByZero(pc)) => pc < |program|
      case Failed(InvalidHelper(pc, helper)) => pc < |program| && helper in allowed
      case _ => false
    ensures StepCount(program, helpers, Start(context), 0) <= |program| <= MAX_INSTRUCTIONS
  {
    hide Exec, StepCount, Exact, Justified, WellEncoded, Fine, ExitBefore, Verdict;
    VerifyExact(program, allowed);
    var wide :| WellFormed(program, wide, allowed);
    ExecSound(program, wide, allowed, helpers, Start(context), 0, [0]);
  }

  // ---------------------------------------------------------------- non-interference

  /** The helpers do not look at the registers they are handed. */
  ghost predicate Blind(helpers: Helpers) {
    forall steps, helper, r, r' :: helpers(steps, helper, r) == helpers(steps, helper, r')
  }

  /** Two states that agree on the stack and on every initialised register. */
  predicate Agree(st: State, st': State, initialized: set<nat>)
    requires st.Valid() && st'.Valid()
  {
    && st.pc == st'.pc && st.stack == st'.stack
    && forall r | r in initialized && r < REGISTER_COUNT :: st.registers[r] == st'.registers[r]
  }

  /** A step takes agreeing states to the same result, or to states that agree on what is then initialised. */
  lemma StepAgrees(program: Program, wide: seq<bool>, allowed: seq<i32>, helpers: Helpers,
                   st: State, st': State, steps: nat, initialized: set<nat>)
    requires Checked(program, wide, allowed, st.pc) && st.Valid() && st'.Valid() && Blind(helpers)
    requires Agree(st, st', initialized) && Needs(program[st.pc]) <= initialized
    ensures var out, out' := Step(program, helpers, st, steps), Step(program, helpers, st', steps);
      if out.Running? then
        out'.Running? && out.state.Valid() && out'.state.Valid()
        && Agree(out.state, out'.state, Transfer(program[st.pc], initialized))
      else out' == out
  {
    hide KindOf, Alu, AccessSize, LoadStack, Compare, StoreStack, SignExtend, Low32, LocalOk;
    var ins := program[st.pc];
    var d, s := ins.Destination(), ins.Source();
    assert d in Needs(ins) ==> st.registers[d] == st'.registers[d];
    assert s in Needs(ins) ==> st.registers[s] == st'.registers[s];
    assert 0 in Needs(ins) ==> st.registers[0] == st'.registers[0];
    assert helpers(steps, ins.immediate, st.registers) == helpers(steps, ins.immediate, st'.registers);
  }

  lemma {:induction false} ExecAgrees(program: Program, wide: seq<bool>, allowed: seq<i32>, helpers: Helpers,
                                      st: State, st': State, steps: nat, path: seq<nat>)
    requires WellFormed(program, wide, allowed) && st.Valid() && st'.Valid() && Blind(helpers)
    requires PathTo(program, path, st.pc) && Agree(st, st', InitOn(program, path))
    ensures Exec(program, helpers, st, steps) == Exec(program, helpers, st', steps)
    decreases |program| - st.pc
  {
    hide Step, WellFormed, Successors, InitOn, Needs, Checked, Blind, Transfer;
    PathChecked(program, wide, allowed, path, st.pc);
    CheckedInRange(program, wide, allowed, st.pc);
    if steps < MAX_INSTRUCTIONS {
      StepSound(program, wide, allowed, helpers, st, steps);
      StepAgrees(program, wide, allowed, helpers, st, st', steps, InitOn(program, path));
      var out, out' := Step(program, helpers, st, steps), Step(program, helpers, st', steps);
      if out.Running? {
        PathExtend(program, path, out.state.pc);
        ExecAgrees(program, wide, allowed, helpers, out.state, out'.state, steps + 1, path + [out.state.pc]);
      }
    }
  }

  /**
   Non-interference: the outcome of a verified program, value or error and its place, is
   the same whatever the other registers hold at the start, as long as r1 and r10 are given.
   */
  lemma NonInterference(program: Program, allowed: seq<i32>, helpers: Helpers, r: seq<u64>, r': seq<u64>)
    requires Verdict(program, allowed).Ok? && (allowed == [] || Blind(helpers))
    requires |r| == |r'| == REGISTER_COUNT && r[1] == r'[1] && r[10] == r'[10]
    ensures
      var stack := seq(STACK_SIZE, _ => 0);
      Exec(program, helpers, State(r, stack, 0), 0) == Exec(program, helpers, State(r', stack, 0), 0)
  {
    hide Exec, Exact, Justified, WellEncoded, Fine, ExitBefore, Verdict;
    VerifyExact(program, allowed);
    var wide :| WellFormed(program, wide, allowed);
    var stack := seq(STACK_SIZE, _ => 0);
    var st, st' := State(r, stack, 0), State(r', stack, 0);
    assert InitOn(program, [0]) == ENTRY;
    var blind: Helpers := if allowed == [] then (_, _, _) => None else helpers;
    ExecAgrees(program, wide, allowed, blind, st, st', 0, [0]);
    if allowed == [] {
      NoCalls(program, wide, helpers, blind, st, 0, [0]);
      NoCalls(program, wide, helpers, blind, st', 0, [0]);
    }
  }

  /** With an empty allow-list no helper is ever called, so the helpers do not matter. */
  lemma {:induction false} NoCalls(program: Program, wide: seq<bool>, helpers: Helpers, helpers': Helpers, st: State,
                                   steps: nat, path: seq<nat>)
    requires WellFormed(program, wide, []) && st.Valid() && PathTo(program, path, st.pc)
    ensures Exec(program, helpers, st, steps) == Exec(program, helpers', st, steps)
    decreases |program| - st.pc
  {
    hide WellFormed, Successors, InitOn, Needs, Checked, Step;
    PathChecked(program, wide, [], path, st.pc);
    CheckedInRange(program, wide, [], st.pc);
    if steps < MAX_INSTRUCTIONS {
      StepSound(program, wide, [], helpers, st, steps);
      StepWithoutCall(program, wide, helpers, helpers', st, steps);
      var out := Step(program, helpers, st, steps);
      if out.Running? {
        PathExtend(program, path, out.state.pc);
        NoCalls(program, wide, helpers, helpers', out.state, steps + 1, path + [out.state.pc]);
      }
    }
  }

  lemma StepWithoutCall(program: Program, wide: seq<bool>, helpers: Helpers, helpers': Helpers, st: State, steps: nat)
    requires Checked(program, wide, [], st.pc) && st.Valid()
    ensures Step(program, helpers, st, steps) == Step(program, helpers', st, steps)
  {
    hide KindOf, Alu, AccessSize, LoadStack, Compare, StoreStack, SignExtend, Low32;
  }

  // ---------------------------------------------------------------- helper calls

  /** The state with r1 to r5 replaced by whatever a helper may have left there. */
  function Scramble(st: State, left: seq<u64>): (r: State)
    requires st.Valid()
    ensures r.Valid()
  {
    st.(registers := seq(REGISTER_COUNT, i requires 0 <= i < REGISTER_COUNT =>
      if 1 <= i <= 5 && i < |left| then left[i] else st.registers[i]))
  }

  /** A run in which every helper call also leaves arbitrary values in the argument registers. */
  function ExecScrambled(program: Program, helpers: Helpers, left: nat -> seq<u64>, st: State, steps: nat): Outcome
    requires st.Valid()
    decreases MAX_INSTRUCTIONS - steps
  {
    if st.pc >= |program| || steps >= MAX_INSTRUCTIONS then Failed(StepLimit) else
      var out := Step(program, helpers, st, steps);
      if !out.Running? then out else
        StepValid(program, helpers, st, steps);
        var next := if program[st.pc].opcode == 0x85 then Scramble(out.state, left(steps)) else out.state;
        ExecScrambled(program, helpers, left, next, steps + 1)
  }

  lemma ScrambleAgrees(st: State, st': State, left: seq<u64>, ins: Instruction, initialized: set<nat>)
    requires st.Valid() && st'.Valid() && Agree(st, st', Transfer(ins, initialized)) && ins.opcode == 0x85
    ensures Agree(Scramble(st, left), st', Transfer(ins, initialized))
  {
  }

  lemma {:induction false} ScrambledAgrees(program: Program, wide: seq<bool>, allowed: seq<i32>, helpers: Helpers,
                                           left: nat -> seq<u64>, st: State, st': State, steps: nat, path: seq<nat>)
    requires WellFormed(program, wide, allowed) && st.Valid() && st'.Valid() && Blind(helpers)
    requires PathTo(program, path, st.pc) && Agree(st, st', InitOn(program, path))
    ensures ExecScrambled(program, helpers, left, st, steps) == Exec(program, helpers, st', steps)
    decreases |program| - st.pc
  {
    hide Step, WellFormed, Successors, InitOn, Needs, Checked, Blind, Transfer, Scramble;
    PathChecked(program, wide, allowed, path, st.pc);
    CheckedInRange(program, wide, allowed, st.pc);
    if steps < MAX_INSTRUCTIONS {
      var ins := program[st.pc];
      StepSound(program, wide, allowed, helpers, st, steps);
      StepAgrees(program, wide, allowed, helpers, st, st', steps, InitOn(program, path));
      var out, out' := Step(program, helpers, st, steps), Step(program, helpers, st', steps);
      if out.Running? {
        var next := if ins.opcode == 0x85 then Scramble(out.state, left(steps)) else out.state;
        if ins.opcode == 0x85 {
          ScrambleAgrees(out.state, out'.state, left(steps), ins, InitOn(program, path));
        }
        PathExtend(program, path, out.state.pc);
        ScrambledAgrees(program, wide, allowed, helpers, left, next, out'.state, steps + 1, path + [out.state.pc]);
      }
    }
  }

  /** What helper calls leave in r1 to r5 never shows in the outcome of a verified program. */
  lemma CallsMayClobber(program: Program, allowed: seq<i32>, helpers: Helpers, left: nat -> seq<u64>, context: u64)
    requires Verdict(program, allowed).Ok? && Blind(helpers)
    ensures ExecScrambled(program, helpers, left, Start(context), 0) == Exec(program, helpers, Start(context), 0)
  {
    hide Exec, ExecScrambled, Exact, Justified, WellEncoded, Fine, ExitBefore, Verdict;
    VerifyExact(program, allowed);
    var wide :| WellFormed(program, wide, allowed);
    ScrambledAgrees(program, wide, allowed, helpers, left, Start(context), Start(context), 0, [0]);
  }
}

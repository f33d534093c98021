/**
 The verifier: a scan that finds the wide instructions, then one forward pass
 over the program that tracks which registers are initialised.
 */
module BpfVerifier {
  import opened Wrappers
  import opened BpfIsa

  datatype VerifyError =
    | EmptyProgram
    | ProgramTooLarge
    | InvalidOpcode(pc: nat, opcode: u8)
    | InvalidRegister(pc: nat, register: nat)
    | FramePointerWrite(pc: nat)
    | UninitializedRegister(pc: nat, register: nat)
    | InvalidJump(pc: nat)
    | BackwardJump(pc: nat)
    | JumpIntoWideImmediate(pc: nat)
    | TruncatedWideImmediate(pc: nat)
    | InvalidWideImmediate(pc: nat)
    | InvalidHelper(pc: nat, helper: i32)
    | InvalidStackBase(pc: nat)
    | StackOutOfBounds(pc: nat)
    | ReachableFallthrough(pc: nat)
    | MissingExit

  type Check = Option<VerifyError>

  // ---------------------------------------------------------------- the scan

  /** Marks the second halves of wide instructions from `pc` on. */
  function Scan(program: Program, pc: nat, wide: seq<bool>): (r: Result<seq<bool>, VerifyError>)
    requires |wide| == |program|
    ensures r.Ok? ==> |r.value| == |program|
    decreases |program| - pc
  {
    if pc >= |program| then Ok(wide) else
      var ins := program[pc];
      if ins.Destination() >= REGISTER_COUNT then Err(InvalidRegister(pc, ins.Destination()))
      else if ins.Source() >= REGISTER_COUNT then Err(InvalidRegister(pc, ins.Source()))
      else if KindOf(ins.opcode).Wide? then
        if pc + 1 >= |program| then Err(TruncatedWideImmediate(pc))
        else if ins.Source() != 0 || !IsContinuation(program[pc + 1]) then Err(InvalidWideImmediate(pc))
        else Scan(program, pc + 2, wide[pc + 1 := true])
      else if KindOf(ins.opcode).Unsupported? then Err(InvalidOpcode(pc, ins.opcode))
      else Scan(program, pc + 1, wide)
  }

  predicate IsContinuation(ins: Instruction) {
    ins.opcode == 0 && ins.registers == 0 && ins.offset == 0
  }

  /** The fields at `q` are in range, and an instruction and its second half, if any, are told apart. */
  predicate EncodedAt(program: Program, wide: seq<bool>, q: nat)
    requires |wide| == |program| && q < |program|
  {
    if wide[q] then q + 1 < |program| ==> !wide[q + 1]
    else
      && program[q].Destination() < REGISTER_COUNT && program[q].Source() < REGISTER_COUNT
      && !KindOf(program[q].opcode).Unsupported?
      && if KindOf(program[q].opcode).Wide?
         then q + 1 < |program| && wide[q + 1] && program[q].Source() == 0 && IsContinuation(program[q + 1])
         else q + 1 < |program| ==> !wide[q + 1]
  }

  /** Instructions and second halves tile the program, and every field is in range. */
  predicate WellEncoded(program: Program, wide: seq<bool>)
    requires |wide| == |program|
  {
    && (|program| > 0 ==> !wide[0])
    && forall q | 0 <= q < |program| :: EncodedAt(program, wide, q)
  }

  // ---------------------------------------------------------------- one instruction

  function Then(first: Check, second: Check): Check {
    if first.Some? then first else second
  }

  function Writable(pc: nat, register: nat): Check {
    if register == 10 then Some(FramePointerWrite(pc)) else None
  }

  function Initialized(initialized: set<nat>, pc: nat, register: nat): Check {
    if register in initialized then None else Some(UninitializedRegister(pc, register))
  }

  predicate InFrame(offset: i16, size: nat) {
    0 <= STACK_SIZE + offset && STACK_SIZE + offset + size <= STACK_SIZE
  }

  function StackAccess(pc: nat, base: nat, offset: i16, size: nat): Check {
    if base != 10 then Some(InvalidStackBase(pc))
    else if !InFrame(offset, size) then Some(StackOutOfBounds(pc))
    else None
  }

  function FallsTo(length: nat, target: nat, pc: nat): Check {
    if target >= length then Some(ReachableFallthrough(pc)) else None
  }

  function JumpCheck(wide: seq<bool>, pc: nat, offset: i16): Check {
    if offset < 0 then Some(BackwardJump(pc))
    else if pc + 1 + offset >= |wide| then Some(InvalidJump(pc))
    else if wide[pc + 1 + offset] then Some(JumpIntoWideImmediate(pc))
    else None
  }

  /** The checks of one arm of the pass, in the order in which the code makes them. */
  function LocalCheck(ins: Instruction, wide: seq<bool>, allowed: seq<i32>, pc: nat, initialized: set<nat>): Check {
    var n, d, s := |wide|, ins.Destination(), ins.Source();
    match KindOf(ins.opcode)
    case Wide => Then(Writable(pc, d), FallsTo(n, pc + 2, pc))
    case MoveImmediate => Then(Writable(pc, d), FallsTo(n, pc + 1, pc))
    case MoveRegister => Then(Writable(pc, d), Then(Initialized(initialized, pc, s), FallsTo(n, pc + 1, pc)))
    case AluImmediate => Then(Writable(pc, d), Then(Initialized(initialized, pc, d), FallsTo(n, pc + 1, pc)))
    case AluRegister =>
      Then(Writable(pc, d), Then(Initialized(initialized, pc, d),
           Then(Initialized(initialized, pc, s), FallsTo(n, pc + 1, pc))))
    case Negate => Then(Writable(pc, d), Then(Initialized(initialized, pc, d), FallsTo(n, pc + 1, pc)))
    case Load =>
      Then(Writable(pc, d), Then(StackAccess(pc, s, ins.offset, AccessSize(ins.opcode)), FallsTo(n, pc + 1, pc)))
    case StoreImmediate => Then(StackAccess(pc, d, ins.offset, AccessSize(ins.opcode)), FallsTo(n, pc + 1, pc))
    case StoreRegister =>
      Then(StackAccess(pc, d, ins.offset, AccessSize(ins.opcode)),
           Then(Initialized(initialized, pc, s), FallsTo(n, pc + 1, pc)))
    case Jump => JumpCheck(wide, pc, ins.offset)
    case BranchImmediate =>
      Then(Initialized(initialized, pc, d), Then(JumpCheck(wide, pc, ins.offset), FallsTo(n, pc + 1, pc)))
    case BranchRegister =>
      Then(Initialized(initialized, pc, d), Then(Initialized(initialized, pc, s),
           Then(JumpCheck(wide, pc, ins.offset), FallsTo(n, pc + 1, pc))))
    case Call =>
      Then(if ins.immediate in allowed then None else Some(InvalidHelper(pc, ins.immediate)), FallsTo(n, pc + 1, pc))
    case Exit => Initialized(initialized, pc, 0)
    case Unsupported => Some(InvalidOpcode(pc, ins.opcode))
  }

  /** What is asked of an instruction apart from its registers being initialised. */
  predicate LocalOk(ins: Instruction, wide: seq<bool>, allowed: seq<i32>, pc: nat) {
    var k := KindOf(ins.opcode);
    && !k.Unsupported?
    && (k in {Wide, MoveImmediate, MoveRegister, AluImmediate, AluRegister, Negate, Load} ==> ins.Destination() != 10)
    && (k.Load? ==> ins.Source() == 10)
    && (k in {StoreImmediate, StoreRegister} ==> ins.Destination() == 10)
    && (k in {Load, StoreImmediate, StoreRegister} ==> InFrame(ins.offset, AccessSize(ins.opcode)))
    && (k in {Jump, BranchImmediate, BranchRegister} ==>
          ins.offset >= 0 && pc + 1 + ins.offset < |wide| && !wide[pc + 1 + ins.offset])
    && (k.Call? ==> ins.immediate in allowed)
    && (forall i | 0 <= i < |Successors(ins, pc)| :: Successors(ins, pc)[i] < |wide|)
  }

  lemma LocalCheckPasses(ins: Instruction, wide: seq<bool>, allowed: seq<i32>, pc: nat, initialized: set<nat>)
    ensures LocalCheck(ins, wide, allowed, pc, initialized).None? <==>
      LocalOk(ins, wide, allowed, pc) && Needs(ins) <= initialized
  {
    hide KindOf, AccessSize, InFrame;
    var next := Successors(ins, pc);
    var first := if KindOf(ins.opcode).Wide? then pc + 2
                 else if KindOf(ins.opcode).Jump? then pc + 1 + ins.offset else pc + 1;
    assert |next| >= 1 ==> next[0] == first;
  }

  /** An uninitialised-register error names a register that the instruction reads. */
  lemma LocalCheckBlames(ins: Instruction, wide: seq<bool>, allowed: seq<i32>, pc: nat, initialized: set<nat>)
    requires LocalCheck(ins, wide, allowed, pc, initialized).Some?
    ensures var e := LocalCheck(ins, wide, allowed, pc, initialized).value;
      && !e.EmptyProgram? && !e.ProgramTooLarge? && !e.MissingExit? && e.pc == pc
      && (e.UninitializedRegister? ==> e.register in Needs(ins) && e.register !in initialized)
  {
    hide KindOf, AccessSize, InFrame;
  }

  // ---------------------------------------------------------------- the pass

  /** What the pass knows at an instruction: nothing reached it yet, or the registers initialised on every way here. */
  type Facts = Option<set<nat>>

  function Join(facts: Facts, out: set<nat>): Facts {
    if facts.None? then Some(out) else Some(facts.value * out)
  }

  function Propagate(incoming: seq<Facts>, targets: seq<nat>, out: set<nat>): (r: seq<Facts>)
    requires forall i | 0 <= i < |targets| :: targets[i] < |incoming|
    ensures |r| == |incoming|
    decreases |targets|
  {
    if targets == [] then incoming else
      Propagate(incoming[targets[0] := Join(incoming[targets[0]], out)], targets[1..], out)
  }

  function Pass(program: Program, wide: seq<bool>, allowed: seq<i32>, incoming: seq<Facts>, pc: nat, sawExit: bool)
    : Result<seq<Facts>, VerifyError>
    requires |wide| == |incoming| == |program|
    decreases |program| - pc
  {
    if pc >= |program| then
      if sawExit then Ok(incoming) else Err(MissingExit)
    else if incoming[pc].None? || wide[pc] then
      Pass(program, wide, allowed, incoming, pc + 1, sawExit)
    else
      var ins, initialized := program[pc], incoming[pc].value;
      var check := LocalCheck(ins, wide, allowed, pc, initialized);
      if check.Some? then Err(check.value) else
        LocalCheckPasses(ins, wide, allowed, pc, initialized);
        var incoming' := Propagate(incoming, Successors(ins, pc), Transfer(ins, initialized));
        Pass(program, wide, allowed, incoming', pc + 1, sawExit || KindOf(ins.opcode).Exit?)
  }

  function Entry(n: nat): seq<Facts> {
    seq(n, i => if i == 0 then Some(ENTRY) else None)
  }

  /** The verdict of the verifier; on success, the facts it computed. */
  function Verdict(program: Program, allowed: seq<i32>): Result<seq<Facts>, VerifyError> {
    if program == [] then Err(EmptyProgram)
    else if |program| > MAX_INSTRUCTIONS then Err(ProgramTooLarge)
    else
      var scan := Scan(program, 0, seq(|program|, _ => false));
      if scan.Err? then Err(scan.error)
      else Pass(program, scan.value, allowed, Entry(|program|), 0, false)
  }
}

/**
 The verifier and the interpreter as the code runs them: arrays of register masks
 filled in place, and registers, stack and program counter updated in a loop.
 */
module BpfEngine {
  import opened Wrappers
  import opened Arithmetic
  import opened Numerals
  import opened BpfIsa
  import opened BpfVerifier
  import opened BpfExact
  import opened BpfMachine
  import opened BpfSound
  import BpfRules
  import BpfMeaning

  // ---------------------------------------------------------------- register masks

  const UNREACHED: bv16 := 0xffff

  /** The bit of register `r` (`1 << r`). */
  function Bit(r: nat): bv16 {
    match r
    case 0 => 0x0001 case 1 => 0x0002 case 2 => 0x0004 case 3 => 0x0008
    case 4 => 0x0010 case 5 => 0x0020 case 6 => 0x0040 case 7 => 0x0080
    case 8 => 0x0100 case 9 => 0x0200 case 10 => 0x0400 case 11 => 0x0800
    case 12 => 0x1000 case 13 => 0x2000 case 14 => 0x4000 case 15 => 0x8000
    case _ => 0
  }

  predicate Common(mask: bv16, b: bv16) {
    mask & b != 0
  }

  predicate Has(mask: bv16, r: nat) {
    Common(mask, Bit(r))
  }

  /** The set of registers that a mask stands for. */
  function Registers(mask: bv16): set<nat> {
    set r: nat | r < 16 && Has(mask, r)
  }

  /** Only the bits of r0 to r10 are used, so a mask is never mistaken for the unreached mark. */
  predicate Proper(mask: bv16) {
    mask & 0xf800 == 0
  }

  function Meaning(mask: bv16): Facts {
    if mask == UNREACHED then None else Some(Registers(mask))
  }

  predicate OneBit(b: bv16) {
    b != 0 && b & (b - 1) == 0
  }

  lemma BitIsOne(r: nat)
    requires r < 16
    ensures OneBit(Bit(r))
  {
  }

  lemma BitInjective(r: nat, k: nat)
    requires r < 16 && k < 16 && Bit(r) == Bit(k)
    ensures r == k
  {
  }

  lemma OrOneBit(mask: bv16, b: bv16, c: bv16)
    requires OneBit(b) && OneBit(c)
    ensures Common(mask | b, c) <==> Common(mask, c) || b == c
  {
    OrMeets(mask, b, c);
    OneBitMeets(b, c);
  }

  lemma OrMeets(mask: bv16, b: bv16, c: bv16)
    ensures (mask | b) & c == (mask & c) | (b & c)
  {
  }

  lemma OneBitMeets(b: bv16, c: bv16)
    requires OneBit(b) && OneBit(c)
    ensures b & c != 0 <==> b == c
  {
  }

  lemma AndOneBit(m: bv16, n: bv16, b: bv16)
    requires OneBit(b)
    ensures Common(m & n, b) <==> Common(m, b) && Common(n, b)
  {
  }

  lemma OrBit(mask: bv16, r: nat, k: nat)
    requires r < 16 && k < 16
    ensures Has(mask | Bit(r), k) <==> Has(mask, k) || k == r
  {
    hide Bit, OneBit, Common;
    BitIsOne(r);
    BitIsOne(k);
    OrOneBit(mask, Bit(r), Bit(k));
    if Bit(r) == Bit(k) { BitInjective(r, k); }
  }

  lemma AndBit(m: bv16, n: bv16, k: nat)
    requires k < 16
    ensures Has(m & n, k) <==> Has(m, k) && Has(n, k)
  {
    hide Bit, OneBit, Common;
    BitIsOne(k);
    AndOneBit(m, n, Bit(k));
  }

  lemma CallBit(mask: bv16, k: nat)
    requires k < 16
    ensures Has((mask & 0xffc1) | 1, k) <==> (Has(mask, k) && k !in {1, 2, 3, 4, 5}) || k == 0
  {
  }

  lemma ProperReached(mask: bv16)
    requires Proper(mask)
    ensures mask != UNREACHED
  {
  }

  // ---------------------------------------------------------------- one instruction on masks

  function SetBit(mask: bv16, r: nat): bv16 {
    mask | Bit(r)
  }

  /** A helper call leaves r0 initialised and r1 to r5 not. */
  function Clobber(mask: bv16): bv16 {
    (mask & 0xffc1) | 1
  }

  lemma ProperOps(m: bv16, n: bv16, r: nat)
    requires Proper(m) && r <= 10
    ensures Proper(SetBit(m, r)) && Proper(m & n) && Proper(Clobber(m))
  {
  }

  /** The registers initialised after an instruction, as a mask. */
  function OutMask(ins: Instruction, mask: bv16): bv16 {
    match KindOf(ins.opcode)
    case Wide => SetBit(mask, ins.Destination())
    case MoveImmediate => SetBit(mask, ins.Destination())
    case MoveRegister => SetBit(mask, ins.Destination())
    case AluImmediate => SetBit(mask, ins.Destination())
    case AluRegister => SetBit(mask, ins.Destination())
    case Load => SetBit(mask, ins.Destination())
    case Call => Clobber(mask)
    case _ => mask
  }

  lemma OutMaskMeans(ins: Instruction, mask: bv16)
    requires Proper(mask) && ins.Destination() < REGISTER_COUNT
    ensures Proper(OutMask(ins, mask)) && Registers(OutMask(ins, mask)) == Transfer(ins, Registers(mask))
  {
    hide KindOf, Registers, Proper, SetBit, Clobber;
    ProperOps(mask, 0, ins.Destination());
    OrMeans(mask, ins.Destination());
    CallMeans(mask);
  }

  lemma OrMeans(mask: bv16, r: nat)
    requires r < 16
    ensures Registers(SetBit(mask, r)) == Registers(mask) + {r}
  {
    hide Has, Bit;
    forall k: nat | k < 16 ensures Has(mask | Bit(r), k) <==> Has(mask, k) || k == r {
      OrBit(mask, r, k);
    }
  }

  lemma CallMeans(mask: bv16)
    ensures Registers(Clobber(mask)) == Registers(mask) - {1, 2, 3, 4, 5} + {0}
  {
    hide Has;
    var out := Clobber(mask);
    forall k: nat | k < 16 ensures Has(out, k) <==> (Has(mask, k) && k !in {1, 2, 3, 4, 5}) || k == 0 {
      CallBit(mask, k);
    }
  }

  function JoinMask(old_: bv16, state: bv16): bv16 {
    if old_ == UNREACHED then state else old_ & state
  }

  lemma JoinMaskMeans(old_: bv16, state: bv16)
    requires old_ == UNREACHED || Proper(old_)
    requires Proper(state)
    ensures Proper(JoinMask(old_, state))
    ensures Meaning(JoinMask(old_, state)) == Join(Meaning(old_), Registers(state))
  {
    ProperReached(state);
    if old_ != UNREACHED {
      ProperOps(old_, state, 0);
      ProperReached(old_ & state);
      AndMeans(old_, state);
    }
  }

  lemma AndMeans(m: bv16, n: bv16)
    ensures Registers(m & n) == Registers(m) * Registers(n)
  {
    hide Has;
    forall k: nat | k < 16 ensures Has(m & n, k) <==> Has(m, k) && Has(n, k) {
      AndBit(m, n, k);
    }
  }

  /** The facts that an array of masks stands for. */
  function Meanings(masks: seq<bv16>): (facts: seq<Facts>)
    ensures |facts| == |masks|
  {
    seq(|masks|, i requires 0 <= i < |masks| => Meaning(masks[i]))
  }

  predicate AllProper(masks: seq<bv16>) {
    forall q | 0 <= q < |masks| :: masks[q] == UNREACHED || Proper(masks[q])
  }

  // ---------------------------------------------------------------- the verifier

  /** The scan, marking second halves in an array. */
  method ScanWide(program: Program, wide: array<bool>) returns (error: Check)
    requires wide.Length == |program| && forall q | 0 <= q < wide.Length :: !wide[q]
    modifies wide
    ensures var scan := Scan(program, 0, seq(|program|, _ => false));
      if scan.Ok? then error == None && wide[..] == scan.value else error == Some(scan.error)
  {
    hide KindOf, IsContinuation;
    ghost var scan := Scan(program, 0, seq(|program|, _ => false));
    assert wide[..] == seq(|program|, _ => false);
    var pc := 0;
    while pc < |program|
      invariant Scan(program, pc, wide[..]) == scan
      decreases |program| - pc
    {
      var ins := program[pc];
      if ins.Destination() >= REGISTER_COUNT {
        return Some(InvalidRegister(pc, ins.Destination()));
      }
      if ins.Source() >= REGISTER_COUNT {
        return Some(InvalidRegister(pc, ins.Source()));
      }
      if KindOf(ins.opcode).Wide? {
        if pc + 1 >= |program| {
          return Some(TruncatedWideImmediate(pc));
        }
        if ins.Source() != 0 || !IsContinuation(program[pc + 1]) {
          return Some(InvalidWideImmediate(pc));
        }
        ghost var before := wide[..];
        wide[pc + 1] := true;
        assert wide[..] == before[pc + 1 := true];
        pc := pc + 2;
      } else {
        if KindOf(ins.opcode).Unsupported? {
          return Some(InvalidOpcode(pc, ins.opcode));
        }
        pc := pc + 1;
      }
    }
    return None;
  }

  /** Merges the outgoing registers into every successor's mask. */
  method PropagateMasks(incoming: array<bv16>, targets: seq<nat>, state: bv16)
    requires Proper(state) && AllProper(incoming[..])
    requires forall i | 0 <= i < |targets| :: targets[i] < incoming.Length
    modifies incoming
    ensures AllProper(incoming[..])
    ensures Meanings(incoming[..]) == Propagate(Meanings(old(incoming[..])), targets, Registers(state))
  {
    hide Proper, Meaning, Registers, Join;
    ghost var goal := Propagate(Meanings(incoming[..]), targets, Registers(state));
    assert targets[0..] == targets;
    for i := 0 to |targets|
      invariant AllProper(incoming[..])
      invariant Propagate(Meanings(incoming[..]), targets[i..], Registers(state)) == goal
    {
      var t := targets[i];
      ghost var before := incoming[..];
      JoinMaskMeans(incoming[t], state);
      incoming[t] := JoinMask(incoming[t], state);
      assert incoming[..] == before[t := JoinMask(before[t], state)];
      assert Meanings(incoming[..]) == Meanings(before)[t := Join(Meanings(before)[t], Registers(state))];
      assert targets[i..][1..] == targets[i + 1..];
    }
    assert targets[|targets|..] == [];
  }

  /** Verification: accepts and rejects exactly as `Verdict`, with the same error. */
  method Verify(program: Program, allowed: seq<i32>) returns (error: Check)
    ensures error == match Verdict(program, allowed) case Ok(_) => None case Err(e) => Some(e)
  {
    if program == [] {
      return Some(EmptyProgram);
    }
    if |program| > MAX_INSTRUCTIONS {
      return Some(ProgramTooLarge);
    }
    var wide := new bool[|program|](_ => false);
    error := ScanWide(program, wide);
    if error.Some? {
      return;
    }
    ScanSound(program, 0, seq(|program|, _ => false));
    error := ForwardPass(program, wide, allowed);
  }

  /** Asks of a register that its bit is set. */
  function NeedsBit(mask: bv16, pc: nat, register: nat): Check {
    if Has(mask, register) then None else Some(UninitializedRegister(pc, register))
  }

  lemma NeedsBitMeans(mask: bv16, pc: nat, register: nat)
    requires register < 16
    ensures NeedsBit(mask, pc, register) == Initialized(Registers(mask), pc, register)
  {
    hide Has;
  }

  /** The checks of one instruction against the mask of its initialised registers, in order, up to the first that fails. */
  method CheckMask(ins: Instruction, wide: array<bool>, allowed: seq<i32>, pc: nat, mask: bv16) returns (check: Check)
    ensures check == LocalCheck(ins, wide[..], allowed, pc, Registers(mask))
  {
    hide Has, Registers, KindOf, AccessSize, InFrame;
    var d, s := ins.Destination(), ins.Source();
    var kind := KindOf(ins.opcode);
    NeedsBitMeans(mask, pc, d);
    NeedsBitMeans(mask, pc, s);
    NeedsBitMeans(mask, pc, 0);
    hide NeedsBit, Initialized;
    if kind.Unsupported? {
      return Some(InvalidOpcode(pc, ins.opcode));
    }
    if kind.Exit? {
      return NeedsBit(mask, pc, 0);
    }
    if kind.Jump? {
      return JumpCheck(wide[..], pc, ins.offset);
    }
    check := None;
    if kind.Wide? || kind.MoveImmediate? || kind.MoveRegister? || kind.AluImmediate? || kind.AluRegister? || kind.Negate?
       || kind.Load? {
      if d == 10 {
        return Some(FramePointerWrite(pc));
      }
    }
    if kind.Load? {
      check := StackAccess(pc, s, ins.offset, AccessSize(ins.opcode));
    } else if kind.StoreImmediate? || kind.StoreRegister? {
      check := StackAccess(pc, d, ins.offset, AccessSize(ins.opcode));
    } else if kind.Call? && ins.immediate !in allowed {
      check := Some(VerifyError.InvalidHelper(pc, ins.immediate));
    }
    if check.Some? {
      return;
    }
    if kind.AluImmediate? || kind.AluRegister? || kind.Negate? || kind.BranchImmediate? || kind.BranchRegister? {
      check := NeedsBit(mask, pc, d);
      if check.Some? {
        return;
      }
    }
    if kind.MoveRegister? || kind.AluRegister? || kind.StoreRegister? || kind.BranchRegister? {
      check := NeedsBit(mask, pc, s);
      if check.Some? {
        return;
      }
    }
    if kind.BranchImmediate? || kind.BranchRegister? {
      check := JumpCheck(wide[..], pc, ins.offset);
      if check.Some? {
        return;
      }
    }
    return FallsTo(wide.Length, if kind.Wide? then pc + 2 else pc + 1, pc);
  }

  method ForwardPass(program: Program, wide: array<bool>, allowed: seq<i32>) returns (error: Check)
    requires wide.Length == |program| > 0 && WellEncoded(program, wide[..])
    ensures error == match Pass(program, wide[..], allowed, Entry(|program|), 0, false) case Ok(_) => None case Err(e) => Some(e)
  {
    hide KindOf, LocalCheck, LocalOk, Successors, Transfer, Proper, Registers, OutMask, Propagate, IsContinuation;
    var incoming := new bv16[|program|](_ => UNREACHED);
    incoming[0] := 0x0402;
    var sawExit := false;
    EntryMasks(incoming[..]);
    ghost var w := wide[..];
    ghost var goal := Pass(program, w, allowed, Entry(|program|), 0, false);
    for pc := 0 to |program|
      invariant AllProper(incoming[..])
      invariant Pass(program, w, allowed, Meanings(incoming[..]), pc, sawExit) == goal
    {
      var initialized := incoming[pc];
      if initialized == UNREACHED || wide[pc] {
        continue;
      }
      var ins := program[pc];
      var check := CheckMask(ins, wide, allowed, pc, initialized);
      if check.Some? {
        return check;
      }
      LocalCheckPasses(ins, w, allowed, pc, Registers(initialized));
      TargetsInRange(ins, w, allowed, pc);
      assert EncodedAt(program, w, pc);
      OutMaskMeans(ins, initialized);
      PropagateMasks(incoming, Successors(ins, pc), OutMask(ins, initialized));
      sawExit := sawExit || KindOf(ins.opcode).Exit?;
    }
    return if sawExit then None else Some(MissingExit);
  }

  lemma EntryMasks(masks: seq<bv16>)
    requires |masks| > 0 && masks[0] == 0x0402 && forall q | 1 <= q < |masks| :: masks[q] == UNREACHED
    ensures AllProper(masks) && Meanings(masks) == Entry(|masks|)
  {
    forall k: nat ensures k in Registers(0x0402) <==> k in ENTRY {
    }
    assert Registers(0x0402) == ENTRY;
    assert Proper(0x0402);
  }

  // ---------------------------------------------------------------- the interpreter

  lemma {:induction false} LittleEndianSnoc(bytes: seq<u8>, b: u8)
    ensures LittleEndian(bytes + [b]) == LittleEndian(bytes) + b * Pow256(|bytes|)
    decreases |bytes|
  {
    if bytes == [] {
      assert [] + [b] == [b];
      assert [b][1..] == [];
    } else {
      assert (bytes + [b])[1..] == bytes[1..] + [b];
      LittleEndianSnoc(bytes[1..], b);
      var p := Pow256(|bytes| - 1);
      assert 256 * (b * p) == b * (256 * p);
    }
  }

  lemma {:induction false} BytesSnoc(value: nat, size: nat)
    ensures BytesOf(value, size + 1) == BytesOf(value, size) + [Digit(value, size)]
    decreases size
  {
    if size == 0 {
      assert BytesOf(value, 1) == [value % 256] + BytesOf(value / 256, 0);
    } else {
      BytesSnoc(value / 256, size - 1);
      DivDiv(value, 256, Pow256(size - 1));
      assert BytesOf(value, size + 1) == [value % 256] + BytesOf(value / 256, size);
    }
  }

  method LoadBytes(stack: array<u8>, start: nat, size: nat) returns (value: u64)
    requires start + size <= stack.Length && size <= 8
    ensures value == LoadStack(stack[..], start, size)
  {
    hide Pow256;
    value := 0;
    for i := 0 to size
      invariant value == LittleEndian(stack[start..start + i])
    {
      assert stack[start..start + i + 1] == stack[start..start + i] + [stack[start + i]];
      LittleEndianSnoc(stack[start..start + i], stack[start + i]);
      LittleEndianBound(stack[start..start + i + 1]);
      Pow256Bound(i + 1);
      value := value + stack[start + i] * Pow256(i);
    }
    assert stack[..][start..start + size] == stack[start..start + size];
  }

  method StoreBytes(stack: array<u8>, start: nat, size: nat, value: u64)
    requires start + size <= stack.Length
    modifies stack
    ensures stack[..] == StoreStack(old(stack[..]), start, size, value)
  {
    hide Digit, BytesOf;
    ghost var before := stack[..];
    NoBytes(value);
    for i := 0 to size
      invariant stack[..] == before[..start] + BytesOf(value, i) + before[start + i..]
    {
      BytesSnoc(value, i);
      stack[start + i] := Digit(value, i);
    }
  }

  lemma NoBytes(value: u64)
    ensures BytesOf(value, 0) == []
  {
  }

  /**
   Execution of a verified program: registers and stack are updated in place until the
   program returns or fails. Every array access and every branch is in range.
   */
  method Execute(program: Program, ghost allowed: seq<i32>, helpers: Helpers, context: u64) returns (r: Outcome)
    requires Verdict(program, allowed).Ok?
    ensures r == Exec(program, helpers, Start(context), 0)
    ensures r.Returned? || (r.Failed? && (r.error.DivisionByZero? || r.error.InvalidHelper?))
  {
    hide Exec, Exact, Justified, WellFormed, Verdict, Step, Checked, Successors, InitOn, Needs, StepCount;
    VerifyExact(program, allowed);
    ghost var wide :| WellFormed(program, wide, allowed);
    VerifiedRuns(program, allowed, helpers, context);
    var registers := new u64[REGISTER_COUNT](i => if i == 1 then context else if i == 10 then STACK_SIZE else 0);
    var stack := new u8[STACK_SIZE](_ => 0);
    var pc, steps := 0, 0;
    ghost var path: seq<nat> := [0];
    ghost var st := State(registers[..], stack[..], pc);
    assert st == Start(context);
    NonEmpty(program, wide, allowed);
    while pc < |program|
      invariant registers.Length == REGISTER_COUNT && stack.Length == STACK_SIZE
      invariant st == State(registers[..], stack[..], pc) && PathTo(program, path, pc) && steps <= pc
      invariant Exec(program, helpers, st, steps) == Exec(program, helpers, Start(context), 0)
      decreases |program| - pc
    {
      PathChecked(program, wide, allowed, path, pc);
      WellFormedSize(program, wide, allowed);
      StepSound(program, wide, allowed, helpers, st, steps);
      ExecStep(program, helpers, st, steps);
      var out := ExecuteOne(program, helpers, registers, stack, pc, steps, wide, allowed);
      if out.Done? {
        return out.result;
      }
      pc := out.next;
      steps := steps + 1;
      st := State(registers[..], stack[..], pc);
      PathExtend(program, path, pc);
      path := path + [pc];
    }
    assert false;
  }

  lemma NonEmpty(program: Program, wide: seq<bool>, allowed: seq<i32>)
    requires WellFormed(program, wide, allowed)
    ensures |program| > 0
  {
  }

  lemma ExecStep(program: Program, helpers: Helpers, st: State, steps: nat)
    requires st.Valid() && st.pc < |program| && steps < MAX_INSTRUCTIONS
    ensures var out := Step(program, helpers, st, steps);
      if out.Running? then out.state.Valid() && Exec(program, helpers, st, steps) == Exec(program, helpers, out.state, steps + 1)
      else Exec(program, helpers, st, steps) == out
  {
    hide Step;
    if Step(program, helpers, st, steps).Running? {
      StepValid(program, helpers, st, steps);
    }
  }

  datatype Progress = Next(next: nat) | Done(result: Outcome)

  /** One turn of the interpreter's loop, on the arrays. */
  method ExecuteOne(program: Program, helpers: Helpers, registers: array<u64>, stack: array<u8>, pc: nat, steps: nat,
                    ghost wide: seq<bool>, ghost allowed: seq<i32>) returns (p: Progress)
    requires registers.Length == REGISTER_COUNT && stack.Length == STACK_SIZE
    requires Checked(program, wide, allowed, pc)
    modifies registers, stack
    ensures
      var out := Step(program, helpers, State(old(registers[..]), old(stack[..]), pc), steps);
      if out.Running? then p == Next(out.state.pc) && registers[..] == out.state.registers && stack[..] == out.state.stack
      else p == Done(out)
    ensures BpfMeaning.NamesRegisters(program[pc])
    ensures BpfMeaning.Means(program, helpers, State(old(registers[..]), old(stack[..]), pc), steps,
                          if p.Done? then p.result else Running(State(registers[..], stack[..], p.next)))
  {
    p := ExecuteStep(program, helpers, registers, stack, pc, steps, wide, allowed);
    BpfMeaning.CheckedNames(program, wide, allowed, pc);
    BpfMeaning.StepIs(program, helpers, State(old(registers[..]), old(stack[..]), pc), steps,
                   if p.Done? then p.result else Running(State(registers[..], stack[..], p.next)));
  }

  method ExecuteStep(program: Program, helpers: Helpers, registers: array<u64>, stack: array<u8>, pc: nat, steps: nat,
                     ghost wide: seq<bool>, ghost allowed: seq<i32>) returns (p: Progress)
    requires registers.Length == REGISTER_COUNT && stack.Length == STACK_SIZE
    requires Checked(program, wide, allowed, pc)
    modifies registers, stack
    ensures
      var out := Step(program, helpers, State(old(registers[..]), old(stack[..]), pc), steps);
      if out.Running? then p == Next(out.state.pc) && registers[..] == out.state.registers && stack[..] == out.state.stack
      else p == Done(out)
  {
    hide KindOf, Alu, Compare, LoadStack, StoreStack, SignExtend, Low32, AccessSize, EncodedAt, LocalOk;
    var ins := program[pc];
    var d, s := ins.Destination(), ins.Source();
    CheckedFields(program, wide, allowed, pc);
    var immediate := SignExtend(ins.immediate);
    ghost var before := registers[..];
    match KindOf(ins.opcode) {
      case Wide =>
        registers[d] := Low32(ins.immediate) + TWO_32 * Low32(program[pc + 1].immediate);
        p := Next(pc + 2);
      case MoveImmediate =>
        registers[d] := immediate;
        p := Next(pc + 1);
      case MoveRegister =>
        registers[d] := registers[s];
        p := Next(pc + 1);
      case AluImmediate =>
        p := AluInPlace(ins, registers, immediate, pc);
      case AluRegister =>
        p := AluInPlace(ins, registers, registers[s], pc);
      case Negate =>
        registers[d] := Wrap(TWO_64 - registers[d]);
        p := Next(pc + 1);
      case Load =>
        registers[d] := LoadBytes(stack, STACK_SIZE + ins.offset, AccessSize(ins.opcode));
        p := Next(pc + 1);
      case StoreImmediate =>
        StoreBytes(stack, STACK_SIZE + ins.offset, AccessSize(ins.opcode), immediate);
        p := Next(pc + 1);
      case StoreRegister =>
        StoreBytes(stack, STACK_SIZE + ins.offset, AccessSize(ins.opcode), registers[s]);
        p := Next(pc + 1);
      case Jump =>
        p := Next(pc + 1 + ins.offset);
      case BranchImmediate =>
        p := Next(if Compare(ins.opcode, registers[d], immediate) then pc + 1 + ins.offset else pc + 1);
      case BranchRegister =>
        p := Next(if Compare(ins.opcode, registers[d], registers[s]) then pc + 1 + ins.offset else pc + 1);
      case Call =>
        var answer := helpers(steps, ins.immediate, registers[..]);
        if answer.None? {
          return Done(Failed(RuntimeError.InvalidHelper(pc, ins.immediate)));
        }
        registers[0] := answer.value;
        p := Next(pc + 1);
      case Exit =>
        return Done(Returned(registers[0]));
    }
  }

  method AluInPlace(ins: Instruction, registers: array<u64>, rhs: u64, pc: nat) returns (p: Progress)
    requires registers.Length == REGISTER_COUNT && ins.Destination() < REGISTER_COUNT
    requires KindOf(ins.opcode).AluImmediate? || KindOf(ins.opcode).AluRegister?
    modifies registers
    ensures match Alu(ins.opcode, old(registers[ins.Destination()]), rhs)
      case Value(v) => p == Next(pc + 1) && registers[..] == old(registers[..])[ins.Destination() := v]
      case DivideByZero => p == Done(Failed(DivisionByZero(pc)))
      case NoOperation => false
    ensures
      var d := ins.Destination();
      if BpfMeaning.Divides(ins.opcode) && rhs == 0 then p == Done(Failed(DivisionByZero(pc)))
      else
        && p == Next(pc + 1) && registers[..] == old(registers[..])[d := registers[d]]
        && BpfMeaning.Computes(ins.opcode, old(registers[d]), rhs, registers[d])
  {
    AluMeans(ins.opcode, registers[ins.Destination()], rhs);
    AluDefined(ins.opcode, registers[ins.Destination()], rhs);
    hide Alu, KindOf;
    match Alu(ins.opcode, registers[ins.Destination()], rhs) {
      case Value(v) =>
        registers[ins.Destination()] := v;
        p := Next(pc + 1);
      case DivideByZero =>
        p := Done(Failed(DivisionByZero(pc)));
    }
  }

  lemma AluMeans(opcode: u8, lhs: u64, rhs: u64)
    requires KindOf(opcode).AluImmediate? || KindOf(opcode).AluRegister?
    ensures BpfMeaning.Divides(opcode) && rhs == 0 ==> Alu(opcode, lhs, rhs) == DivideByZero
    ensures !(BpfMeaning.Divides(opcode) && rhs == 0) ==>
      var v := Alu(opcode, lhs, rhs); v.Value? && BpfMeaning.Computes(opcode, lhs, rhs, v.value)
  {
    hide Alu, BpfMeaning.Computes;
    BpfRules.KindIs(opcode);
    if !(BpfMeaning.Divides(opcode) && rhs == 0) {
      BpfMeaning.AluGives(opcode, lhs, rhs);
      BpfMeaning.AluIs(opcode, lhs, rhs, Alu(opcode, lhs, rhs).value);
    } else {
      BpfMeaning.AluIs(opcode, lhs, rhs, 0);
    }
  }

  lemma CheckedFields(program: Program, wide: seq<bool>, allowed: seq<i32>, pc: nat)
    requires Checked(program, wide, allowed, pc)
    ensures var ins := program[pc]; var k := KindOf(ins.opcode);
      && ins.Destination() < REGISTER_COUNT && ins.Source() < REGISTER_COUNT && !k.Unsupported?
      && (k.Wide? ==> pc + 1 < |program|)
      && (k in {Load, StoreImmediate, StoreRegister} ==> InFrame(ins.offset, AccessSize(ins.opcode)))
      && (k in {Jump, BranchImmediate, BranchRegister} ==> ins.offset >= 0)
  {
    hide KindOf, AccessSize, InFrame;
  }
}

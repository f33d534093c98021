/** The interpreter: what one instruction does to the registers and the stack, and how a program runs. */
module BpfMachine {
  import opened Wrappers
  import opened Arithmetic
  import opened Numerals
  import opened BpfIsa

  const TWO_64: nat := 0x1_0000_0000_0000_0000
  const TWO_63: nat := 0x8000_0000_0000_0000
  const TWO_32: nat := 0x1_0000_0000

  datatype RuntimeError =
    | DivisionByZero(pc: nat)
    | InvalidHelper(pc: nat, helper: i32)
    | InvalidStackAccess(pc: nat)
    | StepLimit

  datatype State = State(registers: seq<u64>, stack: seq<u8>, pc: nat) {
    predicate Valid() {
      |registers| == REGISTER_COUNT && |stack| == STACK_SIZE
    }
  }

  /** `Panic` stands for an index out of range, an address computation that overflows, or an `unreachable!`. */
  datatype Outcome =
    | Running(state: State)
    | Returned(value: u64)
    | Failed(error: RuntimeError)
    | Panic

  /** A helper call, told apart by the step at which it is made, gives a value or is refused. */
  type Helpers = (nat, i32, seq<u64>) -> Option<u64>

  // ---------------------------------------------------------------- arithmetic

  function SignExtend(immediate: i32): u64 {
    if immediate < 0 then immediate + TWO_64 else immediate
  }

  function Low32(immediate: i32): (r: nat)
    ensures r < TWO_32
  {
    if immediate < 0 then immediate + TWO_32 else immediate
  }

  function Signed(x: u64): int {
    if x < TWO_63 then x else x - TWO_64
  }

  function Pow2(n: nat): (p: nat)
    ensures p > 0
  {
    if n == 0 then 1 else 2 * Pow2(n - 1)
  }

  lemma {:induction false} Pow2Sum(m: nat, n: nat)
    ensures Pow2(m + n) == Pow2(m) * Pow2(n)
  {
    if m > 0 {
      Pow2Sum(m - 1, n);
      assert 2 * (Pow2(m - 1) * Pow2(n)) == (2 * Pow2(m - 1)) * Pow2(n);
    }
  }

  lemma Pow2Nibble()
    ensures Pow2(4) == 16
  {
    assert Pow2(2) == 4;
  }

  lemma Pow2Word()
    ensures Pow2(64) == TWO_64
  {
    hide Pow2;
    Pow2Nibble();
    Pow2Sum(4, 4);
    Pow2Sum(8, 8);
    Pow2Sum(16, 16);
    Pow2Sum(32, 32);
  }

  function ShiftRight(x: u64, count: u64): u64 {
    QuotientBound(x, Pow2(count % 64));
    x / Pow2(count % 64)
  }

  lemma QuotientBound(x: nat, p: nat)
    requires p > 0
    ensures 0 <= x / p <= x
  {
    var q, r := x / p, x % p;
    assert x == q * p + r && q >= 0;
    if p > 1 {
      MulGap(q, 1, p);
    }
  }

  function ShiftLeft(x: u64, count: u64): u64 {
    x * Pow2(count % 64) % TWO_64
  }

  function ShiftRightSigned(x: u64, count: u64): u64 {
    Wrap(Signed(x) / Pow2(count % 64))
  }

  datatype Logic = Or | And | Xor {
    predicate Of(a: bool, b: bool) {
      match this
      case Or => a || b
      case And => a && b
      case Xor => a != b
    }
  }

  /** The lowest `n` bits of two numbers combined place by place. */
  function Bitwise(op: Logic, x: nat, y: nat, n: nat): (r: nat)
    ensures r < Pow2(n)
  {
    if n == 0 then 0
    else (if op.Of(x % 2 == 1, y % 2 == 1) then 1 else 0) + 2 * Bitwise(op, x / 2, y / 2, n - 1)
  }

  function BitOr(x: u64, y: u64): u64 {
    Pow2Word();
    Bitwise(Or, x, y, 64)
  }

  function BitAnd(x: u64, y: u64): u64 {
    Pow2Word();
    Bitwise(And, x, y, 64)
  }

  function BitXor(x: u64, y: u64): u64 {
    Pow2Word();
    Bitwise(Xor, x, y, 64)
  }

  function Wrap(x: int): u64 {
    x % TWO_64
  }

  datatype AluResult = Value(value: u64) | DivideByZero | NoOperation

  /** The sixteen-way match on the high nibble of the opcode. */
  function Alu(opcode: u8, lhs: u64, rhs: u64): AluResult {
    match opcode / 16
    case 0 => Value(Wrap(lhs + rhs))
    case 1 => Value(Wrap(lhs - rhs))
    case 2 => Value(Wrap(lhs * rhs))
    case 3 => if rhs == 0 then DivideByZero else Value(lhs / rhs)
    case 4 => Value(BitOr(lhs, rhs))
    case 5 => Value(BitAnd(lhs, rhs))
    case 6 => Value(ShiftLeft(lhs, rhs))
    case 7 => Value(ShiftRight(lhs, rhs))
    case 9 => if rhs == 0 then DivideByZero else Value(lhs % rhs)
    case 10 => Value(BitXor(lhs, rhs))
    case 12 => Value(ShiftRightSigned(lhs, rhs))
    case _ => NoOperation
  }

  predicate Compare(opcode: u8, lhs: u64, rhs: u64) {
    match opcode / 16
    case 1 => lhs == rhs
    case 2 => lhs > rhs
    case 3 => lhs >= rhs
    case 4 => BitAnd(lhs, rhs) != 0
    case 5 => lhs != rhs
    case 6 => Signed(lhs) > Signed(rhs)
    case 7 => Signed(lhs) >= Signed(rhs)
    case 10 => lhs < rhs
    case 11 => lhs <= rhs
    case 12 => Signed(lhs) < Signed(rhs)
    case 13 => Signed(lhs) <= Signed(rhs)
    case _ => false
  }

  // ---------------------------------------------------------------- the stack

  function LoadStack(stack: seq<u8>, start: nat, size: nat): u64
    requires start + size <= |stack| && size <= 8
  {
    LittleEndianBound(stack[start..start + size]);
    assert Pow256(size) <= TWO_64 by { Pow256Bound(size); }
    LittleEndian(stack[start..start + size])
  }

  lemma Pow256Bound(n: nat)
    requires n <= 8
    ensures Pow256(n) <= TWO_64
  {
    assert Pow256(0) == 1 && Pow256(1) == 256 && Pow256(2) == 0x1_0000 && Pow256(3) == 0x100_0000;
    assert Pow256(4) == 0x1_0000_0000 && Pow256(5) == 0x100_0000_0000 && Pow256(6) == 0x1_0000_0000_0000;
    assert Pow256(7) == 0x100_0000_0000_0000 && Pow256(8) == TWO_64;
  }

  function StoreStack(stack: seq<u8>, start: nat, size: nat, value: u64): (r: seq<u8>)
    requires start + size <= |stack|
    ensures |r| == |stack|
  {
    stack[..start] + BytesOf(value, size) + stack[start + size..]
  }

  /** A store followed by a load of the same slot gives back the low bytes, and no other byte changes. */
  lemma StackRoundTrip(stack: seq<u8>, start: nat, size: nat, value: u64)
    requires start + size <= |stack| && size <= 8
    ensures LoadStack(StoreStack(stack, start, size, value), start, size) == value % Pow256(size)
    ensures var s := StoreStack(stack, start, size, value);
      forall i | 0 <= i < |stack| && !(start <= i < start + size) :: s[i] == stack[i]
  {
    var s := StoreStack(stack, start, size, value);
    assert s[start..start + size] == BytesOf(value, size);
    BytesRoundTrip(value, size);
  }

  // ---------------------------------------------------------------- one step

  function WithRegister(st: State, register: nat, value: u64): State
    requires st.Valid() && register < REGISTER_COUNT
  {
    st.(registers := st.registers[register := value], pc := st.pc + 1)
  }

  function ApplyAlu(ins: Instruction, st: State, rhs: u64): Outcome
    requires st.Valid() && ins.Destination() < REGISTER_COUNT
  {
    match Alu(ins.opcode, st.registers[ins.Destination()], rhs)
    case Value(v) => Running(WithRegister(st, ins.Destination(), v))
    case DivideByZero => Failed(DivisionByZero(st.pc))
    case NoOperation => Panic
  }

  function ApplyStore(ins: Instruction, st: State, value: u64): Outcome
    requires st.Valid()
  {
    var size := AccessSize(ins.opcode);
    var start := STACK_SIZE + ins.offset;
    if start < 0 || start + size > STACK_SIZE then Failed(InvalidStackAccess(st.pc))
    else Running(st.(stack := StoreStack(st.stack, start, size, value), pc := st.pc + 1))
  }

  function ApplyLoad(ins: Instruction, st: State): Outcome
    requires st.Valid() && ins.Destination() < REGISTER_COUNT
  {
    var size := AccessSize(ins.opcode);
    var start := STACK_SIZE + ins.offset;
    if start < 0 || start + size > STACK_SIZE then Failed(InvalidStackAccess(st.pc))
    else Running(WithRegister(st, ins.Destination(), LoadStack(st.stack, start, size)))
  }

  function Branch(ins: Instruction, st: State, taken: bool): Outcome {
    if !taken then Running(st.(pc := st.pc + 1))
    else if ins.offset < 0 then Panic
    else Running(st.(pc := st.pc + 1 + ins.offset))
  }

  function Step(program: Program, helpers: Helpers, st: State, steps: nat): Outcome
    requires st.Valid() && st.pc < |program|
  {
    var ins := program[st.pc];
    var d, s := ins.Destination(), ins.Source();
    if d >= REGISTER_COUNT || s >= REGISTER_COUNT then Panic else
      var immediate := SignExtend(ins.immediate);
      match KindOf(ins.opcode)
      case Wide =>
        if st.pc + 1 >= |program| then Panic else
          var value := Low32(ins.immediate) + TWO_32 * Low32(program[st.pc + 1].immediate);
          Running(WithRegister(st, d, value).(pc := st.pc + 2))
      case MoveImmediate => Running(WithRegister(st, d, immediate))
      case MoveRegister => Running(WithRegister(st, d, st.registers[s]))
      case AluImmediate => ApplyAlu(ins, st, immediate)
      case AluRegister => ApplyAlu(ins, st, st.registers[s])
      case Negate => Running(WithRegister(st, d, Wrap(TWO_64 - st.registers[d])))
      case Load => ApplyLoad(ins, st)
      case StoreImmediate => ApplyStore(ins, st, immediate)
      case StoreRegister => ApplyStore(ins, st, st.registers[s])
      case Jump => Branch(ins, st, true)
      case BranchImmediate => Branch(ins, st, Compare(ins.opcode, st.registers[d], immediate))
      case BranchRegister => Branch(ins, st, Compare(ins.opcode, st.registers[d], st.registers[s]))
      case Call =>
        var answer := helpers(steps, ins.immediate, st.registers);
        if answer.None? then Failed(InvalidHelper(st.pc, ins.immediate))
        else Running(WithRegister(st, 0, answer.value))
      case Exit => Returned(st.registers[0])
      case Unsupported => Panic
  }

  lemma StepValid(program: Program, helpers: Helpers, st: State, steps: nat)
    requires st.Valid() && st.pc < |program| && Step(program, helpers, st, steps).Running?
    ensures Step(program, helpers, st, steps).state.Valid()
  {
    hide KindOf, Alu, AccessSize, LoadStack, Compare;
  }

  // ---------------------------------------------------------------- a run

  /** The result of running from `st` when `steps` instructions have been executed. */
  function Exec(program: Program, helpers: Helpers, st: State, steps: nat): Outcome
    requires st.Valid()
    decreases MAX_INSTRUCTIONS - steps
  {
    if st.pc >= |program| || steps >= MAX_INSTRUCTIONS then Failed(StepLimit) else
      var out := Step(program, helpers, st, steps);
      if !out.Running? then out else
        StepValid(program, helpers, st, steps);
        Exec(program, helpers, out.state, steps + 1)
  }

  /** How many instructions a run from `st` executes. */
  function StepCount(program: Program, helpers: Helpers, st: State, steps: nat): nat
    requires st.Valid()
    decreases MAX_INSTRUCTIONS - steps
  {
    if st.pc >= |program| || steps >= MAX_INSTRUCTIONS then 0 else
      var out := Step(program, helpers, st, steps);
      if !out.Running? then 1 else
        StepValid(program, helpers, st, steps);
        1 + StepCount(program, helpers, out.state, steps + 1)
  }

  /** The state in which execution starts: everything zero except the context in r1 and the frame pointer. */
  function Start(context: u64): (st: State)
    ensures st.Valid()
  {
    State(seq(REGISTER_COUNT, i => if i == 1 then context else if i == 10 then STACK_SIZE else 0),
          seq(STACK_SIZE, _ => 0), 0)
  }
}

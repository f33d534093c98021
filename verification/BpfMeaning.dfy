/**
 What each opcode byte does, written down without the interpreter's own functions: sums and products by congruence,
 quotients by their remainders, logic bit by bit, memory byte by byte. The interpreter's step has this meaning, and
 nothing else has.
 */
module BpfMeaning {
  import opened Wrappers
  import opened Arithmetic
  import opened Numerals
  import opened BpfIsa
  import opened BpfMachine
  import opened BpfRules
  import opened BpfVerifier
  import opened BpfExact
  import opened BpfSound

  // ---------------------------------------------------------------- numbers

  /** Equal as 64-bit words. */
  predicate Congruent(a: int, b: int) {
    (a - b) % TWO_64 == 0
  }

  /** Their sum is zero as a word. */
  predicate Opposite(a: int, b: int) {
    (a + b) % TWO_64 == 0
  }

  /** `q` is `a` divided by `b`, rounded down. */
  predicate Quotient(a: int, b: nat, q: int) {
    0 <= a - b * q < b
  }

  predicate Remainder(a: int, b: nat, r: int) {
    0 <= r < b && (a - r) % b == 0
  }

  predicate Bit(x: nat, i: nat) {
    x / Pow2(i) % 2 == 1
  }

  /** `z` is what the word `x` means as a signed number. */
  predicate IsSigned(x: u64, z: int) {
    0 <= z + TWO_63 < TWO_64 && Congruent(z, x)
  }

  lemma CongruentUnique(a: int, b: int)
    requires Congruent(a, b) && 0 <= a < TWO_64 && 0 <= b < TWO_64
    ensures a == b
  {
  }

  lemma CongruentWrap(x: int)
    ensures Congruent(Wrap(x), x)
  {
  }

  lemma CongruentVia(a: int, b: int, c: int)
    requires Congruent(a, c) && Congruent(b, c)
    ensures Congruent(a, b)
  {
  }

  lemma SignedIs(x: u64, z: int)
    ensures IsSigned(x, z) <==> z == Signed(x)
  {
  }

  lemma QuotientIs(a: int, b: nat, q: int)
    requires b > 0
    ensures Quotient(a, b, q) <==> q == a / b
  {
    if Quotient(a, b, q) {
      QuotientUnique(a, b, q, a - b * q);
    }
    assert a == b * (a / b) + a % b;
  }

  lemma RemainderIs(a: nat, b: nat, r: int)
    requires b > 0
    ensures Remainder(a, b, r) <==> r == a % b
  {
    if Remainder(a, b, r) {
      var k := (a - r) / b;
      assert a - r == b * k;
      QuotientUnique(a, b, k, r);
      assert a == b * (a / b) + a % b;
    } else {
      assert a - a % b == b * (a / b) + 0;
      MultipleOf(b, a / b);
    }
  }

  lemma MultipleOf(b: nat, k: int)
    requires b > 0
    ensures (b * k) % b == 0
  {
    QuotientUnique(b * k, b, k, 0);
    assert b * k == b * (b * k / b) + b * k % b;
  }

  // ---------------------------------------------------------------- bits

  lemma BitNext(x: nat, i: nat)
    requires i > 0
    ensures Bit(x, i) <==> Bit(x / 2, i - 1)
  {
    DivDiv(x, 2, Pow2(i - 1));
  }

  lemma {:induction false} BitwiseAt(op: Logic, x: nat, y: nat, n: nat, i: nat)
    requires i < n
    ensures Bit(Bitwise(op, x, y, n), i) <==> op.Of(Bit(x, i), Bit(y, i))
    decreases n
  {
    var r := Bitwise(op, x, y, n);
    var rest := Bitwise(op, x / 2, y / 2, n - 1);
    assert r / 2 == rest && (r % 2 == 1 <==> op.Of(x % 2 == 1, y % 2 == 1));
    if i == 0 {
      assert Pow2(0) == 1;
    } else {
      BitNext(r, i);
      BitNext(x, i);
      BitNext(y, i);
      BitwiseAt(op, x / 2, y / 2, n - 1, i - 1);
    }
  }

  /** The bits below `n` determine a number below `2^n`. */
  lemma {:induction false} BitsDetermine(x: nat, y: nat, n: nat)
    requires x < Pow2(n) && y < Pow2(n) && forall i | 0 <= i < n :: Bit(x, i) <==> Bit(y, i)
    ensures x == y
    decreases n
  {
    if n > 0 {
      assert Bit(x, 0) <==> Bit(y, 0);
      assert Pow2(0) == 1;
      forall i | 0 <= i < n - 1 ensures Bit(x / 2, i) <==> Bit(y / 2, i) {
        BitNext(x, i + 1);
        BitNext(y, i + 1);
        assert Bit(x, i + 1) <==> Bit(y, i + 1);
      }
      BitsDetermine(x / 2, y / 2, n - 1);
    }
  }

  lemma {:induction false} NoBits(n: nat, i: nat)
    ensures !Bit(0, i)
  {
    QuotientUnique(0, Pow2(i), 0, 0);
  }

  /** Two words share a bit exactly when their conjunction is not zero. */
  lemma SharedBit(x: u64, y: u64)
    ensures BitAnd(x, y) != 0 <==> exists i | 0 <= i < 64 :: Bit(x, i) && Bit(y, i)
  {
    hide Bitwise;
    Pow2Word();
    var v := BitAnd(x, y);
    forall i | 0 <= i < 64 ensures (Bit(v, i) <==> Bit(x, i) && Bit(y, i)) && !Bit(0, i) {
      BitwiseAt(And, x, y, 64, i);
      NoBits(64, i);
    }
    if forall i | 0 <= i < 64 :: !(Bit(x, i) && Bit(y, i)) {
      BitsDetermine(v, 0, 64);
    }
  }

  // ---------------------------------------------------------------- operations

  predicate OrBits(x: u64, y: u64, v: u64) {
    forall i | 0 <= i < 64 :: Bit(v, i) <==> Bit(x, i) || Bit(y, i)
  }

  predicate AndBits(x: u64, y: u64, v: u64) {
    forall i | 0 <= i < 64 :: Bit(v, i) <==> Bit(x, i) && Bit(y, i)
  }

  predicate XorBits(x: u64, y: u64, v: u64) {
    forall i | 0 <= i < 64 :: Bit(v, i) <==> Bit(x, i) != Bit(y, i)
  }

  /** `v` is what the operation of this opcode byte makes of two words. */
  ghost predicate Computes(opcode: u8, lhs: u64, rhs: u64, v: u64) {
    && (opcode in {0x07, 0x0f} ==> Congruent(v, lhs + rhs))
    && (opcode in {0x17, 0x1f} ==> Congruent(v, lhs - rhs))
    && (opcode in {0x27, 0x2f} ==> Congruent(v, lhs * rhs))
    && (opcode in {0x37, 0x3f} ==> Quotient(lhs, rhs, v))
    && (opcode in {0x47, 0x4f} ==> OrBits(lhs, rhs, v))
    && (opcode in {0x57, 0x5f} ==> AndBits(lhs, rhs, v))
    && (opcode in {0x67, 0x6f} ==> Congruent(v, lhs * Pow2(rhs % 64)))
    && (opcode in {0x77, 0x7f} ==> Quotient(lhs, Pow2(rhs % 64), v))
    && (opcode in {0x97, 0x9f} ==> Remainder(lhs, rhs, v))
    && (opcode in {0xa7, 0xaf} ==> XorBits(lhs, rhs, v))
    && (opcode in {0xc7, 0xcf} ==> SignedQuotient(lhs, Pow2(rhs % 64), v))
  }

  /** The same division of the words as signed numbers. */
  ghost predicate SignedQuotient(lhs: u64, p: nat, v: u64) {
    exists a, z :: IsSigned(lhs, a) && IsSigned(v, z) && Quotient(a, p, z)
  }

  predicate Divides(opcode: u8) {
    opcode in {0x37, 0x3f, 0x97, 0x9f}
  }

  ghost predicate SignedBelow(x: u64, y: u64) {
    exists a, b :: IsSigned(x, a) && IsSigned(y, b) && a < b
  }

  /** The branch of this opcode byte is taken. */
  ghost predicate Taken(opcode: u8, lhs: u64, rhs: u64) {
    || opcode == 0x05
    || (opcode in {0x15, 0x1d} && lhs == rhs) || (opcode in {0x55, 0x5d} && lhs != rhs)
    || (opcode in {0x25, 0x2d} && lhs > rhs) || (opcode in {0x35, 0x3d} && lhs >= rhs)
    || (opcode in {0xa5, 0xad} && lhs < rhs) || (opcode in {0xb5, 0xbd} && lhs <= rhs)
    || (opcode in {0x45, 0x4d} && exists i | 0 <= i < 64 :: Bit(lhs, i) && Bit(rhs, i))
    || (opcode in {0x65, 0x6d} && SignedBelow(rhs, lhs)) || (opcode in {0x75, 0x7d} && !SignedBelow(lhs, rhs))
    || (opcode in {0xc5, 0xcd} && SignedBelow(lhs, rhs)) || (opcode in {0xd5, 0xdd} && !SignedBelow(rhs, lhs))
  }

  lemma SignedBelowIs(x: u64, y: u64)
    ensures SignedBelow(x, y) <==> Signed(x) < Signed(y)
  {
    hide IsSigned;
    forall z ensures (IsSigned(x, z) <==> z == Signed(x)) && (IsSigned(y, z) <==> z == Signed(y)) {
      SignedIs(x, z);
      SignedIs(y, z);
    }
    assert IsSigned(x, Signed(x)) && IsSigned(y, Signed(y));
  }

  lemma CompareIs(opcode: u8, lhs: u64, rhs: u64)
    requires Conditional(opcode)
    ensures Compare(opcode, lhs, rhs) <==> Taken(opcode, lhs, rhs)
  {
    hide Bit, SignedBelow, BitAnd, Signed;
    SharedBit(lhs, rhs);
    SignedBelowIs(lhs, rhs);
    SignedBelowIs(rhs, lhs);
    Nibbles(opcode);
  }

  lemma SignedQuotientIs(lhs: u64, p: nat, v: u64)
    requires p > 0
    ensures SignedQuotient(lhs, p, v) <==> v == Wrap(Signed(lhs) / p)
  {
    hide IsSigned, Quotient;
    forall z ensures (IsSigned(lhs, z) <==> z == Signed(lhs)) && (IsSigned(v, z) <==> z == Signed(v)) {
      SignedIs(lhs, z);
      SignedIs(v, z);
    }
    QuotientIs(Signed(lhs), p, Signed(v));
    SignedShrinks(Signed(lhs), p);
    SignedWrap(v, Signed(lhs) / p);
    if SignedQuotient(lhs, p, v) {
      assert Quotient(Signed(lhs), p, Signed(v));
    } else {
      assert !Quotient(Signed(lhs), p, Signed(v));
    }
  }

  /** Division by a power of two stays in range. */
  lemma SignedShrinks(a: int, p: nat)
    requires p > 0 && 0 <= a + TWO_63 < TWO_64
    ensures 0 <= a / p + TWO_63 < TWO_64
  {
    var q := a / p;
    assert a == p * q + a % p;
    if q >= 0 {
      MulGap(q, 0, p);
      assert q * p == p * q;
      QuotientBound(a, p);
    } else {
      var m := -q - 1;
      assert p * q == -(p * m) - p;
      assert p * m + p - a % p == -a;
      MulGap(m, 0, p);
      assert m * p >= m by {
        if p > 1 { MulGap(m, 1, p); }
      }
      assert m * p == p * m;
    }
  }

  lemma SignedWrap(v: u64, z: int)
    requires 0 <= z + TWO_63 < TWO_64
    ensures Signed(v) == z <==> v == Wrap(z)
  {
  }

  lemma WrapIs(x: int, v: u64)
    ensures Congruent(v, x) <==> v == Wrap(x)
  {
    CongruentWrap(x);
    if Congruent(v, x) {
      CongruentVia(v, Wrap(x), x);
      CongruentUnique(v, Wrap(x));
    }
  }

  lemma BitwiseIs(op: Logic, x: u64, y: u64, v: u64)
    ensures (forall i | 0 <= i < 64 :: Bit(v, i) <==> op.Of(Bit(x, i), Bit(y, i))) <==> v == Bitwise(op, x, y, 64)
  {
    hide Bitwise, Bit;
    Pow2Word();
    var w := Bitwise(op, x, y, 64);
    forall i | 0 <= i < 64 ensures Bit(w, i) <==> op.Of(Bit(x, i), Bit(y, i)) {
      BitwiseAt(op, x, y, 64, i);
    }
    if forall i | 0 <= i < 64 :: Bit(v, i) <==> op.Of(Bit(x, i), Bit(y, i)) {
      BitsDetermine(v, w, 64);
    }
  }

  lemma SumsIs(opcode: u8, lhs: u64, rhs: u64, v: u64)
    requires opcode in {0x07, 0x0f, 0x17, 0x1f, 0x27, 0x2f, 0x67, 0x6f}
    ensures Alu(opcode, lhs, rhs) == Value(v) <==> Computes(opcode, lhs, rhs, v)
  {
    hide Congruent, Pow2, Wrap;
    WrapIs(lhs + rhs, v);
    WrapIs(lhs - rhs, v);
    WrapIs(lhs * rhs, v);
    WrapIs(lhs * Pow2(rhs % 64), v);
    assert ShiftLeft(lhs, rhs) == Wrap(lhs * Pow2(rhs % 64)) by {
      ShiftLeftIs(lhs, rhs);
    }
    hide ShiftLeft;
  }

  lemma ShiftLeftIs(x: u64, count: u64)
    ensures ShiftLeft(x, count) == Wrap(x * Pow2(count % 64))
  {
    hide Pow2;
  }

  lemma QuotientsIs(opcode: u8, lhs: u64, rhs: u64, v: u64)
    requires opcode in {0x37, 0x3f, 0x77, 0x7f, 0x97, 0x9f, 0xc7, 0xcf} && (Divides(opcode) ==> rhs != 0)
    ensures Alu(opcode, lhs, rhs) == Value(v) <==> Computes(opcode, lhs, rhs, v)
  {
    hide Quotient, Remainder, SignedQuotient, Pow2, Wrap, Signed;
    if rhs != 0 {
      QuotientIs(lhs, rhs, v);
      RemainderIs(lhs, rhs, v);
    }
    QuotientIs(lhs, Pow2(rhs % 64), v);
    SignedQuotientIs(lhs, Pow2(rhs % 64), v);
  }

  lemma OrIs(x: u64, y: u64, v: u64)
    ensures OrBits(x, y, v) <==> v == BitOr(x, y)
  {
    hide Bit, Bitwise;
    BitwiseIs(Or, x, y, v);
  }

  lemma AndIs(x: u64, y: u64, v: u64)
    ensures AndBits(x, y, v) <==> v == BitAnd(x, y)
  {
    hide Bit, Bitwise;
    BitwiseIs(And, x, y, v);
  }

  lemma XorIs(x: u64, y: u64, v: u64)
    ensures XorBits(x, y, v) <==> v == BitXor(x, y)
  {
    hide Bit, Bitwise;
    BitwiseIs(Xor, x, y, v);
  }

  lemma LogicIs(opcode: u8, lhs: u64, rhs: u64, v: u64)
    requires opcode in {0x47, 0x4f, 0x57, 0x5f, 0xa7, 0xaf}
    ensures Alu(opcode, lhs, rhs) == Value(v) <==> Computes(opcode, lhs, rhs, v)
  {
    hide OrBits, AndBits, XorBits, BitOr, BitAnd, BitXor;
    OrIs(lhs, rhs, v);
    AndIs(lhs, rhs, v);
    XorIs(lhs, rhs, v);
  }

  /** The value is the one the opcode byte stands for, and no other is. */
  lemma AluIs(opcode: u8, lhs: u64, rhs: u64, v: u64)
    requires AluOperation(opcode)
    ensures Divides(opcode) && rhs == 0 ==> Alu(opcode, lhs, rhs) == DivideByZero
    ensures !(Divides(opcode) && rhs == 0) ==> (Alu(opcode, lhs, rhs) == Value(v) <==> Computes(opcode, lhs, rhs, v))
  {
    hide Computes, ShiftLeft, ShiftRight, ShiftRightSigned, BitOr, BitAnd, BitXor, Wrap;
    Nibbles(opcode);
    if opcode in {0x07, 0x0f, 0x17, 0x1f, 0x27, 0x2f, 0x67, 0x6f} {
      SumsIs(opcode, lhs, rhs, v);
    } else if opcode in {0x47, 0x4f, 0x57, 0x5f, 0xa7, 0xaf} {
      LogicIs(opcode, lhs, rhs, v);
    } else if !(Divides(opcode) && rhs == 0) {
      QuotientsIs(opcode, lhs, rhs, v);
    }
  }

  // ---------------------------------------------------------------- one instruction

  predicate NamesRegisters(ins: Instruction) {
    ins.Destination() <= 10 && ins.Source() <= 10
  }

  /** The second operand: the source register, or the immediate as a signed number. */
  predicate Operand(ins: Instruction, st: State, v: u64)
    requires st.Valid() && NamesRegisters(ins)
  {
    if FromRegister(ins.opcode) then v == st.registers[ins.Source()] else Congruent(v, ins.immediate)
  }

  /** One register changes, and control goes on past `n` instructions. */
  predicate Sets(st: State, d: nat, n: nat, out: Outcome)
    requires st.Valid() && d <= 10
  {
    && out.Running? && out.state.Valid()
    && out.state == State(st.registers[d := out.state.registers[d]], st.stack, st.pc + n)
  }

  ghost predicate AluOutcome(ins: Instruction, st: State, rhs: u64, out: Outcome)
    requires st.Valid() && NamesRegisters(ins)
  {
    var d := ins.Destination();
    if Divides(ins.opcode) && rhs == 0 then out == Failed(DivisionByZero(st.pc))
    else Sets(st, d, 1, out) && Computes(ins.opcode, st.registers[d], rhs, out.state.registers[d])
  }

  predicate WideValue(low: i32, high: i32, v: u64) {
    (v - low) % TWO_32 == 0 && (v / TWO_32 - high) % TWO_32 == 0
  }

  /** The number whose bytes lie in memory from `start` on, lowest first. */
  predicate InMemory(stack: seq<u8>, start: nat, size: nat, v: u64)
    requires start + size <= |stack|
  {
    v < Pow256(size) && forall k | 0 <= k < size :: Digit(v, k) == stack[start + k]
  }

  /** Exactly the bytes from `start` on change, to the lowest bytes of the value. */
  predicate Stores(st: State, start: nat, size: nat, v: u64, out: Outcome)
    requires st.Valid() && start + size <= STACK_SIZE
  {
    && out.Running? && out.state.Valid() && out.state.registers == st.registers && out.state.pc == st.pc + 1
    && (forall k | 0 <= k < size :: out.state.stack[start + k] == Digit(v, k))
    && (forall i | 0 <= i < STACK_SIZE && !(start <= i < start + size) :: out.state.stack[i] == st.stack[i])
  }

  ghost predicate MemoryOutcome(ins: Instruction, st: State, out: Outcome)
    requires st.Valid() && NamesRegisters(ins)
  {
    var start := 512 + ins.offset;
    if !InStack(ins) then out == Failed(InvalidStackAccess(st.pc))
    else if Memory(ins.opcode, 1) then
      && Sets(st, ins.Destination(), 1, out)
      && InMemory(st.stack, start, Size(ins.opcode), out.state.registers[ins.Destination()])
    else
      exists v: u64 :: StoredValue(ins, st, v) && Stores(st, start, Size(ins.opcode), v, out)
  }

  predicate StoredValue(ins: Instruction, st: State, v: u64)
    requires st.Valid() && NamesRegisters(ins)
  {
    if Memory(ins.opcode, 3) then v == st.registers[ins.Source()] else Congruent(v, ins.immediate)
  }

  /** Control goes to the target or past the branch; a branch taken backwards has none. */
  predicate Goes(ins: Instruction, st: State, taken: bool, out: Outcome) {
    if taken && ins.offset < 0 then out == Panic
    else out == Running(st.(pc := if taken then st.pc + 1 + ins.offset else st.pc + 1))
  }

  ghost predicate CallOutcome(helpers: Helpers, ins: Instruction, st: State, steps: nat, out: Outcome)
    requires st.Valid()
  {
    var answer := helpers(steps, ins.immediate, st.registers);
    if answer.None? then out == Failed(RuntimeError.InvalidHelper(st.pc, ins.immediate))
    else out == Running(State(st.registers[0 := answer.value], st.stack, st.pc + 1))
  }

  ghost predicate Means(program: Program, helpers: Helpers, st: State, steps: nat, out: Outcome)
    requires st.Valid() && st.pc < |program| && NamesRegisters(program[st.pc])
  {
    var ins := program[st.pc];
    var d, opcode := ins.Destination(), ins.opcode;
    && (AluOperation(opcode) ==> exists rhs: u64 :: Operand(ins, st, rhs) && AluOutcome(ins, st, rhs, out))
    && (Move(opcode) ==> Sets(st, d, 1, out) && Operand(ins, st, out.state.registers[d]))
    && (opcode == 0x87 ==> Sets(st, d, 1, out) && Opposite(out.state.registers[d], st.registers[d]))
    && (opcode == 0x18 ==>
          if st.pc + 1 == |program| then out == Panic
          else Sets(st, d, 2, out) && WideValue(ins.immediate, program[st.pc + 1].immediate, out.state.registers[d]))
    && (AnyMemory(opcode) ==> MemoryOutcome(ins, st, out))
    && (opcode == 0x05 ==> Goes(ins, st, true, out))
    && (Conditional(opcode) ==>
          exists rhs: u64 :: Operand(ins, st, rhs) && Goes(ins, st, Taken(opcode, st.registers[d], rhs), out))
    && (opcode == 0x85 ==> CallOutcome(helpers, ins, st, steps, out))
    && (opcode == 0x95 ==> out == Returned(st.registers[0]))
    && (!Supported(opcode) ==> out == Panic)
  }

  lemma ImmediateIs(immediate: i32, v: u64)
    ensures Congruent(v, immediate) <==> v == SignExtend(immediate)
  {
  }

  lemma OperandIs(ins: Instruction, st: State, v: u64)
    requires st.Valid() && NamesRegisters(ins)
    ensures Operand(ins, st, v) <==>
      v == if FromRegister(ins.opcode) then st.registers[ins.Source()] else SignExtend(ins.immediate)
  {
    hide Congruent, SignExtend, FromRegister;
    ImmediateIs(ins.immediate, v);
  }

  /** Setting a register to the one value with a property. */
  lemma SetsIs(st: State, d: nat, n: nat, v: u64, out: Outcome)
    requires st.Valid() && d <= 10
    ensures out == Running(State(st.registers[d := v], st.stack, st.pc + n)) <==>
      Sets(st, d, n, out) && out.state.registers[d] == v
  {
  }

  lemma AluStepIs(ins: Instruction, st: State, rhs: u64, out: Outcome)
    requires st.Valid() && NamesRegisters(ins) && AluOperation(ins.opcode)
    ensures ApplyAlu(ins, st, rhs) == out <==> AluOutcome(ins, st, rhs, out)
  {
    hide Alu, Computes, AluOperation, Sets;
    var d := ins.Destination();
    var lhs := st.registers[d];
    AluIs(ins.opcode, lhs, rhs, 0);
    if !(Divides(ins.opcode) && rhs == 0) {
      AluGives(ins.opcode, lhs, rhs);
      var v := Alu(ins.opcode, lhs, rhs).value;
      assert ApplyAlu(ins, st, rhs) == Running(State(st.registers[d := v], st.stack, st.pc + 1));
      SetsIs(st, d, 1, v, out);
      if Sets(st, d, 1, out) {
        SetsValid(st, d, 1, out);
        AluIs(ins.opcode, lhs, rhs, out.state.registers[d]);
      }
    }
  }

  lemma SetsValid(st: State, d: nat, n: nat, out: Outcome)
    requires st.Valid() && d <= 10 && Sets(st, d, n, out)
    ensures out.Running? && out.state.Valid()
  {
  }

  lemma AluGives(opcode: u8, lhs: u64, rhs: u64)
    requires AluOperation(opcode) && !(Divides(opcode) && rhs == 0)
    ensures Alu(opcode, lhs, rhs).Value?
  {
    Nibbles(opcode);
  }

  lemma NegateIs(x: u64, v: u64)
    ensures Opposite(v, x) <==> v == Wrap(TWO_64 - x)
  {
  }

  lemma WideIs(low: i32, high: i32, v: u64)
    ensures WideValue(low, high, v) <==> v == Low32(low) + TWO_32 * Low32(high)
  {
    var a, b := v % TWO_32, v / TWO_32;
    assert v == a + TWO_32 * b && 0 <= a < TWO_32 && 0 <= b < TWO_32;
    assert (v - low) % TWO_32 == 0 <==> a == Low32(low) by { HalfIs(v, low); }
    assert (b - high) % TWO_32 == 0 <==> b == Low32(high) by { HalfIs(b, high); }
  }

  lemma HalfIs(x: nat, immediate: i32)
    ensures (x - immediate) % TWO_32 == 0 <==> x % TWO_32 == Low32(immediate)
  {
  }

  lemma LoadedIs(stack: seq<u8>, start: nat, size: nat, v: u64)
    requires start + size <= |stack| && size <= 8
    ensures InMemory(stack, start, size, v) <==> v == LoadStack(stack, start, size)
  {
    var bytes := stack[start..start + size];
    var w := LittleEndian(bytes);
    LittleEndianBound(bytes);
    forall k | 0 <= k < size ensures Digit(w, k) == stack[start + k] {
      LittleEndianAt(bytes, k);
    }
    if InMemory(stack, start, size, v) {
      BytesDetermine(v, w, size);
    }
  }

  lemma StoredIs(st: State, start: nat, size: nat, v: u64, out: Outcome)
    requires st.Valid() && start + size <= STACK_SIZE
    ensures Stores(st, start, size, v, out) <==>
      out == Running(st.(stack := StoreStack(st.stack, start, size, v), pc := st.pc + 1))
  {
    hide Digit, BytesOf;
    var stored := StoreStack(st.stack, start, size, v);
    forall k | 0 <= k < size ensures stored[start + k] == Digit(v, k) {
      BytesOfAt(v, size, k);
    }
    if Stores(st, start, size, v, out) {
      forall i | 0 <= i < STACK_SIZE ensures out.state.stack[i] == stored[i] {
        if start <= i < start + size {
          var k := i - start;
          assert out.state.stack[start + k] == Digit(v, k);
        }
      }
      assert out.state.stack == stored;
    }
  }

  lemma LoadStepIs(ins: Instruction, st: State, out: Outcome)
    requires st.Valid() && NamesRegisters(ins) && Memory(ins.opcode, 1)
    ensures ApplyLoad(ins, st) == out <==> MemoryOutcome(ins, st, out)
  {
    hide Memory, Size, AccessSize, InMemory, LoadStack, Sets;
    SizeIs(ins.opcode);
    if InStack(ins) {
      var d, start, size := ins.Destination(), 512 + ins.offset, AccessSize(ins.opcode);
      SetsIs(st, d, 1, LoadStack(st.stack, start, size), out);
      if Sets(st, d, 1, out) {
        SetsValid(st, d, 1, out);
        LoadedIs(st.stack, start, size, out.state.registers[d]);
      }
    }
  }

  lemma StoreStepIs(ins: Instruction, st: State, value: u64, out: Outcome)
    requires st.Valid() && NamesRegisters(ins) && (Memory(ins.opcode, 2) || Memory(ins.opcode, 3))
    requires value == if Memory(ins.opcode, 3) then st.registers[ins.Source()] else SignExtend(ins.immediate)
    ensures ApplyStore(ins, st, value) == out <==> MemoryOutcome(ins, st, out)
  {
    Disjoint(ins.opcode);
    hide Memory, Size, AccessSize, StoreStack, Stores, SignExtend, Congruent;
    SizeIs(ins.opcode);
    forall v: u64 ensures StoredValue(ins, st, v) <==> v == value {
      ImmediateIs(ins.immediate, v);
    }
    if InStack(ins) {
      StoredIs(st, 512 + ins.offset, AccessSize(ins.opcode), value, out);
      assert StoredValue(ins, st, value);
    }
  }

  lemma BranchStepIs(ins: Instruction, st: State, rhs: u64, out: Outcome)
    requires st.Valid() && NamesRegisters(ins) && Conditional(ins.opcode)
    ensures var lhs := st.registers[ins.Destination()];
      Branch(ins, st, Compare(ins.opcode, lhs, rhs)) == out <==> Goes(ins, st, Taken(ins.opcode, lhs, rhs), out)
  {
    hide Compare, Taken, Conditional;
    CompareIs(ins.opcode, st.registers[ins.Destination()], rhs);
  }

  /**
   The interpreter's step on every instruction whose fields name registers is what its opcode byte means, and the only
   outcome that is.
   */
  lemma StepIs(program: Program, helpers: Helpers, st: State, steps: nat, out: Outcome)
    requires st.Valid() && st.pc < |program| && NamesRegisters(program[st.pc])
    ensures Step(program, helpers, st, steps) == out <==> Means(program, helpers, st, steps, out)
  {
    var ins := program[st.pc];
    var d, s := ins.Destination(), ins.Source();
    var rhs: u64 := if FromRegister(ins.opcode) then st.registers[s] else SignExtend(ins.immediate);
    KindIs(ins.opcode);
    Disjoint(ins.opcode);
    forall v: u64 ensures Operand(ins, st, v) <==> v == rhs {
      OperandIs(ins, st, v);
    }
    hide KindOf, AluOperation, Move, Conditional, Memory, FromRegister, ApplyAlu, ApplyLoad, ApplyStore, Branch, Compare,
      Taken, AluOutcome, MemoryOutcome, Goes, Operand, Sets, Opposite, Wrap, WideValue, Low32, SignExtend;
    assert Operand(ins, st, rhs);
    if AluOperation(ins.opcode) {
      AluStepIs(ins, st, rhs, out);
    } else if Conditional(ins.opcode) {
      BranchStepIs(ins, st, rhs, out);
    } else if Memory(ins.opcode, 1) {
      LoadStepIs(ins, st, out);
    } else if AnyMemory(ins.opcode) {
      StoreStepIs(ins, st, if Memory(ins.opcode, 3) then st.registers[s] else SignExtend(ins.immediate), out);
    } else {
      PlainStepIs(program, helpers, st, steps, out, rhs);
    }
  }

  lemma PlainStepIs(program: Program, helpers: Helpers, st: State, steps: nat, out: Outcome, rhs: u64)
    requires st.Valid() && st.pc < |program| && NamesRegisters(program[st.pc])
    requires var opcode := program[st.pc].opcode; !AluOperation(opcode) && !Conditional(opcode) && !AnyMemory(opcode)
    requires forall v: u64 :: Operand(program[st.pc], st, v) <==> v == rhs
    requires rhs == var ins := program[st.pc];
      if FromRegister(ins.opcode) then st.registers[ins.Source()] else SignExtend(ins.immediate)
    ensures Step(program, helpers, st, steps) == out <==> Means(program, helpers, st, steps, out)
  {
    var ins := program[st.pc];
    var d := ins.Destination();
    KindIs(ins.opcode);
    Disjoint(ins.opcode);
    hide KindOf, AluOperation, Move, Conditional, Memory, FromRegister, AluOutcome, MemoryOutcome, Operand, Sets, Opposite,
      Wrap, WideValue, Low32, SignExtend, Taken;
    SetsIs(st, d, 1, rhs, out);
    SetsIs(st, d, 1, Wrap(TWO_64 - st.registers[d]), out);
    if st.pc + 1 < |program| {
      SetsIs(st, d, 2, Low32(ins.immediate) + TWO_32 * Low32(program[st.pc + 1].immediate), out);
    }
    if Sets(st, d, 1, out) {
      SetsValid(st, d, 1, out);
      NegateIs(st.registers[d], out.state.registers[d]);
    }
    if Sets(st, d, 2, out) && st.pc + 1 < |program| {
      SetsValid(st, d, 2, out);
      WideIs(ins.immediate, program[st.pc + 1].immediate, out.state.registers[d]);
    }
  }

  // ---------------------------------------------------------------- a whole run

  /** The states a run passes through, each reached from the one before as its instruction means, and how it ends. */
  ghost predicate Runs(program: Program, helpers: Helpers, states: seq<State>, steps: nat, result: Outcome) {
    && states != [] && !result.Running?
    && (forall i | 0 <= i < |states| ::
          states[i].Valid() && states[i].pc < |program| && NamesRegisters(program[states[i].pc]))
    && (forall i | 0 <= i < |states| - 1 :: Means(program, helpers, states[i], steps + i, Running(states[i + 1])))
    && Means(program, helpers, states[|states| - 1], steps + |states| - 1, result)
  }

  lemma RunsMore(program: Program, helpers: Helpers, st: State, rest: seq<State>, steps: nat, result: Outcome)
    requires Runs(program, helpers, rest, steps + 1, result)
    requires st.Valid() && st.pc < |program| && NamesRegisters(program[st.pc])
    requires Means(program, helpers, st, steps, Running(rest[0]))
    ensures Runs(program, helpers, [st] + rest, steps, result)
  {
    hide Means, NamesRegisters;
    var states := [st] + rest;
    forall i | 0 <= i < |states|
      ensures states[i].Valid() && states[i].pc < |program| && NamesRegisters(program[states[i].pc])
    {
      assert i > 0 ==> states[i] == rest[i - 1];
    }
    forall i | 0 <= i < |states| - 1 ensures Means(program, helpers, states[i], steps + i, Running(states[i + 1])) {
      if i > 0 {
        var j := i - 1;
        assert states[i] == rest[j] && states[i + 1] == rest[j + 1];
        assert Means(program, helpers, rest[j], steps + 1 + j, Running(rest[j + 1]));
      }
    }
  }

  lemma {:induction false} ExecRuns(program: Program, wide: seq<bool>, allowed: seq<i32>, helpers: Helpers, st: State,
                                    steps: nat, path: seq<nat>) returns (states: seq<State>)
    requires WellFormed(program, wide, allowed) && st.Valid() && PathTo(program, path, st.pc) && steps <= st.pc
    ensures Runs(program, helpers, states, steps, Exec(program, helpers, st, steps))
    ensures states[0] == st && |states| <= |program| - st.pc
    decreases |program| - st.pc
  {
    hide Step, WellFormed, Successors, InitOn, Needs, Checked, Means;
    PathChecked(program, wide, allowed, path, st.pc);
    CheckedInRange(program, wide, allowed, st.pc);
    WellFormedSize(program, wide, allowed);
    CheckedNames(program, wide, allowed, st.pc);
    StepSound(program, wide, allowed, helpers, st, steps);
    var out := Step(program, helpers, st, steps);
    StepIs(program, helpers, st, steps, out);
    if out.Running? {
      PathExtend(program, path, out.state.pc);
      var rest := ExecRuns(program, wide, allowed, helpers, out.state, steps + 1, path + [out.state.pc]);
      RunsMore(program, helpers, st, rest, steps, Exec(program, helpers, st, steps));
      states := [st] + rest;
    } else {
      states := [st];
    }
  }

  lemma CheckedNames(program: Program, wide: seq<bool>, allowed: seq<i32>, pc: nat)
    requires Checked(program, wide, allowed, pc)
    ensures NamesRegisters(program[pc])
  {
    hide LocalOk, KindOf;
  }

  /** The state a run starts in: the context in r1, the end of the stack in r10, and zeros. */
  predicate Begins(st: State, context: u64) {
    && st.Valid() && st.pc == 0
    && (forall i | 0 <= i <= 10 :: st.registers[i] == if i == 1 then context else if i == 10 then 512 else 0)
    && (forall i | 0 <= i < 512 :: st.stack[i] == 0)
  }

  /**
   The outcome of a verified program is that of the run its opcode bytes stand for, from the initial state and in no
   more steps than the program has instructions.
   */
  lemma OutcomeIs(program: Program, allowed: seq<i32>, helpers: Helpers, context: u64) returns (states: seq<State>)
    requires Verdict(program, allowed).Ok?
    ensures Runs(program, helpers, states, 0, Exec(program, helpers, Start(context), 0))
    ensures Begins(states[0], context) && |states| <= |program|
  {
    hide Exec, Exact, Justified, WellEncoded, Fine, ExitBefore, Verdict, Runs;
    VerifyExact(program, allowed);
    var wide :| WellFormed(program, wide, allowed);
    states := ExecRuns(program, wide, allowed, helpers, Start(context), 0, [0]);
  }
}

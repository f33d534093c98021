/**
 The rules of the instruction set by the fields of the opcode byte: class in the low three bits, source bit above it,
 operation in the high nibble. They say what an instruction reads, gives, clobbers and may be followed by, without the
 classification the verifier works with, and the verdict is restated in their terms.
 */
module BpfRules {
  import opened Wrappers
  import opened BpfIsa
  import opened BpfVerifier
  import opened BpfExact

  // ---------------------------------------------------------------- the opcode byte

  /** An operation on a register and an operand, other than a move. */
  predicate AluOperation(opcode: u8) {
    opcode % 8 == 7 && opcode / 16 in {0, 1, 2, 3, 4, 5, 6, 7, 9, 10, 12}
  }

  predicate Move(opcode: u8) {
    opcode % 8 == 7 && opcode / 16 == 11
  }

  predicate Conditional(opcode: u8) {
    opcode % 8 == 5 && opcode / 16 in {1, 2, 3, 4, 5, 6, 7, 10, 11, 12, 13}
  }

  /** The operand is a register; otherwise it is the immediate. */
  predicate FromRegister(opcode: u8) {
    opcode / 8 % 2 == 1
  }

  /** Access to memory: class 1 loads, 2 stores the immediate, 3 stores a register. */
  predicate Memory(opcode: u8, class_: nat) {
    opcode % 8 == class_ && opcode / 32 == 3
  }

  predicate AnyMemory(opcode: u8) {
    Memory(opcode, 1) || Memory(opcode, 2) || Memory(opcode, 3)
  }

  predicate Supported(opcode: u8) {
    opcode in {0x05, 0x18, 0x85, 0x87, 0x95} || AluOperation(opcode) || Move(opcode) || Conditional(opcode) || AnyMemory(opcode)
  }

  /** The bytes accessed. */
  function Size(opcode: u8): nat {
    if opcode / 8 % 4 == 0 then 4 else if opcode / 8 % 4 == 1 then 2 else if opcode / 8 % 4 == 2 then 1 else 8
  }

  lemma Nibbles(opcode: u8)
    ensures var hi, lo := opcode / 16, opcode % 16;
      opcode == 16 * hi + lo && opcode % 8 == lo % 8 && opcode / 8 % 2 == lo / 8 && opcode / 32 == hi / 2 && hi < 16
  {
  }

  lemma AluIs(opcode: u8)
    ensures IsAluImmediate(opcode) <==> AluOperation(opcode) && !FromRegister(opcode)
    ensures IsAluRegister(opcode) <==> AluOperation(opcode) && FromRegister(opcode)
  {
    Nibbles(opcode);
  }

  lemma BranchIs(opcode: u8)
    ensures IsBranchImmediate(opcode) <==> Conditional(opcode) && !FromRegister(opcode)
    ensures IsBranchRegister(opcode) <==> Conditional(opcode) && FromRegister(opcode)
  {
    Nibbles(opcode);
  }

  lemma MemoryIs(opcode: u8)
    ensures IsLoad(opcode) <==> Memory(opcode, 1)
    ensures IsStoreImmediate(opcode) <==> Memory(opcode, 2)
    ensures IsStoreRegister(opcode) <==> Memory(opcode, 3)
  {
    Nibbles(opcode);
  }

  lemma MoveIs(opcode: u8)
    ensures opcode == 0xb7 <==> Move(opcode) && !FromRegister(opcode)
    ensures opcode == 0xbf <==> Move(opcode) && FromRegister(opcode)
  {
    Nibbles(opcode);
  }

  /** No opcode byte belongs to two groups. */
  lemma Disjoint(opcode: u8)
    ensures AluOperation(opcode) || Move(opcode) || Conditional(opcode) || AnyMemory(opcode) ==>
      opcode !in {0x05, 0x18, 0x85, 0x87, 0x95}
    ensures !(AluOperation(opcode) && (Move(opcode) || Conditional(opcode) || AnyMemory(opcode)))
    ensures !(Move(opcode) && (Conditional(opcode) || AnyMemory(opcode))) && !(Conditional(opcode) && AnyMemory(opcode))
    ensures !(Memory(opcode, 1) && Memory(opcode, 2)) && !(Memory(opcode, 1) && Memory(opcode, 3))
    ensures !(Memory(opcode, 2) && Memory(opcode, 3))
  {
    Nibbles(opcode);
  }

  lemma KindIs(opcode: u8)
    ensures var k := KindOf(opcode);
      && (k.Wide? <==> opcode == 0x18) && (k.MoveImmediate? <==> Move(opcode) && !FromRegister(opcode))
      && (k.MoveRegister? <==> Move(opcode) && FromRegister(opcode))
      && (k.AluImmediate? <==> AluOperation(opcode) && !FromRegister(opcode))
      && (k.AluRegister? <==> AluOperation(opcode) && FromRegister(opcode)) && (k.Negate? <==> opcode == 0x87)
      && (k.Load? <==> Memory(opcode, 1)) && (k.StoreImmediate? <==> Memory(opcode, 2))
      && (k.StoreRegister? <==> Memory(opcode, 3)) && (k.Jump? <==> opcode == 0x05)
      && (k.BranchImmediate? <==> Conditional(opcode) && !FromRegister(opcode))
      && (k.BranchRegister? <==> Conditional(opcode) && FromRegister(opcode))
      && (k.Call? <==> opcode == 0x85) && (k.Exit? <==> opcode == 0x95) && (k.Unsupported? <==> !Supported(opcode))
  {
    AluIs(opcode);
    BranchIs(opcode);
    MemoryIs(opcode);
    MoveIs(opcode);
    Disjoint(opcode);
    hide AluOperation, Move, Conditional, Memory, FromRegister, IsAluImmediate, IsAluRegister, IsBranchImmediate,
      IsBranchRegister, IsLoad, IsStoreImmediate, IsStoreRegister;
  }

  lemma SizeIs(opcode: u8)
    ensures AccessSize(opcode) == Size(opcode)
  {
  }

  // ---------------------------------------------------------------- registers and control

  predicate Reads(ins: Instruction, r: nat) {
    || (r == ins.Destination() && (AluOperation(ins.opcode) || Conditional(ins.opcode) || ins.opcode == 0x87))
    || (r == ins.Source() && FromRegister(ins.opcode)
        && (AluOperation(ins.opcode) || Move(ins.opcode) || Conditional(ins.opcode)))
    || (r == ins.Source() && Memory(ins.opcode, 3))
    || (r == 0 && ins.opcode == 0x95)
  }

  /** The register holds a value afterwards, whatever it held before. */
  predicate Gives(ins: Instruction, r: nat) {
    || (r == ins.Destination()
        && (AluOperation(ins.opcode) || Move(ins.opcode) || Memory(ins.opcode, 1) || ins.opcode == 0x18))
    || (r == 0 && ins.opcode == 0x85)
  }

  /** A helper call leaves the argument registers r1 to r5 in an unknown state. */
  predicate Clobbers(ins: Instruction, r: nat) {
    ins.opcode == 0x85 && 1 <= r <= 5
  }

  predicate Follows(ins: Instruction, pc: nat, t: nat) {
    if ins.opcode == 0x18 then t == pc + 2
    else if ins.opcode == 0x95 then false
    else
      || (t == pc + 1 && ins.opcode != 0x05)
      || (t == pc + 1 + ins.offset && ins.offset >= 0 && (ins.opcode == 0x05 || Conditional(ins.opcode)))
  }

  lemma NeedsIs(ins: Instruction, r: nat)
    ensures r in Needs(ins) <==> Reads(ins, r)
  {
    hide KindOf, AluOperation, Conditional, Move, Memory, FromRegister, Supported;
    KindIs(ins.opcode);
  }

  lemma TransferIs(ins: Instruction, initialized: set<nat>, r: nat)
    ensures r in Transfer(ins, initialized) <==> Gives(ins, r) || (r in initialized && !Clobbers(ins, r))
  {
    hide KindOf, AluOperation, Conditional, Move, Memory, FromRegister, Supported;
    KindIs(ins.opcode);
  }

  lemma SuccessorsIs(ins: Instruction, pc: nat, t: nat)
    ensures t in Successors(ins, pc) <==> Follows(ins, pc, t)
  {
    hide KindOf, AluOperation, Conditional, Move, Memory, FromRegister, Supported;
    KindIs(ins.opcode);
  }

  /** A way through the program from its first instruction. */
  predicate Way(program: Program, path: seq<nat>) {
    && path != [] && path[0] == 0 && (forall i | 0 <= i < |path| :: path[i] < |program|)
    && forall i | 0 <= i < |path| - 1 :: Follows(program[path[i]], path[i], path[i + 1])
  }

  lemma WayIs(program: Program, path: seq<nat>)
    ensures Way(program, path) <==> IsPath(program, path)
  {
    hide Successors, Follows;
    forall i | 0 <= i < |path| - 1 && path[i] < |program|
      ensures path[i + 1] in Successors(program[path[i]], path[i]) <==> Follows(program[path[i]], path[i], path[i + 1])
    {
      SuccessorsIs(program[path[i]], path[i], path[i + 1]);
    }
  }

  /** No call from step `i` of the way up to its end clobbers the register. */
  predicate Kept(program: Program, path: seq<nat>, i: nat, r: nat)
    requires Way(program, path)
  {
    forall j | i <= j < |path| - 1 :: !Clobbers(program[path[j]], r)
  }

  /**
   On arrival at the end of the way the register holds something the program may use: the context or the frame pointer
   it started with, or a value given on the way, and no call since has clobbered it.
   */
  ghost predicate Held(program: Program, path: seq<nat>, r: nat)
    requires Way(program, path)
  {
    || (r in {1, 10} && Kept(program, path, 0, r))
    || exists i | 0 <= i < |path| - 1 :: Gives(program[path[i]], r) && Kept(program, path, i + 1, r)
  }

  lemma {:induction false} InitOnIs(program: Program, path: seq<nat>, r: nat)
    requires Way(program, path)
    ensures IsPath(program, path) && (r in InitOn(program, path) <==> Held(program, path, r))
    decreases |path|
  {
    hide Transfer, Gives, Clobbers, Follows;
    WayIs(program, path);
    if |path| > 1 {
      var last := |path| - 2;
      var before := path[..|path| - 1];
      assert Way(program, before) by {
        assert forall i | 0 <= i < |before| :: before[i] == path[i];
      }
      InitOnIs(program, before, r);
      TransferIs(program[path[last]], InitOn(program, before), r);
      HeldStep(program, path, before, r);
    }
  }

  lemma HeldStep(program: Program, path: seq<nat>, before: seq<nat>, r: nat)
    requires |path| > 1 && before == path[..|path| - 1] && Way(program, path) && Way(program, before)
    ensures var ins := program[path[|path| - 2]];
      Held(program, path, r) <==> Gives(ins, r) || (Held(program, before, r) && !Clobbers(ins, r))
  {
    hide Gives, Clobbers, Follows;
    var last := |path| - 2;
    var ins := program[path[last]];
    forall i: nat | i <= last ensures Kept(program, path, i, r) <==> Kept(program, before, i, r) && !Clobbers(ins, r) {
      assert forall j | i <= j < last :: before[j] == path[j];
    }
    assert Kept(program, path, last + 1, r);
    if Held(program, before, r) && !Clobbers(ins, r) {
      if i :| 0 <= i < |before| - 1 && Gives(program[before[i]], r) && Kept(program, before, i + 1, r) {
        assert Gives(program[path[i]], r) && Kept(program, path, i + 1, r);
      }
    }
    if Held(program, path, r) && !Gives(ins, r) {
      if i :| 0 <= i < |path| - 1 && Gives(program[path[i]], r) && Kept(program, path, i + 1, r) {
        assert i < last;
        assert Gives(program[before[i]], r) && Kept(program, before, i + 1, r);
      }
    }
  }

  // ---------------------------------------------------------------- the verdict

  predicate Jumps(opcode: u8) {
    opcode == 0x05 || Conditional(opcode)
  }

  /** The instruction writes the register its destination field names. */
  predicate SetsDestination(opcode: u8) {
    AluOperation(opcode) || Move(opcode) || Memory(opcode, 1) || opcode == 0x18 || opcode == 0x87
  }

  /** The register an access to memory takes its address from. */
  function Base(ins: Instruction): nat {
    if Memory(ins.opcode, 1) then ins.Source() else ins.Destination()
  }

  /** The bytes accessed lie in the frame, below the frame pointer. */
  predicate InStack(ins: Instruction) {
    -512 <= ins.offset && ins.offset + Size(ins.opcode) <= 0
  }

  /** What is asked of an instruction apart from the registers it reads; `wide` marks second halves. */
  ghost predicate Permitted(ins: Instruction, wide: seq<bool>, allowed: seq<i32>, pc: nat) {
    && Supported(ins.opcode)
    && (SetsDestination(ins.opcode) ==> ins.Destination() != 10)
    && (AnyMemory(ins.opcode) ==> Base(ins) == 10 && InStack(ins))
    && (Jumps(ins.opcode) ==> ins.offset >= 0 && pc + 1 + ins.offset < |wide| && !wide[pc + 1 + ins.offset])
    && (ins.opcode == 0x85 ==> ins.immediate in allowed)
    && forall t: nat | Follows(ins, pc, t) :: t < |wide|
  }

  lemma LocalOkIs(ins: Instruction, wide: seq<bool>, allowed: seq<i32>, pc: nat)
    ensures LocalOk(ins, wide, allowed, pc) <==> Permitted(ins, wide, allowed, pc)
  {
    hide KindOf, AluOperation, Conditional, Move, Memory, FromRegister, Successors, Follows, AccessSize, Size;
    KindIs(ins.opcode);
    SizeIs(ins.opcode);
    Disjoint(ins.opcode);
    var next := Successors(ins, pc);
    assert (forall i | 0 <= i < |next| :: next[i] < |wide|) <==> (forall t: nat | Follows(ins, pc, t) :: t < |wide|) by {
      forall t: nat ensures t in next <==> Follows(ins, pc, t) {
        SuccessorsIs(ins, pc, t);
      }
      assert forall i | 0 <= i < |next| :: next[i] in next;
    }
  }

  predicate Zeroed(ins: Instruction) {
    ins.opcode == 0 && ins.registers == 0 && ins.offset == 0
  }

  /** The fields name registers, the opcode is known, and a wide instruction has its second half. */
  predicate Encoded(program: Program, q: nat)
    requires q < |program|
  {
    && program[q].Destination() <= 10 && program[q].Source() <= 10 && Supported(program[q].opcode)
    && (program[q].opcode == 0x18 ==> q + 1 < |program| && program[q].Source() == 0 && Zeroed(program[q + 1]))
  }

  predicate Marked(program: Program, wide: seq<bool>, q: nat)
    requires |wide| == |program| && q < |program|
  {
    wide[q] <==> q > 0 && !wide[q - 1] && program[q - 1].opcode == 0x18
  }

  /** `wide` marks exactly the second halves of wide instructions, and every other instruction is well encoded. */
  predicate Tiled(program: Program, wide: seq<bool>) {
    && |wide| == |program|
    && (forall q | 0 <= q < |program| :: Marked(program, wide, q))
    && forall q | 0 <= q < |program| && !wide[q] :: Encoded(program, q)
  }

  lemma TiledNext(program: Program, wide: seq<bool>, q: nat)
    requires Tiled(program, wide) && q < |program|
    ensures q + 1 < |program| ==> (wide[q + 1] <==> !wide[q] && program[q].opcode == 0x18)
    ensures !wide[q] ==> Encoded(program, q)
  {
    hide Encoded;
    assert q + 1 < |program| ==> Marked(program, wide, q + 1);
  }

  lemma WellEncodedIs(program: Program, wide: seq<bool>)
    requires |wide| == |program|
    ensures WellEncoded(program, wide) <==> Tiled(program, wide)
  {
    hide KindOf, Supported;
    forall q | 0 <= q < |program|
      ensures (KindOf(program[q].opcode).Wide? <==> program[q].opcode == 0x18)
      ensures KindOf(program[q].opcode).Unsupported? <==> !Supported(program[q].opcode)
    {
      KindIs(program[q].opcode);
    }
    if WellEncoded(program, wide) {
      forall q | 0 <= q < |program| ensures Marked(program, wide, q) {
        assert EncodedAt(program, wide, q);
        if q > 0 { assert EncodedAt(program, wide, q - 1); }
      }
      forall q | 0 <= q < |program| && !wide[q] ensures Encoded(program, q) {
        assert EncodedAt(program, wide, q);
      }
    }
    if Tiled(program, wide) {
      forall q | 0 <= q < |program| ensures EncodedAt(program, wide, q) {
        TiledNext(program, wide, q);
      }
      assert |program| > 0 ==> Marked(program, wide, 0);
    }
  }

  ghost predicate WayTo(program: Program, path: seq<nat>, pc: nat) {
    Way(program, path) && path[|path| - 1] == pc
  }

  /** On every way to the instruction it is permitted, and every register it reads is held. */
  ghost predicate SafeAt(program: Program, wide: seq<bool>, allowed: seq<i32>, pc: nat)
    requires pc < |program|
  {
    forall path | WayTo(program, path, pc) ::
      Permitted(program[pc], wide, allowed, pc) && forall r: nat | Reads(program[pc], r) :: Held(program, path, r)
  }

  ghost predicate ReachesExit(program: Program) {
    exists path :: Way(program, path) && program[path[|path| - 1]].opcode == 0x95
  }

  lemma FineIs(program: Program, wide: seq<bool>, allowed: seq<i32>, q: nat)
    requires q < |program|
    ensures Fine(program, wide, allowed, q) <==> SafeAt(program, wide, allowed, q)
  {
    hide LocalOk, Permitted, Needs, Reads, Held, InitOn, Way, IsPath;
    LocalOkIs(program[q], wide, allowed, q);
    forall path ensures WayTo(program, path, q) <==> PathTo(program, path, q) {
      WayIs(program, path);
    }
    forall path | WayTo(program, path, q)
      ensures Needs(program[q]) <= InitOn(program, path) <==> forall r: nat | Reads(program[q], r) :: Held(program, path, r)
    {
      forall r: nat
        ensures r in Needs(program[q]) <==> Reads(program[q], r)
        ensures r in InitOn(program, path) <==> Held(program, path, r)
      {
        NeedsIs(program[q], r);
        InitOnIs(program, path, r);
      }
    }
  }

  lemma ExitIs(program: Program)
    ensures ExitBefore(program, |program|) <==> ReachesExit(program)
  {
    hide KindOf, Follows, Successors;
    forall path ensures Way(program, path) <==> IsPath(program, path) {
      WayIs(program, path);
    }
    forall q | 0 <= q < |program| ensures KindOf(program[q].opcode).Exit? <==> program[q].opcode == 0x95 {
      KindIs(program[q].opcode);
    }
    if ExitBefore(program, |program|) {
      var q :| 0 <= q < |program| && Reachable(program, q) && KindOf(program[q].opcode).Exit?;
      var path :| PathTo(program, path, q);
      assert Way(program, path) && path[|path| - 1] == q;
    }
    if ReachesExit(program) {
      var path :| Way(program, path) && program[path[|path| - 1]].opcode == 0x95;
      assert PathTo(program, path, path[|path| - 1]);
    }
  }

  /** The programs to be accepted, by opcode bytes and ways alone. */
  ghost predicate Trustworthy(program: Program, wide: seq<bool>, allowed: seq<i32>) {
    && 0 < |program| <= 4096 && Tiled(program, wide)
    && (forall pc | 0 <= pc < |program| :: SafeAt(program, wide, allowed, pc))
    && ReachesExit(program)
  }

  /** The verifier accepts exactly those. */
  lemma VerdictIs(program: Program, allowed: seq<i32>)
    ensures Verdict(program, allowed).Ok? <==> exists wide :: Trustworthy(program, wide, allowed)
  {
    hide Verdict, Fine, SafeAt, Tiled, WellEncoded, ExitBefore, ReachesExit, Exact, Justified;
    VerifyExact(program, allowed);
    ExitIs(program);
    forall wide ensures WellFormed(program, wide, allowed) <==> Trustworthy(program, wide, allowed) {
      forall q | 0 <= q < |program| ensures Fine(program, wide, allowed, q) <==> SafeAt(program, wide, allowed, q) {
        FineIs(program, wide, allowed, q);
      }
      TiledLength(program, wide);
      if |wide| == |program| {
        WellEncodedIs(program, wide);
      }
    }
  }

  lemma TiledLength(program: Program, wide: seq<bool>)
    ensures Tiled(program, wide) ==> |wide| == |program|
  {
  }

  // ---------------------------------------------------------------- the errors

  /** What the error says is so of the instruction at `pc`. */
  ghost predicate Deserved(ins: Instruction, wide: seq<bool>, allowed: seq<i32>, pc: nat, error: VerifyError) {
    match error
    case InvalidOpcode(p, opcode) => p == pc && opcode == ins.opcode && !Supported(opcode)
    case FramePointerWrite(p) => p == pc && SetsDestination(ins.opcode) && ins.Destination() == 10
    case UninitializedRegister(p, r) => p == pc && Reads(ins, r)
    case BackwardJump(p) => p == pc && Jumps(ins.opcode) && ins.offset < 0
    case InvalidJump(p) => p == pc && Jumps(ins.opcode) && ins.offset >= 0 && pc + 1 + ins.offset >= |wide|
    case JumpIntoWideImmediate(p) =>
      p == pc && Jumps(ins.opcode) && ins.offset >= 0 && pc + 1 + ins.offset < |wide| && wide[pc + 1 + ins.offset]
    case InvalidHelper(p, helper) => p == pc && ins.opcode == 0x85 && helper == ins.immediate && helper !in allowed
    case InvalidStackBase(p) => p == pc && AnyMemory(ins.opcode) && Base(ins) != 10
    case StackOutOfBounds(p) => p == pc && AnyMemory(ins.opcode) && Base(ins) == 10 && !InStack(ins)
    case ReachableFallthrough(p) => p == pc && exists t: nat :: Follows(ins, pc, t) && t >= |wide|
    case _ => false
  }

  lemma CheckDeserved(ins: Instruction, wide: seq<bool>, allowed: seq<i32>, pc: nat, initialized: set<nat>)
    requires LocalCheck(ins, wide, allowed, pc, initialized).Some?
    ensures Deserved(ins, wide, allowed, pc, LocalCheck(ins, wide, allowed, pc, initialized).value)
  {
    hide KindOf, AluOperation, Conditional, Move, Memory, FromRegister, AccessSize, Size;
    KindIs(ins.opcode);
    SizeIs(ins.opcode);
    Disjoint(ins.opcode);
    assert ins.opcode == 0x18 ==> Follows(ins, pc, pc + 2);
    assert ins.opcode !in {0x05, 0x18, 0x95} ==> Follows(ins, pc, pc + 1);
  }

  lemma {:induction false} PassDeserved(program: Program, wide: seq<bool>, allowed: seq<i32>, incoming: seq<Facts>, pc: nat,
                                        sawExit: bool)
    requires |wide| == |incoming| == |program|
    ensures var r := Pass(program, wide, allowed, incoming, pc, sawExit);
      r.Err? && !r.error.MissingExit? ==>
        exists q | 0 <= q < |program| :: Deserved(program[q], wide, allowed, q, r.error)
    decreases |program| - pc
  {
    hide LocalCheck, LocalOk, Deserved, Transfer, Successors, KindOf;
    if pc < |program| {
      if incoming[pc].None? || wide[pc] {
        PassDeserved(program, wide, allowed, incoming, pc + 1, sawExit);
      } else {
        var ins, initialized := program[pc], incoming[pc].value;
        LocalCheckPasses(ins, wide, allowed, pc, initialized);
        if LocalCheck(ins, wide, allowed, pc, initialized).Some? {
          CheckDeserved(ins, wide, allowed, pc, initialized);
        } else {
          TargetsInRange(ins, wide, allowed, pc);
          var out := Propagate(incoming, Successors(ins, pc), Transfer(ins, initialized));
          PassDeserved(program, wide, allowed, out, pc + 1, sawExit || KindOf(ins.opcode).Exit?);
        }
      }
    }
  }

  /** What an error of the scan says is so of the program. */
  predicate BadEncoding(program: Program, error: VerifyError) {
    match error
    case InvalidRegister(pc, r) =>
      pc < |program| && r > 10 && (r == program[pc].Destination() || r == program[pc].Source())
    case InvalidOpcode(pc, opcode) => pc < |program| && opcode == program[pc].opcode && !Supported(opcode)
    case TruncatedWideImmediate(pc) => pc + 1 == |program| && program[pc].opcode == 0x18
    case InvalidWideImmediate(pc) =>
      pc + 1 < |program| && program[pc].opcode == 0x18 && (program[pc].Source() != 0 || !Zeroed(program[pc + 1]))
    case _ => false
  }

  lemma {:induction false} ScanDeserved(program: Program, pc: nat, wide: seq<bool>)
    requires |wide| == |program|
    ensures Scan(program, pc, wide).Err? ==> BadEncoding(program, Scan(program, pc, wide).error)
    decreases |program| - pc
  {
    hide KindOf, Supported;
    if pc < |program| {
      KindIs(program[pc].opcode);
      if pc + 1 < |program| { ScanDeserved(program, pc + 2, wide[pc + 1 := true]); }
      ScanDeserved(program, pc + 1, wide);
    }
  }

  /**
   A rejection is deserved: the error names an instruction that can be reached and what is wrong with it, with a way
   on which a register it reads is not held; or what is wrong with the encoding, the length or the missing exit.
   */
  ghost predicate Explains(program: Program, allowed: seq<i32>, error: VerifyError) {
    || (error.EmptyProgram? && program == [])
    || (error.ProgramTooLarge? && |program| > 4096)
    || (error.MissingExit? && !ReachesExit(program))
    || BadEncoding(program, error)
    || (exists wide, pc, path |
          0 <= pc < |program| && WayTo(program, path, pc) && Deserved(program[pc], wide, allowed, pc, error) ::
          && Tiled(program, wide)
          && (error.UninitializedRegister? ==> !Held(program, path, error.register)))
  }

  lemma DeservedAt(ins: Instruction, wide: seq<bool>, allowed: seq<i32>, pc: nat, error: VerifyError)
    requires Deserved(ins, wide, allowed, pc, error)
    ensures OfPass(error) || error.InvalidOpcode?
    ensures error.pc == pc && (error.InvalidOpcode? ==> error.opcode == ins.opcode && !Supported(error.opcode))
  {
  }

  lemma RejectionExplained(program: Program, allowed: seq<i32>)
    requires Verdict(program, allowed).Err?
    ensures Explains(program, allowed, Verdict(program, allowed).error)
  {
    hide Scan, Pass, Deserved, BadEncoding, Tiled, ReachesExit, Held, InitOn, Way, IsPath, Needs, Exact;
    var error := Verdict(program, allowed).error;
    VerifyExact(program, allowed);
    ExitIs(program);
    if 0 < |program| <= MAX_INSTRUCTIONS {
      var none := seq(|program|, _ => false);
      var scan := Scan(program, 0, none);
      ScanDeserved(program, 0, none);
      if scan.Ok? && !error.MissingExit? {
        ScanSound(program, 0, none);
        WellEncodedIs(program, scan.value);
        PassDeserved(program, scan.value, allowed, Entry(|program|), 0, false);
        var pc :| 0 <= pc < |program| && Deserved(program[pc], scan.value, allowed, pc, error);
        DeservedAt(program[pc], scan.value, allowed, pc, error);
        if error.InvalidOpcode? {
          assert BadEncoding(program, error) by { UnknownOpcode(program, pc); }
        } else {
          var path := BadWay(program, error);
          assert Tiled(program, scan.value);
        }
      }
    }
  }

  lemma UnknownOpcode(program: Program, pc: nat)
    requires pc < |program| && !Supported(program[pc].opcode)
    ensures BadEncoding(program, InvalidOpcode(pc, program[pc].opcode))
  {
  }

  lemma BadWay(program: Program, error: VerifyError) returns (path: seq<nat>)
    requires Justified(program, error) && OfPass(error)
    ensures WayTo(program, path, error.pc) && (error.UninitializedRegister? ==> !Held(program, path, error.register))
  {
    hide Held, InitOn, Way, IsPath, Needs, ExitBefore;
    if error.UninitializedRegister? {
      path :| PathTo(program, path, error.pc) && error.register !in InitOn(program, path);
      WayIs(program, path);
      InitOnIs(program, path, error.register);
    } else {
      path :| PathTo(program, path, error.pc);
      WayIs(program, path);
    }
  }
}

/**
 The eBPF subset: instructions, opcode classes, and what an instruction means
 for control flow and for the set of initialised registers.
 */
module BpfIsa {
  import Numerals

  const MAX_INSTRUCTIONS: nat := 4096
  const STACK_SIZE: nat := 512
  const REGISTER_COUNT: nat := 11

  type u8 = Numerals.Byte
  type i16 = x: int | -0x8000 <= x < 0x8000
  type i32 = x: int | -0x8000_0000 <= x < 0x8000_0000
  type u64 = x: nat | x < 0x1_0000_0000_0000_0000

  datatype Instruction = Instruction(opcode: u8, registers: u8, offset: i16, immediate: i32) {
    function Destination(): (r: nat)
      ensures r < 16
    {
      registers % 16
    }

    function Source(): (r: nat)
      ensures r < 16
    {
      registers / 16
    }
  }

  type Program = seq<Instruction>

  /** The arms of the verifier's and the interpreter's opcode match. */
  datatype Kind =
    | Wide | MoveImmediate | MoveRegister | AluImmediate | AluRegister | Negate
    | Load | StoreImmediate | StoreRegister
    | Jump | BranchImmediate | BranchRegister | Call | Exit | Unsupported

  predicate IsAluImmediate(opcode: u8) {
    opcode in {0x07, 0x17, 0x27, 0x37, 0x47, 0x57, 0x67, 0x77, 0x97, 0xa7, 0xc7}
  }

  predicate IsAluRegister(opcode: u8) {
    opcode in {0x0f, 0x1f, 0x2f, 0x3f, 0x4f, 0x5f, 0x6f, 0x7f, 0x9f, 0xaf, 0xcf}
  }

  predicate IsBranchImmediate(opcode: u8) {
    opcode in {0x15, 0x25, 0x35, 0x45, 0x55, 0x65, 0x75, 0xa5, 0xb5, 0xc5, 0xd5}
  }

  predicate IsBranchRegister(opcode: u8) {
    opcode in {0x1d, 0x2d, 0x3d, 0x4d, 0x5d, 0x6d, 0x7d, 0xad, 0xbd, 0xcd, 0xdd}
  }

  predicate IsLoad(opcode: u8) {
    opcode in {0x61, 0x69, 0x71, 0x79}
  }

  predicate IsStoreImmediate(opcode: u8) {
    opcode in {0x62, 0x6a, 0x72, 0x7a}
  }

  predicate IsStoreRegister(opcode: u8) {
    opcode in {0x63, 0x6b, 0x73, 0x7b}
  }

  function KindOf(opcode: u8): Kind {
    if opcode == 0x18 then Wide
    else if opcode == 0xb7 then MoveImmediate
    else if opcode == 0xbf then MoveRegister
    else if IsAluImmediate(opcode) then AluImmediate
    else if IsAluRegister(opcode) then AluRegister
    else if opcode == 0x87 then Negate
    else if IsLoad(opcode) then Load
    else if IsStoreImmediate(opcode) then StoreImmediate
    else if IsStoreRegister(opcode) then StoreRegister
    else if opcode == 0x05 then Jump
    else if IsBranchImmediate(opcode) then BranchImmediate
    else if IsBranchRegister(opcode) then BranchRegister
    else if opcode == 0x85 then Call
    else if opcode == 0x95 then Exit
    else Unsupported
  }

  /** Bytes accessed by a load or a store, from bits 3 and 4 of the opcode. */
  function AccessSize(opcode: u8): (n: nat)
    ensures n == 1 || n == 2 || n == 4 || n == 8
  {
    match opcode / 8 % 4
    case 0 => 4
    case 1 => 2
    case 2 => 1
    case 3 => 8
  }

  // ---------------------------------------------------------------- control flow

  /** The places control can go from `pc`; a backward jump goes nowhere that the verifier follows. */
  function Successors(ins: Instruction, pc: nat): seq<nat> {
    match KindOf(ins.opcode)
    case Wide => [pc + 2]
    case Jump => if ins.offset < 0 then [] else [pc + 1 + ins.offset]
    case BranchImmediate => if ins.offset < 0 then [pc + 1] else [pc + 1, pc + 1 + ins.offset]
    case BranchRegister => if ins.offset < 0 then [pc + 1] else [pc + 1, pc + 1 + ins.offset]
    case Exit => []
    case _ => [pc + 1]
  }

  /** Registers that an instruction reads and that must therefore be initialised. */
  function Needs(ins: Instruction): set<nat> {
    match KindOf(ins.opcode)
    case MoveRegister => {ins.Source()}
    case AluImmediate => {ins.Destination()}
    case AluRegister => {ins.Destination(), ins.Source()}
    case Negate => {ins.Destination()}
    case StoreRegister => {ins.Source()}
    case BranchImmediate => {ins.Destination()}
    case BranchRegister => {ins.Destination(), ins.Source()}
    case Exit => {0}
    case _ => {}
  }

  /** Registers that an instruction leaves initialised. */
  function Gen(ins: Instruction): set<nat> {
    match KindOf(ins.opcode)
    case Wide => {ins.Destination()}
    case MoveImmediate => {ins.Destination()}
    case MoveRegister => {ins.Destination()}
    case AluImmediate => {ins.Destination()}
    case AluRegister => {ins.Destination()}
    case Load => {ins.Destination()}
    case Call => {0}
    case _ => {}
  }

  /** Registers that an instruction leaves unusable: a helper call clobbers r1 to r5. */
  function Kill(ins: Instruction): set<nat> {
    if KindOf(ins.opcode).Call? then {1, 2, 3, 4, 5} else {}
  }

  function Transfer(ins: Instruction, initialized: set<nat>): set<nat> {
    (initialized - Kill(ins)) + Gen(ins)
  }

  /** The registers that hold something when a program starts: the context in r1 and the frame pointer r10. */
  const ENTRY: set<nat> := {1, 10}

  /** `path` follows the control flow from instruction 0. */
  predicate IsPath(program: Program, path: seq<nat>) {
    && path != [] && path[0] == 0
    && (forall i | 0 <= i < |path| :: path[i] < |program|)
    && (forall i | 0 <= i < |path| - 1 :: path[i + 1] in Successors(program[path[i]], path[i]))
  }

  predicate PathTo(program: Program, path: seq<nat>, pc: nat) {
    IsPath(program, path) && path[|path| - 1] == pc
  }

  /** The registers initialised on arrival at the end of a path. */
  function InitOn(program: Program, path: seq<nat>): set<nat>
    requires IsPath(program, path)
    decreases |path|
  {
    if |path| == 1 then ENTRY else
      var before := path[..|path| - 1];
      assert IsPath(program, before) by { assert forall i | 0 <= i < |before| :: before[i] == path[i]; }
      Transfer(program[before[|before| - 1]], InitOn(program, before))
  }

  ghost predicate Reachable(program: Program, pc: nat) {
    exists path :: PathTo(program, path, pc)
  }
}

/** Shared-memory objects: one page each, counted references, and handles that go stale for good. */
module SharedMemory {
  import opened Sizes
  import opened Wrappers
  import opened Frames
  import opened KernelPaging

  const OBJECT_CAPACITY: nat := 4

  datatype Handle = Handle(index: nat, generation: nat)

  datatype Error = TableFull | InvalidHandle | InvalidLength | PermissionDenied | CounterOverflow | FrameRelease

  datatype Slot = Slot(generation: nat, owner: nat, frame: nat, length: nat, references: nat, taken: bool)

  const EMPTY := Slot(0, 0, 0, 0, 0, false)

  type Slots = s: seq<Slot> | |s| == OBJECT_CAPACITY witness seq(OBJECT_CAPACITY, _ => EMPTY)

  /** One request; a creation carries the frame the allocator gives, a release whether it takes the frame back. */
  datatype Op =
    | Create(owner: nat, frame: Option<nat>)
    | Truncate(caller: nat, target: Handle, length: nat)
    | Retain(target: Handle)
    | Release(target: Handle, returned: bool)

  predicate Resolves(slots: Slots, h: Handle) {
    h.index < OBJECT_CAPACITY && slots[h.index].taken && slots[h.index].generation == h.generation
  }

  /** The first free slot. */
  function FirstFree(slots: Slots, from: nat): (i: Option<nat>)
    requires from <= OBJECT_CAPACITY
    ensures i.Some? ==> i.value < OBJECT_CAPACITY && !slots[i.value].taken
    decreases OBJECT_CAPACITY - from
  {
    if from == OBJECT_CAPACITY then None
    else if !slots[from].taken then Some(from)
    else FirstFree(slots, from + 1)
  }

  /** The table after a request. */
  function Apply(slots: Slots, op: Op): (s: Slots) {
    match op
    case Create(owner, frame) =>
      var i := FirstFree(slots, 0);
      if i.None? || slots[i.value].generation == U16_MAX || frame.None? then slots
      else slots[i.value := Slot(slots[i.value].generation + 1, owner, frame.value, 0, 1, true)]
    case Truncate(caller, h, length) =>
      if length == 0 || length > PAGE || !Resolves(slots, h) || slots[h.index].owner != caller then slots
      else slots[h.index := slots[h.index].(length := length)]
    case Retain(h) =>
      if !Resolves(slots, h) || slots[h.index].references == U16_MAX then slots
      else slots[h.index := slots[h.index].(references := slots[h.index].references + 1)]
    case Release(h, _) =>
      if !Resolves(slots, h) || slots[h.index].references == 0 then slots
      else if slots[h.index].references > 1 then slots[h.index := slots[h.index].(references := slots[h.index].references - 1)]
      else slots[h.index := EMPTY.(generation := slots[h.index].generation)]
  }

  /** The handle a creation yields. */
  function Created(slots: Slots, op: Op): Option<Handle> {
    if op.Create? && Apply(slots, op) != slots then
      var i := FirstFree(slots, 0);
      if i.None? then None else Some(Handle(i.value, slots[i.value].generation + 1))
    else None
  }

  /** How a request changes the number of creations and retentions of a handle less its releases. */
  function Delta(slots: Slots, op: Op, h: Handle): int {
    match op
    case Create(_, _) => if Created(slots, op) == Some(h) then 1 else 0
    case Truncate(_, _, _) => 0
    case Retain(target) => if target == h && Apply(slots, op) != slots then 1 else 0
    case Release(target, _) => if target == h && Apply(slots, op) != slots then -1 else 0
  }

  function Run(slots: Slots, ops: seq<Op>): Slots
    decreases |ops|
  {
    if ops == [] then slots else Run(Apply(slots, ops[0]), ops[1..])
  }

  function Balance(slots: Slots, ops: seq<Op>, h: Handle): int
    decreases |ops|
  {
    if ops == [] then 0 else Delta(slots, ops[0], h) + Balance(Apply(slots, ops[0]), ops[1..], h)
  }

  /** References are positive exactly on taken slots, and the counters fit sixteen bits. */
  predicate Counted(slots: Slots) {
    forall i | 0 <= i < OBJECT_CAPACITY ::
      && (slots[i].taken <==> slots[i].references > 0)
      && slots[i].references <= U16_MAX && slots[i].generation <= U16_MAX
  }

  function References(slots: Slots, h: Handle): nat {
    if Resolves(slots, h) then slots[h.index].references else 0
  }

  /** A handle already given out whose object is gone. */
  predicate Stale(slots: Slots, h: Handle) {
    h.index < OBJECT_CAPACITY && h.generation <= slots[h.index].generation && !Resolves(slots, h)
  }

  lemma ApplyCounts(slots: Slots, op: Op, h: Handle)
    requires Counted(slots)
    ensures Counted(Apply(slots, op))
    ensures References(Apply(slots, op), h) == References(slots, h) + Delta(slots, op, h)
  {
  }

  /** Over any run, a handle resolves exactly while its creations and retentions outnumber its releases. */
  lemma {:induction false} RunCounts(slots: Slots, ops: seq<Op>, h: Handle)
    requires Counted(slots)
    ensures Counted(Run(slots, ops))
    ensures References(Run(slots, ops), h) == References(slots, h) + Balance(slots, ops, h)
    ensures Resolves(Run(slots, ops), h) <==> References(slots, h) + Balance(slots, ops, h) > 0
    decreases |ops|
  {
    if ops != [] {
      ApplyCounts(slots, ops[0], h);
      RunCounts(Apply(slots, ops[0]), ops[1..], h);
    }
  }

  lemma ApplyStale(slots: Slots, op: Op, h: Handle)
    requires Stale(slots, h)
    ensures Stale(Apply(slots, op), h) && Created(slots, op) != Some(h)
  {
  }

  /** A handle whose object is gone never resolves again, however the slots are reused. */
  lemma {:induction false} StaleForever(slots: Slots, ops: seq<Op>, h: Handle)
    requires Stale(slots, h)
    ensures Stale(Run(slots, ops), h) && !Resolves(Run(slots, ops), h)
    decreases |ops|
  {
    if ops != [] {
      ApplyStale(slots, ops[0], h);
      StaleForever(Apply(slots, ops[0]), ops[1..], h);
    }
  }

  /** The last release makes a handle stale. */
  lemma LastRelease(slots: Slots, h: Handle, returned: bool)
    requires Counted(slots) && References(slots, h) == 1
    ensures Stale(Apply(slots, Release(h, returned)), h)
  {
  }

  /** Taken slots own distinct frames, all in use. */
  ghost predicate Owns(slots: Slots, live: iset<nat>) {
    && (forall i | 0 <= i < OBJECT_CAPACITY && slots[i].taken :: slots[i].frame in live)
    && forall i, j | 0 <= i < j < OBJECT_CAPACITY && slots[i].taken && slots[j].taken :: slots[i].frame != slots[j].frame
  }

  class SharedMemoryTable {
    const memory: Memory
    const slots: array<Slot>

    ghost predicate Valid()
      reads this, slots, memory, memory.frames, memory.frames.regions, memory.frames.recycled
    {
      && slots.Length == OBJECT_CAPACITY && memory.frames.Valid()
      && Counted(slots[..]) && Owns(slots[..], memory.frames.Live())
    }

    constructor (memory: Memory)
      requires memory.frames.Valid()
      ensures Valid() && this.memory == memory && fresh(slots) && slots[..] == seq(OBJECT_CAPACITY, _ => EMPTY)
    {
      this.memory := memory;
      slots := new Slot[OBJECT_CAPACITY](_ => EMPTY);
    }

    method Index(h: Handle) returns (r: Result<nat, Error>)
      requires slots.Length == OBJECT_CAPACITY
      ensures r == if Resolves(slots[..], h) then Ok(h.index) else Err(InvalidHandle)
    {
      if h.index < slots.Length && slots[h.index].taken && slots[h.index].generation == h.generation {
        return Ok(h.index);
      }
      return Err(InvalidHandle);
    }

    /** A new object with one reference, on a cleared page of its own. */
    method New(owner: nat) returns (r: Result<Handle, Error>, ghost frame: Option<nat>)
      requires Valid()
      modifies slots, memory, memory.frames, memory.frames.regions
      ensures Valid()
      ensures slots[..] == Apply(old(slots[..]), Create(owner, frame))
      ensures r.Ok? ==>
        && Created(old(slots[..]), Create(owner, frame)) == Some(r.value) && Resolves(slots[..], r.value)
        && frame == Some(slots[r.value.index].frame) && frame.value !in old(memory.frames.Live())
        && frame.value % PAGE == 0 && LOW_LIMIT <= frame.value
        && memory.frames.Live() == old(memory.frames.Live()) + iset{frame.value}
        && memory.tables == old(memory.tables) - {frame.value} && memory.pages == old(memory.pages)[frame.value := ZERO_PAGE]
      ensures r.Err? ==> slots[..] == old(slots[..]) && memory.frames.Live() == old(memory.frames.Live())
      ensures r.Ok? <==>
        && FirstFree(old(slots[..]), 0).Some? && old(slots[..])[FirstFree(old(slots[..]), 0).value].generation < U16_MAX
        && old(memory.frames.Left()) > 0
      ensures r.Ok? ==>
        && slots[r.value.index].owner == owner && slots[r.value.index].length == 0 && slots[r.value.index].references == 1
        && forall i | 0 <= i < OBJECT_CAPACITY && i != r.value.index :: slots[i] == old(slots[..])[i]
      ensures r.Err? ==> r.error == CounterOverflow || r.error == TableFull
      ensures r.Err? && r.error == CounterOverflow <==>
        FirstFree(old(slots[..]), 0).Some? && old(slots[..])[FirstFree(old(slots[..]), 0).value].generation == U16_MAX
    {
      hide FrameAllocator.Valid, FrameAllocator.Live, FrameAllocator.Left;
      frame := None;
      var i := FirstFree(slots[..], 0);
      if i.None? {
        return Err(TableFull), frame;
      }
      if slots[i.value].generation == U16_MAX {
        return Err(CounterOverflow), frame;
      }
      var taken := memory.DataFrame();
      frame := taken;
      if taken.None? {
        return Err(TableFull), frame;
      }
      var slot := Slot(slots[i.value].generation + 1, owner, taken.value, 0, 1, true);
      slots[i.value] := slot;
      assert slots[..] == old(slots[..])[i.value := slot];
      return Ok(Handle(i.value, slot.generation)), frame;
    }

    method SetLength(caller: nat, h: Handle, length: nat) returns (r: Result<(), Error>)
      requires Valid()
      modifies slots
      ensures Valid() && slots[..] == Apply(old(slots[..]), Truncate(caller, h, length))
      ensures r.Ok? <==> 0 < length <= PAGE && Resolves(old(slots[..]), h) && old(slots[..])[h.index].owner == caller
      ensures r.Ok? ==> slots[h.index].length == length
      ensures r.Err? ==> slots[..] == old(slots[..])
      ensures r.Err? ==>
        r.error == (if !(0 < length <= PAGE) then InvalidLength
                    else if Resolves(old(slots[..]), h) then PermissionDenied else InvalidHandle)
    {
      hide FrameAllocator.Valid, FrameAllocator.Live;
      if length == 0 || length > PAGE {
        return Err(InvalidLength);
      }
      var index :- Index(h);
      if slots[index].owner != caller {
        return Err(PermissionDenied);
      }
      slots[index] := slots[index].(length := length);
      assert slots[..] == old(slots[..])[index := slots[index]];
      return Ok(());
    }

    method AddReference(h: Handle) returns (r: Result<(), Error>)
      requires Valid()
      modifies slots
      ensures Valid() && slots[..] == Apply(old(slots[..]), Retain(h))
      ensures r.Ok? <==> Resolves(old(slots[..]), h) && old(slots[..])[h.index].references < U16_MAX
      ensures r.Err? ==> slots[..] == old(slots[..])
      ensures r.Err? ==> r.error == if Resolves(old(slots[..]), h) then CounterOverflow else InvalidHandle
    {
      hide FrameAllocator.Valid, FrameAllocator.Live;
      var index :- Index(h);
      if slots[index].references == U16_MAX {
        return Err(CounterOverflow);
      }
      slots[index] := slots[index].(references := slots[index].references + 1);
      assert slots[..] == old(slots[..])[index := slots[index]];
      return Ok(());
    }

    /** Gives up one reference; with the last one the object and its frame go. */
    method DropReference(h: Handle) returns (r: Result<(), Error>)
      requires Valid()
      modifies slots, memory.frames`recycledCount, memory.frames.recycled
      ensures Valid() && slots[..] == Apply(old(slots[..]), Release(h, r.Ok?))
      ensures !Resolves(old(slots[..]), h) ==> r == Err(InvalidHandle)
      ensures References(old(slots[..]), h) > 1 ==> r.Ok?
      ensures References(old(slots[..]), h) != 1 ==> memory.frames.Live() == old(memory.frames.Live())
      ensures References(old(slots[..]), h) == 1 ==>
        && r == (if |old(memory.frames.Waiting())| < RECYCLED_CAPACITY then Ok(()) else Err(FrameRelease))
        && memory.frames.Live() ==
           (if r.Ok? then old(memory.frames.Live()) - iset{old(slots[..])[h.index].frame} else old(memory.frames.Live()))
      ensures References(old(slots[..]), h) == 0 ==> r.Err?
      ensures memory.frames.Waiting() ==
        old(memory.frames.Waiting()) + (if References(old(slots[..]), h) == 1 && r.Ok? then [old(slots[..])[h.index].frame] else [])
    {
      hide FrameAllocator.Valid, FrameAllocator.Live, FrameAllocator.Waiting;
      var index :- Index(h);
      var slot := slots[index];
      assert old(slots[..])[index] == slot;
      if slot.references == 0 {
        return Err(InvalidHandle);
      }
      if slot.references != 1 {
        slots[index] := slot.(references := slot.references - 1);
        assert slots[..] == old(slots[..])[index := slots[index]];
        return Ok(());
      }
      slots[index] := EMPTY.(generation := slot.generation);
      assert slots[..] == old(slots[..])[index := slots[index]];
      var returned := memory.frames.DeallocateFrame(slot.frame);
      return if returned then Ok(()) else Err(FrameRelease);
    }

    method FrameAndLength(h: Handle) returns (r: Result<(nat, nat), Error>)
      requires slots.Length == OBJECT_CAPACITY
      ensures r.Ok? <==> Resolves(slots[..], h) && slots[h.index].length > 0
      ensures r.Ok? ==> r.value == (slots[h.index].frame, slots[h.index].length)
      ensures r.Err? ==> r.error == if Resolves(slots[..], h) then InvalidLength else InvalidHandle
    {
      var index :- Index(h);
      if slots[index].length == 0 {
        return Err(InvalidLength);
      }
      return Ok((slots[index].frame, slots[index].length));
    }
  }
}

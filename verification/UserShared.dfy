/** Mapping a shared-memory object into a process. */
module UserShared {
  import opened Sizes
  import opened Wrappers
  import Frames
  import opened PageTables
  import opened KernelPaging
  import opened UserSpace
  import opened SharedMemory
  import opened UserCopy
  import opened UserMemory

  /** The record of a process agrees with its page tables. */
  ghost predicate Agrees(mapping: UserMapping, m: Tables, k: Kernel) {
    mapping.Valid() && mapping.space.Shape(m, k, mapping.Shared())
  }

  /** Every taken slot's frame holds bytes, and is none of the process's own. */
  ghost predicate Apart(slots: Slots, space: AddressSpace, pages: map<nat, Page>) {
    forall i | 0 <= i < OBJECT_CAPACITY && slots[i].taken ::
      && slots[i].frame in pages && slots[i].frame % PAGE == 0 && slots[i].frame != 0
      && slots[i].frame !in space.AllFrames()
  }

  lemma SharedShape(m: Tables, k: Kernel, space: AddressSpace, frame: nat)
    requires space.Shape(m, k, None) && space.table !in k.roles
    ensures space.Shape(m[space.table := m[space.table][7 := UserEntry(Some((frame, true)))]], k, Some(frame))
  {
    var m' := m[space.table := m[space.table][7 := UserEntry(Some((frame, true)))]];
    SpaceFrames(space);
    ShapeKept(m, m', k);
    hide Kernel.Shape, UserEntry, UserLink, Kernel.EntryOf;
    forall j | 0 <= j < ENTRY_COUNT ensures m'[space.table][j] == UserEntry(space.PageAt(Some(frame), j)) {
      assert j != 7 ==> space.PageAt(Some(frame), j) == space.PageAt(None, j);
    }
  }

  /** Enters a page in the process's table at the shared address, unless one is there. */
  method MapUserSharedPage(memory: Memory, table: nat, frame: nat) returns (ok: bool)
    requires table in memory.tables
    modifies memory`tables
    ensures ok <==> table % PAGE == 0 && frame % PAGE == 0 && !old(memory.tables)[table][7].present
    ensures memory.tables ==
      if ok then old(memory.tables)[table := old(memory.tables)[table][7 := UserEntry(Some((frame, true)))]]
      else old(memory.tables)
  {
    if table % PAGE != 0 || frame % PAGE != 0 || memory.tables[table][7].present {
      return false;
    }
    memory.SetEntry(table, 7, UserEntry(Some((frame, true))));
    return true;
  }

  /**
   * Maps the object at the process's shared address and takes a reference to it. Record and page tables agree
   * afterwards as before; a refusal changes nothing.
   */
  method MapSharedMemory(objects: SharedMemoryTable, ghost k: Kernel, mapping: UserMapping, h: Handle)
    returns (ok: bool, mapping': UserMapping)
    requires objects.Valid() && objects.memory.Maps(k) && Agrees(mapping, objects.memory.tables, k)
    requires Apart(objects.slots[..], mapping.space, objects.memory.pages)
    requires mapping.space.table % PAGE == 0 && mapping.space.table !in k.roles
    modifies objects.slots, objects.memory`tables
    ensures objects.Valid() && Agrees(mapping', objects.memory.tables, k)
    ensures ok <==>
      && Resolves(old(objects.slots[..]), h) && old(objects.slots[..])[h.index].length > 0
      && mapping.sharedHandle.None? && old(objects.slots[..])[h.index].references < U16_MAX
    ensures ok ==>
      && objects.slots[..] == Apply(old(objects.slots[..]), Retain(h))
      && mapping' == mapping.(sharedHandle := Some(h), sharedFrame := old(objects.slots[..])[h.index].frame)
      && mapping'.Shared() == Some(old(objects.slots[..])[h.index].frame)
    ensures !ok ==>
      mapping' == mapping && objects.slots[..] == old(objects.slots[..]) && objects.memory.tables == old(objects.memory.tables)
  {
    hide AddressSpace.Shape, Frames.FrameAllocator.Valid, Frames.FrameAllocator.Live, Apply, Counted, Owns, UserEntry;
    mapping' := mapping;
    var found := objects.FrameAndLength(h);
    if found.Err? || mapping.sharedHandle.Some? {
      return false, mapping';
    }
    var frame := found.value.0;
    assert objects.slots[..][h.index].frame == frame;
    var retained := objects.AddReference(h);
    if retained.Err? {
      return false, mapping';
    }
    SharedSlotFree(objects.memory.tables, k, mapping.space);
    SharedShape(objects.memory.tables, k, mapping.space, frame);
    ok := MapUserSharedPage(objects.memory, mapping.space.table, frame);
    mapping' := mapping.(sharedHandle := Some(h), sharedFrame := frame);
  }

  lemma SharedSlotFree(m: Tables, k: Kernel, space: AddressSpace)
    requires space.Shape(m, k, None)
    ensures space.table in m && !m[space.table][7].present
  {
    hide Kernel.Shape;
    assert m[space.table][7] == UserEntry(space.PageAt(None, 7));
  }

  /** A new process's frames are none of the shared pages in use: the allocator never hands out a frame twice. */
  lemma NewSpaceApart(slots: Slots, live: iset<nat>, live': iset<nat>, space: AddressSpace)
    requires Owns(slots, live) && Fresh(live, live', space.AllFrames())
    ensures forall i | 0 <= i < OBJECT_CAPACITY && slots[i].taken :: slots[i].frame !in space.AllFrames()
  {
    var own := space.AllFrames();
    forall i | 0 <= i < OBJECT_CAPACITY && slots[i].taken ensures slots[i].frame !in own {
      assert slots[i].frame in live;
      assert forall k | 0 <= k < |own| :: own[k] !in live;
    }
  }

  /** And whatever is then done with shared objects, their pages stay apart from the process's. */
  lemma {:induction false} ObjectsStayApart(slots: Slots, op: Op, space: AddressSpace, pages: map<nat, Page>, live: iset<nat>)
    requires Apart(slots, space, pages) && forall k | 0 <= k < |space.AllFrames()| :: space.AllFrames()[k] in live
    requires op.Create? && op.frame.Some? ==>
      op.frame.value !in live && op.frame.value % PAGE == 0 && op.frame.value != 0
    ensures Apart(Apply(slots, op), space,
      if op.Create? && op.frame.Some? then pages[op.frame.value := ZERO_PAGE] else pages)
  {
    hide FirstFree;
    if op.Create? && op.frame.Some? {
      assert op.frame.value !in space.AllFrames();
    }
  }

  /** The shared page goes back with the last reference to it. */
  function SharedReturned(slots: Slots, shared: Option<Handle>): seq<nat> {
    if shared.Some? && References(slots, shared.value) == 1 then [slots[shared.value.index].frame] else []
  }

  ghost predicate ApartFrom(slots: Slots, own: seq<nat>) {
    forall i | 0 <= i < OBJECT_CAPACITY && slots[i].taken :: slots[i].frame !in own
  }

  lemma ReleaseKeepsApart(slots: Slots, h: Handle, own: seq<nat>)
    requires ApartFrom(slots, own)
    ensures ApartFrom(Apply(slots, Release(h, true)), own)
    ensures References(slots, h) == 1 ==> slots[h.index].frame !in own
  {
  }

  lemma StillOwned(slots: Slots, live: iset<nat>, live': iset<nat>, own: seq<nat>)
    requires Owns(slots, live) && ApartFrom(slots, own) && forall f | f in live && f !in own :: f in live'
    ensures Owns(slots, live')
  {
  }

  /** Gives up a process's reference to a shared object, if it has one. */
  method GiveUpShared(objects: SharedMemoryTable, shared: Option<Handle>, ghost own: seq<nat>) returns (ok: bool)
    requires objects.Valid() && ApartFrom(objects.slots[..], own)
    modifies objects.slots, objects.memory.frames`recycledCount, objects.memory.frames.recycled
    ensures objects.Valid()
    ensures ok <==>
      && (shared.Some? ==> References(old(objects.slots[..]), shared.value) > 0)
      && |old(objects.memory.frames.Waiting()) + SharedReturned(old(objects.slots[..]), shared)| <= Frames.RECYCLED_CAPACITY
    ensures ok ==>
      && ApartFrom(objects.slots[..], own)
      && objects.slots[..] == (if shared.None? then old(objects.slots[..])
                               else Apply(old(objects.slots[..]), Release(shared.value, true)))
      && objects.memory.frames.Waiting() ==
           old(objects.memory.frames.Waiting()) + SharedReturned(old(objects.slots[..]), shared)
      && (forall f :: f in objects.memory.frames.Live() <==>
            f in old(objects.memory.frames.Live()) && f !in SharedReturned(old(objects.slots[..]), shared))
      && forall f | f in own :: f !in SharedReturned(old(objects.slots[..]), shared)
  {
    hide Frames.FrameAllocator.Valid, Frames.FrameAllocator.Live, Frames.FrameAllocator.Waiting, Counted, Owns, Apply,
      ApartFrom;
    assert |objects.memory.frames.Waiting()| <= Frames.RECYCLED_CAPACITY by {
      objects.memory.frames.Partition();
    }
    if shared.None? {
      return true;
    }
    ReleaseKeepsApart(objects.slots[..], shared.value, own);
    var given := objects.DropReference(shared.value);
    ok := given.Ok?;
  }

  /**
   * Reaping an exited process: it gives up its reference to the shared object and then all of its frames. The kernel
   * stops instead if the reference or a frame is not its own any more, or the allocator's stack has no room.
   */
  method ReleaseExited(objects: SharedMemoryTable, mapping: UserMapping) returns (released: Option<nat>, probe: nat)
    requires objects.Valid() && mapping.Valid() && ApartFrom(objects.slots[..], mapping.space.AllFrames())
    modifies objects.slots, objects.memory.frames, objects.memory.frames.regions, objects.memory.frames.recycled
    ensures objects.memory.frames.Valid()
    ensures released.Some? <==>
      && (mapping.sharedHandle.Some? ==> References(old(objects.slots[..]), mapping.sharedHandle.value) > 0)
      && (forall i | 0 <= i < FRAME_COUNT :: mapping.space.AllFrames()[i] in old(objects.memory.frames.Live()))
      && |old(objects.memory.frames.Waiting()) + SharedReturned(old(objects.slots[..]), mapping.sharedHandle)|
         + FRAME_COUNT <= Frames.RECYCLED_CAPACITY
    ensures released.Some? ==>
      && objects.Valid() && released == Some(FRAME_COUNT) && probe == mapping.space.stack[STACK_PAGES - 1]
      && objects.slots[..] == (if mapping.sharedHandle.None? then old(objects.slots[..])
                               else Apply(old(objects.slots[..]), Release(mapping.sharedHandle.value, true)))
      && objects.memory.frames.Waiting() == old(objects.memory.frames.Waiting())
           + SharedReturned(old(objects.slots[..]), mapping.sharedHandle) + mapping.space.AllFrames()
      && forall f :: f in objects.memory.frames.Live() <==>
           && f in old(objects.memory.frames.Live()) && f !in mapping.space.AllFrames()
           && f !in SharedReturned(old(objects.slots[..]), mapping.sharedHandle)
  {
    hide Frames.FrameAllocator.Valid, Frames.FrameAllocator.Live, Frames.FrameAllocator.Waiting, Counted, Owns, Apply,
      ApartFrom, SharedReturned;
    probe := 0;
    var ok := GiveUpShared(objects, mapping.sharedHandle, mapping.space.AllFrames());
    if !ok {
      return None, probe;
    }
    ghost var live := objects.memory.frames.Live();
    released, probe := ReapAddressSpace(objects.memory.frames, mapping.space);
    if released.Some? {
      StillOwned(objects.slots[..], live, objects.memory.frames.Live(), mapping.space.AllFrames());
    }
  }
}

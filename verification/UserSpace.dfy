/** A process's address space: the kernel's translations, and eight user pages of its own. */
module UserSpace {
  import opened Sizes
  import opened Wrappers
  import Frames
  import opened PageTables

  const CODE_PAGES: nat := 4
  const STACK_PAGES: nat := 3
  const CODE_BASE: nat := 0x4000_0000
  const STACK_BASE: nat := CODE_BASE + CODE_PAGES * PAGE
  const STACK_TOP: nat := STACK_BASE + STACK_PAGES * PAGE
  const SHARED_BASE: nat := STACK_TOP
  const SHARED_END: nat := SHARED_BASE + PAGE

  datatype AddressSpace = AddressSpace(root: nat, pdpt: nat, directory: nat, table: nat, code: seq<nat>, stack: seq<nat>) {
    ghost predicate Valid() {
      |code| == CODE_PAGES && |stack| == STACK_PAGES && Frames.Distinct(AllFrames())
    }

    /** The frames, in the order in which they are taken and returned. */
    function AllFrames(): seq<nat> {
      [root, pdpt, directory, table] + code + stack
    }

    /** The user page with this index: its frame and whether it can be written. */
    function PageAt(shared: Option<nat>, index: nat): (p: Option<(nat, bool)>)
      requires |code| == CODE_PAGES && |stack| == STACK_PAGES
    {
      if index < CODE_PAGES then Some((code[index], false))
      else if index < CODE_PAGES + STACK_PAGES then Some((stack[index - CODE_PAGES], true))
      else if index == CODE_PAGES + STACK_PAGES && shared.Some? then Some((shared.value, true))
      else None
    }

    /** The process's four tables, over a kernel that leaves the user's GiB free. */
    ghost predicate Shape(m: Tables, k: Kernel, shared: Option<nat>) {
      && Valid() && k.Shape(m) && 1 !in k.directories && 0 in k.pdpts
      && root in m && pdpt in m && directory in m && table in m
      && (forall j | 0 <= j < ENTRY_COUNT :: m[root][j] == if j == 0 then UserLink(pdpt) else k.EntryOf(Root, j))
      && (forall j | 0 <= j < ENTRY_COUNT :: m[pdpt][j] == if j == 1 then UserLink(directory) else k.EntryOf(Pdpt(0), j))
      && (forall j | 0 <= j < ENTRY_COUNT :: m[directory][j] == if j == 0 then UserLink(table) else ABSENT)
      && (forall j | 0 <= j < ENTRY_COUNT :: m[table][j] == UserEntry(PageAt(shared, j)))
    }
  }

  lemma SpaceFrames(s: AddressSpace)
    requires s.Valid()
    ensures s.root in s.AllFrames() && s.pdpt in s.AllFrames() && s.directory in s.AllFrames() && s.table in s.AllFrames()
    ensures s.root != s.pdpt && s.root != s.directory && s.root != s.table
    ensures s.pdpt != s.directory && s.pdpt != s.table && s.directory != s.table
    ensures Frames.Distinct(s.code) && (forall i | 0 <= i < CODE_PAGES :: s.code[i] in s.AllFrames())
    ensures forall i | 0 <= i < STACK_PAGES :: s.stack[i] in s.AllFrames() && s.stack[i] !in s.code
  {
    var all := s.AllFrames();
    assert all[0] == s.root && all[1] == s.pdpt && all[2] == s.directory && all[3] == s.table;
    assert forall i | 0 <= i < CODE_PAGES :: s.code[i] == all[4 + i];
    assert forall i | 0 <= i < STACK_PAGES :: s.stack[i] == all[4 + CODE_PAGES + i];
  }

  function UserLink(frame: nat): Entry {
    Entry(true, true, true, false, false, false, frame)
  }

  function UserEntry(page: Option<(nat, bool)>): Entry {
    match page
    case Some((frame, writable)) => Entry(true, writable, true, false, false, false, frame)
    case None => ABSENT
  }

  /** The user page an address lies in. */
  function IndexOf(va: nat): (index: nat)
    requires CODE_BASE <= va
  {
    (va - CODE_BASE) / PAGE
  }

  function UserTranslation(space: AddressSpace, shared: Option<nat>, va: nat): Translation
    requires |space.code| == CODE_PAGES && |space.stack| == STACK_PAGES && CODE_BASE <= va
  {
    match space.PageAt(shared, IndexOf(va))
    case Some((frame, writable)) => Mapped(frame + va % PAGE, writable, true, false)
    case None => Fault
  }

  lemma UserIndices(va: nat)
    requires GibOf(HugeOf(va)) == 1
    ensures CODE_BASE <= va && (SlotOf(HugeOf(va)) == 0 <==> IndexOf(va) < ENTRY_COUNT)
    ensures SlotOf(HugeOf(va)) == 0 ==> SlotOf(va / PAGE) == IndexOf(va)
    ensures GibOf(1) == 0 && SlotOf(1) == 1
  {
  }

  /** In the user's GiB the processor sees the user pages and nothing else. */
  lemma UserWalk(m: Tables, k: Kernel, space: AddressSpace, shared: Option<nat>, va: nat)
    requires space.Shape(m, k, shared) && va < LOWER_HALF && GibOf(HugeOf(va)) == 1
    ensures CODE_BASE <= va && Walk(m, space.root, va) == UserTranslation(space, shared, va)
    ensures Walk(m, k.root, va) == Fault
  {
    UserIndices(va);
    KernelWalk(m, k, va);
    hide GibOf, SlotOf, HugeOf, IndexOf, Kernel.Shape;
    assert At(m, space.root, 0) == UserLink(space.pdpt);
    assert At(m, space.pdpt, 1) == UserLink(space.directory);
    if SlotOf(HugeOf(va)) == 0 {
      assert At(m, space.directory, 0) == UserLink(space.table);
      assert At(m, space.table, IndexOf(va)) == UserEntry(space.PageAt(shared, IndexOf(va)));
    } else {
      assert At(m, space.directory, SlotOf(HugeOf(va))) == ABSENT;
    }
  }

  /** Elsewhere it sees exactly the kernel's translations, out of the user's reach. */
  lemma KernelPart(m: Tables, k: Kernel, space: AddressSpace, shared: Option<nat>, va: nat)
    requires space.Shape(m, k, shared) && va < LOWER_HALF && GibOf(HugeOf(va)) != 1
    ensures Walk(m, space.root, va) == Walk(m, k.root, va)
    ensures Walk(m, k.root, va) == Fault || !Walk(m, k.root, va).user
  {
    var h := HugeOf(va);
    var g := GibOf(h);
    LowerHalf(va);
    KernelWalk(m, k, va);
    HugeOffset(va);
    RootEntry(m, k, GibOf(g));
    assert GibOf(g) == 0 && SlotOf(g) == 1 ==> g == 1;
    hide HugeOf;
    if GibOf(g) == 0 {
      PdptEntry(m, k, g);
      Split(g);
      hide GibOf, SlotOf, Kernel.Shape;
      assert At(m, space.root, 0) == UserLink(space.pdpt);
      assert At(m, space.pdpt, SlotOf(g)) == m[k.pdpts[0]][SlotOf(g)];
    } else {
      hide GibOf, SlotOf, Kernel.Shape;
      assert At(m, space.root, GibOf(g)) == At(m, k.root, GibOf(g));
    }
  }

  /** The pages the user can reach: four of code to read, three of stack and the shared one to write. */
  lemma UserReach(m: Tables, k: Kernel, space: AddressSpace, shared: Option<nat>, va: nat)
    requires space.Shape(m, k, shared) && va < LOWER_HALF
    ensures (Walk(m, space.root, va).Mapped? && Walk(m, space.root, va).user)
      <==> CODE_BASE <= va < STACK_TOP || (SHARED_BASE <= va < SHARED_END && shared.Some?)
    ensures CODE_BASE <= va < SHARED_END ==> Walk(m, space.root, va) == UserTranslation(space, shared, va)
    ensures (Walk(m, space.root, va).Mapped? && Walk(m, space.root, va).user && Walk(m, space.root, va).writable)
      <==> STACK_BASE <= va < STACK_TOP || (SHARED_BASE <= va < SHARED_END && shared.Some?)
  {
    hide AddressSpace.Shape;
    UserGib(va);
    if GibOf(HugeOf(va)) == 1 {
      UserWalk(m, k, space, shared, va);
    } else {
      KernelPart(m, k, space, shared, va);
    }
  }

  lemma UserGib(va: nat)
    ensures CODE_BASE <= va < SHARED_END ==> GibOf(HugeOf(va)) == 1
  {
  }
}

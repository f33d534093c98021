/** Creating and releasing a process's address space. */
module UserMemory {
  import opened Sizes
  import opened Wrappers
  import opened Frames
  import opened PageTables
  import opened KernelPaging
  import opened UserSpace

  /** The frames of an address space: four tables, the code and the stack. */
  const FRAME_COUNT: nat := 4 + CODE_PAGES + STACK_PAGES

  ghost predicate Fresh(live: iset<nat>, live': iset<nat>, own: seq<nat>) {
    && Distinct(own)
    && (forall i | 0 <= i < |own| :: own[i] !in live)
    && forall f :: f in live' <==> f in live || f in own
  }

  lemma FreshBoth(a: iset<nat>, b: iset<nat>, c: iset<nat>, first: seq<nat>, second: seq<nat>)
    requires Fresh(a, b, first) && Fresh(b, c, second)
    ensures Fresh(a, c, first + second)
  {
    var own := first + second;
    forall i, j | 0 <= i < j < |own| ensures own[i] != own[j] {
      if i < |first| <= j {
        assert first[i] in first;
        assert own[j] == second[j - |first|];
      }
    }
  }

  /** The tables and pages of frames outside `own` are as before. */
  ghost predicate Elsewhere(t: Tables, t': Tables, p: map<nat, Page>, p': map<nat, Page>, own: seq<nat>) {
    && (forall f | f in t && f !in own :: f in t' && t'[f] == t[f])
    && (forall f | f in p && f !in own :: f in p' && p'[f] == p[f])
  }

  lemma ElsewhereBoth(t: Tables, t1: Tables, t2: Tables, p: map<nat, Page>, p1: map<nat, Page>, p2: map<nat, Page>,
                      first: seq<nat>, second: seq<nat>)
    requires Elsewhere(t, t1, p, p1, first) && Elsewhere(t1, t2, p1, p2, second)
    ensures Elsewhere(t, t2, p, p2, first + second)
  {
  }

  /** Takes `n` cleared frames for bytes. */
  method DataFrames(memory: Memory, n: nat) returns (out: Option<seq<nat>>)
    requires memory.frames.Valid()
    modifies memory, memory.frames, memory.frames.regions
    ensures memory.frames.Valid()
    ensures out.Some? ==>
      && |out.value| == n && Fresh(old(memory.frames.Live()), memory.frames.Live(), out.value)
      && Elsewhere(old(memory.tables), memory.tables, old(memory.pages), memory.pages, out.value)
      && (forall i | 0 <= i < n :: IsData(memory.pages, out.value[i]))
      && (forall i | 0 <= i < n :: memory.pages[out.value[i]] == ZERO_PAGE)
      && memory.frames.Waiting() == Drained(old(memory.frames.Waiting()), n)
      && memory.frames.Left() == old(memory.frames.Left()) - n
    ensures out.Some? <==> old(memory.frames.Left()) >= n
  {
    hide FrameAllocator.Valid, FrameAllocator.Live, FrameAllocator.Left, FrameAllocator.Waiting;
    var taken: seq<nat> := [];
    for i := 0 to n
      invariant memory.frames.Valid() && |taken| == i
      invariant memory.frames.Waiting() == Drained(old(memory.frames.Waiting()), i)
      invariant memory.frames.Left() == old(memory.frames.Left()) - i
      invariant Fresh(old(memory.frames.Live()), memory.frames.Live(), taken)
      invariant Elsewhere(old(memory.tables), memory.tables, old(memory.pages), memory.pages, taken)
      invariant forall j | 0 <= j < i :: IsData(memory.pages, taken[j]) && memory.pages[taken[j]] == ZERO_PAGE
    {
      ghost var live, tables, pages := memory.frames.Live(), memory.tables, memory.pages;
      var frame := memory.DataFrame();
      if frame.None? {
        return None;
      }
      FreshBoth(old(memory.frames.Live()), live, memory.frames.Live(), taken, [frame.value]);
      ElsewhereBoth(old(memory.tables), tables, memory.tables, old(memory.pages), pages, memory.pages, taken, [frame.value]);
      taken := taken + [frame.value];
    }
    return Some(taken);
  }

  ghost predicate IsData(pages: map<nat, Page>, frame: nat) {
    frame in pages && frame % PAGE == 0 && LOW_LIMIT <= frame
  }

  /** Copies one page table over another. */
  method CloneTable(memory: Memory, from: nat, to: nat)
    requires from in memory.tables && to in memory.tables && from != to
    modifies memory`tables
    ensures memory.tables == old(memory.tables)[to := old(memory.tables)[from]]
  {
    for index := 0 to ENTRY_COUNT
      invariant memory.tables.Keys == old(memory.tables).Keys
      invariant forall f | f in memory.tables && f != to :: memory.tables[f] == old(memory.tables)[f]
      invariant forall j | 0 <= j < index :: memory.tables[to][j] == old(memory.tables)[from][j]
    {
      memory.SetEntry(to, index, memory.tables[from][index]);
    }
    assert memory.tables[to] == old(memory.tables)[from];
  }

  /** Whether a segment is accepted as a process image. */
  predicate Fits(image: seq<bv8>, memorySize: nat) {
    image != [] && memorySize <= CODE_PAGES * PAGE && |image| <= memorySize
  }

  /** The process's own root, and its copy of the table of the low 512 GiB. */
  method UpperTables(memory: Memory, ghost k: Kernel, active: nat) returns (upper: Option<(nat, nat)>)
    requires memory.frames.Valid() && memory.Maps(k) && active == k.root
    modifies memory, memory.frames, memory.frames.regions
    ensures memory.frames.Valid()
    ensures upper.Some? ==>
      var (root, pdpt) := upper.value;
      && Fresh(old(memory.frames.Live()), memory.frames.Live(), [root, pdpt])
      && Elsewhere(old(memory.tables), memory.tables, old(memory.pages), memory.pages, [root, pdpt])
      && 0 in k.pdpts && root in memory.tables && pdpt in memory.tables
      && memory.tables[root] == old(memory.tables)[k.root][0 := UserLink(pdpt)]
      && memory.tables[pdpt] == old(memory.tables)[k.pdpts[0]]
      && memory.frames.Waiting() == Drained(old(memory.frames.Waiting()), 2)
      && memory.frames.Left() == old(memory.frames.Left()) - 2
    ensures upper.Some? <==> 0 in k.pdpts && old(memory.frames.Left()) >= 2
  {
    hide FrameAllocator.Valid, FrameAllocator.Live, FrameAllocator.Left, FrameAllocator.Waiting, Kernel.Shape, UserLink;
    RootEntry(memory.tables, k, 0);
    ghost var tables0 := memory.tables;
    var root := TakeClone(memory, active);
    if root.None? || !memory.tables[active][0].present {
      return None;
    }
    var low := memory.tables[active][0].address;
    assert GibOf(0) == 0;
    PdptEntry(tables0, k, 0);
    ghost var live1, tables1, pages1 := memory.frames.Live(), memory.tables, memory.pages;
    var pdpt := TakeClone(memory, low);
    if pdpt.None? {
      return None;
    }
    assert [root.value, pdpt.value] == [root.value] + [pdpt.value];
    FreshBoth(old(memory.frames.Live()), live1, memory.frames.Live(), [root.value], [pdpt.value]);
    ElsewhereBoth(tables0, tables1, memory.tables, old(memory.pages), pages1, memory.pages, [root.value], [pdpt.value]);
    memory.SetEntry(root.value, 0, UserLink(pdpt.value));
    return Some((root.value, pdpt.value));
  }

  /** Takes a table and copies another into it. */
  method TakeClone(memory: Memory, from: nat) returns (frame: Option<nat>)
    requires memory.frames.Valid() && from in memory.tables && from in memory.frames.Live()
    modifies memory, memory.frames, memory.frames.regions
    ensures memory.frames.Valid()
    ensures frame.Some? ==>
      && Fresh(old(memory.frames.Live()), memory.frames.Live(), [frame.value])
      && Elsewhere(old(memory.tables), memory.tables, old(memory.pages), memory.pages, [frame.value])
      && frame.value in memory.tables && memory.tables[frame.value] == old(memory.tables)[from]
      && memory.frames.Waiting() == Drained(old(memory.frames.Waiting()), 1)
      && memory.frames.Left() == old(memory.frames.Left()) - 1
    ensures frame.None? <==> old(memory.frames.Left()) == 0
    ensures from in memory.tables && memory.tables[from] == old(memory.tables)[from]
    ensures forall f | f in old(memory.frames.Live()) :: f in memory.frames.Live()
  {
    hide FrameAllocator.Valid, FrameAllocator.Live, FrameAllocator.Left, FrameAllocator.Waiting;
    frame := memory.TableFrame();
    if frame.Some? {
      CloneTable(memory, from, frame.value);
    }
  }

  method LowerTables(memory: Memory) returns (lower: Option<(nat, nat)>)
    requires memory.frames.Valid()
    modifies memory, memory.frames, memory.frames.regions
    ensures memory.frames.Valid()
    ensures lower.Some? ==>
      var (directory, table) := lower.value;
      && Fresh(old(memory.frames.Live()), memory.frames.Live(), [directory, table])
      && Elsewhere(old(memory.tables), memory.tables, old(memory.pages), memory.pages, [directory, table])
      && directory in memory.tables && table in memory.tables
      && memory.tables[directory] == BLANK && memory.tables[table] == BLANK
      && memory.frames.Waiting() == Drained(old(memory.frames.Waiting()), 2)
      && memory.frames.Left() == old(memory.frames.Left()) - 2
    ensures lower.Some? <==> old(memory.frames.Left()) >= 2
  {
    hide FrameAllocator.Valid, FrameAllocator.Live, FrameAllocator.Left, FrameAllocator.Waiting;
    var directory := memory.TableFrame();
    if directory.None? {
      return None;
    }
    var table := memory.TableFrame();
    if table.None? {
      return None;
    }
    return Some((directory.value, table.value));
  }

  /** A page of the image, zero past its end. */
  function ImagePage(image: seq<bv8>, index: nat): Page {
    seq(PAGE, j requires 0 <= j =>
      var at := index * PAGE + j;
      if at < |image| then image[at] else 0)
  }

  /** Copies the image into cleared code frames, a page at a time. */
  method CopyImage(memory: Memory, code: seq<nat>, image: seq<bv8>)
    requires Distinct(code) && forall i | 0 <= i < |code| :: code[i] in memory.pages && memory.pages[code[i]] == ZERO_PAGE
    modifies memory`pages
    ensures forall i | 0 <= i < |code| :: code[i] in memory.pages && memory.pages[code[i]] == ImagePage(image, i)
    ensures memory.pages.Keys == old(memory.pages).Keys
    ensures forall f | f in memory.pages && f !in code :: memory.pages[f] == old(memory.pages)[f]
  {
    for index := 0 to |code|
      invariant memory.pages.Keys == old(memory.pages).Keys
      invariant forall i | 0 <= i < index :: memory.pages[code[i]] == ImagePage(image, i)
      invariant forall i | index <= i < |code| :: memory.pages[code[i]] == ZERO_PAGE
      invariant forall f | f in memory.pages && f !in code :: memory.pages[f] == old(memory.pages)[f]
    {
      var start := index * PAGE;
      var end := if start + PAGE < |image| then start + PAGE else |image|;
      if start >= end {
        forall i | index <= i < |code| ensures ImagePage(image, i) == ZERO_PAGE {
          Past(image, index, i);
        }
        break;
      }
      var page: Page := image[start..end] + ZERO_PAGE[end - start..];
      assert page == ImagePage(image, index);
      memory.pages := memory.pages[code[index] := page];
    }
  }

  lemma Past(image: seq<bv8>, index: nat, i: nat)
    requires |image| <= index * PAGE && index <= i
    ensures ImagePage(image, i) == ZERO_PAGE
  {
    assert index * PAGE <= i * PAGE;
  }

  /** Maps the code pages for reading and the stack pages for writing. */
  method FillTable(memory: Memory, table: nat, code: seq<nat>, stack: seq<nat>)
    requires table in memory.tables && memory.tables[table] == BLANK && |code| == CODE_PAGES && |stack| == STACK_PAGES
    modifies memory`tables
    ensures memory.tables.Keys == old(memory.tables).Keys
    ensures forall f | f in memory.tables && f != table :: memory.tables[f] == old(memory.tables)[f]
    ensures forall space: AddressSpace, j | space.code == code && space.stack == stack && 0 <= j < ENTRY_COUNT ::
      memory.tables[table][j] == UserEntry(space.PageAt(None, j))
  {
    for index := 0 to CODE_PAGES
      invariant memory.tables.Keys == old(memory.tables).Keys
      invariant forall f | f in memory.tables && f != table :: memory.tables[f] == old(memory.tables)[f]
      invariant forall j | 0 <= j < ENTRY_COUNT ::
        memory.tables[table][j] == if j < index then UserEntry(Some((code[j], false))) else ABSENT
    {
      memory.SetEntry(table, index, UserEntry(Some((code[index], false))));
    }
    for index := 0 to STACK_PAGES
      invariant memory.tables.Keys == old(memory.tables).Keys
      invariant forall f | f in memory.tables && f != table :: memory.tables[f] == old(memory.tables)[f]
      invariant forall j | 0 <= j < ENTRY_COUNT ::
        memory.tables[table][j] ==
        if j < CODE_PAGES then UserEntry(Some((code[j], false)))
        else if j < CODE_PAGES + index then UserEntry(Some((stack[j - CODE_PAGES], true)))
        else ABSENT
    {
      memory.SetEntry(table, CODE_PAGES + index, UserEntry(Some((stack[index], true))));
    }
  }

  lemma ElsewhereKeeps(k: Kernel, live: iset<nat>, live': iset<nat>, t: Tables, t': Tables, p: map<nat, Page>,
                       p': map<nat, Page>, own: seq<nat>)
    requires k.Shape(t) && (forall f | f in k.roles :: f in live)
    requires Fresh(live, live', own) && Elsewhere(t, t', p, p', own)
    ensures k.Shape(t') && forall f | f in k.roles :: f in live' && f !in own
  {
    hide Kernel.Matches, Kernel.Closed;
    forall f | f in k.roles ensures f !in own {
      assert forall i | 0 <= i < |own| :: own[i] !in live;
    }
    ShapeKept(t, t', k);
  }

  /** The four tables of a new address space, the upper two filled in. */
  method TakeTables(memory: Memory, ghost k: Kernel, active: nat) returns (out: Option<(nat, nat, nat, nat)>)
    requires memory.frames.Valid() && memory.Maps(k) && active == k.root
    modifies memory, memory.frames, memory.frames.regions
    ensures memory.frames.Valid()
    ensures out.Some? ==>
      var (root, pdpt, directory, table) := out.value;
      && Fresh(old(memory.frames.Live()), memory.frames.Live(), [root, pdpt, directory, table])
      && Elsewhere(old(memory.tables), memory.tables, old(memory.pages), memory.pages, [root, pdpt, directory, table])
      && 0 in k.pdpts && root in memory.tables && pdpt in memory.tables
      && memory.tables[root] == old(memory.tables)[k.root][0 := UserLink(pdpt)]
      && memory.tables[pdpt] == old(memory.tables)[k.pdpts[0]]
      && directory in memory.tables && memory.tables[directory] == BLANK
      && table in memory.tables && memory.tables[table] == BLANK
      && memory.frames.Waiting() == Drained(old(memory.frames.Waiting()), 4)
      && memory.frames.Left() == old(memory.frames.Left()) - 4
    ensures out.Some? <==> 0 in k.pdpts && old(memory.frames.Left()) >= 4
  {
    hide FrameAllocator.Valid, FrameAllocator.Live, FrameAllocator.Left, FrameAllocator.Waiting, Kernel.Shape, UserLink, Drained;
    var upper := UpperTables(memory, k, active);
    if upper.None? {
      return None;
    }
    var (root, pdpt) := upper.value;
    ghost var live, tables, pages := memory.frames.Live(), memory.tables, memory.pages;
    var lower := LowerTables(memory);
    if lower.None? {
      return None;
    }
    var (directory, table) := lower.value;
    assert [root, pdpt] + [directory, table] == [root, pdpt, directory, table];
    FreshBoth(old(memory.frames.Live()), live, memory.frames.Live(), [root, pdpt], [directory, table]);
    ElsewhereBoth(old(memory.tables), tables, memory.tables, old(memory.pages), pages, memory.pages, [root, pdpt],
                  [directory, table]);
    DrainedTwice(old(memory.frames.Waiting()), 2, 2);
    return Some((root, pdpt, directory, table));
  }

  /** All the frames of a new address space, with the two upper tables filled in. */
  method TakeFrames(memory: Memory, ghost k: Kernel, active: nat) returns (space: Option<AddressSpace>)
    requires memory.frames.Valid() && memory.Maps(k) && active == k.root
    modifies memory, memory.frames, memory.frames.regions
    ensures memory.frames.Valid()
    ensures space.Some? ==>
      var s := space.value;
      && 0 in k.pdpts && s.Valid()
      && Fresh(old(memory.frames.Live()), memory.frames.Live(), s.AllFrames())
      && Elsewhere(old(memory.tables), memory.tables, old(memory.pages), memory.pages, s.AllFrames())
      && s.root in memory.tables && memory.tables[s.root] == old(memory.tables)[k.root][0 := UserLink(s.pdpt)]
      && s.pdpt in memory.tables && memory.tables[s.pdpt] == old(memory.tables)[k.pdpts[0]]
      && s.directory in memory.tables && memory.tables[s.directory] == BLANK
      && s.table in memory.tables && memory.tables[s.table] == BLANK
      && (forall i | 0 <= i < CODE_PAGES :: IsData(memory.pages, s.code[i]) && memory.pages[s.code[i]] == ZERO_PAGE)
      && (forall i | 0 <= i < STACK_PAGES :: IsData(memory.pages, s.stack[i]) && memory.pages[s.stack[i]] == ZERO_PAGE)
      && memory.frames.Waiting() == Drained(old(memory.frames.Waiting()), FRAME_COUNT)
      && memory.frames.Left() == old(memory.frames.Left()) - FRAME_COUNT
    ensures space.Some? <==> 0 in k.pdpts && old(memory.frames.Left()) >= FRAME_COUNT
  {
    hide FrameAllocator.Valid, FrameAllocator.Live, FrameAllocator.Left, FrameAllocator.Waiting, Kernel.Shape, UserLink, Drained;
    var tables := TakeTables(memory, k, active);
    if tables.None? {
      return None;
    }
    var (root, pdpt, directory, table) := tables.value;
    ghost var four := [root, pdpt, directory, table];
    ghost var live1, tables1, pages1 := memory.frames.Live(), memory.tables, memory.pages;
    var pages := TakePages(memory);
    if pages.None? {
      return None;
    }
    var (code, stack) := pages.value;
    FreshBoth(old(memory.frames.Live()), live1, memory.frames.Live(), four, code + stack);
    ElsewhereBoth(old(memory.tables), tables1, memory.tables, old(memory.pages), pages1, memory.pages, four, code + stack);
    DrainedTwice(old(memory.frames.Waiting()), 4, CODE_PAGES + STACK_PAGES);
    var s := AddressSpace(root, pdpt, directory, table, code, stack);
    assert s.AllFrames() == four + (code + stack);
    return Some(s);
  }

  /** The code and stack pages, cleared. */
  method TakePages(memory: Memory) returns (out: Option<(seq<nat>, seq<nat>)>)
    requires memory.frames.Valid()
    modifies memory, memory.frames, memory.frames.regions
    ensures memory.frames.Valid()
    ensures out.Some? ==>
      var (code, stack) := out.value;
      && |code| == CODE_PAGES && |stack| == STACK_PAGES
      && Fresh(old(memory.frames.Live()), memory.frames.Live(), code + stack)
      && Elsewhere(old(memory.tables), memory.tables, old(memory.pages), memory.pages, code + stack)
      && (forall i | 0 <= i < CODE_PAGES :: IsData(memory.pages, code[i]) && memory.pages[code[i]] == ZERO_PAGE)
      && (forall i | 0 <= i < STACK_PAGES :: IsData(memory.pages, stack[i]) && memory.pages[stack[i]] == ZERO_PAGE)
      && memory.frames.Waiting() == Drained(old(memory.frames.Waiting()), CODE_PAGES + STACK_PAGES)
      && memory.frames.Left() == old(memory.frames.Left()) - (CODE_PAGES + STACK_PAGES)
    ensures out.Some? <==> old(memory.frames.Left()) >= CODE_PAGES + STACK_PAGES
  {
    hide FrameAllocator.Valid, FrameAllocator.Live, FrameAllocator.Left, FrameAllocator.Waiting;
    ghost var live0, tables0, pages0 := memory.frames.Live(), memory.tables, memory.pages;
    var code := DataFrames(memory, CODE_PAGES);
    if code.None? {
      return None;
    }
    ghost var live1, tables1, pages1 := memory.frames.Live(), memory.tables, memory.pages;
    var stack := DataFrames(memory, STACK_PAGES);
    if stack.None? {
      return None;
    }
    FreshBoth(live0, live1, memory.frames.Live(), code.value, stack.value);
    ElsewhereBoth(tables0, tables1, memory.tables, pages0, pages1, memory.pages, code.value, stack.value);
    forall i | 0 <= i < CODE_PAGES ensures code.value[i] !in stack.value {
      assert code.value[i] in code.value;
    }
    return Some((code.value, stack.value));
  }

  lemma SpaceShape(m: Tables, m': Tables, k: Kernel, s: AddressSpace)
    requires k.Shape(m) && 0 in k.pdpts && s.Valid() && k.Shape(m')
    requires s.root in m' && m'[s.root] == m[k.root][0 := UserLink(s.pdpt)]
    requires m[k.pdpts[0]][1] == ABSENT
    requires s.pdpt in m' && m'[s.pdpt] == m[k.pdpts[0]][1 := UserLink(s.directory)]
    requires s.directory in m' && m'[s.directory] == BLANK[0 := UserLink(s.table)]
    requires s.table in m' && forall j | 0 <= j < ENTRY_COUNT :: m'[s.table][j] == UserEntry(s.PageAt(None, j))
    ensures s.Shape(m', k, None)
  {
    LowDirectory(m, k);
    assert k.Matches(m[k.root], Root) && k.Matches(m[k.pdpts[0]], Pdpt(0));
    hide UserLink, UserEntry, Kernel.EntryOf, Kernel.Shape;
  }

  /** Links the tables below the process's copy of the low table, down to the user pages. */
  method LinkSpace(memory: Memory, s: AddressSpace)
    requires s.Valid() && s.pdpt in memory.tables && s.directory in memory.tables && s.table in memory.tables
    requires memory.tables[s.directory] == BLANK && memory.tables[s.table] == BLANK
    modifies memory`tables
    ensures memory.tables.Keys == old(memory.tables).Keys
    ensures memory.tables[s.pdpt] == old(memory.tables)[s.pdpt][1 := UserLink(s.directory)]
    ensures memory.tables[s.directory] == BLANK[0 := UserLink(s.table)]
    ensures forall j | 0 <= j < ENTRY_COUNT :: memory.tables[s.table][j] == UserEntry(s.PageAt(None, j))
    ensures forall f | f in memory.tables && f != s.pdpt && f != s.directory && f != s.table ::
      memory.tables[f] == old(memory.tables)[f]
  {
    hide UserLink, UserEntry;
    SpaceFrames(s);
    memory.SetEntry(s.pdpt, 1, UserLink(s.directory));
    memory.SetEntry(s.directory, 0, UserLink(s.table));
    FillTable(memory, s.table, s.code, s.stack);
  }

  /**
   * Builds a process's address space over the kernel's, its image in the code pages. The kernel stops instead
   * exactly when the image does not fit, the kernel maps the user's GiB or lacks the low range, or too few frames
   * are left.
   */
  method CreateUserAddressSpace(memory: Memory, ghost k: Kernel, active: nat, image: seq<bv8>, memorySize: nat)
    returns (space: Option<AddressSpace>)
    requires memory.frames.Valid() && memory.Maps(k) && active == k.root
    modifies memory, memory.frames, memory.frames.regions
    ensures memory.frames.Valid()
    ensures space.Some? <==>
      Fits(image, memorySize) && 0 in k.pdpts && 1 !in k.directories && old(memory.frames.Left()) >= FRAME_COUNT
    ensures space.Some? ==>
      var s := space.value;
      && s.Shape(memory.tables, k, None) && memory.Maps(k)
      && Fresh(old(memory.frames.Live()), memory.frames.Live(), s.AllFrames())
      && Elsewhere(old(memory.tables), memory.tables, old(memory.pages), memory.pages, s.AllFrames())
      && (forall i | 0 <= i < CODE_PAGES :: IsData(memory.pages, s.code[i]) && memory.pages[s.code[i]] == ImagePage(image, i))
      && (forall i | 0 <= i < STACK_PAGES :: IsData(memory.pages, s.stack[i]) && memory.pages[s.stack[i]] == ZERO_PAGE)
      && memory.frames.Waiting() == Drained(old(memory.frames.Waiting()), FRAME_COUNT)
      && memory.frames.Left() == old(memory.frames.Left()) - FRAME_COUNT
  {
    hide FrameAllocator.Valid, FrameAllocator.Live, FrameAllocator.Left, FrameAllocator.Waiting, Kernel.Shape, UserLink, AddressSpace.Shape,
      UserEntry, ImagePage;
    if !Fits(image, memorySize) {
      return None;
    }
    ghost var tables0 := memory.tables;
    RootEntry(tables0, k, 0);
    space := TakeFrames(memory, k, active);
    if space.None? {
      return;
    }
    var s := space.value;
    ghost var tables1, pages1 := memory.tables, memory.pages;
    LowDirectory(tables0, k);
    SpaceFrames(s);
    CopyImage(memory, s.code, image);
    if memory.tables[s.pdpt][1].present {
      return None;
    }
    LinkSpace(memory, s);
    assert Elsewhere(old(memory.tables), memory.tables, old(memory.pages), memory.pages, s.AllFrames());
    ElsewhereKeeps(k, old(memory.frames.Live()), memory.frames.Live(), tables0, memory.tables, old(memory.pages),
                   memory.pages, s.AllFrames());
    SpaceShape(tables0, memory.tables, k, s);
  }

  lemma LowDirectory(m: Tables, k: Kernel)
    requires k.Shape(m) && 0 in k.pdpts
    ensures k.pdpts[0] in m && m[k.pdpts[0]][1] == if 1 in k.directories then Link(k.directories[1]) else ABSENT
  {
    assert GibOf(1) == 0 && SlotOf(1) == 1;
    PdptEntry(m, k, 1);
  }

  /** Returns frames to the allocator in order; it stops the kernel at the first one refused. */
  method ReleaseAll(frames: FrameAllocator, own: seq<nat>) returns (ok: bool)
    requires frames.Valid() && Distinct(own)
    modifies frames`recycledCount, frames.recycled
    ensures frames.Valid()
    ensures ok <==>
      && (forall i | 0 <= i < |own| :: own[i] in old(frames.Live()))
      && |old(frames.Waiting())| + |own| <= RECYCLED_CAPACITY
    ensures ok ==> frames.Waiting() == old(frames.Waiting()) + own
    ensures ok ==> forall f :: f in frames.Live() <==> f in old(frames.Live()) && f !in own
  {
    hide FrameAllocator.Valid, FrameAllocator.Live, FrameAllocator.Left, FrameAllocator.Waiting;
    assert |frames.Waiting()| <= RECYCLED_CAPACITY by {
      frames.Partition();
    }
    for i := 0 to |own|
      invariant frames.Valid() && frames.Waiting() == old(frames.Waiting()) + own[..i]
      invariant |frames.Waiting()| <= RECYCLED_CAPACITY
      invariant forall j | 0 <= j < i :: own[j] in old(frames.Live())
      invariant forall f :: f in frames.Live() <==> f in old(frames.Live()) && f !in own[..i]
    {
      ok := frames.DeallocateFrame(own[i]);
      if !ok {
        return;
      }
      assert own[..i + 1] == own[..i] + [own[i]];
    }
    assert own[..|own|] == own;
    ok := true;
  }

  /**
   * Reaping an exited process: its frames go back, and the allocator then hands out the last stack page, which is
   * returned again. The check that it is that page never fails.
   */
  method ReapAddressSpace(frames: FrameAllocator, s: AddressSpace) returns (released: Option<nat>, probe: nat)
    requires frames.Valid() && s.Valid()
    modifies frames, frames.regions, frames.recycled
    ensures frames.Valid()
    ensures released.Some? <==>
      && (forall i | 0 <= i < |s.AllFrames()| :: s.AllFrames()[i] in old(frames.Live()))
      && |old(frames.Waiting())| + FRAME_COUNT <= RECYCLED_CAPACITY
    ensures released.Some? ==>
      && released.value == FRAME_COUNT && probe == s.stack[STACK_PAGES - 1]
      && frames.Waiting() == old(frames.Waiting()) + s.AllFrames()
      && forall f :: f in frames.Live() <==> f in old(frames.Live()) && f !in s.AllFrames()
  {
    hide FrameAllocator.Valid, FrameAllocator.Live, FrameAllocator.Left, FrameAllocator.Waiting;
    probe := 0;
    var ok := ReleaseAll(frames, s.AllFrames());
    if !ok {
      return None, probe;
    }
    ghost var waiting := frames.Waiting();
    assert waiting[|waiting| - 1] == s.stack[STACK_PAGES - 1];
    var again := frames.AllocateFrame();
    probe := again.value;
    assert |frames.Waiting()| < RECYCLED_CAPACITY && frames.Waiting() + [probe] == waiting;
    ok := frames.DeallocateFrame(probe);
    assert ok;
    released := Some(|s.AllFrames()|);
  }

  /**
   * A whole life: reaping an address space just created always succeeds. The frames in use are again those from
   * before, the last stack page is handed out once more, and all eleven frames wait on the stack.
   */
  method CreateThenReap(memory: Memory, ghost k: Kernel, active: nat, image: seq<bv8>, memorySize: nat)
    returns (space: Option<AddressSpace>, released: Option<nat>, probe: nat)
    requires memory.frames.Valid() && memory.Maps(k) && active == k.root
    modifies memory, memory.frames, memory.frames.regions, memory.frames.recycled
    ensures memory.frames.Valid()
    ensures space.Some? <==>
      Fits(image, memorySize) && 0 in k.pdpts && 1 !in k.directories && old(memory.frames.Left()) >= FRAME_COUNT
    ensures space.Some? ==>
      && released == Some(FRAME_COUNT) && space.value.Valid() && probe == space.value.stack[STACK_PAGES - 1]
      && memory.frames.Live() == old(memory.frames.Live())
      && memory.frames.Waiting() == Drained(old(memory.frames.Waiting()), FRAME_COUNT) + space.value.AllFrames()
  {
    hide FrameAllocator.Valid, FrameAllocator.Live, FrameAllocator.Left, FrameAllocator.Waiting, Kernel.Shape;
    assert |memory.frames.Waiting()| <= RECYCLED_CAPACITY by {
      memory.frames.Partition();
    }
    space := CreateUserAddressSpace(memory, k, active, image, memorySize);
    if space.None? {
      return space, None, 0;
    }
    SpaceLive(old(memory.frames.Live()), memory.frames.Live(), space.value.AllFrames());
    released, probe := ReapAddressSpace(memory.frames, space.value);
  }

  lemma SpaceLive(before: iset<nat>, during: iset<nat>, own: seq<nat>)
    requires Fresh(before, during, own)
    ensures forall i | 0 <= i < |own| :: own[i] in during && own[i] !in before
    ensures forall f | f in before :: f in during && f !in own
  {
  }
}

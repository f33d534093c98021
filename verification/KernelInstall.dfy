/** The kernel's address space as installed at boot: the first GiB and every device range, mapped to themselves. */
module KernelInstall {
  import opened Sizes
  import opened Wrappers
  import opened Frames
  import opened PageTables
  import opened KernelPaging

  /** A range of device registers; an empty one is skipped. */
  datatype MmioRange = MmioRange(base: nat, size: nat) {
    predicate Wanted() { base != 0 && size != 0 }

    predicate Touches(h: nat) { Within(h, FirstHuge(base), LastHuge(base, size)) }

    /** The page-aligned cover of the range lies in the lower half. */
    predicate Low() { FirstHuge(base) < LastHuge(base, size) ==> EndsLow(LastHuge(base, size)) }
  }

  ghost predicate Uncached(framebuffer: MmioRange, ranges: seq<MmioRange>, h: nat) {
    framebuffer.Touches(h) || exists i | 0 <= i < |ranges| :: ranges[i].Wanted() && ranges[i].Touches(h)
  }

  /** Exactly the first GiB and the device pages are mapped, the latter uncached. */
  ghost predicate Covers(k: Kernel, framebuffer: MmioRange, ranges: seq<MmioRange>) {
    && (forall h: nat :: h in k.leaves <==> h < ENTRY_COUNT || Uncached(framebuffer, ranges, h))
    && forall h | h in k.leaves :: k.leaves[h] == Uncached(framebuffer, ranges, h)
  }

  /** The kernel's mapping of the first GiB alone. */
  function LowKernel(root: nat, pdpt: nat, low: nat): Kernel {
    Kernel(root, map[0 := pdpt], map[0 := low], map h | h in Pages(0, ENTRY_COUNT) :: false,
           map[root := Root, pdpt := Pdpt(0), low := Directory(0)])
  }

  lemma LowShape(m: Tables, root: nat, pdpt: nat, low: nat)
    requires root != pdpt && root != low && pdpt != low
    requires root in m && m[root] == BLANK[0 := Link(pdpt)]
    requires pdpt in m && m[pdpt] == BLANK[0 := Link(low)]
    requires low in m && forall j | 0 <= j < ENTRY_COUNT :: m[low][j] == Leaf(j, false)
    ensures LowKernel(root, pdpt, low).Shape(m)
  {
    hide Leaf;
    var k := LowKernel(root, pdpt, low);
    assert k.Matches(m[root], Root);
    assert k.Matches(m[pdpt], Pdpt(0));
    assert k.Matches(m[low], Directory(0));
    assert GibOf(0) == 0;
    forall h | h in k.leaves ensures GibOf(h) in k.directories {
      assert GibOf(h) == 0;
    }
  }

  lemma LowFacts(root: nat, pdpt: nat, low: nat)
    requires root != pdpt && root != low && pdpt != low
    ensures var k := LowKernel(root, pdpt, low);
      && k.root == root && k.roles.Keys == {root, pdpt, low} && k.pdpts.Keys == {0} && k.directories.Keys == {0}
      && |k.roles| == 3 && |k.leaves| == ENTRY_COUNT && Covers(k, MmioRange(0, 0), [])
  {
    var k := LowKernel(root, pdpt, low);
    assert k.roles.Keys == {root, pdpt, low};
    PagesCount(ENTRY_COUNT);
    assert k.leaves.Keys == Pages(0, ENTRY_COUNT);
  }

  lemma PagesCount(n: nat)
    ensures |Pages(0, n)| == n
  {
    if n > 0 {
      PagesCount(n - 1);
      PagesSnoc(0, n - 1);
    }
  }

  /** Between the two sets of live frames, exactly these were taken. */
  ghost predicate OwnFrames(live: iset<nat>, live': iset<nat>, own: set<nat>) {
    && (forall f | f in own :: f !in live)
    && forall f :: f in live' <==> f in live || f in own
  }

  lemma OwnMore(a: iset<nat>, b: iset<nat>, c: iset<nat>, k: Kernel, k': Kernel)
    requires OwnFrames(a, b, k.roles.Keys) && Took(b, c, k, k')
    ensures OwnFrames(a, c, k'.roles.Keys)
  {
  }

  /** Takes three cleared tables and links each to the next. */
  method LinkTables(memory: Memory) returns (tables: Option<(nat, nat, nat)>)
    requires memory.frames.Valid()
    modifies memory, memory.frames, memory.frames.regions
    ensures memory.frames.Valid()
    ensures tables.Some? ==>
      var (root, pdpt, low) := tables.value;
      && root != pdpt && root != low && pdpt != low
      && root in memory.tables && memory.tables[root] == BLANK[0 := Link(pdpt)]
      && pdpt in memory.tables && memory.tables[pdpt] == BLANK[0 := Link(low)]
      && low in memory.tables && memory.tables[low] == BLANK
      && OwnFrames(old(memory.frames.Live()), memory.frames.Live(), {root, pdpt, low})
    ensures tables.Some? <==> old(memory.frames.Left()) >= 3
    ensures tables.Some? ==> memory.frames.Left() == old(memory.frames.Left()) - 3
  {
    hide FrameAllocator.Valid, FrameAllocator.Live, FrameAllocator.Left, FrameAllocator.Waiting, Drained, Link;
    var root := memory.TableFrame();
    if root.None? {
      return None;
    }
    var pdpt := memory.TableFrame();
    if pdpt.None? {
      return None;
    }
    memory.SetEntry(root.value, 0, Link(pdpt.value));
    var low := memory.TableFrame();
    if low.None? {
      return None;
    }
    memory.SetEntry(pdpt.value, 0, Link(low.value));
    return Some((root.value, pdpt.value, low.value));
  }

  /** Builds the mapping of the first GiB. */
  method InstallLow(memory: Memory) returns (root: Option<nat>, ghost k: Kernel)
    requires memory.frames.Valid()
    modifies memory, memory.frames, memory.frames.regions
    ensures memory.frames.Valid()
    ensures root.Some? ==>
      && k.root == root.value && |k.roles| == 3 && |k.leaves| == ENTRY_COUNT && memory.Maps(k)
      && Covers(k, MmioRange(0, 0), []) && k.pdpts.Keys == {0} && k.directories.Keys == {0}
      && OwnFrames(old(memory.frames.Live()), memory.frames.Live(), k.roles.Keys)
    ensures root.Some? <==> old(memory.frames.Left()) >= 3
    ensures root.Some? ==> memory.frames.Left() == old(memory.frames.Left()) - 3
  {
    hide FrameAllocator.Valid, FrameAllocator.Live, FrameAllocator.Left, LowKernel, Covers, Kernel.Shape, Link, Leaf;
    k := LowKernel(0, 0, 0);
    var tables := LinkTables(memory);
    if tables.None? {
      return None, k;
    }
    var (top, pdpt, low) := tables.value;
    FillLow(memory, low);
    root, k := Some(top), LowKernel(top, pdpt, low);
    LowShape(memory.tables, top, pdpt, low);
    LowFacts(top, pdpt, low);
  }

  /** Fills a directory with the 2 MiB pages of the first GiB. */
  method FillLow(memory: Memory, low: nat)
    requires low in memory.tables
    modifies memory`tables
    ensures low in memory.tables && forall j | 0 <= j < ENTRY_COUNT :: memory.tables[low][j] == Leaf(j, false)
    ensures memory.tables.Keys == old(memory.tables).Keys
    ensures forall f | f in memory.tables && f != low :: memory.tables[f] == old(memory.tables)[f]
  {
    for index := 0 to ENTRY_COUNT
      invariant memory.tables.Keys == old(memory.tables).Keys
      invariant forall j | 0 <= j < index :: memory.tables[low][j] == Leaf(j, false)
      invariant forall f | f in memory.tables && f != low :: memory.tables[f] == old(memory.tables)[f]
    {
      memory.SetEntry(low, index, Leaf(index, false));
    }
  }

  lemma CoversFramebuffer(k: Kernel, k': Kernel, framebuffer: MmioRange)
    requires Covers(k, MmioRange(0, 0), [])
    requires Grown(k, k', FirstHuge(framebuffer.base), LastHuge(framebuffer.base, framebuffer.size))
    ensures Covers(k', framebuffer, [])
  {
    forall h: nat ensures !Uncached(MmioRange(0, 0), [], h) && (Uncached(framebuffer, [], h) <==> framebuffer.Touches(h)) {
    }
  }

  lemma CoversRange(k: Kernel, k': Kernel, framebuffer: MmioRange, ranges: seq<MmioRange>, r: MmioRange)
    requires Covers(k, framebuffer, ranges)
    requires if r.Wanted() then Grown(k, k', FirstHuge(r.base), LastHuge(r.base, r.size)) else k' == k
    ensures Covers(k', framebuffer, ranges + [r])
  {
    forall h: nat
      ensures Uncached(framebuffer, ranges + [r], h) <==> Uncached(framebuffer, ranges, h) || (r.Wanted() && r.Touches(h))
    {
      if r.Wanted() && r.Touches(h) {
        assert (ranges + [r])[|ranges|] == r;
      } else if Uncached(framebuffer, ranges, h) && !framebuffer.Touches(h) {
        var i :| 0 <= i < |ranges| && ranges[i].Wanted() && ranges[i].Touches(h);
        assert (ranges + [r])[i] == ranges[i];
      }
    }
  }

  function RangeSet(r: MmioRange): set<nat> {
    Ranges(FirstHuge(r.base), LastHuge(r.base, r.size))
  }

  function GibSet(r: MmioRange): set<nat> {
    Gibs(FirstHuge(r.base), LastHuge(r.base, r.size))
  }

  /** The 512 GiB ranges, and the GiBs, that the devices lie in. */
  function AllRanges(framebuffer: MmioRange, ranges: seq<MmioRange>): set<nat> {
    if ranges == [] then RangeSet(framebuffer)
    else
      var n := |ranges| - 1;
      AllRanges(framebuffer, ranges[..n]) + (if ranges[n].Wanted() then RangeSet(ranges[n]) else {})
  }

  function AllGibs(framebuffer: MmioRange, ranges: seq<MmioRange>): set<nat> {
    if ranges == [] then GibSet(framebuffer)
    else
      var n := |ranges| - 1;
      AllGibs(framebuffer, ranges[..n]) + (if ranges[n].Wanted() then GibSet(ranges[n]) else {})
  }

  /** The frames the mapping takes: a root, and a table for each 512 GiB range and each GiB, the first included. */
  function TablesNeeded(framebuffer: MmioRange, ranges: seq<MmioRange>): nat {
    3 + |AllRanges(framebuffer, ranges) - {0}| + |AllGibs(framebuffer, ranges) - {0}|
  }

  ghost predicate Known(k: Kernel, framebuffer: MmioRange, ranges: seq<MmioRange>) {
    && k.pdpts.Keys == {0} + AllRanges(framebuffer, ranges)
    && k.directories.Keys == {0} + AllGibs(framebuffer, ranges)
  }

  lemma SetGrows(a: set<nat>, r: set<nat>, z: set<nat>)
    ensures |(a + r) - z| == |a - z| + |r - (z + a)|
  {
    assert (a + r) - z == (a - z) + (r - (z + a));
  }

  lemma FirstNeeded(k: Kernel, framebuffer: MmioRange)
    requires k.pdpts.Keys == {0} && k.directories.Keys == {0}
    ensures TablesNeeded(framebuffer, []) ==
      3 + Missing(k, FirstHuge(framebuffer.base), LastHuge(framebuffer.base, framebuffer.size))
  {
    hide Ranges, Gibs, FirstHuge, LastHuge;
  }

  lemma NextNeeded(k: Kernel, framebuffer: MmioRange, ranges: seq<MmioRange>, r: MmioRange)
    requires Known(k, framebuffer, ranges)
    ensures TablesNeeded(framebuffer, ranges + [r]) == TablesNeeded(framebuffer, ranges) +
      (if r.Wanted() then Missing(k, FirstHuge(r.base), LastHuge(r.base, r.size)) else 0)
  {
    hide Ranges, Gibs, FirstHuge, LastHuge;
    assert (ranges + [r])[..|ranges|] == ranges;
    SetGrows(AllRanges(framebuffer, ranges), RangeSet(r), {0});
    SetGrows(AllGibs(framebuffer, ranges), GibSet(r), {0});
  }

  lemma KnownFirst(k: Kernel, k': Kernel, framebuffer: MmioRange)
    requires k.pdpts.Keys == {0} && k.directories.Keys == {0}
    requires Grown(k, k', FirstHuge(framebuffer.base), LastHuge(framebuffer.base, framebuffer.size))
    ensures Known(k', framebuffer, [])
  {
    hide Ranges, Gibs, FirstHuge, LastHuge;
  }

  lemma KnownNext(k: Kernel, k': Kernel, framebuffer: MmioRange, ranges: seq<MmioRange>, r: MmioRange)
    requires Known(k, framebuffer, ranges)
    requires if r.Wanted() then Grown(k, k', FirstHuge(r.base), LastHuge(r.base, r.size)) else k' == k
    ensures Known(k', framebuffer, ranges + [r])
  {
    hide Ranges, Gibs, FirstHuge, LastHuge;
    assert (ranges + [r])[..|ranges|] == ranges;
  }

  lemma {:induction false} NeededMore(framebuffer: MmioRange, ranges: seq<MmioRange>, i: nat)
    requires i <= |ranges|
    ensures TablesNeeded(framebuffer, ranges[..i]) <= TablesNeeded(framebuffer, ranges)
    decreases |ranges|
  {
    hide RangeSet, GibSet;
    if i == |ranges| {
      assert ranges[..i] == ranges;
    } else {
      var n := |ranges| - 1;
      assert ranges[..n][..i] == ranges[..i];
      NeededMore(framebuffer, ranges[..n], i);
      SetGrows(AllRanges(framebuffer, ranges[..n]), RangeSet(ranges[n]), {0});
      SetGrows(AllGibs(framebuffer, ranges[..n]), GibSet(ranges[n]), {0});
    }
  }

  lemma NeededFloor(framebuffer: MmioRange, ranges: seq<MmioRange>)
    ensures TablesNeeded(framebuffer, ranges) >= 3
  {
  }

  /** The mapping of the first GiB, the framebuffer and some device ranges is built, and counted. */
  ghost predicate Built(memory: Memory, live: iset<nat>, left: nat, k: Kernel, framebuffer: MmioRange,
                        ranges: seq<MmioRange>, tableFrames: nat, hugePages: nat)
    reads memory, memory.frames, memory.frames.regions, memory.frames.recycled
  {
    && memory.frames.Valid() && memory.Maps(k) && Covers(k, framebuffer, ranges) && Known(k, framebuffer, ranges)
    && tableFrames == |k.roles| == TablesNeeded(framebuffer, ranges) && hugePages == |k.leaves|
    && OwnFrames(live, memory.frames.Live(), k.roles.Keys) && memory.frames.Left() == left - tableFrames
  }

  /** Maps one more device range, unless it is empty. */
  method MapOne(memory: Memory, ghost live: iset<nat>, ghost left: nat, ghost k: Kernel, root: nat,
                ghost framebuffer: MmioRange, ghost ranges: seq<MmioRange>, r: MmioRange, tableFrames: nat, hugePages: nat)
    returns (ok: bool, tableFrames': nat, hugePages': nat, ghost k': Kernel)
    requires Built(memory, live, left, k, framebuffer, ranges, tableFrames, hugePages) && k.root == root
    requires r.base <= U64_MAX
    modifies memory, memory.frames, memory.frames.regions
    ensures memory.frames.Valid()
    ensures ok <==> (r.Wanted() ==> r.Low()) && left >= TablesNeeded(framebuffer, ranges + [r])
    ensures ok ==> k'.root == root && Built(memory, live, left, k', framebuffer, ranges + [r], tableFrames', hugePages')
  {
    hide FrameAllocator.Valid, FrameAllocator.Live, FrameAllocator.Left, Memory.Maps, Covers, Grown, OwnFrames, Took, EndsLow,
      FirstHuge, LastHuge, TablesNeeded, Missing, Known;
    ok, tableFrames', hugePages', k' := true, tableFrames, hugePages, k;
    NextNeeded(k, framebuffer, ranges, r);
    if r.Wanted() {
      ghost var before := memory.frames.Live();
      var done, made, mapped, grown := memory.MapMmioRange(k, root, r.base, r.size);
      if !done {
        return false, tableFrames, hugePages, k;
      }
      OwnMore(live, before, memory.frames.Live(), k, grown);
      tableFrames', hugePages', k' := tableFrames + made, hugePages + mapped, grown;
    }
    CoversRange(k, k', framebuffer, ranges, r);
    KnownNext(k, k', framebuffer, ranges, r);
  }

  /** Maps the first GiB and the framebuffer. */
  method InstallFirst(memory: Memory, framebuffer: MmioRange)
    returns (root: Option<nat>, tableFrames: nat, hugePages: nat, ghost k: Kernel)
    requires memory.frames.Valid() && framebuffer.base <= U64_MAX
    modifies memory, memory.frames, memory.frames.regions
    ensures memory.frames.Valid()
    ensures root.Some? <==> framebuffer.Low() && old(memory.frames.Left()) >= TablesNeeded(framebuffer, [])
    ensures root.Some? ==>
      && k.root == root.value
      && Built(memory, old(memory.frames.Live()), old(memory.frames.Left()), k, framebuffer, [], tableFrames, hugePages)
  {
    hide FrameAllocator.Valid, FrameAllocator.Live, FrameAllocator.Left, Memory.Maps, Covers, Grown, OwnFrames, Took, EndsLow,
      FirstHuge, LastHuge, TablesNeeded, Missing, Known;
    tableFrames, hugePages := 3, ENTRY_COUNT;
    NeededFloor(framebuffer, []);
    root, k := InstallLow(memory);
    if root.None? {
      return;
    }
    FirstNeeded(k, framebuffer);
    ghost var live := memory.frames.Live();
    var ok, made, mapped, grown := memory.MapMmioRange(k, root.value, framebuffer.base, framebuffer.size);
    if !ok {
      return None, 0, 0, k;
    }
    OwnMore(old(memory.frames.Live()), live, memory.frames.Live(), k, grown);
    CoversFramebuffer(k, grown, framebuffer);
    KnownFirst(k, grown, framebuffer);
    tableFrames, hugePages, k := tableFrames + made, hugePages + mapped, grown;
  }

  /**
   * Builds the kernel's address space, if every range lies in the lower half and there are frames for its tables, and
   * only then. The counts reported are the number of frames taken, all of them tables, and the number of 2 MiB pages
   * mapped.
   */
  method Install(memory: Memory, framebuffer: MmioRange, ranges: seq<MmioRange>)
    returns (root: Option<nat>, tableFrames: nat, hugePages: nat, ghost k: Kernel)
    requires memory.frames.Valid() && framebuffer.base <= U64_MAX
    requires forall i | 0 <= i < |ranges| :: ranges[i].base <= U64_MAX
    modifies memory, memory.frames, memory.frames.regions
    ensures memory.frames.Valid()
    ensures root.Some? <==>
      && framebuffer.Low() && (forall i | 0 <= i < |ranges| && ranges[i].Wanted() :: ranges[i].Low())
      && old(memory.frames.Left()) >= TablesNeeded(framebuffer, ranges)
    ensures root.Some? ==>
      && k.root == root.value && memory.Maps(k) && Covers(k, framebuffer, ranges)
      && tableFrames == |k.roles| == TablesNeeded(framebuffer, ranges) && hugePages == |k.leaves|
      && OwnFrames(old(memory.frames.Live()), memory.frames.Live(), k.roles.Keys)
      && memory.frames.Left() == old(memory.frames.Left()) - tableFrames
  {
    hide FrameAllocator.Valid, FrameAllocator.Live, FrameAllocator.Left, Memory.Maps, Covers, OwnFrames, TablesNeeded, Known,
      MmioRange.Low;
    ghost var live, left := memory.frames.Live(), memory.frames.Left();
    forall i | 0 <= i <= |ranges| ensures TablesNeeded(framebuffer, ranges[..i]) <= TablesNeeded(framebuffer, ranges) {
      NeededMore(framebuffer, ranges, i);
    }
    assert ranges[..0] == [] && ranges[..|ranges|] == ranges;
    root, tableFrames, hugePages, k := InstallFirst(memory, framebuffer);
    if root.None? {
      assert left >= TablesNeeded(framebuffer, ranges) ==> left >= TablesNeeded(framebuffer, ranges[..0]);
      return;
    }
    for i := 0 to |ranges|
      invariant Built(memory, live, left, k, framebuffer, ranges[..i], tableFrames, hugePages) && k.root == root.value
      invariant framebuffer.Low() && (forall j | 0 <= j < i && ranges[j].Wanted() :: ranges[j].Low())
    {
      var ok;
      assert ranges[..i + 1] == ranges[..i] + [ranges[i]];
      ok, tableFrames, hugePages, k :=
        MapOne(memory, live, left, k, root.value, framebuffer, ranges[..i], ranges[i], tableFrames, hugePages);
      if !ok {
        assert left >= TablesNeeded(framebuffer, ranges) ==> left >= TablesNeeded(framebuffer, ranges[..i + 1]);
        return None, 0, 0, k;
      }
    }
  }

  lemma LowPages(va: nat)
    ensures HugeOf(va) < ENTRY_COUNT <==> va < GIB
  {
  }

  /** What the processor sees: identity on the first GiB and the device pages, uncached exactly there. */
  lemma InstalledWalk(m: Tables, k: Kernel, framebuffer: MmioRange, ranges: seq<MmioRange>, va: nat)
    requires k.Shape(m) && Covers(k, framebuffer, ranges) && va < LOWER_HALF
    ensures var uncached := Uncached(framebuffer, ranges, HugeOf(va));
      Walk(m, k.root, va) == if va < GIB || uncached then Mapped(va, true, false, uncached) else Fault
  {
    hide Kernel.Shape, Walk, Uncached, HugeOf;
    KernelWalk(m, k, va);
    LowPages(va);
  }

  /** Every byte of an accepted device range is mapped to itself, uncached. */
  lemma DeviceByte(m: Tables, k: Kernel, framebuffer: MmioRange, ranges: seq<MmioRange>, i: nat, va: nat)
    requires k.Shape(m) && Covers(k, framebuffer, ranges)
    requires i < |ranges| && ranges[i].Wanted() && ranges[i].Low()
    requires ranges[i].base <= va < ranges[i].base + ranges[i].size <= U64_MAX
    ensures va < LOWER_HALF && Walk(m, k.root, va) == Mapped(va, true, false, true)
  {
    hide Kernel.Shape, Walk, Covers;
    Touched(ranges[i], va);
    InstalledWalk(m, k, framebuffer, ranges, va);
  }

  lemma Touched(r: MmioRange, va: nat)
    requires r.base <= va < r.base + r.size <= U64_MAX && r.Low()
    ensures r.Touches(HugeOf(va)) && va < LOWER_HALF
  {
    assert va < LastHuge(r.base, r.size) * HUGE_PAGE;
  }
}

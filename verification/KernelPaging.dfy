/** Physical memory behind the allocator, and the construction of the kernel's address space. */
module KernelPaging {
  import opened Sizes
  import opened Wrappers
  import opened Frames
  import opened PageTables

  type Page = p: seq<bv8> | |p| == PAGE witness seq(PAGE, _ => 0)

  const ZERO_PAGE: Page := seq(PAGE, _ => 0)

  /** Frames in use as page tables and frames in use for bytes. */
  class Memory {
    const frames: FrameAllocator
    var tables: Tables
    var pages: map<nat, Page>

    constructor (frames: FrameAllocator)
      ensures this.frames == frames && tables == map[] && pages == map[]
    {
      this.frames := frames;
      tables := map[];
      pages := map[];
    }

    /** Takes a frame for a page table, cleared; no frame means the kernel stops. */
    method TableFrame() returns (frame: Option<nat>)
      requires frames.Valid()
      modifies this, frames, frames.regions
      ensures frames.Valid()
      ensures frame.None? <==> old(frames.Left()) == 0
      ensures frame.Some? ==> frames.Left() == old(frames.Left()) - 1
      ensures frame.None? ==> tables == old(tables) && pages == old(pages) && frames.Live() == old(frames.Live())
      ensures frame.Some? ==>
        && frame.value % PAGE == 0 && frame.value !in old(frames.Live())
        && frames.Live() == old(frames.Live()) + iset{frame.value}
        && tables == old(tables)[frame.value := BLANK] && pages == old(pages) - {frame.value}
        && frames.Waiting() == Drained(old(frames.Waiting()), 1)
    {
      frame := frames.AllocateFrame();
      if frame.Some? {
        tables := tables[frame.value := BLANK];
        pages := pages - {frame.value};
      }
    }

    /** Takes a frame for bytes, cleared. */
    method DataFrame() returns (frame: Option<nat>)
      requires frames.Valid()
      modifies this, frames, frames.regions
      ensures frames.Valid()
      ensures frame.None? <==> old(frames.Left()) == 0
      ensures frame.Some? ==> frames.Left() == old(frames.Left()) - 1
      ensures frame.None? ==> tables == old(tables) && pages == old(pages) && frames.Live() == old(frames.Live())
      ensures frame.Some? ==>
        && frame.value % PAGE == 0 && LOW_LIMIT <= frame.value && frame.value !in old(frames.Live())
        && frames.Live() == old(frames.Live()) + iset{frame.value}
        && tables == old(tables) - {frame.value} && pages == old(pages)[frame.value := ZERO_PAGE]
        && frames.Waiting() == Drained(old(frames.Waiting()), 1)
    {
      frame := frames.AllocateFrame();
      if frame.Some? {
        tables := tables - {frame.value};
        pages := pages[frame.value := ZERO_PAGE];
      }
    }

    method SetEntry(table: nat, index: nat, entry: Entry)
      requires table in tables && index < ENTRY_COUNT
      modifies this`tables
      ensures tables == old(tables)[table := old(tables)[table][index := entry]]
    {
      tables := tables[table := tables[table][index := entry]];
    }

    /** The tables have the kernel's shape, and its frames are in use. */
    ghost predicate Maps(k: Kernel)
      requires frames.Valid()
      reads this, frames, frames.regions, frames.recycled
    {
      k.Shape(tables) && forall f | f in k.roles :: f in frames.Live()
    }

    /** The frame of the table for a 512 GiB range, made if it is missing. */
    method PdptFor(ghost k: Kernel, root: nat, i: nat) returns (pdpt: Option<nat>, made: nat, ghost k': Kernel)
      requires frames.Valid() && Maps(k) && root == k.root && i < ENTRY_COUNT
      modifies this, frames, frames.regions
      ensures frames.Valid()
      ensures pdpt.Some? ==>
        && Maps(k') && i in k'.pdpts && k'.pdpts[i] == pdpt.value && k'.pdpts.Keys == k.pdpts.Keys + {i}
        && k'.root == k.root && k'.directories == k.directories && k'.leaves == k.leaves
        && |k'.roles| == |k.roles| + made && Took(old(frames.Live()), frames.Live(), k, k')
      ensures pdpt.Some? <==> old(frames.Left()) >= PdptNeeded(k, i)
      ensures pdpt.Some? ==> made == PdptNeeded(k, i) && frames.Left() == old(frames.Left()) - made
    {
      hide Kernel.Shape, FrameAllocator.Valid, FrameAllocator.Live, FrameAllocator.Left;
      k' := k;
      made := 0;
      RootEntry(tables, k, i);
      var entry := tables[root][i];
      if entry.present {
        return Some(entry.address), made, k';
      }
      pdpt := TableFrame();
      if pdpt.Some? {
        made := 1;
        SetEntry(root, i, Link(pdpt.value));
        PdptAdded(old(tables), k, i, pdpt.value);
        k' := k.AddPdpt(i, pdpt.value);
      }
    }

    /** The frame of the table for a GiB, made if it is missing. */
    method DirectoryFor(ghost k: Kernel, pdpt: nat, g: nat)
      returns (directory: Option<nat>, made: nat, ghost k': Kernel)
      requires frames.Valid() && Maps(k) && GibOf(g) in k.pdpts && pdpt == k.pdpts[GibOf(g)]
      modifies this, frames, frames.regions
      ensures frames.Valid()
      ensures directory.Some? ==>
        && Maps(k') && g in k'.directories && k'.directories[g] == directory.value
        && k'.directories.Keys == k.directories.Keys + {g}
        && k'.root == k.root && k'.pdpts == k.pdpts && k'.leaves == k.leaves
        && |k'.roles| == |k.roles| + made && Took(old(frames.Live()), frames.Live(), k, k')
      ensures directory.Some? <==> old(frames.Left()) >= DirectoryNeeded(k, g)
      ensures directory.Some? ==> made == DirectoryNeeded(k, g) && frames.Left() == old(frames.Left()) - made
    {
      hide Kernel.Shape, FrameAllocator.Valid, FrameAllocator.Live, FrameAllocator.Left, GibOf, SlotOf;
      k' := k;
      made := 0;
      PdptEntry(tables, k, g);
      var entry := tables[pdpt][SlotOf(g)];
      if entry.present {
        return Some(entry.address), made, k';
      }
      directory := TableFrame();
      if directory.Some? {
        made := 1;
        SetEntry(pdpt, SlotOf(g), Link(directory.value));
        DirectoryAdded(old(tables), k, g, directory.value);
        k' := k.AddDirectory(g, directory.value);
      }
    }

    /** Maps one 2 MiB page to itself, uncached; `mapped` counts it when nothing was there. */
    method MapHuge(ghost k: Kernel, directory: nat, h: nat) returns (mapped: nat, ghost k': Kernel)
      requires frames.Valid() && Maps(k) && GibOf(h) in k.directories && directory == k.directories[GibOf(h)]
      modifies this`tables
      ensures frames.Valid() && Maps(k') && k' == k.MapUncached(h)
      ensures frames.Live() == old(frames.Live()) && frames.Left() == old(frames.Left())
      ensures |k'.leaves| == |k.leaves| + mapped
    {
      hide Kernel.Shape, FrameAllocator.Valid, FrameAllocator.Live, FrameAllocator.Left, GibOf, SlotOf;
      k' := k.MapUncached(h);
      mapped := 0;
      DirectoryEntry(tables, k, h);
      var mapping := tables[directory][SlotOf(h)];
      LeafMapped(tables, k, h);
      if !mapping.present {
        mapped := 1;
      }
      if !(mapping.writeThrough && mapping.cacheDisable) {
        SetEntry(directory, SlotOf(h), Leaf(h, true));
      } else {
        assert tables[directory] == tables[directory][SlotOf(h) := Leaf(h, true)];
        assert tables == tables[directory := tables[directory][SlotOf(h) := Leaf(h, true)]];
      }
    }

    /** Maps the 2 MiB page `h` to itself, uncached, making the tables it lacks. */
    method MapPage(ghost k: Kernel, root: nat, h: nat) returns (ok: bool, made: nat, mapped: nat, ghost k': Kernel)
      requires frames.Valid() && Maps(k) && root == k.root && GibOf(GibOf(h)) < ENTRY_COUNT
      modifies this, frames, frames.regions
      ensures frames.Valid()
      ensures ok ==>
        && Maps(k') && OneMore(k, k', h)
        && |k'.roles| == |k.roles| + made && |k'.leaves| == |k.leaves| + mapped
        && Took(old(frames.Live()), frames.Live(), k, k')
      ensures ok <==> old(frames.Left()) >= PdptNeeded(k, GibOf(GibOf(h))) + DirectoryNeeded(k, GibOf(h))
      ensures ok ==> made == PdptNeeded(k, GibOf(GibOf(h))) + DirectoryNeeded(k, GibOf(h))
      ensures ok ==> frames.Left() == old(frames.Left()) - made
    {
      hide Kernel.Shape, FrameAllocator.Valid, FrameAllocator.Live, FrameAllocator.Left, GibOf, SlotOf;
      made, mapped, k' := 0, 0, k;
      var pdpt, more1, k2 := PdptFor(k, root, GibOf(GibOf(h)));
      if pdpt.None? {
        return false, made, mapped, k';
      }
      ghost var live := frames.Live();
      var directory, more2, k3 := DirectoryFor(k2, pdpt.value, GibOf(h));
      if directory.None? {
        return false, made, mapped, k';
      }
      ok, made := true, more1 + more2;
      mapped, k' := MapHuge(k3, directory.value, h);
      TookBoth(old(frames.Live()), live, frames.Live(), k, k2, k');
    }

    /**
     * Maps every 2 MiB page touching the range to itself, uncached. Fails, stopping the kernel, on an
     * address outside the lower half or when frames run out.
     */
    method MapMmioRange(ghost k: Kernel, root: nat, base: nat, size: nat)
      returns (ok: bool, made: nat, mapped: nat, ghost k': Kernel)
      requires frames.Valid() && Maps(k) && root == k.root && base <= U64_MAX
      modifies this, frames, frames.regions
      ensures frames.Valid()
      ensures ok ==>
        && Maps(k') && k'.root == k.root && Grown(k, k', FirstHuge(base), LastHuge(base, size))
        && |k'.roles| == |k.roles| + made && |k'.leaves| == |k.leaves| + mapped
        && Took(old(frames.Live()), frames.Live(), k, k')
      ensures ok <==>
        && (FirstHuge(base) < LastHuge(base, size) ==> EndsLow(LastHuge(base, size)))
        && old(frames.Left()) >= Missing(k, FirstHuge(base), LastHuge(base, size))
      ensures ok ==>
        && made == Missing(k, FirstHuge(base), LastHuge(base, size)) && frames.Left() == old(frames.Left()) - made
    {
      hide Kernel.Shape, FrameAllocator.Valid, FrameAllocator.Live, FrameAllocator.Left, Grown, GibOf, SlotOf, Took, LastHuge, FirstHuge, StartsLow,
           EndsLow, OneMore, Missing, PdptNeeded, DirectoryNeeded;
      TookNothing(frames.Live(), k);
      hide Memory.Maps;
      RangeOrder(base, size);
      var start := FirstHuge(base);
      var end := LastHuge(base, size);
      k', made, mapped := k, 0, 0;
      GrownNothing(k, start);
      MissingNothing(k, start);
      var h := start;
      while h < end
        invariant start <= h <= end
        invariant start < h ==> EndsLow(h)
        invariant frames.Valid() && Maps(k') && Grown(k, k', start, h) && k'.root == root
        invariant |k'.roles| == |k.roles| + made && |k'.leaves| == |k.leaves| + mapped
        invariant Took(old(frames.Live()), frames.Live(), k, k')
        invariant made == Missing(k, start, h) && frames.Left() == old(frames.Left()) - made
      {
        LowUpTo(h, end);
        if !StartsLow(h) {
          return false, made, mapped, k';
        }
        var next := h + 1;
        LowerHalfIndex(h);
        ghost var k1, live := k', frames.Live();
        MissingStep(k, k1, start, h);
        MissingMore(k, start, next, end);
        var done, more, one, grown := MapPage(k1, root, h);
        if !done {
          return false, made, mapped, k';
        }
        assert Grown(k, grown, start, next) && grown.root == root by {
          GrownStep(k, k1, grown, start, h);
        }
        assert Took(old(frames.Live()), frames.Live(), k, grown) by {
          TookBoth(old(frames.Live()), live, frames.Live(), k, k1, grown);
        }
        h, k', made, mapped := next, grown, made + more, mapped + one;
      }
      return true, made, mapped, k';
    }
  }

  /** Whether a table for a 512 GiB range, or for a GiB, is still to be made. */
  function PdptNeeded(k: Kernel, i: nat): nat {
    if i in k.pdpts then 0 else 1
  }

  function DirectoryNeeded(k: Kernel, g: nat): nat {
    if g in k.directories then 0 else 1
  }

  /** The tables still to be made before the pages of a range can be mapped. */
  function Missing(k: Kernel, first: nat, last: nat): nat {
    |Ranges(first, last) - k.pdpts.Keys| + |Gibs(first, last) - k.directories.Keys|
  }

  lemma MissingNothing(k: Kernel, at: nat)
    ensures Missing(k, at, at) == 0
  {
    assert Pages(at, at) == {};
    assert Ranges(at, at) - k.pdpts.Keys == {} && Gibs(at, at) - k.directories.Keys == {};
  }

  lemma OneMissing(all: set<nat>, have: set<nat>, x: nat)
    ensures |(all + {x}) - have| == |all - have| + (if x in have + all then 0 else 1)
  {
    if x in have + all {
      assert (all + {x}) - have == all - have;
    } else {
      assert (all + {x}) - have == (all - have) + {x};
    }
  }

  lemma MissingStep(k: Kernel, k1: Kernel, first: nat, h: nat)
    requires Grown(k, k1, first, h) && first <= h
    ensures Missing(k, first, h + 1) ==
      Missing(k, first, h) + PdptNeeded(k1, GibOf(GibOf(h))) + DirectoryNeeded(k1, GibOf(h))
  {
    hide GibOf, Pages, Gibs, Ranges;
    PagesSnoc(first, h);
    OneMissing(Ranges(first, h), k.pdpts.Keys, GibOf(GibOf(h)));
    OneMissing(Gibs(first, h), k.directories.Keys, GibOf(h));
    assert GibOf(GibOf(h)) in k1.pdpts <==> GibOf(GibOf(h)) in k1.pdpts.Keys;
    assert GibOf(h) in k1.directories <==> GibOf(h) in k1.directories.Keys;
  }

  lemma {:induction false} MissingMore(k: Kernel, first: nat, h: nat, last: nat)
    requires first <= h <= last
    ensures Missing(k, first, h) <= Missing(k, first, last)
    decreases last - h
  {
    hide GibOf, Pages, Gibs, Ranges;
    if h < last {
      PagesSnoc(first, h);
      OneMissing(Ranges(first, h), k.pdpts.Keys, GibOf(GibOf(h)));
      OneMissing(Gibs(first, h), k.directories.Keys, GibOf(h));
      MissingMore(k, first, h + 1, last);
    }
  }

  /** Every page before the end of a range in the lower half starts there, and the last one decides. */
  lemma LowUpTo(h: nat, end: nat)
    requires h < end
    ensures EndsLow(end) ==> StartsLow(h)
  {
  }

  /** Between the two sets of live frames, exactly the frames the mapping grew by were taken. */
  ghost predicate Took(live: iset<nat>, live': iset<nat>, k: Kernel, k': Kernel) {
    && k.roles.Keys <= k'.roles.Keys
    && (forall f | f in k'.roles :: f in k.roles || f !in live)
    && forall f :: f in live' <==> f in live || f in k'.roles
  }

  lemma TookNothing(live: iset<nat>, k: Kernel)
    requires forall f | f in k.roles :: f in live
    ensures Took(live, live, k, k)
  {
  }

  lemma TookBoth(a: iset<nat>, b: iset<nat>, c: iset<nat>, k: Kernel, k1: Kernel, k2: Kernel)
    requires Took(a, b, k, k1) && Took(b, c, k1, k2)
    ensures Took(a, c, k, k2)
  {
  }

  /** The 2 MiB pages a range of addresses touches. */
  function FirstHuge(base: nat): nat { base / HUGE_PAGE }

  function LastHuge(base: nat, size: nat): nat {
    var end := if base + size > U64_MAX then U64_MAX else base + size;
    (end + HUGE_PAGE - 1) / HUGE_PAGE
  }

  lemma RangeOrder(base: nat, size: nat)
    requires base <= U64_MAX
    ensures FirstHuge(base) <= LastHuge(base, size)
  {
  }

  lemma LowerHalfIndex(h: nat)
    requires StartsLow(h)
    ensures GibOf(GibOf(h)) < ENTRY_COUNT && EndsLow(h + 1)
  {
  }

  predicate StartsLow(h: nat) { h * HUGE_PAGE < LOWER_HALF }

  predicate EndsLow(h: nat) { h * HUGE_PAGE <= LOWER_HALF }

  predicate Within(h: nat, first: nat, last: nat) { first <= h < last }

  function Pages(first: nat, last: nat): set<nat> {
    set h: nat | h < last && Within(h, first, last)
  }

  /** The GiBs, and the 512 GiB ranges, these pages lie in. */
  function Gibs(first: nat, last: nat): set<nat> {
    set h | h in Pages(first, last) :: GibOf(h)
  }

  function Ranges(first: nat, last: nat): set<nat> {
    set h | h in Pages(first, last) :: GibOf(GibOf(h))
  }

  lemma PagesSnoc(first: nat, h: nat)
    requires first <= h
    ensures Pages(first, h + 1) == Pages(first, h) + {h}
    ensures Gibs(first, h + 1) == Gibs(first, h) + {GibOf(h)}
    ensures Ranges(first, h + 1) == Ranges(first, h) + {GibOf(GibOf(h))}
  {
    hide GibOf;
    var next := h + 1;
    assert Pages(first, next) == Pages(first, h) + {h};
    hide Pages;
    assert h in Pages(first, next);
  }

  /** The mapping with these pages added uncached, and just the tables they need. */
  ghost predicate Grown(k: Kernel, k': Kernel, first: nat, last: nat) {
    && k'.root == k.root
    && k'.leaves.Keys == k.leaves.Keys + Pages(first, last)
    && (forall h | h in k'.leaves :: k'.leaves[h] == (Within(h, first, last) || (h in k.leaves && k.leaves[h])))
    && k'.directories.Keys == k.directories.Keys + Gibs(first, last)
    && k'.pdpts.Keys == k.pdpts.Keys + Ranges(first, last)
    && k.roles.Keys <= k'.roles.Keys
  }

  /** The mapping with one page added uncached, and just the tables it needs. */
  ghost predicate OneMore(k: Kernel, k': Kernel, h: nat) {
    && k'.root == k.root && k'.leaves == k.leaves[h := true]
    && k'.directories.Keys == k.directories.Keys + {GibOf(h)}
    && k'.pdpts.Keys == k.pdpts.Keys + {GibOf(GibOf(h))}
    && k.roles.Keys <= k'.roles.Keys
  }

  lemma GrownNothing(k: Kernel, at: nat)
    ensures Grown(k, k, at, at)
  {
  }

  lemma GrownStep(k: Kernel, k1: Kernel, k2: Kernel, first: nat, h: nat)
    requires Grown(k, k1, first, h) && first <= h
    requires OneMore(k1, k2, h)
    ensures Grown(k, k2, first, h + 1) && k2.root == k1.root
  {
    hide GibOf, Pages, Gibs, Ranges;
    PagesSnoc(first, h);
  }
}

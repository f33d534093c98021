/** The physical frame allocator: bump allocation from the memory map's regions, and a stack of returned frames. */
module Frames {
  import opened Sizes
  import opened Wrappers

  const MAX_REGIONS: nat := 128
  const RECYCLED_CAPACITY: nat := 256
  const CONVENTIONAL_MEMORY: nat := 7
  const LOW_LIMIT: nat := 0x10_0000

  /** Pages from `start` up to `next` have been handed out; those up to `end` are still to come. */
  datatype Region = Region(start: nat, next: nat, end: nat) {
    predicate Valid() {
      LOW_LIMIT <= start <= next <= end <= U64_MAX && start % PAGE == 0 && next % PAGE == 0
    }

    /** Whether this many bytes are still to come. */
    predicate Fits(bytes: nat) {
      next + bytes <= end
    }

    /** Whole pages still to come. */
    function PagesLeft(): nat {
      if next <= end then (end - next) / PAGE else 0
    }

    predicate HandedOut(a: nat) {
      start <= a < next && a % PAGE == 0
    }
  }

  ghost predicate AnyHandedOut(rs: seq<Region>, a: nat) {
    exists i | 0 <= i < |rs| :: rs[i].HandedOut(a)
  }

  predicate Apart(r: Region, s: Region) {
    r.end <= s.start || s.end <= r.start
  }

  ghost predicate Disjoint(rs: seq<Region>) {
    && (forall i | 0 <= i < |rs| :: rs[i].Valid())
    && forall i, j | 0 <= i < j < |rs| :: Apart(rs[i], rs[j])
  }

  ghost predicate Distinct(s: seq<nat>) {
    forall i, j | 0 <= i < j < |s| :: s[i] != s[j]
  }

  /** Whole pages still to come in the regions from one on. */
  function PagesLeft(rs: seq<Region>, from: nat): nat
    decreases |rs| - from
  {
    if from >= |rs| then 0 else rs[from].PagesLeft() + PagesLeft(rs, from + 1)
  }

  lemma {:induction false} NoPagesLeft(rs: seq<Region>, from: nat, to: nat)
    requires from <= to <= |rs| && Disjoint(rs)
    requires forall i | from <= i < to :: !rs[i].Fits(PAGE)
    ensures PagesLeft(rs, from) == PagesLeft(rs, to)
    decreases |rs| - from
  {
    if from < to {
      NoPagesLeft(rs, from + 1, to);
    }
  }

  lemma {:induction false} PagesLeftAfter(rs: seq<Region>, i: nat, r: Region, from: nat)
    requires i < |rs| && i < from
    ensures PagesLeft(rs[i := r], from) == PagesLeft(rs, from)
    decreases |rs| - from
  {
    if from < |rs| {
      PagesLeftAfter(rs, i, r, from + 1);
    }
  }

  /** Taking a page from a region leaves one less to come. */
  lemma PageTaken(rs: seq<Region>, i: nat)
    requires i < |rs| && rs[i].Fits(PAGE)
    ensures PagesLeft(rs[i := rs[i].(next := rs[i].next + PAGE)], i) == PagesLeft(rs, i) - 1
  {
    PagesLeftAfter(rs, i, rs[i].(next := rs[i].next + PAGE), i + 1);
  }

  /** The stack of returned frames after `n` frames were taken: they come from its end while there are any. */
  function Drained(waiting: seq<nat>, n: nat): seq<nat> {
    if |waiting| <= n then [] else waiting[..|waiting| - n]
  }

  lemma DrainedTwice(waiting: seq<nat>, m: nat, n: nat)
    ensures Drained(Drained(waiting, m), n) == Drained(waiting, m + n)
  {
  }

  /** The frames in use: handed out and not returned. */
  ghost function LiveFrames(rs: seq<Region>, recycled: seq<nat>): iset<nat> {
    iset a: nat | AnyHandedOut(rs, a) && a !in recycled
  }

  ghost function PagesFrom(start: nat, bytes: nat): iset<nat> {
    iset a: nat | start <= a < start + bytes && a % PAGE == 0
  }

  /** One address is handed out after a bump if it was before or lies in between, and not both. */
  lemma BumpAt(rs: seq<Region>, i: nat, bytes: nat, a: nat)
    requires Disjoint(rs) && i < |rs| && bytes % PAGE == 0 && rs[i].next + bytes <= rs[i].end
    ensures var rs' := rs[i := rs[i].(next := rs[i].next + bytes)];
      && (AnyHandedOut(rs', a) <==> AnyHandedOut(rs, a) || a in PagesFrom(rs[i].next, bytes))
      && !(AnyHandedOut(rs, a) && a in PagesFrom(rs[i].next, bytes))
  {
    var rs' := rs[i := rs[i].(next := rs[i].next + bytes)];
    if AnyHandedOut(rs, a) {
      var k :| 0 <= k < |rs| && rs[k].HandedOut(a);
      assert rs'[k].HandedOut(a);
      assert k < i ==> Apart(rs[k], rs[i]);
      assert i < k ==> Apart(rs[i], rs[k]);
    }
    if a in PagesFrom(rs[i].next, bytes) {
      assert rs'[i].HandedOut(a);
    }
    if AnyHandedOut(rs', a) {
      var k :| 0 <= k < |rs'| && rs'[k].HandedOut(a);
      assert rs[k].HandedOut(a) || k == i;
    }
  }

  lemma BumpDisjoint(rs: seq<Region>, i: nat, bytes: nat)
    requires Disjoint(rs) && i < |rs| && bytes % PAGE == 0 && rs[i].next + bytes <= rs[i].end
    ensures Disjoint(rs[i := rs[i].(next := rs[i].next + bytes)])
  {
    var r := rs[i].(next := rs[i].next + bytes);
    BumpValid(rs[i], bytes);
    hide Region.Valid;
    var rs' := rs[i := r];
    assert forall j | 0 <= j < |rs| :: rs'[j] == (if j == i then r else rs[j]);
    assert forall j, k | 0 <= j < k < |rs| :: Apart(rs[j], rs[k]) ==> Apart(rs'[j], rs'[k]);
  }

  lemma BumpValid(r: Region, bytes: nat)
    requires r.Valid() && bytes % PAGE == 0 && r.next + bytes <= r.end
    ensures r.(next := r.next + bytes).Valid()
  {
  }

  /** Bumping one region hands out exactly the pages in between, none of which was out before. */
  lemma BumpEffect(rs: seq<Region>, recycled: seq<nat>, i: nat, bytes: nat)
    requires Disjoint(rs) && i < |rs| && bytes % PAGE == 0 && rs[i].next + bytes <= rs[i].end
    requires forall k | 0 <= k < |recycled| :: AnyHandedOut(rs, recycled[k])
    ensures var rs' := rs[i := rs[i].(next := rs[i].next + bytes)];
      && Disjoint(rs')
      && (forall a | AnyHandedOut(rs, a) :: AnyHandedOut(rs', a))
      && (forall a | a in PagesFrom(rs[i].next, bytes) :: !AnyHandedOut(rs, a))
      && LiveFrames(rs', recycled) == LiveFrames(rs, recycled) + PagesFrom(rs[i].next, bytes)
  {
    hide AnyHandedOut, PagesFrom;
    var rs' := rs[i := rs[i].(next := rs[i].next + bytes)];
    BumpDisjoint(rs, i, bytes);
    forall a: nat
      ensures AnyHandedOut(rs', a) <==> AnyHandedOut(rs, a) || a in PagesFrom(rs[i].next, bytes)
      ensures !(AnyHandedOut(rs, a) && a in PagesFrom(rs[i].next, bytes))
    {
      BumpAt(rs, i, bytes, a);
    }
  }

  class FrameAllocator {
    const regions: array<Region>
    const recycled: array<nat>
    var count: nat
    var current: nat
    var recycledCount: nat

    ghost predicate Valid()
      reads this, regions, recycled
    {
      && regions.Length == MAX_REGIONS && recycled.Length == RECYCLED_CAPACITY
      && current <= count <= MAX_REGIONS && recycledCount <= RECYCLED_CAPACITY
      && Disjoint(regions[..count])
      && Distinct(recycled[..recycledCount])
      && forall k | 0 <= k < recycledCount :: AnyHandedOut(regions[..count], recycled[k])
    }

    /** The frames in use. */
    ghost function Live(): iset<nat>
      requires Valid()
      reads this, regions, recycled
    {
      LiveFrames(regions[..count], recycled[..recycledCount])
    }

    /** The frames ever handed out. */
    ghost function Issued(): iset<nat>
      requires Valid()
      reads this, regions, recycled
    {
      iset a: nat | AnyHandedOut(regions[..count], a)
    }

    /** The frames returned and waiting, most recent last. */
    ghost function Waiting(): seq<nat>
      requires Valid()
      reads this, regions, recycled
    {
      recycled[..recycledCount]
    }

    /** How many frames can still be given. */
    ghost function Left(): nat
      requires Valid()
      reads this, regions, recycled
    {
      |Waiting()| + PagesLeft(regions[..count], current)
    }

    /** Frames in use and frames waiting are apart, and together are the frames handed out. */
    lemma Partition()
      requires Valid()
      ensures forall a :: a in Issued() <==> a in Live() || a in Waiting()
      ensures forall a | a in Waiting() :: a !in Live()
      ensures Distinct(Waiting()) && |Waiting()| <= RECYCLED_CAPACITY
    {
      forall a | a in Waiting() ensures a in Issued() {
        var k :| 0 <= k < recycledCount && recycled[k] == a;
        assert AnyHandedOut(regions[..count], recycled[k]);
      }
    }

    method AllocateFrame() returns (frame: Option<nat>)
      requires Valid()
      modifies this, regions
      ensures Valid()
      ensures frame.Some? ==> frame.value % PAGE == 0 && LOW_LIMIT <= frame.value <= U64_MAX - PAGE
      ensures frame.Some? ==> frame.value !in old(Live()) && Live() == old(Live()) + iset{frame.value}
      ensures frame.None? ==> Live() == old(Live()) && old(Waiting()) == []
      ensures old(Waiting()) != [] ==>
        frame == Some(old(Waiting())[|old(Waiting())| - 1]) && Waiting() == old(Waiting())[..|old(Waiting())| - 1]
      ensures Waiting() == Drained(old(Waiting()), 1)
      // A frame is given as long as one is left; a new one comes from the first region that has a page.
      ensures frame.None? <==> old(Left()) == 0
      ensures Left() == if frame.Some? then old(Left()) - 1 else 0
      ensures old(Waiting()) == [] ==>
        && (frame.Some? <==> exists i | old(current) <= i < count :: old(regions[..])[i].Fits(PAGE))
        && (frame.Some? ==>
              && old(current) <= current < count && old(regions[..])[current].Fits(PAGE)
              && frame.value == old(regions[..])[current].next
              && forall i | old(current) <= i < current :: !old(regions[..])[i].Fits(PAGE))
    {
      if recycledCount != 0 {
        assert AnyHandedOut(regions[..count], recycled[recycledCount - 1]);
        recycledCount := recycledCount - 1;
        return Some(recycled[recycledCount]);
      }
      hide Valid, Live, PagesLeft, LiveFrames;
      frame := AllocateNew();
    }

    /** A frame that was never given before, from the first region that has a page. */
    method AllocateNew() returns (frame: Option<nat>)
      requires Valid() && Waiting() == []
      modifies this`current, regions
      ensures Valid() && Waiting() == []
      ensures frame.Some? ==> frame.value % PAGE == 0 && LOW_LIMIT <= frame.value <= U64_MAX - PAGE
      ensures frame.Some? ==> frame.value !in old(Live()) && Live() == old(Live()) + iset{frame.value}
      ensures frame.None? ==> Live() == old(Live())
      ensures frame.None? <==> old(Left()) == 0
      ensures Left() == if frame.Some? then old(Left()) - 1 else 0
      ensures frame.Some? <==> exists i | old(current) <= i < count :: old(regions[..])[i].Fits(PAGE)
      ensures frame.Some? ==>
        && old(current) <= current < count && old(regions[..])[current].Fits(PAGE)
        && frame.value == old(regions[..])[current].next
        && forall i | old(current) <= i < current :: !old(regions[..])[i].Fits(PAGE)
    {
      hide Live, LiveFrames;
      ghost var before := regions[..count];
      frame := AllocateContiguous(1);
      if frame.Some? {
        OnePage(frame.value);
        NoPagesLeft(before, old(current), current);
        PageTaken(before, current);
        assert regions[..count] == before[current := before[current].(next := before[current].next + PAGE)];
      } else {
        NoPagesLeft(before, old(current), count);
      }
    }

    method AllocateContiguous(pages: nat) returns (start: Option<nat>)
      requires Valid()
      modifies this`current, regions
      ensures Valid() && Waiting() == old(Waiting())
      ensures start.Some? ==>
        && start.value % PAGE == 0 && LOW_LIMIT <= start.value && start.value + pages * PAGE <= U64_MAX
        && PagesFrom(start.value, pages * PAGE) !! old(Live())
        && Live() == old(Live()) + PagesFrom(start.value, pages * PAGE)
      ensures start.Some? ==>
        && old(current) <= current < count
        && old(regions[..])[current].Fits(pages * PAGE) && start.value == old(regions[..])[current].next
        && (forall i | old(current) <= i < current :: !old(regions[..])[i].Fits(pages * PAGE))
        && regions[..] == old(regions[..])[current :=
             old(regions[..])[current].(next := old(regions[..])[current].next + pages * PAGE)]
      // A request no remaining region fits gives those regions up, unless its size overflows.
      ensures start.None? ==>
        && Live() == old(Live()) && regions[..] == old(regions[..])
        && current == (if pages * PAGE > U64_MAX then old(current) else count)
        && (pages * PAGE <= U64_MAX ==> forall i | old(current) <= i < count :: !old(regions[..])[i].Fits(pages * PAGE))
    {
      var bytes := pages * PAGE;
      if bytes > U64_MAX {
        return None;
      }
      while current < count
        invariant Valid() && regions[..] == old(regions[..]) && Waiting() == old(Waiting()) && Live() == old(Live())
        invariant old(current) <= current <= count
        invariant forall i | old(current) <= i < current :: !old(regions[..])[i].Fits(bytes)
        decreases count - current
      {
        var region := regions[current];
        if region.Fits(bytes) {
          assert regions[..count][current].Valid();
          BumpEffect(regions[..count], recycled[..recycledCount], current, bytes);
          ghost var before := regions[..count];
          regions[current] := region.(next := region.next + bytes);
          assert regions[..count] == before[current := region.(next := region.next + bytes)];
          return Some(region.next);
        }
        current := current + 1;
      }
      return None;
    }

    /** Takes a frame back; it is refused unless it is in use and the stack of returned frames has room. */
    method DeallocateFrame(frame: nat) returns (ok: bool)
      requires Valid()
      modifies this`recycledCount, recycled
      ensures Valid()
      ensures ok <==> frame in old(Live()) && |old(Waiting())| < RECYCLED_CAPACITY
      ensures ok ==> Live() == old(Live()) - iset{frame} && Waiting() == old(Waiting()) + [frame]
      ensures Left() == if ok then old(Left()) + 1 else old(Left())
      ensures !ok ==> Live() == old(Live()) && Waiting() == old(Waiting())
    {
      var issued := WasHandedOut(frame);
      if frame % PAGE != 0 || !issued || frame in recycled[..recycledCount] || recycledCount == RECYCLED_CAPACITY {
        return false;
      }
      ghost var before := recycled[..recycledCount];
      recycled[recycledCount] := frame;
      recycledCount := recycledCount + 1;
      assert recycled[..recycledCount] == before + [frame];
      return true;
    }

    method WasHandedOut(frame: nat) returns (issued: bool)
      requires Valid()
      ensures frame % PAGE == 0 ==> issued == AnyHandedOut(regions[..count], frame)
      ensures frame % PAGE != 0 ==> !AnyHandedOut(regions[..count], frame)
    {
      for i := 0 to count
        invariant forall k | 0 <= k < i :: !regions[..count][k].HandedOut(frame)
      {
        if regions[i].start <= frame < regions[i].next {
          assert frame % PAGE == 0 ==> regions[..count][i].HandedOut(frame);
          return true;
        }
      }
      return false;
    }

    constructor ()
      ensures Valid() && Live() == iset{} && Waiting() == [] && fresh(regions) && fresh(recycled)
    {
      regions := new Region[MAX_REGIONS](_ => Region(0, 0, 0));
      recycled := new nat[RECYCLED_CAPACITY](_ => 0);
      count, current, recycledCount := 0, 0, 0;
    }

    /** Takes over the usable parts of the firmware's memory map; nothing is in use afterwards. */
    method Initialize(descriptors: seq<Descriptor>) returns (freeFrames: nat)
      requires regions.Length == MAX_REGIONS && recycled.Length == RECYCLED_CAPACITY
      requires forall i, j | 0 <= i < j < |descriptors| && descriptors[i].Usable() && descriptors[j].Usable() ::
        descriptors[i].Apart(descriptors[j])
      requires forall i | 0 <= i < |descriptors| :: descriptors[i].start <= U64_MAX
      modifies this, regions
      ensures Valid() && Live() == iset{} && Waiting() == [] && freeFrames == Left()
      ensures regions[..count] == RegionsOf(descriptors) && freeFrames == FrameCount(RegionsOf(descriptors))
    {
      hide RoundUp, RegionsOf, FrameCount, Descriptor.End, PagesLeft;
      count, current, recycledCount, freeFrames := 0, 0, 0, 0;
      NoRegions();
      for i := 0 to |descriptors|
        invariant count <= MAX_REGIONS && current == recycledCount == 0
        invariant regions[..count] == RegionsOf(descriptors[..i]) && freeFrames == FrameCount(regions[..count])
      {
        RegionsNext(descriptors, i);
        if count == MAX_REGIONS {
          RegionsFull(descriptors, i);
          break;
        }
        if !descriptors[i].Usable() {
          continue;
        }
        var start := RoundUp(if descriptors[i].start < LOW_LIMIT then LOW_LIMIT else descriptors[i].start);
        var end := descriptors[i].End();
        if start >= end {
          continue;
        }
        ghost var before := regions[..count];
        regions[count] := Region(start, start, end);
        count := count + 1;
        assert regions[..count] == before + [Region(start, start, end)];
        CountNext(before, Region(start, start, end));
        freeFrames := freeFrames + (end - start) / PAGE;
      }
      assert descriptors[..|descriptors|] == descriptors;
      RegionsDisjoint(descriptors);
      Untouched(regions[..count]);
    }
  }

  /** Of regions none of which was bumped nothing is out. */
  lemma Untouched(rs: seq<Region>)
    requires Disjoint(rs) && forall k | 0 <= k < |rs| :: rs[k].next == rs[k].start
    ensures LiveFrames(rs, []) == iset{} && FrameCount(rs) == PagesLeft(rs, 0)
  {
    assert forall a :: !AnyHandedOut(rs, a);
    CountIsLeft(rs, 0);
  }

  lemma OnePage(start: nat)
    requires start % PAGE == 0
    ensures PagesFrom(start, PAGE) == iset{start}
  {
  }

  function RoundUp(a: nat): (r: nat)
    ensures r % PAGE == 0 && a <= r < a + PAGE
  {
    (a + PAGE - 1) / PAGE * PAGE
  }

  /** An entry of the firmware's memory map. */
  datatype Descriptor = Descriptor(kind: nat, start: nat, pages: nat) {
    predicate Usable() { kind == CONVENTIONAL_MEMORY }

    /** The end of the described memory, saturating at the largest address. */
    function End(): nat {
      if start + pages * PAGE > U64_MAX then U64_MAX else start + pages * PAGE
    }

    predicate Apart(other: Descriptor) {
      End() <= other.start || other.End() <= start
    }

    predicate Outside(r: Region) {
      End() <= r.start || r.end <= start
    }
  }

  /** The part of a descriptor's memory that is handed out: usable, above the low limit, from a page boundary on. */
  function RegionOf(d: Descriptor): Option<Region> {
    var start := RoundUp(if d.start < LOW_LIMIT then LOW_LIMIT else d.start);
    if d.Usable() && start < d.End() then Some(Region(start, start, d.End())) else None
  }

  /** The regions of a memory map, as many as there is room for. */
  function RegionsOf(ds: seq<Descriptor>): seq<Region> {
    if ds == [] then []
    else
      var earlier, last := RegionsOf(ds[..|ds| - 1]), RegionOf(ds[|ds| - 1]);
      if last.Some? && |earlier| < MAX_REGIONS then earlier + [last.value] else earlier
  }

  function FrameCount(rs: seq<Region>): int {
    if rs == [] then 0 else FrameCount(rs[..|rs| - 1]) + (rs[|rs| - 1].end - rs[|rs| - 1].start) / PAGE
  }

  lemma NoRegions()
    ensures RegionsOf([]) == [] && FrameCount([]) == 0
  {
  }

  lemma RegionsNext(ds: seq<Descriptor>, i: nat)
    requires i < |ds|
    ensures var earlier, last := RegionsOf(ds[..i]), RegionOf(ds[i]);
      RegionsOf(ds[..i + 1]) == if last.Some? && |earlier| < MAX_REGIONS then earlier + [last.value] else earlier
  {
    assert ds[..i + 1][..i] == ds[..i];
  }

  lemma CountNext(rs: seq<Region>, r: Region)
    ensures FrameCount(rs + [r]) == FrameCount(rs) + (r.end - r.start) / PAGE
  {
    assert (rs + [r])[..|rs|] == rs;
  }

  /** With nothing handed out yet the pages still to come are all the pages. */
  lemma {:induction false} CountIsLeft(rs: seq<Region>, from: nat)
    requires from <= |rs| && forall k | 0 <= k < |rs| :: rs[k].next == rs[k].start <= rs[k].end
    ensures FrameCount(rs) == FrameCount(rs[..from]) + PagesLeft(rs, from)
    decreases |rs| - from
  {
    if from == |rs| {
      assert rs[..from] == rs;
    } else {
      CountIsLeft(rs, from + 1);
      assert rs[..from + 1][..from] == rs[..from];
    }
  }

  /** Regions of memory that does not overlap do not overlap, and nothing of them is out yet. */
  lemma {:induction false} RegionsDisjoint(ds: seq<Descriptor>)
    requires forall i, j | 0 <= i < j < |ds| && ds[i].Usable() && ds[j].Usable() :: ds[i].Apart(ds[j])
    ensures Disjoint(RegionsOf(ds)) && forall k | 0 <= k < |RegionsOf(ds)| :: RegionsOf(ds)[k].next == RegionsOf(ds)[k].start
    ensures forall d: Descriptor | d.Usable() && (forall i | 0 <= i < |ds| && ds[i].Usable() :: ds[i].Apart(d)) ::
      forall k | 0 <= k < |RegionsOf(ds)| :: d.Outside(RegionsOf(ds)[k])
  {
    if ds != [] {
      var last := ds[|ds| - 1];
      RegionsDisjoint(ds[..|ds| - 1]);
      if RegionOf(last).Some? {
        RegionValid(last);
        var earlier := RegionsOf(ds[..|ds| - 1]);
        assert forall k | 0 <= k < |earlier| :: last.Outside(earlier[k]);
      }
    }
  }

  lemma RegionValid(d: Descriptor)
    requires RegionOf(d).Some?
    ensures var r := RegionOf(d).value; r.Valid() && r.next == r.start && d.start <= r.start && r.end == d.End()
  {
  }

  lemma {:induction false} RegionsFull(ds: seq<Descriptor>, i: nat)
    requires i <= |ds| && |RegionsOf(ds[..i])| == MAX_REGIONS
    ensures RegionsOf(ds) == RegionsOf(ds[..i])
    decreases |ds|
  {
    if i == |ds| {
      assert ds[..i] == ds;
    } else {
      assert ds[..|ds| - 1][..i] == ds[..i];
      RegionsFull(ds[..|ds| - 1], i);
    }
  }

  /** A whole page belongs to the region exactly when it is usable memory above the low limit. */
  lemma RegionCovers(d: Descriptor, a: nat)
    requires a % PAGE == 0
    ensures RegionOf(d).Some? && RegionOf(d).value.start <= a && a + PAGE <= RegionOf(d).value.end
      <==> d.Usable() && LOW_LIMIT <= a && d.start <= a && a + PAGE <= d.End()
  {
  }

  predicate Holds(r: Region, a: nat) {
    r.start <= a && a + PAGE <= r.end
  }

  /** A whole page of usable memory above the low limit. */
  predicate Describes(d: Descriptor, a: nat) {
    d.Usable() && LOW_LIMIT <= a && d.start <= a && a + PAGE <= d.End()
  }

  /**
   * The regions of a memory map hold nothing but pages it describes as usable, above the low limit, and all of them
   * unless there are as many regions as there is room for.
   */
  lemma {:induction false} RegionsCover(ds: seq<Descriptor>, a: nat)
    requires a % PAGE == 0
    ensures (exists k | 0 <= k < |RegionsOf(ds)| :: Holds(RegionsOf(ds)[k], a)) ==>
      exists i | 0 <= i < |ds| :: Describes(ds[i], a)
    ensures |RegionsOf(ds)| < MAX_REGIONS && (exists i | 0 <= i < |ds| :: Describes(ds[i], a)) ==>
      exists k | 0 <= k < |RegionsOf(ds)| :: Holds(RegionsOf(ds)[k], a)
  {
    if ds != [] {
      var n := |ds| - 1;
      var earlier, all, last := RegionsOf(ds[..n]), RegionsOf(ds), RegionOf(ds[n]);
      RegionsCover(ds[..n], a);
      RegionCovers(ds[n], a);
      hide RegionOf;
      if k :| 0 <= k < |all| && Holds(all[k], a) {
        if k < |earlier| {
          assert Holds(earlier[k], a);
          var i :| 0 <= i < n && Describes(ds[..n][i], a);
          assert Describes(ds[i], a);
        } else {
          assert Describes(ds[n], a);
        }
      }
      if i :| 0 <= i < |ds| && Describes(ds[i], a) {
        if |all| < MAX_REGIONS {
          if i < n {
            assert Describes(ds[..n][i], a);
            var k :| 0 <= k < |earlier| && Holds(earlier[k], a);
            assert Holds(all[k], a);
          } else {
            assert Holds(all[|earlier|], a);
          }
        }
      }
    }
  }
}

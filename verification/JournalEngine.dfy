/**
 The commit and recovery code itself: loops that read, write and flush blocks of
 the device and invalidate the cache. Each is proved to issue exactly the
 requests that module Journal describes, so that the crash theorems apply to it.
 A failed check halts the kernel, which the methods report as `None` or `false`.
 */
module JournalEngine {
  import opened Blocks
  import opened Storage
  import opened Caching
  import opened Wrappers
  import opened Journal
  import opened JournalCrash

  type Device = BlockDevice<Block>
  type Cache = BlockCache<Block>

  /** The blocks that the cache may hold stale: block 0 and the journal. */
  ghost function Uncached(geo: Geometry): iset<nat> {
    iset a: nat | a == 0 || geo.InJournal(a)
  }

  // ---------------------------------------------------------------- checks

  method TargetsAreSafe(geo: Geometry, targets: seq<nat>) returns (ok: bool)
    requires geo.Valid()
    ensures ok == geo.Safe(targets)
  {
    for i := 0 to |targets|
      invariant forall j | 0 <= j < i ::
        targets[j] < geo.count && !geo.InJournal(targets[j]) && targets[j] !in targets[..j]
    {
      if targets[i] >= geo.count || geo.InJournal(targets[i]) || targets[i] in targets[..i] {
        return false;
      }
    }
    return true;
  }

  method RecordsAreBlank(device: Device, at: nat, n: nat) returns (ok: bool)
    requires device.Valid() && at + n <= |device.media|
    ensures ok == forall a | at <= a < at + n :: device.View()[a] == ZERO
  {
    for k := 0 to n
      invariant forall a | at <= a < at + k :: device.View()[a] == ZERO
    {
      var block := device.Read(at + k);
      if block != ZERO {
        return false;
      }
    }
    return true;
  }

  // ---------------------------------------------------------------- batches

  /** One write and the flush that makes it durable. */
  method Persist(device: Device, at: nat, block: Block)
    requires device.Valid() && at < |device.media|
    modifies device
    ensures device.Valid() && device.log == old(device.log) + [Write(at, block), Flush]
    ensures device.View() == old(device.View())[at := block]
  {
    device.Write(at, block);
    device.Flush();
  }

  method WriteHomes(device: Device, targets: seq<nat>, homes: seq<Block>)
    requires device.Valid() && |targets| == |homes|
    requires forall i | 0 <= i < |targets| :: targets[i] < |device.media|
    modifies device
    ensures device.Valid()
    ensures device.log == old(device.log) + HomeWrites(targets, homes)
    ensures device.View() == Run(old(device.View()), HomeWrites(targets, homes))
  {
    hide Run;
    ghost var w := HomeWrites(targets, homes);
    for i := 0 to |targets|
      invariant device.Valid() && device.log == old(device.log) + w[..i]
    {
      device.Write(targets[i], homes[i]);
    }
    assert w[..|targets|] == w;
    RunConcat(device.base, old(device.log), w);
  }

  method WriteData(device: Device, at: nat, homes: seq<Block>)
    requires device.Valid() && at + |homes| <= |device.media|
    modifies device
    ensures device.Valid()
    ensures device.log == old(device.log) + DataWrites(at, homes)
    ensures device.View() == Run(old(device.View()), DataWrites(at, homes))
  {
    hide Run;
    ghost var w := DataWrites(at, homes);
    for i := 0 to |homes|
      invariant device.Valid() && device.log == old(device.log) + w[..i]
    {
      device.Write(at + i, Encode(homes[i]));
    }
    assert w[..|homes|] == w;
    RunConcat(device.base, old(device.log), w);
  }

  method ClearRecords(device: Device, at: nat, n: nat)
    requires device.Valid() && at + n <= |device.media|
    modifies device
    ensures device.Valid()
    ensures device.log == old(device.log) + ClearWrites(at, n)
    ensures device.View() == Run(old(device.View()), ClearWrites(at, n))
  {
    hide Run;
    ghost var w := ClearWrites(at, n);
    for i := 0 to n
      invariant device.Valid() && device.log == old(device.log) + w[..i]
    {
      device.Write(at + i, ZERO);
    }
    assert w[..n] == w;
    RunConcat(device.base, old(device.log), w);
  }

  // ---------------------------------------------------------------- checkpoint

  /** What is cached afterwards was cached before, and is none of the targets. */
  ghost predicate Dropped(before: seq<Entry<Block>>, after: seq<Entry<Block>>, targets: seq<nat>) {
    forall c: nat :: Lookup(after, c).Some? ==> Lookup(after, c) == Lookup(before, c) && c !in targets
  }

  /** Dropping the targets keeps the cache coherent when only targets and exempt blocks changed on the disk. */
  lemma DroppedCoherent(before: seq<Entry<Block>>, after: seq<Entry<Block>>, targets: seq<nat>, d: Disk, e: Disk,
                        exempt: iset<nat>)
    requires Dropped(before, after, targets) && Coherent(before, d, exempt) && |d| == |e|
    requires forall a: nat | a < |d| && a !in exempt && a !in targets :: e[a] == d[a]
    ensures Coherent(after, e, exempt)
  {
    hide Lookup;
  }

  /** Reads every home back and drops its cached copy. */
  method InvalidateHomes(device: Device, cache: Cache, targets: seq<nat>, homes: seq<Block>)
    requires device.Valid() && cache.Valid() && |targets| == |homes|
    requires forall i | 0 <= i < |targets| :: targets[i] < |device.View()| && device.View()[targets[i]] == homes[i]
    modifies cache.entries
    ensures cache.Valid() && Dropped(old(cache.entries[..]), cache.entries[..], targets)
  {
    hide Lookup, Run, Unique;
    for i := 0 to |targets|
      invariant cache.Valid() && device.Valid() && device.View() == old(device.View())
      invariant Dropped(old(cache.entries[..]), cache.entries[..], targets[..i])
    {
      var home := device.Read(targets[i]);
      assert home == homes[i];
      var _ := cache.Invalidate(targets[i]);
    }
    assert targets[..|targets|] == targets;
  }

  /**
   The common end of a commit and of a recovery: write the homes, verify and
   uncache them, clear the records, retire the journal and clear the recovery flag.
   */
  method Checkpoint(device: Device, cache: Cache, geo: Geometry, at: nat, sequence: Sequence,
                    fs: Block, targets: seq<nat>, homes: seq<Block>) returns (next: Option<Sequence>)
    requires device.Valid() && geo.Fits(device.View()) && cache.Valid()
    requires |targets| == |homes| && geo.Safe(targets) && fs.body.FsSuper?
    requires forall i | 0 <= i < |targets| && targets[i] == 0 :: homes[i].body.FsSuper?
    requires geo.journal < at && at + |targets| + 2 <= geo.journal + geo.length
    modifies device, cache.entries
    ensures device.Valid() && cache.Valid()
    ensures device.log == old(device.log) + CheckpointOps(geo, at, sequence, fs, targets, homes)
    ensures next == if sequence == MAX_SEQUENCE then None else Some(sequence + 1)
    ensures Dropped(old(cache.entries[..]), cache.entries[..], targets)
  {
    hide Run, HomeWrites, ClearWrites, Lookup, FinalFs, Unique, BlockDevice.Valid;
    ghost var before := device.View();
    WriteHomes(device, targets, homes);
    device.Flush();
    AllHomesLand(geo, before, targets, homes);
    InvalidateHomes(device, cache, targets, homes);
    if sequence == MAX_SEQUENCE {
      return None;
    }
    RetireJournal(device, cache, geo, at, sequence, FinalFs(fs, targets, homes), |targets|);
    next := Some(sequence + 1);
  }

  method RetireJournal(device: Device, cache: Cache, geo: Geometry, at: nat, sequence: Sequence, finalFs: Block, n: nat)
    requires device.Valid() && geo.Fits(device.View()) && cache.Valid() && sequence < MAX_SEQUENCE
    requires geo.journal < at && at + n + 2 <= geo.journal + geo.length
    modifies device, cache.entries
    ensures device.Valid() && cache.Valid()
    ensures device.log == old(device.log)
      + (ClearWrites(at, n + 2) + [Write(geo.journal, JournalSb(sequence + 1, 0)), Flush, Write(0, finalFs), Flush])
    ensures Dropped(old(cache.entries[..]), cache.entries[..], [])
  {
    hide Run, ClearWrites, Lookup, Unique, BlockDevice.Valid;
    ClearRecords(device, at, n + 2);
    ghost var cleared := device.log;
    Persist(device, geo.journal, JournalSb(sequence + 1, 0));
    var _ := cache.Invalidate(geo.journal);
    Persist(device, 0, finalFs);
    assert device.log == cleared + [Write(geo.journal, JournalSb(sequence + 1, 0)), Flush, Write(0, finalFs), Flush];
    var sb := device.Read(geo.journal);
    assert sb == JournalSb(sequence + 1, 0);
    var superblock := device.Read(0);
    assert superblock == finalFs;
  }

  // ---------------------------------------------------------------- recovery

  /**
   Mounting: replays the journal when the recovery flag is set. `mounted` is false
   when the code would halt the kernel.
   */
  method Mount(device: Device, cache: Cache, geo: Geometry) returns (mounted: bool)
    requires device.Valid() && geo.Fits(device.View()) && cache.Valid()
    modifies device, cache.entries
    ensures device.Valid() && cache.Valid()
    ensures device.log == old(device.log) + Recovery(geo, old(device.View())).ops
    ensures mounted == Recovery(geo, old(device.View())).Mounted?
    ensures Coherent(old(cache.entries[..]), old(device.View()), Uncached(geo)) ==>
      Coherent(cache.entries[..], device.View(), Uncached(geo))
  {
    hide Run, Coherent, Lookup, CheckpointOps, TransactionAt, Unique;
    ghost var d := device.View();
    var fs := device.Read(0);
    var sb := device.Read(geo.journal);
    if Clean(fs) {
      return true;
    }
    if !Dirty(fs) || !JournalSbOk(geo, sb) {
      return false;
    }
    if sb.body.start == 0 {
      device.Write(0, WithRecover(fs, false));
      device.Flush();
      var clean := device.Read(0);
      assert clean == WithRecover(fs, false);
      assert device.log == old(device.log) + [Write(0, WithRecover(fs, false)), Flush];
      DroppedNothing(cache.entries[..]);
      FrameCoherent(cache.entries[..], geo, d, device.View());
      return true;
    }
    mounted := Replay(device, cache, geo, fs, sb);
  }

  lemma DroppedNothing(s: seq<Entry<Block>>)
    ensures Dropped(s, s, [])
  {
    hide Lookup;
  }

  lemma FrameCoherent(s: seq<Entry<Block>>, geo: Geometry, d: Disk, e: Disk)
    requires |d| == |e| && forall a: nat | a < |d| && a != 0 && !geo.InJournal(a) :: e[a] == d[a]
    ensures Coherent(s, d, Uncached(geo)) ==> Coherent(s, e, Uncached(geo))
  {
    hide Lookup;
  }

  method Replay(device: Device, cache: Cache, geo: Geometry, fs: Block, sb: Block) returns (mounted: bool)
    requires device.Valid() && geo.Fits(device.View()) && cache.Valid()
    requires fs == device.View()[0] && Dirty(fs)
    requires sb == device.View()[geo.journal] && JournalSbOk(geo, sb) && sb.body.start != 0
    modifies device, cache.entries
    ensures device.Valid() && cache.Valid()
    ensures device.log == old(device.log) + Recovery(geo, old(device.View())).ops
    ensures mounted == Recovery(geo, old(device.View())).Mounted?
    ensures Coherent(old(cache.entries[..]), old(device.View()), Uncached(geo)) ==>
      Coherent(cache.entries[..], device.View(), Uncached(geo))
  {
    hide Run, Coherent, Lookup, CheckpointOps, Unique, BlockDevice.Valid;
    ghost var d := device.View();
    var at := geo.journal + sb.body.start;
    var sequence := sb.body.sequence;
    var descriptor := device.Read(at);
    if !(descriptor.magic && descriptor.body.Descriptor? && descriptor.body.descriptorSequence == sequence) {
      return false;
    }
    var tags := descriptor.body.tags;
    if |tags| == 0 || |tags| > MAX_TAGS || at + 1 + |tags| >= geo.journal + geo.length {
      return false;
    }
    var homes := ReadHomes(device, at, tags);
    var commit := device.Read(at + 1 + |tags|);
    if commit != Block(true, Commit(sequence)) {
      return false;
    }
    var targets := TagTargets(tags);
    var safe := TargetsAreSafe(geo, targets);
    if !safe {
      return false;
    }
    if exists i | 0 <= i < |tags| :: targets[i] == 0 && !Dirty(homes[i]) {
      assert exists i | 0 <= i < |tags| :: tags[i].target == 0 && !Dirty(DecodedHomes(d, at, tags)[i]);
      return false;
    }
    assert Replayable(geo, d);
    var next := Checkpoint(device, cache, geo, at, sequence, fs, targets, homes);
    CheckpointFrame(geo, at, sequence, fs, targets, homes, device.base, old(device.log), old(cache.entries[..]),
                    cache.entries[..]);
    mounted := next.Some?;
  }

  method ReadHomes(device: Device, at: nat, tags: seq<Tag>) returns (homes: seq<Block>)
    requires device.Valid() && at + |tags| < |device.View()|
    ensures homes == DecodedHomes(device.View(), at, tags)
  {
    hide Run;
    homes := [];
    for i := 0 to |tags|
      invariant |homes| == i && forall j | 0 <= j < i :: homes[j] == DecodedHomes(device.View(), at, tags)[j]
    {
      var block := device.Read(at + 1 + i);
      homes := homes + [Decode(block, tags[i].escaped)];
    }
  }

  /** A checkpoint changes only the homes, the journal and block 0. */
  lemma CheckpointFrame(geo: Geometry, at: nat, sequence: Sequence, fs: Block, targets: seq<nat>, homes: seq<Block>,
                        base: Disk, log: seq<Op>, before: seq<Entry<Block>>, after: seq<Entry<Block>>)
    requires geo.Fits(base) && |targets| == |homes| && fs.body.FsSuper?
    requires forall i | 0 <= i < |targets| && targets[i] == 0 :: homes[i].body.FsSuper?
    requires geo.journal < at && at + |targets| + 2 <= geo.journal + geo.length
    requires Dropped(before, after, targets)
    ensures var ops := CheckpointOps(geo, at, sequence, fs, targets, homes);
      Coherent(before, Run(base, log), Uncached(geo)) ==> Coherent(after, Run(base, log + ops), Uncached(geo))
  {
    hide Run, Lookup, FinalFs, Coherent;
    var ops := CheckpointOps(geo, at, sequence, fs, targets, homes);
    var d := Run(base, log);
    RunConcat(base, log, ops);
    forall a: nat | a < |d| && a !in Uncached(geo) && a !in targets ensures Run(d, ops)[a] == d[a] {
      assert !Touches(HomeWrites(targets, homes) + [Flush], a);
      assert !Touches(CleanupOps(geo, at, sequence, fs, targets, homes), a);
      RunUntouched(d, ops, a);
    }
    if Coherent(before, d, Uncached(geo)) {
      DroppedCoherent(before, after, targets, d, Run(d, ops), Uncached(geo));
    }
  }

  // ---------------------------------------------------------------- commit

  /** The multi-block commit: on success the next sequence number, `None` when the code would halt the kernel. */
  method CommitMulti(device: Device, cache: Cache, geo: Geometry, sequence: Sequence,
                     targets: seq<nat>, homes: seq<Block>) returns (next: Option<Sequence>)
    requires device.Valid() && geo.Fits(device.View()) && cache.Valid() && |homes| == |targets|
    modifies device, cache.entries
    ensures device.Valid() && cache.Valid()
    ensures !CommitAccepts(geo, old(device.View()), sequence, targets, homes) ==>
      device.log == old(device.log) && next.None?
    ensures CommitAccepts(geo, old(device.View()), sequence, targets, homes) ==>
      && device.log == old(device.log) + CommitOps(geo, old(device.View()), sequence, targets, homes)
      && next == if sequence == MAX_SEQUENCE then None else Some(sequence + 1)
    ensures Coherent(old(cache.entries[..]), old(device.View()), Uncached(geo)) ==>
      Coherent(cache.entries[..], device.View(), Uncached(geo))
  {
    hide Run, Coherent, Lookup, CheckpointOps, PrepareOps, Unique, Desired, BlockDevice.Valid;
    ghost var d := device.View();
    var at, n := geo.journal + geo.first, |targets|;
    if n == 0 || n > MAX_TAGS || geo.first + n + 1 >= geo.length {
      return None;
    }
    var safe := TargetsAreSafe(geo, targets);
    if !safe {
      return None;
    }
    var fs := device.Read(0);
    var sb := device.Read(geo.journal);
    if !Clean(fs) || sb != JournalSb(sequence, 0) || sequence == 0 {
      return None;
    }
    var blank := RecordsAreBlank(device, at, n + 2);
    if !blank {
      return None;
    }
    assert device.View() == d;
    assert Idle(geo, d, sequence, n);
    if exists i | 0 <= i < n :: targets[i] == 0 && !homes[i].body.FsSuper? {
      return None;
    }
    assert forall i | 0 <= i < n && targets[i] == 0 :: homes[i].body.FsSuper?;
    assert CommitAccepts(geo, d, sequence, targets, homes);
    var desired := Desired(targets, homes);
    Prepare(device, geo, fs, sequence, targets, desired);
    ghost var prepared := device.log;
    var ok := CheckRecords(device, geo, fs, sequence, targets, desired, d);
    assert ok;
    next := Checkpoint(device, cache, geo, at, sequence, WithRecover(fs, true), targets, desired);
    CheckpointFrame(geo, at, sequence, WithRecover(fs, true), targets, desired,
                    device.base, prepared, old(cache.entries[..]), cache.entries[..]);
    PreparedFrame(geo, sequence, fs, targets, desired, d);
    RunConcat(device.base, old(device.log), PrepareOps(geo, fs, sequence, targets, desired));
    FrameCoherent(old(cache.entries[..]), geo, d, Run(device.base, prepared));
  }

  /** Preparing a transaction writes only block 0 and the journal. */
  lemma PreparedFrame(geo: Geometry, sequence: Sequence, fs: Block, targets: seq<nat>, homes: seq<Block>, d: Disk)
    requires geo.Fits(d) && |targets| == |homes| && fs.body.FsSuper? && geo.first + |targets| + 1 < geo.length
    ensures forall a: nat | a < |d| && a != 0 && !geo.InJournal(a) ::
      Run(d, PrepareOps(geo, fs, sequence, targets, homes))[a] == d[a]
  {
    hide Run, WithRecover, Encode;
    forall a: nat | a < |d| && a != 0 && !geo.InJournal(a)
      ensures Run(d, PrepareOps(geo, fs, sequence, targets, homes))[a] == d[a]
    {
      RunUntouched(d, PrepareOps(geo, fs, sequence, targets, homes), a);
    }
  }

  /** Sets the flag, activates the journal and writes the records, with a flush after each step. */
  method Prepare(device: Device, geo: Geometry, fs: Block, sequence: Sequence, targets: seq<nat>, homes: seq<Block>)
    requires device.Valid() && geo.Fits(device.View()) && |targets| == |homes| && fs.body.FsSuper?
    requires geo.first + |targets| + 1 < geo.length
    modifies device
    ensures device.Valid()
    ensures device.log == old(device.log) + PrepareOps(geo, fs, sequence, targets, homes)
    ensures device.View() == Run(old(device.View()), PrepareOps(geo, fs, sequence, targets, homes))
  {
    hide Run, DataWrites, BlockDevice.Valid;
    var at := geo.journal + geo.first;
    var descriptor := Block(true, Descriptor(sequence, TagsFor(targets, homes)));
    Persist(device, 0, WithRecover(fs, true));
    Persist(device, geo.journal, JournalSb(sequence, geo.first));
    assert device.log == old(device.log)
      + [Write(0, WithRecover(fs, true)), Flush, Write(geo.journal, JournalSb(sequence, geo.first)), Flush];
    device.Write(at, descriptor);
    ghost var head := [Write(0, WithRecover(fs, true)), Flush, Write(geo.journal, JournalSb(sequence, geo.first)), Flush,
                       Write(at, descriptor)];
    assert device.log == old(device.log) + head;
    WriteData(device, at + 1, homes);
    assert device.log == old(device.log) + (head + DataWrites(at + 1, homes));
    device.Flush();
    Persist(device, at + 1 + |targets|, Block(true, Commit(sequence)));
    ghost var ops := PrepareOps(geo, fs, sequence, targets, homes);
    assert ops == head + DataWrites(at + 1, homes) + [Flush, Write(at + 1 + |targets|, Block(true, Commit(sequence))), Flush];
    assert device.log == old(device.log) + ops;
    RunConcat(device.base, old(device.log), ops);
  }

  /** What preparing a transaction leaves in block 0 and in the journal, whatever the targets. */
  lemma Prepared(geo: Geometry, d: Disk, fs: Block, sequence: Sequence, targets: seq<nat>, homes: seq<Block>)
    requires geo.Fits(d) && |targets| == |homes| && fs.body.FsSuper? && geo.first + |targets| + 1 < geo.length
    ensures
      var e := Run(d, PrepareOps(geo, fs, sequence, targets, homes));
      var at := geo.journal + geo.first;
      && e[0] == WithRecover(fs, true) && e[geo.journal] == JournalSb(sequence, geo.first)
      && forall offset | 0 <= offset < |targets| + 2 :: e[at + offset] == RecordAt(sequence, targets, homes, offset)
  {
    hide Run, WithRecover, Encode;
    var ops := PrepareOps(geo, fs, sequence, targets, homes);
    var at, n := geo.journal + geo.first, |targets|;
    PreparedSteps(geo, fs, sequence, targets, homes);
    hide PrepareOps, RecordAt;
    Last(d, ops, 0);
    Last(d, ops, 2);
    forall offset | 0 <= offset < n + 2 ensures Run(d, ops)[at + offset] == RecordAt(sequence, targets, homes, offset) {
      Last(d, ops, if offset == n + 1 then n + 6 else 4 + offset);
    }
  }

  /** The record blocks of a transaction: descriptor, data and commit record. */
  function RecordAt(sequence: Sequence, targets: seq<nat>, homes: seq<Block>, offset: nat): Block
    requires |targets| == |homes| && offset < |targets| + 2
  {
    if offset == 0 then Block(true, Descriptor(sequence, TagsFor(targets, homes)))
    else if offset == |targets| + 1 then Block(true, Commit(sequence))
    else Encode(homes[offset - 1])
  }

  lemma PreparedSteps(geo: Geometry, fs: Block, sequence: Sequence, targets: seq<nat>, homes: seq<Block>)
    requires |targets| == |homes| && fs.body.FsSuper?
    ensures
      var ops := PrepareOps(geo, fs, sequence, targets, homes);
      var at, n := geo.journal + geo.first, |targets|;
      && |ops| == n + 8
      && ops[0] == Write(0, WithRecover(fs, true)) && ops[2] == Write(geo.journal, JournalSb(sequence, geo.first))
      && (forall x | 4 <= x < n + 5 :: ops[x] == Write(at + x - 4, RecordAt(sequence, targets, homes, x - 4)))
      && ops[n + 6] == Write(at + n + 1, RecordAt(sequence, targets, homes, n + 1))
      && ops[1].Flush? && ops[3].Flush? && ops[n + 5].Flush? && ops[n + 7].Flush?
  {
    hide WithRecover, Encode;
  }

  /** The read-back of the active state and of every record, block by block: none of the comparisons can fail. */
  method CheckRecords(device: Device, geo: Geometry, fs: Block, sequence: Sequence, targets: seq<nat>, homes: seq<Block>,
                      ghost d: Disk) returns (ok: bool)
    requires device.Valid() && geo.Fits(d) && |targets| == |homes| && fs.body.FsSuper?
    requires geo.first + |targets| + 1 < geo.length
    requires device.View() == Run(d, PrepareOps(geo, fs, sequence, targets, homes))
    ensures ok
  {
    hide Run, PrepareOps, RecordAt;
    var at, n := geo.journal + geo.first, |targets|;
    Prepared(geo, d, fs, sequence, targets, homes);
    var active := device.Read(0);
    var sb := device.Read(geo.journal);
    ok := active == WithRecover(fs, true) && Dirty(active) && sb == JournalSb(sequence, geo.first);
    for offset := 0 to n + 2
      invariant device.Valid() && device.View() == old(device.View()) && ok
    {
      var block := device.Read(at + offset);
      ok := ok && block == RecordAt(sequence, targets, homes, offset);
    }
  }

  /** The single-block commit. */
  method CommitSingle(device: Device, cache: Cache, geo: Geometry, sequence: Sequence,
                      target: nat, home: Block) returns (next: Option<Sequence>)
    requires device.Valid() && geo.Fits(device.View()) && cache.Valid()
    modifies device, cache.entries
    ensures device.Valid() && cache.Valid()
    ensures !SingleAccepts(geo, old(device.View()), sequence, target) ==> device.log == old(device.log) && next.None?
    ensures SingleAccepts(geo, old(device.View()), sequence, target) ==>
      && device.log == old(device.log) + SingleOps(geo, old(device.View()), sequence, target, home)
      && next == if sequence == MAX_SEQUENCE then None else Some(sequence + 1)
    ensures Coherent(old(cache.entries[..]), old(device.View()), Uncached(geo)) ==>
      Coherent(cache.entries[..], device.View(), Uncached(geo))
  {
    hide Run, Coherent, Lookup, PrepareOps, Unique, SingleOps, BlockDevice.Valid;
    ghost var d := device.View();
    var at := geo.journal + geo.first;
    if geo.first + 2 >= geo.length || target >= geo.count {
      return None;
    }
    var fs := device.Read(0);
    var sb := device.Read(geo.journal);
    var blank := RecordsAreBlank(device, at, 3);
    if !Clean(fs) || sb != JournalSb(sequence, 0) || sequence == 0 || !blank {
      return None;
    }
    next := StoreSingle(device, cache, geo, fs, sequence, target, home);
    RunConcat(device.base, old(device.log), SingleOps(geo, d, sequence, target, home));
    SingleFrame(geo, d, sequence, target, home);
    if Coherent(old(cache.entries[..]), d, Uncached(geo)) {
      DroppedCoherent(old(cache.entries[..]), cache.entries[..], [target], d, device.View(), Uncached(geo));
    }
  }

  lemma SingleFrame(geo: Geometry, d: Disk, sequence: Sequence, target: nat, home: Block)
    requires geo.Fits(d) && SingleAccepts(geo, d, sequence, target)
    ensures forall a: nat | a < |d| && a !in Uncached(geo) && a !in [target] ::
      Run(d, SingleOps(geo, d, sequence, target, home))[a] == d[a]
  {
    hide Run, WithRecover, Encode;
    var ops := SingleOps(geo, d, sequence, target, home);
    var prepare := PrepareOps(geo, d[0], sequence, [target], [home]);
    forall a: nat | a < |d| && a !in Uncached(geo) && a !in [target] ensures Run(d, ops)[a] == d[a] {
      assert !Touches(prepare, a);
      forall x | 0 <= x < |ops| ensures !(ops[x].Write? && ops[x].at == a) {
        if x < 9 { assert ops[x] == prepare[x]; }
      }
      RunUntouched(d, ops, a);
    }
  }

  lemma KeptBelow(d: Disk, at: nat, n: nat)
    requires at + n <= |d|
    ensures forall a | 0 <= a < at :: Run(d, ClearWrites(at, n))[a] == d[a]
  {
    hide Run;
    forall a | 0 <= a < at ensures Run(d, ClearWrites(at, n))[a] == d[a] {
      Missed(d, ClearWrites(at, n), a);
    }
  }

  method StoreSingle(device: Device, cache: Cache, geo: Geometry, fs: Block, sequence: Sequence,
                     target: nat, home: Block) returns (next: Option<Sequence>)
    requires device.Valid() && geo.Fits(device.View()) && cache.Valid()
    requires fs == device.View()[0] && SingleAccepts(geo, device.View(), sequence, target)
    modifies device, cache.entries
    ensures device.Valid() && cache.Valid()
    ensures device.log == old(device.log) + SingleOps(geo, old(device.View()), sequence, target, home)
    ensures next == if sequence == MAX_SEQUENCE then None else Some(sequence + 1)
    ensures Dropped(old(cache.entries[..]), cache.entries[..], [target])
  {
    hide Run, Lookup, PrepareOps, Unique, ClearWrites, BlockDevice.Valid;
    var at := geo.journal + geo.first;
    ghost var d, prepare := device.View(), PrepareOps(geo, fs, sequence, [target], [home]);
    Prepare(device, geo, fs, sequence, [target], [home]);
    var ok := CheckRecords(device, geo, fs, sequence, [target], [home], d);
    assert ok;
    Persist(device, target, home);
    var stored := device.Read(target);
    assert stored == home;
    var _ := cache.Invalidate(target);
    ghost var homeOps := prepare + [Write(target, home), Flush];
    assert device.log == old(device.log) + homeOps;
    if sequence == MAX_SEQUENCE {
      return None;
    }
    FinishSingle(device, geo, fs, sequence);
    assert device.log == old(device.log) + (homeOps + SingleTailOps(geo, fs, sequence));
    next := Some(sequence + 1);
  }

  /** The requests that follow the home block: retire the journal, clear the flag, and only then blank the records. */
  ghost function SingleTailOps(geo: Geometry, fs: Block, sequence: Sequence): seq<Op>
    requires fs.body.FsSuper? && sequence < MAX_SEQUENCE
  {
    [Write(geo.journal, JournalSb(sequence + 1, 0)), Flush, Write(0, WithRecover(fs, false)), Flush]
    + ClearWrites(geo.journal + geo.first, 3) + [Flush]
  }

  method FinishSingle(device: Device, geo: Geometry, fs: Block, sequence: Sequence)
    requires device.Valid() && geo.Fits(device.View()) && fs.body.FsSuper? && sequence < MAX_SEQUENCE
    requires geo.first + 2 < geo.length
    modifies device
    ensures device.Valid() && device.log == old(device.log) + SingleTailOps(geo, fs, sequence)
  {
    hide Run, ClearWrites, BlockDevice.Valid;
    var at := geo.journal + geo.first;
    Persist(device, geo.journal, JournalSb(sequence + 1, 0));
    Persist(device, 0, WithRecover(fs, false));
    ghost var tail := [Write(geo.journal, JournalSb(sequence + 1, 0)), Flush, Write(0, WithRecover(fs, false)), Flush];
    assert device.log == old(device.log) + tail;
    ghost var retired := device.View();
    ClearRecords(device, at, 3);
    device.Flush();
    KeptBelow(retired, at, 3);
    var finalFs := device.Read(0);
    assert finalFs == WithRecover(fs, false);
    var finalSb := device.Read(geo.journal);
    assert finalSb == JournalSb(sequence + 1, 0);
    assert device.log == old(device.log) + (tail + ClearWrites(at, 3) + [Flush]);
  }
}

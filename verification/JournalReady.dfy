/**
 When the running kernel can commit again: a commit refuses a journal whose record blocks are not blank. Over every
 lifetime, with writes persisting in issue order, the records are left behind by one kind of cut only.
 */
module JournalReady {
  import opened Blocks
  import opened Storage
  import opened Journal
  import opened JournalCrash
  import opened JournalSingle
  import opened JournalHistory

  /** The first record block. */
  function Records(geo: Geometry): nat {
    geo.journal + geo.first
  }

  predicate BlankFrom(geo: Geometry, d: Disk, from: nat)
    requires geo.Fits(d)
  {
    forall a | from <= a < geo.journal + geo.length :: d[a] == ZERO
  }

  /** No transaction is active. */
  predicate Retired(geo: Geometry, d: Disk)
    requires geo.Fits(d)
  {
    && d[0].body.FsSuper?
    && d[geo.journal].magic && d[geo.journal].body.JournalSuper?
    && d[geo.journal].body.sequence != 0 && d[geo.journal].body.start == 0
  }

  /** No transaction is active and no record is left. */
  predicate Ready(geo: Geometry, d: Disk)
    requires geo.Fits(d)
  {
    Retired(geo, d) && BlankFrom(geo, d, Records(geo))
  }

  /** No transaction is active, but the commit record of a single-block one is left. */
  predicate Stained(geo: Geometry, d: Disk)
    requires geo.Fits(d)
  {
    Retired(geo, d) && geo.first + 2 < geo.length && d[Records(geo) + 2] != ZERO
  }

  /** A complete transaction at the first record block, and nothing after it. */
  predicate Logs(geo: Geometry, d: Disk)
    requires geo.Fits(d)
  {
    && Replayable(geo, d) && d[geo.journal].body.start == geo.first
    && BlankFrom(geo, d, Records(geo) + 2 + |d[Records(geo)].body.tags|)
  }

  /** Every disk of a lifetime without a stain is ready, holds a complete transaction, or cannot be mounted. */
  predicate Tidy(geo: Geometry, d: Disk)
    requires geo.Fits(d)
  {
    Ready(geo, d) || Logs(geo, d) || Recovery(geo, d).Halted?
  }

  /** The checks of a commit that do not concern the disk. */
  predicate Admissible(geo: Geometry, targets: seq<nat>, homes: seq<Block>) {
    && |homes| == |targets| && 1 <= |targets| <= MAX_TAGS && geo.first + |targets| + 1 < geo.length
    && geo.Safe(targets) && forall i | 0 <= i < |targets| && targets[i] == 0 :: homes[i].body.FsSuper?
  }

  lemma ReadyAccepts(geo: Geometry, d: Disk, sequence: Sequence, targets: seq<nat>, homes: seq<Block>)
    requires geo.Fits(d) && Clean(d[0]) && Ready(geo, d)
    ensures CommitAccepts(geo, d, sequence, targets, homes) <==>
      Admissible(geo, targets, homes) && sequence == d[geo.journal].body.sequence
  {
    hide Geometry.Safe;
  }

  lemma StainedRefuses(geo: Geometry, d: Disk, event: Event)
    requires geo.Fits(d) && Stained(geo, d) && !event.Mount?
    ensures !Accepts(geo, d, event)
  {
    hide Geometry.Safe;
  }

  // ---------------------------------------------------------------- recovery

  /** Retired disks change in block 0 only when they are mounted. */
  lemma RetiredMount(geo: Geometry, d: Disk, k: nat)
    requires geo.Fits(d) && Retired(geo, d) && k <= |Recovery(geo, d).ops|
    ensures var e := Run(d, Recovery(geo, d).ops[..k]); Retired(geo, e) && forall a | 0 < a < |d| :: e[a] == d[a]
  {
    var w := Recovery(geo, d).ops[..k];
    forall a | 0 < a < |d| ensures Run(d, w)[a] == d[a] {
      RunUntouched(d, w, a);
    }
    if k > 0 {
      RunLanded(d, w, 0);
    } else {
      RunNothing(d);
    }
  }

  /** The writes of a replay: the homes outside the journal, the blanks, the journal superblock and block 0. */
  predicate ReplaySteps(geo: Geometry, ops: seq<Op>, n: nat, sequence: Sequence) {
    && |ops| == 2 * n + 7
    && (forall x | 0 <= x < n :: ops[x].Write? && !geo.InJournal(ops[x].at))
    && ops[n].Flush? && (forall x | n < x < 2 * n + 3 :: ops[x] == Write(Records(geo) + x - n - 1, ZERO))
    && sequence < MAX_SEQUENCE && ops[2 * n + 3] == Write(geo.journal, JournalSb(sequence + 1, 0))
    && ops[2 * n + 4].Flush? && ops[2 * n + 5].Write? && ops[2 * n + 5].at == 0 && ops[2 * n + 6].Flush?
    && KeepsSuper(ops)
  }

  /** Only superblocks are written to block 0. */
  predicate KeepsSuper(ops: seq<Op>) {
    forall x | 0 <= x < |ops| && ops[x].Write? && ops[x].at == 0 :: ops[x].block.body.FsSuper?
  }

  lemma LogsSteps(geo: Geometry, d: Disk)
    requires geo.Fits(d) && Logs(geo, d) && d[geo.journal].body.sequence < MAX_SEQUENCE
    ensures ReplaySteps(geo, Recovery(geo, d).ops, |d[Records(geo)].body.tags|, d[geo.journal].body.sequence)
  {
    var at := Records(geo);
    var tags := d[at].body.tags;
    var n, targets, homes := |tags|, TagTargets(tags), DecodedHomes(d, at, tags);
    var w, rest := HomeWrites(targets, homes), CleanupOps(geo, at, d[geo.journal].body.sequence, d[0], targets, homes);
    var ops := Recovery(geo, d).ops;
    assert ops == w + [Flush] + rest;
    assert forall x | 0 <= x < n :: ops[x] == w[x];
    assert forall x | n < x < 2 * n + 7 :: ops[x] == rest[x - n - 1];
  }

  /** A recovery that retired the journal has blanked the records before. */
  lemma ReplayRetires(geo: Geometry, d: Disk, ops: seq<Op>, n: nat, sequence: Sequence, k: nat)
    requires geo.Fits(d) && d[0].body.FsSuper? && ReplaySteps(geo, ops, n, sequence) && 2 * n + 4 <= k <= |ops|
    requires geo.first + n + 1 < geo.length && BlankFrom(geo, d, Records(geo) + n + 2)
    ensures Ready(geo, Run(d, ops[..k]))
  {
    hide Run, KeepsSuper;
    var at, w := Records(geo), ops[..k];
    Last(d, w, 2 * n + 3);
    forall a | at <= a < geo.journal + geo.length ensures Run(d, w)[a] == ZERO {
      if a < at + n + 2 {
        Last(d, w, n + 1 + a - at);
      } else {
        Missed(d, w, a);
      }
    }
    PrefixKeepsSuper(ops, k);
    FirstBlock(geo, d, w);
  }

  lemma PrefixKeepsSuper(ops: seq<Op>, k: nat)
    requires KeepsSuper(ops) && k <= |ops|
    ensures KeepsSuper(ops[..k])
  {
  }

  /** Block 0 stays a superblock when only superblocks are written to it. */
  lemma {:induction false} FirstBlock(geo: Geometry, d: Disk, w: seq<Op>)
    requires geo.Fits(d) && d[0].body.FsSuper? && KeepsSuper(w)
    ensures Run(d, w)[0].body.FsSuper?
    decreases |w|
  {
    if w != [] {
      assert forall x | 0 <= x < |w[1..]| :: w[1..][x] == w[x + 1];
      FirstBlock(geo, Step(d, w[0]), w[1..]);
    }
  }

  /** Recovery cut anywhere keeps the disk tidy. */
  lemma MountTidy(geo: Geometry, d: Disk, k: nat)
    requires geo.Fits(d) && Tidy(geo, d) && k <= |Recovery(geo, d).ops|
    ensures Tidy(geo, Run(d, Recovery(geo, d).ops[..k]))
  {
    hide Run, Replayable, Recovery;
    MountTransparent(geo, d, k);
    if Ready(geo, d) {
      RetiredMount(geo, d, k);
    } else if Logs(geo, d) && Recovery(geo, Run(d, Recovery(geo, d).ops[..k])).Mounted? {
      LogsMounted(geo, d, k);
    }
  }

  lemma LogsMounted(geo: Geometry, d: Disk, k: nat)
    requires geo.Fits(d) && Logs(geo, d) && k <= |Recovery(geo, d).ops|
    requires Recovery(geo, d).Mounted? && !CutInClear(geo, d, k)
    ensures Tidy(geo, Run(d, Recovery(geo, d).ops[..k]))
  {
    hide Run, FinalFs, DecodedHomes, TagTargets, Geometry.Safe;
    var n := |d[Records(geo)].body.tags|;
    assert d[geo.journal].body.sequence < MAX_SEQUENCE;
    if k <= n + 1 {
      LogsKept(geo, d, k);
    } else {
      LogsSteps(geo, d);
      ReplayRetires(geo, d, Recovery(geo, d).ops, n, d[geo.journal].body.sequence, k);
    }
  }

  lemma LogsKept(geo: Geometry, d: Disk, k: nat)
    requires geo.Fits(d) && Logs(geo, d) && d[geo.journal].body.sequence < MAX_SEQUENCE
    requires k <= |d[Records(geo)].body.tags| + 1 && k <= |Recovery(geo, d).ops|
    ensures Logs(geo, Run(d, Recovery(geo, d).ops[..k]))
  {
    hide Run, FinalFs, Geometry.Safe;
    var at := Records(geo);
    var tags := d[at].body.tags;
    var n := |tags|;
    var w := HomeWrites(TagTargets(tags), DecodedHomes(d, at, tags));
    var j := Min(k, n);
    var e := Run(d, w[..j]);
    assert w[..n] == w;
    HomesWritten(geo, d, j);
    ReplaySame(geo, d, e);
    assert Recovery(geo, d).ops[..k] == if k <= n then w[..k] else w + [Flush];
    RunHomesFlush(d, w);
  }

  // ---------------------------------------------------------------- commits

  lemma CommittedLogs(geo: Geometry, d: Disk, sequence: Sequence, targets: seq<nat>, homes: seq<Block>)
    requires geo.Fits(d) && CommitAccepts(geo, d, sequence, targets, homes) && Ready(geo, d)
    ensures Logs(geo, Committed(geo, d, sequence, targets, homes))
  {
    hide Run, Geometry.Safe, Replayable, Content, Logical, Recovery, Overlay;
    var m := Committed(geo, d, sequence, targets, homes);
    CommittedReplays(geo, d, sequence, targets, homes);
    CommittedRecords(geo, d, sequence, targets, homes);
    var desired := Desired(targets, homes);
    DataLand(d[0 := WithRecover(d[0], true)]
              [geo.journal := JournalSb(sequence, geo.first)]
              [geo.journal + geo.first := Block(true, Descriptor(sequence, TagsFor(targets, desired)))],
             Records(geo) + 1, desired, |desired|);
    hide DataWrites;
    assert DataWrites(Records(geo) + 1, desired)[..|desired|] == DataWrites(geo.journal + geo.first + 1, desired)[..|desired|];
  }

  /** A multi-block commit cut anywhere leaves a tidy disk. */
  lemma CommitTidy(geo: Geometry, d: Disk, sequence: Sequence, targets: seq<nat>, homes: seq<Block>, k: nat)
    requires geo.Fits(d) && CommitAccepts(geo, d, sequence, targets, homes) && Ready(geo, d)
    requires k <= |CommitOps(geo, d, sequence, targets, homes)|
    ensures Tidy(geo, Run(d, CommitOps(geo, d, sequence, targets, homes)[..k]))
  {
    hide Run, Logs, Recovery, Logical, Content, Overlay, Committed, CheckpointOps, Desired;
    var ops := CommitOps(geo, d, sequence, targets, homes);
    var m, c := Committed(geo, d, sequence, targets, homes), CommitPoint(targets);
    CommitAtomic(geo, d, sequence, targets, homes, k);
    PrepareRuns(geo, d, sequence, targets, homes);
    CommittedLogs(geo, d, sequence, targets, homes);
    CommitLength(geo, d, sequence, targets, homes);
    if k <= 2 {
      FlagOnly(geo, d, ops[..k]);
    } else if k == c + 1 {
      assert ops[..k] == PrepareOps(geo, d[0], sequence, targets, Desired(targets, homes))[..k];
    } else if k > c + 1 {
      CommittedReplays(geo, d, sequence, targets, homes);
      CheckpointTransparent(geo, d, sequence, targets, homes, k - c - 2);
      MountTidy(geo, m, k - c - 2);
    }
  }

  /** Setting the recovery flag leaves the journal as it is. */
  lemma FlagOnly(geo: Geometry, d: Disk, w: seq<Op>)
    requires geo.Fits(d) && Ready(geo, d)
    requires forall x | 0 <= x < |w| && w[x].Write? :: w[x].at == 0 && w[x].block.body.FsSuper?
    ensures Ready(geo, Run(d, w))
  {
    hide Run;
    forall a | 0 < a < |d| ensures Run(d, w)[a] == d[a] {
      Missed(d, w, a);
    }
    FirstBlock(geo, d, w);
  }

  /** A single-block commit that retired the journal and was cut before the last record was blanked. */
  predicate CutBeforeBlank(k: nat) {
    12 <= k <= 17
  }

  lemma SingleTidy(geo: Geometry, d: Disk, sequence: Sequence, target: nat, home: Block, k: nat)
    requires geo.Fits(d) && SingleAccepts(geo, d, sequence, target) && target != 0 && !geo.InJournal(target)
    requires Ready(geo, d) && k <= |SingleOps(geo, d, sequence, target, home)|
    ensures var e := Run(d, SingleOps(geo, d, sequence, target, home)[..k]);
      if CutBeforeBlank(k) then Stained(geo, e) else Tidy(geo, e)
  {
    hide Run, Logs, Recovery, CommitAccepts, CommitOps, SingleOps, SingleAccepts;
    SharedPrefix(geo, d, sequence, target, home);
    var s, c := SingleOps(geo, d, sequence, target, home), CommitOps(geo, d, sequence, [target], [home]);
    SingleClean(geo, d, sequence, target);
    if k <= 11 {
      assert s[..k] == s[..11][..k] && c[..k] == c[..11][..k];
      CommitTidy(geo, d, sequence, [target], [home], k);
    } else {
      SingleTail(geo, d, sequence, target, home, k);
    }
  }

  // ---------------------------------------------------------------- lifetimes

  /** The event leaves records behind. */
  predicate Stains(geo: Geometry, m: Machine, event: Event)
    requires geo.Fits(m.disk)
  {
    event.Single? && Begins(geo, m, event) && event.sequence < MAX_SEQUENCE && CutBeforeBlank(event.persisted)
  }

  predicate NeverStains(geo: Geometry, m: Machine, events: seq<Event>)
    requires geo.Fits(m.disk)
    decreases |events|
  {
    events == [] || (!Stains(geo, m, events[0]) && NeverStains(geo, Next(geo, m, events[0]), events[1..]))
  }

  lemma StepTidy(geo: Geometry, m: Machine, event: Event)
    requires geo.Fits(m.disk) && Sound(m) && event.Proper(geo) && Tidy(geo, m.disk)
    ensures if Stains(geo, m, event) then Stained(geo, Next(geo, m, event).disk) else Tidy(geo, Next(geo, m, event).disk)
  {
    hide Run, Recovery, CommitOps, SingleOps, CommitAccepts, SingleAccepts, Logs, Ready, Stained;
    if event.Mount? {
      MountTidy(geo, m.disk, Min(event.persisted, |Recovery(geo, m.disk).ops|));
    } else if Begins(geo, m, event) {
      CleanTidy(geo, m.disk);
      RequestCount(geo, m.disk, event);
      var k := Min(event.persisted, |Requests(geo, m.disk, event)|);
      if event.Transaction? {
        CommitTidy(geo, m.disk, event.sequence, event.targets, event.homes, k);
      } else {
        SingleTidy(geo, m.disk, event.sequence, event.target, event.home, k);
      }
    }
  }

  lemma CleanTidy(geo: Geometry, d: Disk)
    requires geo.Fits(d) && Clean(d[0]) && Tidy(geo, d)
    ensures Ready(geo, d)
  {
  }

  /** A stain is never removed. */
  lemma StepStained(geo: Geometry, m: Machine, event: Event)
    requires geo.Fits(m.disk) && Stained(geo, m.disk)
    ensures Stained(geo, Next(geo, m, event).disk)
  {
    hide Run, Recovery, Accepts, Requests;
    if event.Mount? {
      MountRequests(geo, m.disk, event);
      RetiredMount(geo, m.disk, Min(event.persisted, |Recovery(geo, m.disk).ops|));
    } else {
      StainedRefuses(geo, m.disk, event);
    }
  }

  lemma MountRequests(geo: Geometry, d: Disk, event: Event)
    requires geo.Fits(d) && event.Mount?
    ensures Accepts(geo, d, event) && Requests(geo, d, event) == Recovery(geo, d).ops
  {
  }

  lemma {:induction false} HistoryTidy(geo: Geometry, m: Machine, events: seq<Event>)
    requires geo.Fits(m.disk) && Sound(m) && AllProper(geo, events)
    requires Tidy(geo, m.disk) || Stained(geo, m.disk)
    ensures Sound(Exec(geo, m, events))
    ensures Tidy(geo, m.disk) && NeverStains(geo, m, events) ==> Tidy(geo, Exec(geo, m, events).disk)
    ensures Stained(geo, m.disk) || !NeverStains(geo, m, events) ==> Stained(geo, Exec(geo, m, events).disk)
    decreases |events|
  {
    hide Run, Recovery, Logical, Overlay, Next, Tidy, Stained, Stains, Strands, TakesEffect;
    if events != [] {
      StepAtomic(geo, m, events[0]);
      if Stained(geo, m.disk) {
        StepStained(geo, m, events[0]);
      }
      if Tidy(geo, m.disk) {
        StepTidy(geo, m, events[0]);
      }
      HistoryTidy(geo, Next(geo, m, events[0]), events[1..]);
    }
  }

  /**
   Over every lifetime that starts with blank records: whenever the kernel is running, it accepts every admissible
   commit with the sequence number on the disk, unless some single-block commit was cut after it retired the journal
   and before it blanked its records; from then on it refuses every commit.
   */
  lemma ReadyExactly(geo: Geometry, d: Disk, events: seq<Event>, sequence: Sequence, targets: seq<nat>, homes: seq<Block>)
    requires geo.Fits(d) && Clean(d[0]) && Ready(geo, d) && AllProper(geo, events)
    requires Exec(geo, Up(d), events).Up?
    ensures Retired(geo, Exec(geo, Up(d), events).disk)
    ensures var e := Exec(geo, Up(d), events).disk;
      CommitAccepts(geo, e, sequence, targets, homes) <==>
      NeverStains(geo, Up(d), events) && Admissible(geo, targets, homes) && sequence == e[geo.journal].body.sequence
  {
    hide Run, Recovery, Exec, NeverStains, CommitAccepts, Admissible, BlankFrom, Logs;
    HistoryTidy(geo, Up(d), events);
    var e := Exec(geo, Up(d), events).disk;
    if NeverStains(geo, Up(d), events) {
      CleanTidy(geo, e);
      ReadyAccepts(geo, e, sequence, targets, homes);
    } else {
      StainedRefuses(geo, e, Transaction(sequence, targets, homes, 0));
    }
  }
}

/**
 Crash safety of the journal when writes reach the medium in issue order: a
 crash leaves the disk with some prefix of the requests applied.
 */
module JournalCrash {
  import opened Blocks
  import opened Storage
  import opened Journal

  // ---------------------------------------------------------------- batches

  lemma DistinctTargets(geo: Geometry, targets: seq<nat>, i: nat, j: nat)
    requires geo.Safe(targets) && i < j < |targets|
    ensures targets[i] != targets[j]
  {
    assert targets[..j][i] == targets[i];
  }

  lemma HomesLand(geo: Geometry, d: Disk, targets: seq<nat>, homes: seq<Block>, k: nat)
    requires geo.Fits(d) && geo.Safe(targets) && |homes| == |targets| && k <= |targets|
    ensures forall i | 0 <= i < k :: Run(d, HomeWrites(targets, homes)[..k])[targets[i]] == homes[i]
    ensures forall a | 0 <= a < |d| && a !in targets[..k] :: Run(d, HomeWrites(targets, homes)[..k])[a] == d[a]
  {
    var w := HomeWrites(targets, homes)[..k];
    forall i | 0 <= i < k ensures Run(d, w)[targets[i]] == homes[i] {
      forall j | i < j < k ensures targets[j] != targets[i] {
        DistinctTargets(geo, targets, i, j);
      }
      assert !Touches(w[i + 1..], w[i].at);
      RunLanded(d, w, i);
    }
    forall a | 0 <= a < |d| && a !in targets[..k] ensures Run(d, w)[a] == d[a] {
      assert forall i | 0 <= i < |w| :: w[i].at == targets[..k][i];
      RunUntouched(d, w, a);
    }
  }

  lemma AllHomesLand(geo: Geometry, d: Disk, targets: seq<nat>, homes: seq<Block>)
    requires geo.Fits(d) && geo.Safe(targets) && |homes| == |targets|
    ensures forall i | 0 <= i < |targets| :: Run(d, HomeWrites(targets, homes))[targets[i]] == homes[i]
    ensures forall a | 0 <= a < |d| && a !in targets :: Run(d, HomeWrites(targets, homes))[a] == d[a]
  {
    hide Run;
    assert targets[..|targets|] == targets;
    assert HomeWrites(targets, homes)[..|targets|] == HomeWrites(targets, homes);
    HomesLand(geo, d, targets, homes, |targets|);
  }

  lemma ClearsLand(d: Disk, at: nat, n: nat, k: nat)
    requires k <= n && at + n <= |d|
    ensures forall a | at <= a < at + k :: Run(d, ClearWrites(at, n)[..k])[a] == ZERO
    ensures forall a | 0 <= a < |d| && !(at <= a < at + k) :: Run(d, ClearWrites(at, n)[..k])[a] == d[a]
  {
    var w := ClearWrites(at, n)[..k];
    forall a | at <= a < at + k ensures Run(d, w)[a] == ZERO {
      assert w[a - at].at == a;
      assert !Touches(w[a - at + 1..], a);
      RunLanded(d, w, a - at);
    }
    forall a | 0 <= a < |d| && !(at <= a < at + k) ensures Run(d, w)[a] == d[a] {
      RunUntouched(d, w, a);
    }
  }

  /** Writing the homes again, whatever the home blocks held, gives the same disk. */
  lemma HomesRedo(geo: Geometry, d: Disk, e: Disk, targets: seq<nat>, homes: seq<Block>)
    requires geo.Fits(d) && geo.Fits(e) && geo.Safe(targets) && |homes| == |targets|
    requires forall a | 0 <= a < |d| && a !in targets :: e[a] == d[a]
    ensures Run(e, HomeWrites(targets, homes)) == Run(d, HomeWrites(targets, homes))
  {
    hide Run, HomeWrites;
    var w, n := HomeWrites(targets, homes), |targets|;
    AllHomesLand(geo, d, targets, homes);
    AllHomesLand(geo, e, targets, homes);
    forall a | 0 <= a < |d| ensures Run(e, w)[a] == Run(d, w)[a] {
      if a in targets {
        var i :| 0 <= i < n && targets[i] == a;
        assert Run(e, w)[targets[i]] == Run(d, w)[targets[i]];
      }
    }
  }

  // ---------------------------------------------------------------- content

  lemma SameContent(geo: Geometry, d: Disk, e: Disk)
    requires geo.Fits(d) && geo.Fits(e)
    requires forall a | 0 < a < |d| && !geo.InJournal(a) :: d[a] == e[a]
    requires d[0].body.FsSuper? && e[0].body.FsSuper? && WithRecover(d[0], false) == WithRecover(e[0], false)
    ensures Content(geo, d) == Content(geo, e)
  {
  }

  /** Recovery of `e` repeats recovery of `d` when the journal is as it was and block 0 is still dirty. */
  lemma SameTransaction(geo: Geometry, d: Disk, e: Disk)
    requires geo.Fits(d) && geo.Fits(e) && Replayable(geo, d)
    requires forall a | geo.journal <= a < geo.journal + geo.length :: e[a] == d[a]
    requires Dirty(e[0])
    requires 0 in TagTargets(d[geo.journal + d[geo.journal].body.start].body.tags) || e[0] == d[0]
    ensures Replayable(geo, e) && Recovery(geo, e) == Recovery(geo, d)
  {
    var sb := d[geo.journal].body;
    var at := geo.journal + sb.start;
    var tags := d[at].body.tags;
    SameRecords(geo, d, e, at, sb.sequence);
    assert e[geo.journal] == d[geo.journal];
    SameFinalFs(d[0], e[0], TagTargets(tags), DecodedHomes(d, at, tags));
  }

  lemma SameRecords(geo: Geometry, d: Disk, e: Disk, at: nat, sequence: Sequence)
    requires geo.Fits(d) && geo.Fits(e) && geo.InJournal(at) && TransactionAt(geo, d, at, sequence)
    requires forall a | geo.journal <= a < geo.journal + geo.length :: e[a] == d[a]
    ensures e[at] == d[at] && TransactionAt(geo, e, at, sequence)
    ensures DecodedHomes(e, at, d[at].body.tags) == DecodedHomes(d, at, d[at].body.tags)
  {
    var tags := d[at].body.tags;
    assert DecodedHomes(e, at, tags) == DecodedHomes(d, at, tags);
    assert e[at + 1 + |tags|] == d[at + 1 + |tags|];
  }

  lemma SameFinalFs(fs: Block, fs': Block, targets: seq<nat>, homes: seq<Block>)
    requires |targets| == |homes| && fs.body.FsSuper? && fs'.body.FsSuper?
    requires forall i | 0 <= i < |targets| && targets[i] == 0 :: homes[i].body.FsSuper?
    requires 0 in targets || fs == fs'
    ensures FinalFs(fs, targets, homes) == FinalFs(fs', targets, homes)
  {
  }

  /** Everything after the home writes leaves the content alone, and so does recovery from any point in it. */
  lemma CleanupKeepsContent(geo: Geometry, e: Disk, at: nat, sequence: Sequence, fs: Block,
                            targets: seq<nat>, homes: seq<Block>, k: nat)
    requires geo.Fits(e) && |targets| == |homes| && fs.body.FsSuper?
    requires forall i | 0 <= i < |targets| && targets[i] == 0 :: homes[i].body.FsSuper?
    requires geo.journal < at && at + |targets| + 2 <= geo.journal + geo.length
    requires Dirty(e[0]) && e[geo.journal] == JournalSb(sequence, at - geo.journal) && JournalSbOk(geo, e[geo.journal])
    requires FinalFs(fs, targets, homes) == WithRecover(e[0], false)
    requires 0 < k <= |CleanupOps(geo, at, sequence, fs, targets, homes)|
    ensures var f := Run(e, CleanupOps(geo, at, sequence, fs, targets, homes)[..k]);
      && Content(geo, f) == Content(geo, e) && Logical(geo, f) == Content(geo, e)
      && (Recovery(geo, f).Mounted? <==> k > |targets| + 2)
  {
    var ops := CleanupOps(geo, at, sequence, fs, targets, homes);
    var n := |targets| + 2;
    var clear := ClearWrites(at, n);
    var m := if k <= n then k else n;
    var e1 := Run(e, clear[..m]);
    ClearsLand(e, at, n, m);
    SameContent(geo, e1, e);
    assert e1[at] == ZERO;
    if k <= n {
      assert ops[..k] == clear[..k];
      assert Recovery(geo, e1) == Halted([]);
    } else {
      var tail := [Write(geo.journal, JournalSb(sequence + 1, 0)), Flush, Write(0, FinalFs(fs, targets, homes)), Flush];
      assert clear[..n] == clear;
      assert ops[..k] == clear + tail[..k - n];
      RunConcat(e, clear, tail[..k - n]);
      TailEffect(geo, e1, tail, k - n, sequence);
    }
  }

  lemma TailEffect(geo: Geometry, e: Disk, tail: seq<Op>, k: nat, sequence: Sequence)
    requires geo.Fits(e) && Dirty(e[0]) && sequence < MAX_SEQUENCE
    requires tail == [Write(geo.journal, JournalSb(sequence + 1, 0)), Flush, Write(0, WithRecover(e[0], false)), Flush]
    requires 0 < k <= 4
    ensures var f := Run(e, tail[..k]);
      && Content(geo, f) == Content(geo, e) && Logical(geo, f) == Content(geo, e) && Recovery(geo, f).Mounted?
  {
    var e1 := e[geo.journal := JournalSb(sequence + 1, 0)];
    var e2 := e1[0 := WithRecover(e[0], false)];
    SameContent(geo, e1, e);
    SameContent(geo, e2, e);
    RunPair(e1, Write(0, WithRecover(e[0], false)), Flush);
    RunPair(e, tail[0], Flush);
    assert k == 1 ==> tail[..k] == [tail[0]];
    assert k == 2 ==> tail[..k] == [tail[0], Flush];
    assert k == 3 ==> tail[..k] == [tail[0], Flush] + [tail[2]];
    assert k == 4 ==> tail[..k] == [tail[0], Flush] + [tail[2], Flush];
    RunConcat(e, [tail[0], Flush], [tail[2]]);
    RunConcat(e, [tail[0], Flush], [tail[2], Flush]);
  }

  // ---------------------------------------------------------------- mount

  /** The disk after the home writes of a recovery, and what the rest of the recovery can rely on. */
  lemma HomesWritten(geo: Geometry, d: Disk, k: nat)
    requires geo.Fits(d) && Replayable(geo, d)
    requires k <= |d[geo.journal + d[geo.journal].body.start].body.tags|
    ensures
      var at := geo.journal + d[geo.journal].body.start;
      var tags := d[at].body.tags;
      var targets, homes := TagTargets(tags), DecodedHomes(d, at, tags);
      var e := Run(d, HomeWrites(targets, homes)[..k]);
      && (forall a | geo.journal <= a < geo.journal + geo.length :: e[a] == d[a])
      && Dirty(e[0]) && (forall a | 0 <= a < |d| && a !in targets :: e[a] == d[a])
      && (k == |tags| ==> FinalFs(d[0], targets, homes) == WithRecover(e[0], false))
  {
    hide Run, HomeWrites;
    var at := geo.journal + d[geo.journal].body.start;
    var tags := d[at].body.tags;
    HomesKeepJournal(geo, d, TagTargets(tags), DecodedHomes(d, at, tags), k);
  }

  lemma HomesKeepJournal(geo: Geometry, d: Disk, targets: seq<nat>, homes: seq<Block>, k: nat)
    requires geo.Fits(d) && geo.Safe(targets) && |homes| == |targets| && k <= |targets|
    requires Dirty(d[0])
    requires forall i | 0 <= i < |targets| && targets[i] == 0 :: homes[i].body.FsSuper? && homes[i].body.recover
    ensures
      var e := Run(d, HomeWrites(targets, homes)[..k]);
      && (forall a | geo.journal <= a < geo.journal + geo.length :: e[a] == d[a])
      && Dirty(e[0]) && (forall a | 0 <= a < |d| && a !in targets :: e[a] == d[a])
      && (k == |targets| ==> FinalFs(d[0], targets, homes) == WithRecover(e[0], false))
  {
    hide Run;
    HomesLand(geo, d, targets, homes, k);
    var e := Run(d, HomeWrites(targets, homes)[..k]);
    assert forall a | a in targets[..k] :: a in targets;
    forall a | geo.journal <= a < geo.journal + geo.length ensures e[a] == d[a] {
      assert a !in targets[..k];
    }
    if 0 in targets[..k] {
      var i :| 0 <= i < k && targets[i] == 0;
      assert e[targets[i]] == homes[i];
    }
    if k == |targets| && 0 in targets {
      var i := IndexOf(targets, 0);
      assert e[targets[i]] == homes[i];
    }
  }

  /** A recovery cut after `k` requests has begun to clear the records and not yet retired the journal. */
  predicate CutInClear(geo: Geometry, d: Disk, k: nat)
    requires geo.Fits(d)
  {
    && Replayable(geo, d)
    && var n := |d[geo.journal + d[geo.journal].body.start].body.tags|; n + 1 < k <= 2 * n + 3
  }

  /**
   Recovery may be cut short anywhere, on any disk whatever: mounting the disk
   that is left behind gives the same file system. That later mount ends unless this
   one could not, or was cut while it cleared the records.
   */
  lemma MountTransparent(geo: Geometry, d: Disk, k: nat)
    requires geo.Fits(d) && k <= |Recovery(geo, d).ops|
    ensures Logical(geo, Run(d, Recovery(geo, d).ops[..k])) == Logical(geo, d)
    ensures Recovery(geo, Run(d, Recovery(geo, d).ops[..k])).Mounted? <==>
      Recovery(geo, d).Mounted? && !CutInClear(geo, d, k)
  {
    var ops := Recovery(geo, d).ops;
    if Replayable(geo, d) {
      ReplayTransparent(geo, d, k);
    } else if k == |ops| {
      assert ops[..k] == ops;
      MountSettles(geo, d);
    } else {
      assert ops[..1] == [ops[0]] && ops[..0] == [];
      RunPair(d, ops[0], ops[1]);
      SameContent(geo, d, d[0 := WithRecover(d[0], false)]);
    }
  }

  lemma ReplayTransparent(geo: Geometry, d: Disk, k: nat)
    requires geo.Fits(d) && Replayable(geo, d) && k <= |Recovery(geo, d).ops|
    ensures Logical(geo, Run(d, Recovery(geo, d).ops[..k])) == Logical(geo, d)
    ensures Recovery(geo, Run(d, Recovery(geo, d).ops[..k])).Mounted? <==>
      d[geo.journal].body.sequence < MAX_SEQUENCE && !CutInClear(geo, d, k)
  {
    hide Run, Content, FinalFs, Geometry.Safe;
    var sb := d[geo.journal].body;
    var at := geo.journal + sb.start;
    var tags := d[at].body.tags;
    var n := |tags|;
    var targets, homes := TagTargets(tags), DecodedHomes(d, at, tags);
    var w, rest := HomeWrites(targets, homes), CleanupOps(geo, at, sb.sequence, d[0], targets, homes);
    var ops := w + [Flush] + rest;
    var e := Run(d, w);
    assert w[..n] == w;
    HomesWritten(geo, d, n);
    RunHomesFlush(d, w);
    assert w + [Flush] + rest == (w + [Flush]) + rest;
    RunConcat(d, w + [Flush], rest);
    ReplayResult(geo, d);
    if k <= n {
      assert ops[..k] == w[..k];
      HomesWritten(geo, d, k);
      ReplaySame(geo, d, Run(d, w[..k]));
    } else {
      assert ops[..k] == (w + [Flush]) + rest[..k - n - 1];
      RunConcat(d, w + [Flush], rest[..k - n - 1]);
      if k == n + 1 {
        assert rest[..0] == [];
        ReplaySame(geo, d, e);
      } else {
        CleanupKeepsContent(geo, e, at, sb.sequence, d[0], targets, homes, k - n - 1);
      }
    }
  }

  /** Recovery overwrites every home, so what the homes hold beforehand does not matter. */
  lemma ReplaySame(geo: Geometry, d: Disk, e: Disk)
    requires geo.Fits(d) && geo.Fits(e) && Replayable(geo, d) && Dirty(e[0])
    requires forall a | 0 <= a < |d| && a !in TagTargets(d[geo.journal + d[geo.journal].body.start].body.tags) :: e[a] == d[a]
    ensures Replayable(geo, e) && Logical(geo, e) == Logical(geo, d) && Recovery(geo, e) == Recovery(geo, d)
  {
    hide Run, Content, Recovery;
    var at := geo.journal + d[geo.journal].body.start;
    var tags := d[at].body.tags;
    var targets := TagTargets(tags);
    forall a | geo.journal <= a < geo.journal + geo.length ensures e[a] == d[a] {
      assert a !in targets;
    }
    SameTransaction(geo, d, e);
    HomesRedo(geo, d, e, targets, DecodedHomes(d, at, tags));
    SameRecords(geo, d, e, at, d[geo.journal].body.sequence);
    ReplayResult(geo, d);
    ReplayResult(geo, e);
  }

  lemma RunHomesFlush(d: Disk, w: seq<Op>)
    ensures Run(d, w + [Flush]) == Run(d, w)
  {
    RunConcat(d, w, [Flush]);
    RunPair(Run(d, w), Flush, Flush);
  }

  /** Replay leaves the content with the journaled homes in place. */
  lemma ReplayResult(geo: Geometry, d: Disk)
    requires geo.Fits(d) && Replayable(geo, d)
    ensures
      var at := geo.journal + d[geo.journal].body.start;
      var tags := d[at].body.tags;
      var w := HomeWrites(TagTargets(tags), DecodedHomes(d, at, tags));
      Logical(geo, d) == Content(geo, Run(d, w))
  {
    var sb := d[geo.journal].body;
    var at := geo.journal + sb.start;
    var tags := d[at].body.tags;
    var targets, homes := TagTargets(tags), DecodedHomes(d, at, tags);
    var w, rest := HomeWrites(targets, homes), CleanupOps(geo, at, sb.sequence, d[0], targets, homes);
    assert w[..|tags|] == w;
    HomesWritten(geo, d, |tags|);
    RunHomesFlush(d, w);
    RunConcat(d, w + [Flush], rest);
    if rest == [] {
    } else {
      assert rest[..|rest|] == rest;
      CleanupKeepsContent(geo, Run(d, w), at, sb.sequence, d[0], targets, homes, |rest|);
    }
  }

  /** A mount that completes leaves a clean file system with the meaning the disk had, and mounting again does nothing. */
  lemma MountSettles(geo: Geometry, d: Disk)
    requires geo.Fits(d)
    ensures var out := Recovery(geo, d); var e := Run(d, out.ops);
      && Logical(geo, e) == Logical(geo, d)
      && (out.Mounted? ==> Clean(e[0]) && Recovery(geo, e) == Mounted([]) && Content(geo, e) == Logical(geo, d))
      && (out.Halted? && out.ops != [] ==>
            d[geo.journal].body.sequence == MAX_SEQUENCE && Replayable(geo, d) && Recovery(geo, e) == out)
  {
    if Replayable(geo, d) {
      ReplaySettles(geo, d);
    } else {
      var out := Recovery(geo, d);
      if out.ops != [] {
        RunPair(d, out.ops[0], out.ops[1]);
        SameContent(geo, d, d[0 := WithRecover(d[0], false)]);
      }
    }
  }

  lemma ReplaySettles(geo: Geometry, d: Disk)
    requires geo.Fits(d) && Replayable(geo, d)
    ensures var out := Recovery(geo, d); var e := Run(d, out.ops);
      && Logical(geo, e) == Logical(geo, d)
      && (out.Mounted? ==> Clean(e[0]) && Recovery(geo, e) == Mounted([]) && Content(geo, e) == Logical(geo, d))
      && (out.Halted? ==> d[geo.journal].body.sequence == MAX_SEQUENCE && Recovery(geo, e) == out)
  {
    hide Content, Run, Geometry.Safe;
    var out := Recovery(geo, d);
    ReplayTransparent(geo, d, |out.ops|);
    assert out.ops[..|out.ops|] == out.ops;
    if out.Halted? {
      var at := geo.journal + d[geo.journal].body.start;
      var tags := d[at].body.tags;
      var w := HomeWrites(TagTargets(tags), DecodedHomes(d, at, tags));
      assert w[..|w|] == w && out.ops == w + [Flush];
      RunHomesFlush(d, w);
      HomesWritten(geo, d, |w|);
      SameTransaction(geo, d, Run(d, w));
    } else {
      var i := |out.ops| - 2;
      assert out.ops[i].Write? && out.ops[i].at == 0 && Clean(out.ops[i].block);
      assert out.ops[i + 1..] == [Flush];
      RunLanded(d, out.ops, i);
    }
  }

  // ---------------------------------------------------------------- commit

  /** The journal is active but its transaction has no commit record: recovery halts and has written nothing. */
  lemma UncommittedHalts(geo: Geometry, d: Disk, n: nat)
    requires geo.Fits(d) && geo.first + n + 1 < geo.length && Dirty(d[0])
    requires d[geo.journal].body.JournalSuper? && d[geo.journal].body.start == geo.first
    requires d[geo.journal + geo.first].body.Descriptor? ==> |d[geo.journal + geo.first].body.tags| == n
    requires d[geo.journal + geo.first + 1 + n] == ZERO
    ensures Recovery(geo, d) == Halted([])
  {
  }

  /** Nor does recovery accept a descriptor or a commit record of another transaction than the journal superblock names. */
  lemma ForeignHalts(geo: Geometry, d: Disk)
    requires geo.Fits(d) && Dirty(d[0]) && d[geo.journal].body.JournalSuper? && 0 < d[geo.journal].body.start < geo.length
    requires
      var at, sequence := geo.journal + d[geo.journal].body.start, d[geo.journal].body.sequence;
      d[at].body.Descriptor? && (d[at].body.descriptorSequence != sequence ||
        var c := at + 1 + |d[at].body.tags|;
        c < |d| && d[c].body.Commit? && d[c].body.commitSequence != sequence)
    ensures Recovery(geo, d) == Halted([])
  {
    hide Geometry.Safe, DecodedHomes;
  }

  /** A tag that recovery must not follow: its block is off the disk, in the journal, or named by an earlier tag. */
  predicate Stray(geo: Geometry, tags: seq<Tag>, i: nat)
    requires i < |tags|
  {
    || tags[i].target >= geo.count
    || geo.journal <= tags[i].target < geo.journal + geo.length
    || exists j | 0 <= j < i :: tags[j].target == tags[i].target
  }

  /** Nor a journal superblock that counts from zero or points outside the records, nor a descriptor with a stray tag. */
  lemma MalformedHalts(geo: Geometry, d: Disk, i: nat)
    requires geo.Fits(d) && Dirty(d[0]) && d[geo.journal].body.JournalSuper?
    requires
      var sb := d[geo.journal].body;
      || sb.sequence == 0
      || 0 < sb.start < geo.first
      || sb.start >= geo.length
      || (sb.start != 0 && var b := d[geo.journal + sb.start].body;
          b.Descriptor? && (b.tags == [] || (i < |b.tags| && Stray(geo, b.tags, i))))
    ensures Recovery(geo, d) == Halted([])
  {
    hide DecodedHomes;
    var sb := d[geo.journal].body;
    if sb.start != 0 && Replayable(geo, d) {
      StrayUnsafe(geo, d[geo.journal + sb.start].body.tags, i);
    }
  }

  lemma StrayUnsafe(geo: Geometry, tags: seq<Tag>, i: nat)
    requires i < |tags| && Stray(geo, tags, i)
    ensures !geo.Safe(TagTargets(tags))
  {
    var targets := TagTargets(tags);
    assert targets[i] == tags[i].target;
    if j :| 0 <= j < i && tags[j].target == tags[i].target {
      assert targets[..i][j] == targets[i];
    }
  }

  lemma DataLand(d: Disk, at: nat, homes: seq<Block>, k: nat)
    requires k <= |homes| && at + |homes| <= |d|
    ensures forall a | at <= a < at + k :: Run(d, DataWrites(at, homes)[..k])[a] == Encode(homes[a - at])
    ensures forall a | 0 <= a < |d| && !(at <= a < at + k) :: Run(d, DataWrites(at, homes)[..k])[a] == d[a]
  {
    var w := DataWrites(at, homes)[..k];
    forall a | at <= a < at + k ensures Run(d, w)[a] == Encode(homes[a - at]) {
      assert w[a - at].at == a;
      assert !Touches(w[a - at + 1..], a);
      RunLanded(d, w, a - at);
    }
    forall a | 0 <= a < |d| && !(at <= a < at + k) ensures Run(d, w)[a] == d[a] {
      RunUntouched(d, w, a);
    }
  }

  /** The disk once the recovery flag, the journal superblock, the descriptor and `k` data records are written. */
  function Logged(geo: Geometry, d: Disk, sequence: Sequence, targets: seq<nat>, homes: seq<Block>, k: nat): (e: Disk)
    requires geo.Fits(d) && |homes| == |targets| && k <= |homes| && geo.first + |targets| + 1 < geo.length
    requires d[0].body.FsSuper?
    ensures geo.Fits(e)
  {
    Run(d[0 := WithRecover(d[0], true)]
         [geo.journal := JournalSb(sequence, geo.first)]
         [geo.journal + geo.first := Block(true, Descriptor(sequence, TagsFor(targets, homes)))],
        DataWrites(geo.journal + geo.first + 1, homes)[..k])
  }

  lemma LoggedContent(geo: Geometry, d: Disk, sequence: Sequence, targets: seq<nat>, homes: seq<Block>, k: nat)
    requires geo.Fits(d) && |homes| == |targets| && k <= |homes| && geo.first + |targets| + 1 < geo.length
    requires Idle(geo, d, sequence, |targets|)
    ensures var e := Logged(geo, d, sequence, targets, homes, k);
      && Content(geo, e) == Content(geo, d) && Logical(geo, e) == Content(geo, d) && Recovery(geo, e).Halted?
      && e[0] == WithRecover(d[0], true) && e[geo.journal] == JournalSb(sequence, geo.first)
      && e[geo.journal + geo.first] == Block(true, Descriptor(sequence, TagsFor(targets, homes)))
      && (forall a | geo.journal + geo.first + 1 <= a < geo.journal + geo.first + 1 + k ::
            e[a] == Encode(homes[a - geo.journal - geo.first - 1]))
      && (forall a | 0 < a < |d| && !geo.InJournal(a) :: e[a] == d[a])
  {
    hide Run, Encode, DataWrites, Recovery, Content;
    var d3 := d[0 := WithRecover(d[0], true)]
               [geo.journal := JournalSb(sequence, geo.first)]
               [geo.journal + geo.first := Block(true, Descriptor(sequence, TagsFor(targets, homes)))];
    DataLand(d3, geo.journal + geo.first + 1, homes, k);
    var e := Logged(geo, d, sequence, targets, homes, k);
    SameContent(geo, e, d);
    RunNothing(e);
    UncommittedHalts(geo, e, |targets|);
  }

  /** Everything before the commit record leaves the meaning of the disk as it was; recovery halts once the journal is active. */
  lemma RecordsTransparent(geo: Geometry, d: Disk, sequence: Sequence, targets: seq<nat>, homes: seq<Block>, k: nat)
    requires geo.Fits(d) && |homes| == |targets| && geo.first + |targets| + 1 < geo.length
    requires Idle(geo, d, sequence, |targets|)
    requires k <= |RecordOps(geo, d[0], sequence, targets, homes)|
    ensures var e := Run(d, RecordOps(geo, d[0], sequence, targets, homes)[..k]);
      && Logical(geo, e) == Content(geo, d) && (Recovery(geo, e).Mounted? <==> k <= 2)
      && (k >= 5 + |homes| ==> e == Logged(geo, d, sequence, targets, homes, |homes|))
  {
    hide Run, Logical, Content, Recovery;
    var ops := RecordOps(geo, d[0], sequence, targets, homes);
    var head := ops[..5];
    var data := DataWrites(geo.journal + geo.first + 1, homes);
    assert ops == head + data + [Flush];
    HeadTransparent(geo, d, sequence, head, TagsFor(targets, homes), if k < 5 then k else 5);
    if k < 5 {
      assert ops[..k] == head[..k];
    } else {
      var j := if k - 5 <= |homes| then k - 5 else |homes|;
      assert data[..|homes|] == data;
      assert head[..5] == head;
      RunConcat(d, head, data[..j]);
      LoggedContent(geo, d, sequence, targets, homes, j);
      if k - 5 <= |homes| {
        assert ops[..k] == head + data[..j];
      } else {
        assert ops[..k] == head + data + [Flush];
        RunHomesFlush(d, head + data);
      }
    }
  }

  lemma HeadTransparent(geo: Geometry, d: Disk, sequence: Sequence, head: seq<Op>, tags: seq<Tag>, k: nat)
    requires geo.Fits(d) && geo.first + |tags| + 1 < geo.length && Idle(geo, d, sequence, |tags|)
    requires head == [Write(0, WithRecover(d[0], true)), Flush,
                      Write(geo.journal, JournalSb(sequence, geo.first)), Flush,
                      Write(geo.journal + geo.first, Block(true, Descriptor(sequence, tags)))]
    requires k <= 5
    ensures k < 5 ==> Logical(geo, Run(d, head[..k])) == Content(geo, d)
    ensures k < 5 ==> (Recovery(geo, Run(d, head[..k])).Mounted? <==> k <= 2)
    ensures k == 5 ==>
      Run(d, head[..k]) ==
      d[0 := WithRecover(d[0], true)][geo.journal := JournalSb(sequence, geo.first)]
       [geo.journal + geo.first := Block(true, Descriptor(sequence, tags))]
  {
    var d1 := d[0 := WithRecover(d[0], true)];
    var d2 := d1[geo.journal := JournalSb(sequence, geo.first)];
    RunPair(d, head[0], Flush);
    RunPair(d1, head[2], Flush);
    RunPair(d2, head[4], Flush);
    RunPair(d1, Write(0, WithRecover(d1[0], false)), Flush);
    assert head[1] == head[3] == Flush;
    if k < 3 {
      if k == 0 {
        assert head[..0] == [];
      } else if k == 1 {
        assert head[..1] == [head[0]];
      } else {
        assert head[..2] == [head[0], head[1]];
      }
      assert d1[0 := WithRecover(d1[0], false)] == d;
    } else {
      assert head[..k] == [head[0], head[1]] + head[2..k];
      RunConcat(d, [head[0], Flush], head[2..k]);
      assert k == 3 ==> head[2..k] == [head[2]];
      assert k == 4 ==> head[2..k] == [head[2], head[3]];
      if k == 5 {
        assert head[2..k] == [head[2], head[3]] + [head[4]];
        RunConcat(d1, [head[2], Flush], [head[4]]);
      } else {
        SameContent(geo, d2, d);
        UncommittedHalts(geo, d2, |tags|);
      }
    }
  }

  lemma CommittedContent(geo: Geometry, d: Disk, e: Disk, targets: seq<nat>, homes: seq<Block>)
    requires geo.Fits(d) && geo.Fits(e) && geo.Safe(targets) && |homes| == |targets|
    requires forall i | 0 <= i < |targets| && targets[i] == 0 :: homes[i].body.FsSuper?
    requires d[0].body.FsSuper? && e[0] == WithRecover(d[0], true)
    requires forall a | 0 < a < |d| && !geo.InJournal(a) :: e[a] == d[a]
    ensures Content(geo, Run(e, HomeWrites(targets, Desired(targets, homes)))) == Overlay(Content(geo, d), targets, homes)
  {
    var desired := Desired(targets, homes);
    var w := HomeWrites(targets, desired);
    AllHomesLand(geo, e, targets, desired);
    var f := Run(e, w);
    forall a | 0 <= a < |d| ensures Content(geo, f)[a] == Overlay(Content(geo, d), targets, homes)[a] {
      if a in targets {
        var i := IndexOf(targets, a);
        assert f[targets[i]] == desired[i];
      }
    }
  }

  /** The disk once the commit record is on it. */
  function Committed(geo: Geometry, d: Disk, sequence: Sequence, targets: seq<nat>, homes: seq<Block>): (e: Disk)
    requires geo.Fits(d) && CommitAccepts(geo, d, sequence, targets, homes)
    ensures geo.Fits(e)
  {
    var desired := Desired(targets, homes);
    Logged(geo, d, sequence, targets, desired, |desired|)
      [geo.journal + geo.first + 1 + |targets| := Block(true, Commit(sequence))]
  }

  lemma PrepareRuns(geo: Geometry, d: Disk, sequence: Sequence, targets: seq<nat>, homes: seq<Block>)
    requires geo.Fits(d) && CommitAccepts(geo, d, sequence, targets, homes)
    ensures
      var prepare := PrepareOps(geo, d[0], sequence, targets, Desired(targets, homes));
      && Run(d, prepare) == Committed(geo, d, sequence, targets, homes)
      && Run(d, prepare[..|prepare| - 1]) == Committed(geo, d, sequence, targets, homes)
  {
    var desired := Desired(targets, homes);
    var ops := RecordOps(geo, d[0], sequence, targets, desired);
    var prepare := PrepareOps(geo, d[0], sequence, targets, desired);
    var commit := prepare[|ops|];
    assert ops[..|ops|] == ops;
    RecordsTransparent(geo, d, sequence, targets, desired, |ops|);
    assert prepare == ops + [commit, Flush] && prepare[..|prepare| - 1] == ops + [commit];
    RunConcat(d, ops, [commit, Flush]);
    RunConcat(d, ops, [commit]);
    RunPair(Run(d, ops), commit, Flush);
  }

  /** The records on the disk decode to the transaction that was logged. */
  lemma CommittedRecords(geo: Geometry, d: Disk, sequence: Sequence, targets: seq<nat>, homes: seq<Block>)
    requires geo.Fits(d) && CommitAccepts(geo, d, sequence, targets, homes)
    ensures
      var e := Committed(geo, d, sequence, targets, homes);
      var at := geo.journal + geo.first;
      var tags := TagsFor(targets, Desired(targets, homes));
      && e[0] == WithRecover(d[0], true) && e[geo.journal] == JournalSb(sequence, geo.first)
      && e[at] == Block(true, Descriptor(sequence, tags))
      && TagTargets(tags) == targets && DecodedHomes(e, at, tags) == Desired(targets, homes)
      && e[at + 1 + |tags|] == Block(true, Commit(sequence))
      && (forall a | 0 < a < |d| && !geo.InJournal(a) :: e[a] == d[a])
  {
    hide Run, Logical, Content, Logged, Geometry.Safe;
    var desired := Desired(targets, homes);
    LoggedContent(geo, d, sequence, targets, desired, |desired|);
    var e := Committed(geo, d, sequence, targets, homes);
    var at, n := geo.journal + geo.first, |targets|;
    var tags := TagsFor(targets, desired);
    forall i | 0 <= i < n ensures DecodedHomes(e, at, tags)[i] == desired[i] {
      assert e[at + 1 + i] == Encode(desired[i]);
    }
  }

  /** No data record carries the journal's magic, so none can be taken for a descriptor or a commit record. */
  lemma DataUnmarked(geo: Geometry, d: Disk, sequence: Sequence, targets: seq<nat>, homes: seq<Block>, i: nat)
    requires geo.Fits(d) && CommitAccepts(geo, d, sequence, targets, homes) && i < |targets|
    ensures var block := Committed(geo, d, sequence, targets, homes)[geo.journal + geo.first + 1 + i];
      !block.magic && Decode(block, Desired(targets, homes)[i].magic) == Desired(targets, homes)[i]
  {
    hide Run, Logical, Content, Logged, Geometry.Safe, Recovery;
    var desired := Desired(targets, homes);
    LoggedContent(geo, d, sequence, targets, desired, |desired|);
    var at := geo.journal + geo.first + 1;
    assert Logged(geo, d, sequence, targets, desired, |desired|)[at + i] == Encode(desired[i]);
  }

  /** Once the commit record is on the disk, recovery carries out exactly what the commit itself goes on to do. */
  lemma CommittedReplays(geo: Geometry, d: Disk, sequence: Sequence, targets: seq<nat>, homes: seq<Block>)
    requires geo.Fits(d) && CommitAccepts(geo, d, sequence, targets, homes)
    ensures
      var e := Committed(geo, d, sequence, targets, homes);
      && Replayable(geo, e)
      && Recovery(geo, e).ops == CheckpointOps(geo, geo.journal + geo.first, sequence,
                                               WithRecover(d[0], true), targets, Desired(targets, homes))
      && Logical(geo, e) == Overlay(Content(geo, d), targets, homes)
  {
    var e := Committed(geo, d, sequence, targets, homes);
    CommittedRecords(geo, d, sequence, targets, homes);
    assert Replayable(geo, e);
    ReplayResult(geo, e);
    CommittedContent(geo, d, e, targets, homes);
  }

  /** Recovery of the committed disk ends, and clears the records once the homes are flushed. */
  lemma CommittedMounts(geo: Geometry, d: Disk, sequence: Sequence, targets: seq<nat>, homes: seq<Block>)
    requires geo.Fits(d) && CommitAccepts(geo, d, sequence, targets, homes)
    ensures var e := Committed(geo, d, sequence, targets, homes);
      && (Recovery(geo, e).Mounted? <==> sequence < MAX_SEQUENCE)
      && forall k: nat :: CutInClear(geo, e, k) <==> |targets| + 1 < k <= 2 * |targets| + 3
  {
    hide Committed, DecodedHomes, CheckpointOps;
    CommittedReplays(geo, d, sequence, targets, homes);
    CommittedRecords(geo, d, sequence, targets, homes);
  }

  /** The request that carries the commit record: the moment at which the transaction takes effect. */
  function CommitPoint(targets: seq<nat>): nat {
    6 + |targets|
  }

  /**
   Whether the disk can be mounted after a commit of `n` blocks that was cut once `k` requests had reached it: before
   the journal is active, from the commit record until the flush of the homes, and once the journal is retired.
   */
  predicate MountsAfterCut(n: nat, sequence: Sequence, k: nat) {
    k <= 2 || (sequence < MAX_SEQUENCE && (7 + n <= k <= 9 + 2 * n || 12 + 3 * n <= k))
  }

  /**
   All or nothing, with writes persisting in issue order: if the commit record is
   not among the requests that reached the disk the transaction never happened,
   and if it is, the whole transaction has. Recovery ends at exactly the cuts named above;
   at the others it halts.
   */
  lemma CommitAtomic(geo: Geometry, d: Disk, sequence: Sequence, targets: seq<nat>, homes: seq<Block>, k: nat)
    requires geo.Fits(d) && CommitAccepts(geo, d, sequence, targets, homes)
    requires k <= |CommitOps(geo, d, sequence, targets, homes)|
    ensures Logical(geo, Run(d, CommitOps(geo, d, sequence, targets, homes)[..k])) ==
            if k <= CommitPoint(targets) then Logical(geo, d) else Overlay(Logical(geo, d), targets, homes)
    ensures Recovery(geo, Run(d, CommitOps(geo, d, sequence, targets, homes)[..k])).Mounted? <==>
            MountsAfterCut(|targets|, sequence, k)
  {
    hide Recovery, Replayable, Logical, Content, Overlay, Run, Committed, CheckpointOps, Desired;
    var desired := Desired(targets, homes);
    var ops := CommitOps(geo, d, sequence, targets, homes);
    var records := RecordOps(geo, d[0], sequence, targets, desired);
    var prepare := PrepareOps(geo, d[0], sequence, targets, desired);
    CleanMeaning(geo, d);
    if k <= |records| {
      assert ops[..k] == records[..k];
      RecordsTransparent(geo, d, sequence, targets, desired, k);
    } else {
      PrepareRuns(geo, d, sequence, targets, homes);
      CommittedReplays(geo, d, sequence, targets, homes);
      CommittedMounts(geo, d, sequence, targets, homes);
      if k == |records| + 1 {
        assert ops[..k] == prepare[..|prepare| - 1];
      } else {
        CheckpointTransparent(geo, d, sequence, targets, homes, k - |prepare|);
      }
    }
  }

  lemma CleanMeaning(geo: Geometry, d: Disk)
    requires geo.Fits(d) && Clean(d[0])
    ensures Logical(geo, d) == Content(geo, d)
  {
  }

  lemma CheckpointTransparent(geo: Geometry, d: Disk, sequence: Sequence, targets: seq<nat>, homes: seq<Block>, k: nat)
    requires geo.Fits(d) && CommitAccepts(geo, d, sequence, targets, homes)
    requires k <= |Recovery(geo, Committed(geo, d, sequence, targets, homes)).ops|
    ensures
      var ops := CommitOps(geo, d, sequence, targets, homes);
      var j := CommitPoint(targets) + 2 + k;
      && j <= |ops|
      && Run(d, ops[..j]) == Run(Committed(geo, d, sequence, targets, homes),
                                 Recovery(geo, Committed(geo, d, sequence, targets, homes)).ops[..k])
      && Logical(geo, Run(d, ops[..j])) == Overlay(Content(geo, d), targets, homes)
      && (Recovery(geo, Run(d, ops[..j])).Mounted? <==> MountsAfterCut(|targets|, sequence, j))
  {
    hide Recovery, Replayable, Logical, Content, Overlay, Run, Committed, CheckpointOps, Desired;
    var prepare := PrepareOps(geo, d[0], sequence, targets, Desired(targets, homes));
    var e := Committed(geo, d, sequence, targets, homes);
    var ops := CommitOps(geo, d, sequence, targets, homes);
    PrepareRuns(geo, d, sequence, targets, homes);
    CommittedReplays(geo, d, sequence, targets, homes);
    var rest := Recovery(geo, e).ops;
    assert ops == prepare + rest;
    assert ops[..|prepare| + k] == prepare + rest[..k];
    RunConcat(d, prepare, rest[..k]);
    CommittedMounts(geo, d, sequence, targets, homes);
    MountTransparent(geo, e, k);
  }

  /** A commit that runs to its end leaves a clean disk, an idle journal at the next sequence number and blank records. */
  lemma CommitCompletes(geo: Geometry, d: Disk, sequence: Sequence, targets: seq<nat>, homes: seq<Block>)
    requires geo.Fits(d) && CommitAccepts(geo, d, sequence, targets, homes) && sequence < MAX_SEQUENCE
    ensures var e := Run(d, CommitOps(geo, d, sequence, targets, homes));
      && Idle(geo, e, sequence + 1, |targets|)
      && Content(geo, e) == Overlay(Content(geo, d), targets, homes)
  {
    hide Recovery, Replayable, Logical, Content, Overlay, Run, Committed, PrepareOps, Desired, CommitOps, CheckpointOps;
    var m := Committed(geo, d, sequence, targets, homes);
    var ops := CommitOps(geo, d, sequence, targets, homes);
    var rest := Recovery(geo, m).ops;
    CommittedReplays(geo, d, sequence, targets, homes);
    CheckpointTransparent(geo, d, sequence, targets, homes, |rest|);
    assert rest[..|rest|] == rest && ops[..|ops|] == ops;
    CommitLength(geo, d, sequence, targets, homes);
    CommittedMounts(geo, d, sequence, targets, homes);
    MountSettles(geo, m);
    CheckpointIdles(geo, m, geo.journal + geo.first, sequence, WithRecover(d[0], true), targets, Desired(targets, homes));
  }

  lemma CommitLength(geo: Geometry, d: Disk, sequence: Sequence, targets: seq<nat>, homes: seq<Block>)
    requires geo.Fits(d) && CommitAccepts(geo, d, sequence, targets, homes)
    ensures |CommitOps(geo, d, sequence, targets, homes)| == CommitPoint(targets) + 2
      + |CheckpointOps(geo, geo.journal + geo.first, sequence, WithRecover(d[0], true), targets, Desired(targets, homes))|
  {
  }

  lemma CheckpointIdles(geo: Geometry, m: Disk, at: nat, sequence: Sequence, fs: Block, targets: seq<nat>, homes: seq<Block>)
    requires geo.Fits(m) && |targets| == |homes| && fs.body.FsSuper? && sequence < MAX_SEQUENCE
    requires forall i | 0 <= i < |targets| && targets[i] == 0 :: homes[i].body.FsSuper?
    requires geo.journal < at && at + |targets| + 2 <= geo.journal + geo.length
    ensures var e := Run(m, CheckpointOps(geo, at, sequence, fs, targets, homes));
      && e[geo.journal] == JournalSb(sequence + 1, 0)
      && forall a | at <= a < at + |targets| + 2 :: e[a] == ZERO
  {
    var n := |targets|;
    var head := HomeWrites(targets, homes) + [Flush];
    var clear := ClearWrites(at, n + 2);
    var tail := [Write(geo.journal, JournalSb(sequence + 1, 0)), Flush,
                 Write(0, FinalFs(fs, targets, homes)), Flush];
    assert CheckpointOps(geo, at, sequence, fs, targets, homes) == head + (clear + tail);
    RunConcat(m, head, clear + tail);
    var h := Run(m, head);
    RunConcat(h, clear, tail);
    assert clear[..n + 2] == clear;
    ClearsLand(h, at, n + 2, n + 2);
    var c := Run(h, clear);
    assert !Touches(tail[1..], geo.journal);
    RunLanded(c, tail, 0);
    forall a | at <= a < at + n + 2 ensures Run(c, tail)[a] == ZERO {
      RunUntouched(c, tail, a);
    }
  }
}

/** The single-block commit, whose clean-up is ordered by flushes, under reordering. */
module JournalSingle {
  import opened Blocks
  import opened Storage
  import opened Journal
  import opened JournalCrash
  import opened JournalReorder

  /** Up to the flush of the home block, the single-block commit is a one-block transaction of the general kind. */
  lemma SharedPrefix(geo: Geometry, d: Disk, sequence: Sequence, target: nat, home: Block)
    requires geo.Fits(d) && SingleAccepts(geo, d, sequence, target) && target != 0 && !geo.InJournal(target)
    ensures CommitAccepts(geo, d, sequence, [target], [home])
    ensures var s, c := SingleOps(geo, d, sequence, target, home), CommitOps(geo, d, sequence, [target], [home]);
      && |s| >= 11 && |c| >= 11 && s[..11] == c[..11]
      && s[8].Flush? && s[10].Flush? && s[1].Flush? && s[3].Flush? && s[6].Flush?
      && s[0].Write? && s[2].Write? && s[4].Write? && s[5].Write? && s[7].Write? && s[9].Write?
  {
    assert Desired([target], [home]) == [home];
    var s, c := SingleOps(geo, d, sequence, target, home), CommitOps(geo, d, sequence, [target], [home]);
    var prepare := PrepareOps(geo, d[0], sequence, [target], [home]);
    assert |prepare| == 9;
    assert s[..11] == prepare + [Write(target, home), Flush];
    assert HomeWrites([target], [home]) == [Write(target, home)];
    assert c[..11] == prepare + [Write(target, home), Flush];
  }

  /** The disk once the home block is flushed. */
  lemma HomeFlushed(geo: Geometry, d: Disk, sequence: Sequence, target: nat, home: Block)
    requires geo.Fits(d) && SingleAccepts(geo, d, sequence, target) && target != 0 && !geo.InJournal(target)
    ensures |SingleOps(geo, d, sequence, target, home)| >= 11
    ensures var h := Run(d, SingleOps(geo, d, sequence, target, home)[..11]);
      && Dirty(h[0]) && WithRecover(h[0], false) == d[0]
      && Content(geo, h) == Overlay(Content(geo, d), [target], [home])
      && Logical(geo, h) == Content(geo, h)
      && (Recovery(geo, h).Mounted? <==> sequence < MAX_SEQUENCE)
  {
    hide Run, Logical, Content, Recovery, CheckpointOps, Overlay, Committed, Geometry.Safe;
    SharedPrefix(geo, d, sequence, target, home);
    var c := CommitOps(geo, d, sequence, [target], [home]);
    assert Desired([target], [home]) == [home];
    CommitAtomic(geo, d, sequence, [target], [home], 11);
    CleanMeaning(geo, d);
    var m := Committed(geo, d, sequence, [target], [home]);
    CommittedReplays(geo, d, sequence, [target], [home]);
    CommittedRecords(geo, d, sequence, [target], [home]);
    PrepareRuns(geo, d, sequence, [target], [home]);
    var prepare := PrepareOps(geo, d[0], sequence, [target], [home]);
    var w := HomeWrites([target], [home]);
    assert w == [Write(target, home)];
    assert c[..11] == prepare + (w + [Flush]);
    RunConcat(d, prepare, w + [Flush]);
    RunHomesFlush(m, w);
    RunPair(m, Write(target, home), Flush);
    SingleHomeContent(geo, d, m, target, home);
  }

  lemma SingleHomeContent(geo: Geometry, d: Disk, m: Disk, target: nat, home: Block)
    requires geo.Fits(d) && geo.Fits(m) && Clean(d[0]) && 0 < target < geo.count && !geo.InJournal(target)
    requires m[0] == WithRecover(d[0], true)
    requires forall a | 0 < a < |d| && !geo.InJournal(a) :: m[a] == d[a]
    ensures Content(geo, m[target := home]) == Overlay(Content(geo, d), [target], [home])
  {
    var h, o := m[target := home], Overlay(Content(geo, d), [target], [home]);
    forall a | 0 <= a < |d| ensures Content(geo, h)[a] == o[a] {
    }
  }

  /** The request of the single-block commit that carries the commit record. */
  const SINGLE_COMMIT_POINT: nat := 7

  /** The commit record is flushed, or was kept by the crash. */
  predicate SingleCommitted(i: nat, keep: seq<bool>) {
    i >= 9 || (i == 7 && keep == [true])
  }

  /**
   A crash that keeps any subset of the unflushed writes leaves the old file system
   if the commit record was lost, and otherwise the new one: the single-block
   commit has no torn clear. Once the commit record is flushed recovery always ends, while
   the sequence number can advance; before that it ends exactly if the journal is not yet active.
   */
  lemma SingleReordered(geo: Geometry, d: Disk, sequence: Sequence, target: nat, home: Block,
                        i: nat, j: nat, keep: seq<bool>)
    requires geo.Fits(d) && SingleAccepts(geo, d, sequence, target) && target != 0 && !geo.InJournal(target)
    requires CrashPoint(SingleOps(geo, d, sequence, target, home), i, j) && |keep| == j - i
    ensures Logical(geo, CrashDisk(d, SingleOps(geo, d, sequence, target, home), i, j, keep)) ==
      if SingleCommitted(i, keep) then Overlay(Content(geo, d), [target], [home]) else Content(geo, d)
    ensures Recovery(geo, CrashDisk(d, SingleOps(geo, d, sequence, target, home), i, j, keep)).Mounted? <==>
      i < 2 || (i == 2 && keep != [true]) || (sequence < MAX_SEQUENCE && SingleCommitted(i, keep))
  {
    hide Run, Logical, Content, Recovery, CheckpointOps, Overlay, Committed, Kept;
    SharedPrefix(geo, d, sequence, target, home);
    var s, c := SingleOps(geo, d, sequence, target, home), CommitOps(geo, d, sequence, [target], [home]);
    assert forall x | 0 <= x < 11 :: s[x] == s[..11][x] && c[x] == c[..11][x];
    if j <= 11 {
      assert s[..i] == c[..11][..i] == c[..i] && s[i..j] == c[..11][i..j] == c[i..j];
      CommitReordered(geo, d, sequence, [target], [home], i, j, keep);
      if i >= 9 {
        SmallNotTorn(geo, Committed(geo, d, sequence, [target], [home]), i - 9, keep);
      }
    } else {
      HomeFlushed(geo, d, sequence, target, home);
      CleanupReordered(geo, d, sequence, target, home, i, j, keep);
    }
  }

  /**
   With writes persisting in issue order: the transaction takes effect with its commit record, and recovery ends
   unless the journal is active without it.
   */
  lemma SingleAtomic(geo: Geometry, d: Disk, sequence: Sequence, target: nat, home: Block, k: nat)
    requires geo.Fits(d) && SingleAccepts(geo, d, sequence, target) && target != 0 && !geo.InJournal(target)
    requires k <= |SingleOps(geo, d, sequence, target, home)|
    ensures Logical(geo, Run(d, SingleOps(geo, d, sequence, target, home)[..k])) ==
            if k <= SINGLE_COMMIT_POINT then Logical(geo, d) else Overlay(Logical(geo, d), [target], [home])
    ensures Recovery(geo, Run(d, SingleOps(geo, d, sequence, target, home)[..k])).Mounted? <==>
            SingleMountsAfterCut(sequence, k)
  {
    hide Run, Logical, Content, Recovery, Overlay, CrashDisk, Idle;
    SharedPrefix(geo, d, sequence, target, home);
    var s := SingleOps(geo, d, sequence, target, home);
    hide SingleOps;
    var i := InOrder(d, s, k);
    assert AllKept(k - i) == [true] <==> k == i + 1;
    SingleReordered(geo, d, sequence, target, home, i, k, AllKept(k - i));
    assert Clean(d[0]) by {
      SingleClean(geo, d, sequence, target);
    }
    CleanMeaning(geo, d);
  }

  lemma SingleClean(geo: Geometry, d: Disk, sequence: Sequence, target: nat)
    requires geo.Fits(d) && SingleAccepts(geo, d, sequence, target)
    ensures Clean(d[0]) && geo.first + 2 < geo.length && target < geo.count
  {
  }

  predicate SingleMountsAfterCut(sequence: Sequence, k: nat) {
    k <= 2 || (sequence < MAX_SEQUENCE && SINGLE_COMMIT_POINT < k)
  }

  lemma SmallNotTorn(geo: Geometry, m: Disk, i: nat, keep: seq<bool>)
    requires geo.Fits(m) && (i < 2 || keep == [])
    ensures !TornClear(geo, m, i, keep) && !StuckClear(geo, m, i, keep)
  {
  }

  lemma CleanupReordered(geo: Geometry, d: Disk, sequence: Sequence, target: nat, home: Block,
                         i: nat, j: nat, keep: seq<bool>)
    requires geo.Fits(d) && SingleAccepts(geo, d, sequence, target) && target != 0 && !geo.InJournal(target)
    requires CrashPoint(SingleOps(geo, d, sequence, target, home), i, j) && |keep| == j - i && 11 < j
    requires
      var h := Run(d, SingleOps(geo, d, sequence, target, home)[..11]);
      Dirty(h[0]) && WithRecover(h[0], false) == d[0] && Logical(geo, h) == Content(geo, h) && Recovery(geo, h).Mounted?
    ensures
      var s := SingleOps(geo, d, sequence, target, home);
      && i >= 11 && Logical(geo, CrashDisk(d, s, i, j, keep)) == Content(geo, Run(d, s[..11]))
      && Recovery(geo, CrashDisk(d, s, i, j, keep)).Mounted?
  {
    hide Run, Logical, Content, Recovery, Kept, PrepareOps;
    var s := SingleOps(geo, d, sequence, target, home);
    SharedPrefix(geo, d, sequence, target, home);
    var h := Run(d, s[..11]);
    var at := geo.journal + geo.first;
    assert s[11..] == [Write(geo.journal, JournalSb(sequence + 1, 0)), Flush, Write(0, d[0]), Flush]
                      + ClearWrites(at, 3) + [Flush];
    assert s[11] == s[11..][0] && s[12] == s[11..][1] && s[13] == s[11..][2] && s[14] == s[11..][3];
    assert s[15] == s[11..][4] && s[16] == s[11..][5] && s[17] == s[11..][6] && s[18] == s[11..][7];
    var tail := [s[11], Flush, s[13], Flush];
    if i < 15 {
      assert j <= i + 1;
      KeptOne(d, s, i, j, keep);
      var k := if keep == [true] then j else i;
      assert s[..k] == s[..11] + tail[..k - 11];
      RunConcat(d, s[..11], tail[..k - 11]);
      if k == 11 {
        assert tail[..0] == [];
        RunNothing(h);
      } else {
        TailEffect(geo, h, tail, k - 11, sequence);
      }
    } else {
      assert tail[..4] == tail;
      assert s[..15] == s[..11] + tail;
      RunConcat(d, s[..11], tail);
      TailEffect(geo, h, tail, 4, sequence);
      RunLanded(h, tail, 2);
      RecordsBlanked(geo, d, s, i, j, keep, at);
    }
  }

  lemma RecordsBlanked(geo: Geometry, d: Disk, s: seq<Op>, i: nat, j: nat, keep: seq<bool>, at: nat)
    requires geo.Fits(d) && geo.journal < at && at + 3 <= geo.journal + geo.length
    requires |s| == 19 && s[14].Flush? && s[18].Flush?
    requires s[15] == Write(at, ZERO) && s[16] == Write(at + 1, ZERO) && s[17] == Write(at + 2, ZERO)
    requires CrashPoint(s, i, j) && i >= 15 && |keep| == j - i
    requires Clean(Run(d, s[..15])[0])
    ensures Logical(geo, CrashDisk(d, s, i, j, keep)) == Content(geo, Run(d, s[..15]))
    ensures Recovery(geo, CrashDisk(d, s, i, j, keep)).Mounted?
  {
    hide Run, Logical, Content, Recovery, Kept;
    var m := Run(d, s[..15]);
    var e := CrashDisk(d, s, i, j, keep);
    forall a | 0 <= a < |d| && !geo.InJournal(a) ensures e[a] == m[a] {
      if i == 15 {
        KeptMisses(m, s[i..j], keep, a);
      } else {
        assert s[..19] == s[..15] + s[15..19];
        RunConcat(d, s[..15], s[15..19]);
        assert i == 19 && s[i..j] == [];
        KeptNothing(keep);
        RunNothing(Run(d, s[..19]));
        RunUntouched(m, s[15..19], a);
      }
    }
    EqualContent(geo, e, m);
    CleanMeaning(geo, e);
    CleanMounts(geo, e);
  }

  lemma CleanMounts(geo: Geometry, e: Disk)
    requires geo.Fits(e) && Clean(e[0])
    ensures Recovery(geo, e) == Mounted([])
  {
  }

  lemma KeptNothing(keep: seq<bool>)
    requires keep == []
    ensures Kept<Block>([], keep) == []
  {
  }

  /**
   The disk once the journal is retired: the records are still to be blanked, which happens after the
   recovery flag is cleared.
   */
  lemma SingleTail(geo: Geometry, d: Disk, sequence: Sequence, target: nat, home: Block, k: nat)
    requires geo.Fits(d) && SingleAccepts(geo, d, sequence, target) && target != 0 && !geo.InJournal(target)
    requires 12 <= k <= |SingleOps(geo, d, sequence, target, home)|
    ensures sequence < MAX_SEQUENCE
    ensures
      var e := Run(d, SingleOps(geo, d, sequence, target, home)[..k]);
      var at := geo.journal + geo.first;
      && e[geo.journal] == JournalSb(sequence + 1, 0) && e[0].body.FsSuper? && (k >= 14 ==> e[0] == d[0])
      && (if k < 18 then e[at + 2] == Block(true, Commit(sequence))
          else forall a | at <= a < at + 3 :: e[a] == ZERO)
      && forall a | at + 3 <= a < geo.journal + geo.length :: e[a] == d[a]
  {
    hide Run, SingleOps, SingleAccepts, Touches;
    var at := geo.journal + geo.first;
    var s := SingleOps(geo, d, sequence, target, home);
    SingleClean(geo, d, sequence, target);
    SingleSteps(geo, d, sequence, target, home);
    var w := s[..k];
    assert forall x | 0 <= x < k :: w[x] == s[x];
    Last(d, w, 11);
    Last(d, w, if k >= 14 then 13 else 0);
    if k < 18 {
      Last(d, w, 7);
    } else {
      forall a | at <= a < at + 3 ensures Run(d, w)[a] == ZERO {
        Last(d, w, 15 + a - at);
      }
    }
    forall a | at + 3 <= a < geo.journal + geo.length ensures Run(d, w)[a] == d[a] {
      Missed(d, w, a);
    }
  }

  /** The requests one by one. */
  lemma SingleSteps(geo: Geometry, d: Disk, sequence: Sequence, target: nat, home: Block)
    requires geo.Fits(d) && SingleAccepts(geo, d, sequence, target)
    requires |SingleOps(geo, d, sequence, target, home)| > 11
    ensures
      var s := SingleOps(geo, d, sequence, target, home);
      var at := geo.journal + geo.first;
      && |s| == 19 && sequence < MAX_SEQUENCE
      && s[0] == Write(0, WithRecover(d[0], true)) && s[2] == Write(geo.journal, JournalSb(sequence, geo.first))
      && s[4].Write? && s[4].at == at && s[5].Write? && s[5].at == at + 1
      && s[7] == Write(at + 2, Block(true, Commit(sequence))) && s[9] == Write(target, home)
      && s[11] == Write(geo.journal, JournalSb(sequence + 1, 0)) && s[13] == Write(0, WithRecover(d[0], false))
      && s[15] == Write(at, ZERO) && s[16] == Write(at + 1, ZERO) && s[17] == Write(at + 2, ZERO)
      && s[1].Flush? && s[3].Flush? && s[6].Flush? && s[8].Flush? && s[10].Flush? && s[12].Flush? && s[14].Flush?
      && s[18].Flush?
  {
    var s := SingleOps(geo, d, sequence, target, home);
    var prepare := PrepareOps(geo, d[0], sequence, [target], [home]);
    assert |prepare| == 9;
    assert forall x | 0 <= x < 9 :: s[x] == prepare[x];
  }

  /**
   What an uninterrupted single-block commit stores. The home block ends up in place
   exactly when the target is an ordinary block, or the block happens to equal what
   the clean-up writes over it: the code does not refuse block 0 or the journal's own blocks.
   */
  lemma SingleStores(geo: Geometry, d: Disk, sequence: Sequence, target: nat, home: Block)
    requires geo.Fits(d) && SingleAccepts(geo, d, sequence, target) && sequence < MAX_SEQUENCE
    ensures Run(d, SingleOps(geo, d, sequence, target, home))[target] == home <==>
      && (target == 0 ==> home == d[0])
      && (target == geo.journal ==> home == JournalSb(sequence + 1, 0))
      && (geo.journal + geo.first <= target < geo.journal + geo.first + 3 ==> home == ZERO)
  {
    hide Run, SingleOps, SingleAccepts;
    var at := geo.journal + geo.first;
    var s := SingleOps(geo, d, sequence, target, home);
    SingleCount(geo, d, sequence, target, home);
    SingleSteps(geo, d, sequence, target, home);
    SingleClean(geo, d, sequence, target);
    if target == 0 {
      Last(d, s, 13);
    } else if target == geo.journal {
      Last(d, s, 11);
    } else if at <= target < at + 3 {
      Last(d, s, 15 + target - at);
    } else {
      Last(d, s, 9);
    }
  }

  lemma SingleCount(geo: Geometry, d: Disk, sequence: Sequence, target: nat, home: Block)
    requires geo.Fits(d) && SingleAccepts(geo, d, sequence, target) && sequence < MAX_SEQUENCE
    ensures |SingleOps(geo, d, sequence, target, home)| == 19
  {
  }

  /** A target that the code accepts and loses: a new superblock. */
  lemma SingleLosesSuperblock(geo: Geometry, d: Disk, sequence: Sequence, image: int)
    requires geo.Fits(d) && SingleAccepts(geo, d, sequence, 0) && sequence < MAX_SEQUENCE
    requires image != d[0].body.image
    ensures var home := Block(false, FsSuper(false, image));
      && Run(d, SingleOps(geo, d, sequence, 0, home))[0] == d[0]
      && d[0] != home
  {
    hide Run, SingleOps, SingleAccepts;
    var home := Block(false, FsSuper(false, image));
    SingleCount(geo, d, sequence, 0, home);
    SingleSteps(geo, d, sequence, 0, home);
    SingleClean(geo, d, sequence, 0);
    Last(d, SingleOps(geo, d, sequence, 0, home), 13);
  }
}

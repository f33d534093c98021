/**
 Crash safety of the journal when the device may reorder writes: a crash keeps
 every request up to the last completed flush and an arbitrary subset of the
 writes issued since.
 */
module JournalReorder {
  import opened Blocks
  import opened Storage
  import opened Journal
  import opened JournalCrash

  // ---------------------------------------------------------------- crashes

  predicate Distinct(pending: seq<Op>, count: nat) {
    && (forall x | 0 <= x < |pending| :: pending[x].Write? && pending[x].at < count)
    && forall x, y | 0 <= x < y < |pending| :: pending[x].at != pending[y].at
  }

  lemma {:induction false} KeptTouches(pending: seq<Op>, keep: seq<bool>, a: nat)
    requires |keep| == |pending|
    requires forall x | 0 <= x < |pending| && keep[x] && pending[x].Write? :: pending[x].at != a
    ensures !Touches(Kept(pending, keep), a)
    decreases |pending|
  {
    if pending != [] {
      assert forall x | 0 <= x < |pending[1..]| :: pending[1..][x] == pending[x + 1] && keep[1..][x] == keep[x + 1];
      KeptTouches(pending[1..], keep[1..], a);
    }
  }

  lemma KeptMisses(d: Disk, pending: seq<Op>, keep: seq<bool>, a: nat)
    requires |keep| == |pending| && a < |d|
    requires forall x | 0 <= x < |pending| && keep[x] && pending[x].Write? :: pending[x].at != a
    ensures Run(d, Kept(pending, keep))[a] == d[a]
  {
    KeptTouches(pending, keep, a);
    RunUntouched(d, Kept(pending, keep), a);
  }

  /** Writes to distinct blocks can be kept or lost independently of each other. */
  lemma {:induction false} KeptLands(d: Disk, pending: seq<Op>, keep: seq<bool>, x: nat)
    requires |keep| == |pending| && x < |pending| && Distinct(pending, |d|)
    ensures Run(d, Kept(pending, keep))[pending[x].at] == if keep[x] then pending[x].block else d[pending[x].at]
    decreases |pending|
  {
    if !keep[x] {
      KeptMisses(d, pending, keep, pending[x].at);
    } else {
      var first := if keep[0] then [pending[0]] else [];
      var rest := Kept(pending[1..], keep[1..]);
      var m := Run(d, first);
      RunPair(d, pending[0], Flush);
      RunConcat(d, first, rest);
      assert forall y | 0 <= y < |pending[1..]| :: pending[1..][y] == pending[y + 1] && keep[1..][y] == keep[y + 1];
      if x == 0 {
        KeptMisses(m, pending[1..], keep[1..], pending[0].at);
      } else {
        KeptLands(m, pending[1..], keep[1..], x - 1);
      }
    }
  }

  /** With at most one write pending, losing or keeping it is the same as an in-order crash. */
  lemma KeptOne(d: Disk, ops: seq<Op>, i: nat, j: nat, keep: seq<bool>)
    requires i <= j <= |ops| && |keep| == j - i && j <= i + 1
    ensures CrashDisk(d, ops, i, j, keep) == Run(d, ops[..if keep == [true] then j else i])
  {
    if j == i + 1 {
      assert ops[i..j] == [ops[i]] && [ops[i]][1..] == [] && keep[1..] == [];
      assert Kept([ops[i]][1..], keep[1..]) == [];
      assert Kept(ops[i..j], keep) == if keep[0] then [ops[i]] else [];
      assert ops[..j] == ops[..i] + [ops[i]];
      RunConcat(d, ops[..i], [ops[i]]);
    }
  }

  // ---------------------------------------------------------------- recovery

  /**
   The crash in which reordering loses data: while the records are being cleared,
   a data record was blanked on the disk, but its descriptor, its commit record
   and the journal superblock still describe an active transaction.
   */
  predicate TornClear(geo: Geometry, d: Disk, i: nat, keep: seq<bool>)
    requires geo.Fits(d)
  {
    && Replayable(geo, d)
    && var at := geo.journal + d[geo.journal].body.start;
       var tags := d[at].body.tags;
       var n := |tags|;
       && d[geo.journal].body.sequence < MAX_SEQUENCE
       && i == n + 1
       && (0 < |keep| ==> !keep[0])
       && (n + 1 < |keep| ==> !keep[n + 1])
       && (n + 2 < |keep| ==> !keep[n + 2])
       && (forall t | 0 <= t < n && t + 1 < |keep| && keep[t + 1] :: tags[t].target != 0)
       && (exists t | 0 <= t < n && t + 1 < |keep| && keep[t + 1] ::
             Decode(d[at + 1 + t], tags[t].escaped) != Decode(ZERO, tags[t].escaped))
  }

  /**
   The crash that leaves a disk no mount can use: while the records are being cleared, the descriptor, the commit
   record or the record of block 0 was blanked, but the journal superblock still names an active transaction.
   */
  predicate StuckClear(geo: Geometry, d: Disk, i: nat, keep: seq<bool>)
    requires geo.Fits(d)
  {
    && Replayable(geo, d)
    && var tags := d[geo.journal + d[geo.journal].body.start].body.tags;
       var n := |tags|;
       && i == n + 1
       && !(n + 2 < |keep| && keep[n + 2])
       && ((0 < |keep| && keep[0])
           || (n + 1 < |keep| && keep[n + 1])
           || (exists t | 0 <= t < n && t + 1 < |keep| && keep[t + 1] :: tags[t].target == 0))
  }

  /** The clearing window, with the homes already on the disk `h` and the requests marked in `keep` kept. */
  predicate ClearKept(geo: Geometry, d: Disk, h: Disk, e: Disk, at: nat, n: nat, keep: seq<bool>)
    requires geo.Fits(d) && geo.Fits(h) && geo.Fits(e)
    requires geo.journal < at && at + n + 2 <= geo.journal + geo.length && |keep| <= n + 3
    requires d[geo.journal].body.JournalSuper? && d[geo.journal].body.sequence < MAX_SEQUENCE
  {
    && (forall a | at <= a < at + n + 2 :: e[a] == if a - at < |keep| && keep[a - at] then ZERO else d[a])
    && e[geo.journal] ==
       (if n + 2 < |keep| && keep[n + 2] then JournalSb(d[geo.journal].body.sequence + 1, 0) else d[geo.journal])
    && (forall a | 0 <= a < |d| && !geo.InJournal(a) :: e[a] == h[a])
  }

  /** The writes of the clearing window. */
  function ClearTail(geo: Geometry, at: nat, n: nat, sequence: Sequence): (tail: seq<Op>)
    requires sequence < MAX_SEQUENCE
    ensures |tail| == n + 3
    ensures forall x | 0 <= x < n + 2 :: tail[x] == Write(at + x, ZERO)
    ensures tail[n + 2] == Write(geo.journal, JournalSb(sequence + 1, 0))
  {
    ClearWrites(at, n + 2) + [Write(geo.journal, JournalSb(sequence + 1, 0))]
  }

  lemma ClearWindow(geo: Geometry, d: Disk, h: Disk, at: nat, n: nat, keep: seq<bool>)
    requires geo.Fits(d) && geo.Fits(h) && geo.journal < at && at + n + 2 <= geo.journal + geo.length
    requires d[geo.journal].body.JournalSuper? && d[geo.journal].body.sequence < MAX_SEQUENCE
    requires forall a | geo.journal <= a < geo.journal + geo.length :: h[a] == d[a]
    requires |keep| <= n + 3
    ensures ClearKept(geo, d, h, Run(h, Kept(ClearTail(geo, at, n, d[geo.journal].body.sequence)[..|keep|], keep)), at, n, keep)
  {
    hide Run, Kept, ClearTail;
    var e := Run(h, Kept(ClearTail(geo, at, n, d[geo.journal].body.sequence)[..|keep|], keep));
    forall a | 0 <= a < |d| && (a == geo.journal || !geo.InJournal(a) || at <= a < at + n + 2)
      ensures e[a] ==
        if at <= a < at + n + 2 then (if a - at < |keep| && keep[a - at] then ZERO else h[a])
        else if a == geo.journal && n + 2 < |keep| && keep[n + 2] then JournalSb(d[geo.journal].body.sequence + 1, 0)
        else h[a]
    {
      ClearedAt(geo, h, at, n, d[geo.journal].body.sequence, keep, a);
    }
  }

  lemma ClearedAt(geo: Geometry, h: Disk, at: nat, n: nat, sequence: Sequence, keep: seq<bool>, a: nat)
    requires geo.Fits(h) && geo.journal < at && at + n + 2 <= geo.journal + geo.length
    requires sequence < MAX_SEQUENCE && |keep| <= n + 3 && a < |h|
    ensures Run(h, Kept(ClearTail(geo, at, n, sequence)[..|keep|], keep))[a] ==
        if at <= a < at + n + 2 then (if a - at < |keep| && keep[a - at] then ZERO else h[a])
        else if a == geo.journal && n + 2 < |keep| && keep[n + 2] then JournalSb(sequence + 1, 0)
        else h[a]
  {
    hide Run, Kept, ClearTail;
    var pending := ClearTail(geo, at, n, sequence)[..|keep|];
    var x := if at <= a < at + n + 2 then a - at else n + 2;
    if x < |keep| && (at <= a < at + n + 2 || a == geo.journal) {
      assert pending[x].at == a;
      assert Distinct(pending, |h|);
      KeptLands(h, pending, keep, x);
    } else {
      KeptMisses(h, pending, keep, a);
    }
  }

  /** A torn clear gives recovery blanks to replay; any other crash in the window leaves the content alone. */
  lemma ClearOutcome(geo: Geometry, d: Disk, h: Disk, e: Disk, keep: seq<bool>)
    requires geo.Fits(d) && geo.Fits(h) && geo.Fits(e) && Replayable(geo, d)
    requires d[geo.journal].body.sequence < MAX_SEQUENCE
    requires
      var at := geo.journal + d[geo.journal].body.start;
      var tags := d[at].body.tags;
      && h == Run(d, HomeWrites(TagTargets(tags), DecodedHomes(d, at, tags)))
      && |keep| <= |tags| + 3 && ClearKept(geo, d, h, e, at, |tags|, keep)
    ensures
      var n := |d[geo.journal + d[geo.journal].body.start].body.tags|;
      && (Logical(geo, e) == Content(geo, h) <==> !TornClear(geo, d, n + 1, keep))
      && (Recovery(geo, e).Mounted? <==> !StuckClear(geo, d, n + 1, keep))
  {
    hide Run, Recovery, Logical, TornClear, Content, HomeWrites, Decode, FinalFs, Geometry.Safe, ClearKept, StuckClear;
    var at := geo.journal + d[geo.journal].body.start;
    var tags := d[at].body.tags;
    var n := |tags|;
    HomesWritten(geo, d, n);
    var w := HomeWrites(TagTargets(tags), DecodedHomes(d, at, tags));
    assert w[..n] == w;
    ClearKeptContent(geo, d, h, e, at, n, keep);
    if (0 < |keep| && keep[0]) || (n + 1 < |keep| && keep[n + 1]) || (n + 2 < |keep| && keep[n + 2]) {
      ClearedHeader(geo, d, e, at, n, keep);
    } else {
      ClearedData(geo, d, h, e, at, tags, keep);
    }
  }

  lemma ClearKeptContent(geo: Geometry, d: Disk, h: Disk, e: Disk, at: nat, n: nat, keep: seq<bool>)
    requires geo.Fits(d) && geo.Fits(h) && geo.Fits(e) && Dirty(h[0])
    requires geo.journal < at && at + n + 2 <= geo.journal + geo.length && |keep| <= n + 3
    requires d[geo.journal].body.JournalSuper? && d[geo.journal].body.sequence < MAX_SEQUENCE
    requires ClearKept(geo, d, h, e, at, n, keep)
    ensures Dirty(e[0]) && Content(geo, e) == Content(geo, h) && ClearKept(geo, d, e, e, at, n, keep)
  {
    SameContent(geo, e, h);
  }

  lemma ClearedHeader(geo: Geometry, d: Disk, e: Disk, at: nat, n: nat, keep: seq<bool>)
    requires geo.Fits(d) && geo.Fits(e) && Replayable(geo, d) && Dirty(e[0])
    requires d[geo.journal].body.sequence < MAX_SEQUENCE
    requires at == geo.journal + d[geo.journal].body.start && n == |d[at].body.tags| && |keep| <= n + 3
    requires ClearKept(geo, d, e, e, at, n, keep)
    requires (0 < |keep| && keep[0]) || (n + 1 < |keep| && keep[n + 1]) || (n + 2 < |keep| && keep[n + 2])
    ensures Logical(geo, e) == Content(geo, e) && !TornClear(geo, d, n + 1, keep)
    ensures Recovery(geo, e).Mounted? <==> !StuckClear(geo, d, n + 1, keep)
  {
    if n + 2 < |keep| && keep[n + 2] {
      RunPair(e, Write(0, WithRecover(e[0], false)), Flush);
      SameContent(geo, e, e[0 := WithRecover(e[0], false)]);
    } else {
      assert 0 < |keep| && keep[0] ==> e[at] == ZERO;
      assert n + 1 < |keep| && keep[n + 1] ==> e[at + 1 + n] == ZERO;
      assert !(0 < |keep| && keep[0]) ==> e[at] == d[at];
      assert !Replayable(geo, e);
    }
  }

  lemma ClearedData(geo: Geometry, d: Disk, h: Disk, e: Disk, at: nat, tags: seq<Tag>, keep: seq<bool>)
    requires geo.Fits(d) && geo.Fits(h) && geo.Fits(e) && Replayable(geo, d)
    requires d[geo.journal].body.sequence < MAX_SEQUENCE
    requires at == geo.journal + d[geo.journal].body.start && tags == d[at].body.tags && |keep| <= |tags| + 3
    requires h == Run(d, HomeWrites(TagTargets(tags), DecodedHomes(d, at, tags)))
    requires ClearKept(geo, d, h, e, at, |tags|, keep) && Dirty(e[0])
    requires Content(geo, e) == Content(geo, h)
    requires (0 < |keep| ==> !keep[0])
          && (|tags| + 1 < |keep| ==> !keep[|tags| + 1]) && (|tags| + 2 < |keep| ==> !keep[|tags| + 2])
    ensures (Logical(geo, e) == Content(geo, h)) <==> !TornClear(geo, d, |tags| + 1, keep)
    ensures Recovery(geo, e).Mounted? <==> !StuckClear(geo, d, |tags| + 1, keep)
  {
    hide Run, Recovery, Content, Logical, DecodedHomes, Decode, HomeWrites;
    var homes := DecodedHomes(e, at, tags);
    TornRecords(geo, d, h, e, at, tags, keep);
    ActiveMounts(geo, e);
    if Replayable(geo, e) {
      ReplayResult(geo, e);
      HomesDiffer(geo, d, e, TagTargets(tags), DecodedHomes(d, at, tags), homes);
      SameDecoded(geo, d, e, at, tags, keep);
    } else {
      UnreplayableMeaning(geo, e);
    }
  }

  /** What recovery reads when only data records were blanked. */
  lemma TornRecords(geo: Geometry, d: Disk, h: Disk, e: Disk, at: nat, tags: seq<Tag>, keep: seq<bool>)
    requires geo.Fits(d) && geo.Fits(h) && geo.Fits(e) && Replayable(geo, d)
    requires d[geo.journal].body.sequence < MAX_SEQUENCE
    requires at == geo.journal + d[geo.journal].body.start && tags == d[at].body.tags && |keep| <= |tags| + 3
    requires ClearKept(geo, d, h, e, at, |tags|, keep) && Dirty(e[0])
    requires (0 < |keep| ==> !keep[0])
          && (|tags| + 1 < |keep| ==> !keep[|tags| + 1]) && (|tags| + 2 < |keep| ==> !keep[|tags| + 2])
    ensures e[at] == d[at] && e[geo.journal] == d[geo.journal] && geo.Safe(TagTargets(tags))
    ensures forall t | 0 <= t < |tags| ::
      DecodedHomes(e, at, tags)[t] ==
      if t + 1 < |keep| && keep[t + 1] then Decode(ZERO, tags[t].escaped) else DecodedHomes(d, at, tags)[t]
    ensures Replayable(geo, e) <==> forall t | 0 <= t < |tags| && t + 1 < |keep| && keep[t + 1] :: tags[t].target != 0
  {
    hide Geometry.Safe;
    var n := |tags|;
    assert e[at] == d[at] && e[at + 1 + n] == d[at + 1 + n];
    var homes := DecodedHomes(e, at, tags);
    forall t | 0 <= t < n
      ensures homes[t] == if t + 1 < |keep| && keep[t + 1] then Decode(ZERO, tags[t].escaped) else DecodedHomes(d, at, tags)[t]
    {
      assert e[at + 1 + t] == if t + 1 < |keep| && keep[t + 1] then ZERO else d[at + 1 + t];
    }
    if t :| 0 <= t < n && t + 1 < |keep| && keep[t + 1] && tags[t].target == 0 {
      assert !Dirty(homes[t]);
    }
  }

  lemma SameDecoded(geo: Geometry, d: Disk, e: Disk, at: nat, tags: seq<Tag>, keep: seq<bool>)
    requires |d| == |e| && at + |tags| < |d|
    requires forall t | 0 <= t < |tags| ::
      DecodedHomes(e, at, tags)[t] ==
      if t + 1 < |keep| && keep[t + 1] then Decode(ZERO, tags[t].escaped) else DecodedHomes(d, at, tags)[t]
    ensures DecodedHomes(e, at, tags) == DecodedHomes(d, at, tags) <==>
      forall t | 0 <= t < |tags| && t + 1 < |keep| && keep[t + 1] ::
        Decode(d[at + 1 + t], tags[t].escaped) == Decode(ZERO, tags[t].escaped)
  {
    var homes, olds := DecodedHomes(e, at, tags), DecodedHomes(d, at, tags);
    if homes == olds {
      forall t | 0 <= t < |tags| && t + 1 < |keep| && keep[t + 1]
        ensures Decode(d[at + 1 + t], tags[t].escaped) == Decode(ZERO, tags[t].escaped)
      {
        assert homes[t] == olds[t];
      }
    }
  }

  lemma ActiveMounts(geo: Geometry, e: Disk)
    requires geo.Fits(e) && Dirty(e[0]) && JournalSbOk(geo, e[geo.journal]) && e[geo.journal].body.start != 0
    ensures Recovery(geo, e).Mounted? <==> Replayable(geo, e) && e[geo.journal].body.sequence < MAX_SEQUENCE
  {
  }

  lemma UnreplayableMeaning(geo: Geometry, e: Disk)
    requires geo.Fits(e) && Dirty(e[0]) && !Replayable(geo, e)
    requires JournalSbOk(geo, e[geo.journal]) && e[geo.journal].body.start != 0
    ensures Logical(geo, e) == Content(geo, e)
  {
  }

  /** Two different sets of homes outside block 0 give two different contents. */
  lemma HomesDiffer(geo: Geometry, d: Disk, e: Disk, targets: seq<nat>, olds: seq<Block>, homes: seq<Block>)
    requires geo.Fits(d) && geo.Fits(e) && geo.Safe(targets) && |olds| == |homes| == |targets|
    requires forall a | 0 <= a < |d| && !geo.InJournal(a) :: e[a] == Run(d, HomeWrites(targets, olds))[a]
    requires forall t | 0 <= t < |targets| && targets[t] == 0 :: homes[t] == olds[t]
    ensures Content(geo, Run(e, HomeWrites(targets, homes))) == Content(geo, Run(d, HomeWrites(targets, olds)))
            <==> homes == olds
  {
    hide Run, HomeWrites, Content;
    AllHomesLand(geo, d, targets, olds);
    AllHomesLand(geo, e, targets, homes);
    var f, h := Run(e, HomeWrites(targets, homes)), Run(d, HomeWrites(targets, olds));
    assert forall i | 0 <= i < |targets| :: targets[i] < |d| && !geo.InJournal(targets[i]);
    hide Geometry.Safe;
    if homes == olds {
      forall a | 0 <= a < |d| && !geo.InJournal(a) ensures f[a] == h[a] {
        if a in targets {
          var t := IndexOf(targets, a);
          assert f[targets[t]] == h[targets[t]];
        }
      }
      EqualContent(geo, f, h);
    } else {
      var t :| 0 <= t < |targets| && homes[t] != olds[t];
      assert f[targets[t]] != h[targets[t]];
      UnequalContent(geo, f, h, targets[t]);
    }
  }

  lemma EqualContent(geo: Geometry, f: Disk, h: Disk)
    requires geo.Fits(f) && geo.Fits(h)
    requires forall a | 0 <= a < |f| && !geo.InJournal(a) :: f[a] == h[a]
    ensures Content(geo, f) == Content(geo, h)
  {
  }

  lemma UnequalContent(geo: Geometry, f: Disk, h: Disk, a: nat)
    requires geo.Fits(f) && geo.Fits(h) && 0 < a < |f| && !geo.InJournal(a) && f[a] != h[a]
    ensures Content(geo, f) != Content(geo, h)
  {
    assert Content(geo, f)[a] != Content(geo, h)[a];
  }

  // ---------------------------------------------------------------- theorems

  /**
   Recovery under reordering: a crash during recovery that keeps an arbitrary
   subset of the unflushed writes loses nothing, if and only if it is not a torn clear,
   and a later mount ends, if and only if this one could and it is not a stuck clear.
   */
  lemma MountReordered(geo: Geometry, d: Disk, i: nat, j: nat, keep: seq<bool>)
    requires geo.Fits(d) && CrashPoint(Recovery(geo, d).ops, i, j) && |keep| == j - i
    ensures Logical(geo, CrashDisk(d, Recovery(geo, d).ops, i, j, keep)) == Logical(geo, d)
            <==> !TornClear(geo, d, i, keep)
    ensures Recovery(geo, CrashDisk(d, Recovery(geo, d).ops, i, j, keep)).Mounted?
            <==> Recovery(geo, d).Mounted? && !StuckClear(geo, d, i, keep)
  {
    hide Run, Logical, TornClear, StuckClear, CrashDisk, TransactionAt;
    if Replayable(geo, d) {
      ReplayReordered(geo, d, i, j, keep);
    } else {
      var ops := Recovery(geo, d).ops;
      assert |ops| == 2 ==> ops[1].Flush?;
      var k := if keep == [true] then j else i;
      NoTornClear(geo, d, i, keep);
      NoStuckClear(geo, d, i, k, keep);
      KeptOne(d, ops, i, j, keep);
      MountTransparent(geo, d, k);
    }
  }

  lemma NoTornClear(geo: Geometry, d: Disk, i: nat, keep: seq<bool>)
    requires geo.Fits(d)
    requires !Replayable(geo, d) || i != |d[geo.journal + d[geo.journal].body.start].body.tags| + 1
             || d[geo.journal].body.sequence == MAX_SEQUENCE
    ensures !TornClear(geo, d, i, keep)
  {
  }

  lemma NoStuckClear(geo: Geometry, d: Disk, i: nat, k: nat, keep: seq<bool>)
    requires geo.Fits(d)
    requires !Replayable(geo, d) || i != |d[geo.journal + d[geo.journal].body.start].body.tags| + 1 || keep == []
    requires Replayable(geo, d) ==> var n := |d[geo.journal + d[geo.journal].body.start].body.tags|; k <= n + 1 || 2 * n + 3 < k
    ensures !StuckClear(geo, d, i, keep) && !CutInClear(geo, d, k)
  {
  }

  lemma ReplayReordered(geo: Geometry, d: Disk, i: nat, j: nat, keep: seq<bool>)
    requires geo.Fits(d) && Replayable(geo, d) && CrashPoint(Recovery(geo, d).ops, i, j) && |keep| == j - i
    ensures Logical(geo, CrashDisk(d, Recovery(geo, d).ops, i, j, keep)) == Logical(geo, d)
            <==> !TornClear(geo, d, i, keep)
    ensures Recovery(geo, CrashDisk(d, Recovery(geo, d).ops, i, j, keep)).Mounted?
            <==> Recovery(geo, d).Mounted? && !StuckClear(geo, d, i, keep)
  {
    hide Run, Logical, TornClear, StuckClear, Recovery, CrashDisk, TransactionAt;
    var ops := Recovery(geo, d).ops;
    var n := ReplayShape(geo, d);
    if i <= n {
      NoTornClear(geo, d, i, keep);
      NoStuckClear(geo, d, i, 0, keep);
      HomesReordered(geo, d, j, keep);
    } else if i == n + 1 && d[geo.journal].body.sequence < MAX_SEQUENCE {
      ClearReordered(geo, d, j, keep);
    } else {
      var k := if keep == [true] then j else i;
      NoTornClear(geo, d, i, keep);
      NoStuckClear(geo, d, i, k, keep);
      KeptOne(d, ops, i, j, keep);
      MountTransparent(geo, d, k);
    }
  }

  /** Where the flushes fall among the requests of a replay. */
  lemma ReplayShape(geo: Geometry, d: Disk) returns (n: nat)
    requires geo.Fits(d) && Replayable(geo, d)
    ensures n == |d[geo.journal + d[geo.journal].body.start].body.tags|
    ensures var ops := Recovery(geo, d).ops;
      && n < |ops| && ops[n].Flush? && (forall x | 0 <= x < n :: ops[x].Write?)
      && if d[geo.journal].body.sequence == MAX_SEQUENCE then |ops| == n + 1 else
           |ops| == 2 * n + 7 && ops[2 * n + 4].Flush? && ops[2 * n + 6].Flush? && ops[2 * n + 5].Write?
           && (forall x | n + 1 <= x < 2 * n + 4 :: ops[x].Write?) && Recovery(geo, d).Mounted?
  {
    hide FinalFs, DecodedHomes, TagTargets, Geometry.Safe;
    n := |d[geo.journal + d[geo.journal].body.start].body.tags|;
  }

  lemma ClearReordered(geo: Geometry, d: Disk, j: nat, keep: seq<bool>)
    requires geo.Fits(d) && Replayable(geo, d) && d[geo.journal].body.sequence < MAX_SEQUENCE
    requires var n := |d[geo.journal + d[geo.journal].body.start].body.tags|;
      n + 1 <= j <= 2 * n + 4 && |keep| == j - n - 1 && j <= |Recovery(geo, d).ops|
    ensures var n := |d[geo.journal + d[geo.journal].body.start].body.tags|;
      && (Logical(geo, CrashDisk(d, Recovery(geo, d).ops, n + 1, j, keep)) == Logical(geo, d)
          <==> !TornClear(geo, d, n + 1, keep))
      && (Recovery(geo, CrashDisk(d, Recovery(geo, d).ops, n + 1, j, keep)).Mounted? <==> !StuckClear(geo, d, n + 1, keep))
  {
    hide Run, Logical, TornClear, StuckClear, Content, FinalFs, Kept, Geometry.Safe;
    var sb := d[geo.journal].body;
    var at := geo.journal + sb.start;
    var tags := d[at].body.tags;
    var n := |tags|;
    var targets, homes := TagTargets(tags), DecodedHomes(d, at, tags);
    var w, rest := HomeWrites(targets, homes), CleanupOps(geo, at, sb.sequence, d[0], targets, homes);
    var ops := w + [Flush] + rest;
    assert Recovery(geo, d).ops == ops;
    hide Recovery, TransactionAt, CheckpointOps;
    assert ops[..n + 1] == w + [Flush];
    RunHomesFlush(d, w);
    assert rest[..n + 3] == ClearTail(geo, at, n, sb.sequence);
    assert ops[n + 1..j] == ClearTail(geo, at, n, sb.sequence)[..|keep|];
    var h := Run(d, w);
    assert w[..n] == w;
    HomesWritten(geo, d, n);
    ClearWindow(geo, d, h, at, n, keep);
    ReplayResult(geo, d);
    ClearOutcome(geo, d, h, CrashDisk(d, ops, n + 1, j, keep), keep);
  }

  lemma HomesReordered(geo: Geometry, d: Disk, j: nat, keep: seq<bool>)
    requires geo.Fits(d) && Replayable(geo, d)
    requires j == |keep| <= |d[geo.journal + d[geo.journal].body.start].body.tags|
    ensures j <= |Recovery(geo, d).ops|
    ensures Logical(geo, CrashDisk(d, Recovery(geo, d).ops, 0, j, keep)) == Logical(geo, d)
    ensures Recovery(geo, CrashDisk(d, Recovery(geo, d).ops, 0, j, keep)) == Recovery(geo, d)
  {
    hide Run, Kept, Logical, FinalFs;
    var at := geo.journal + d[geo.journal].body.start;
    var tags := d[at].body.tags;
    var targets, homes := TagTargets(tags), DecodedHomes(d, at, tags);
    var w, ops := HomeWrites(targets, homes), Recovery(geo, d).ops;
    assert ops[0..j] == w[..j] && ops[..0] == [];
    RunNothing(d);
    hide Recovery;
    var pending := w[..j];
    var e := Run(d, Kept(pending, keep));
    assert forall x | 0 <= x < j :: pending[x] == Write(targets[x], homes[x]);
    forall a | 0 <= a < |d| && a !in targets ensures e[a] == d[a] {
      KeptMisses(d, pending, keep, a);
    }
    forall x, y | 0 <= x < y < j ensures pending[x].at != pending[y].at {
      DistinctTargets(geo, targets, x, y);
    }
    if x :| 0 <= x < j && targets[x] == 0 {
      assert Dirty(homes[x]);
      KeptLands(d, pending, keep, x);
    } else {
      KeptMisses(d, pending, keep, 0);
    }
    ReplaySame(geo, d, e);
  }

  /**
   The multi-block commit under reordering. Before the commit record is flushed, a
   crash yields the old or the new file system according to whether the record was
   kept. Afterwards the transaction survives every crash that is not a torn clear, and no other;
   and recovery ends after every crash that is not a stuck clear, and no other.
   */
  lemma CommitReordered(geo: Geometry, d: Disk, sequence: Sequence, targets: seq<nat>, homes: seq<Block>,
                        i: nat, j: nat, keep: seq<bool>)
    requires geo.Fits(d) && CommitAccepts(geo, d, sequence, targets, homes)
    requires CrashPoint(CommitOps(geo, d, sequence, targets, homes), i, j) && |keep| == j - i
    ensures
      var e := CrashDisk(d, CommitOps(geo, d, sequence, targets, homes), i, j, keep);
      var committed := CommitPoint(targets) + 2;
      if i < committed then
        Logical(geo, e) == if i == CommitPoint(targets) && keep == [true] then Overlay(Content(geo, d), targets, homes)
                           else Content(geo, d)
      else
        Logical(geo, e) == Overlay(Content(geo, d), targets, homes)
        <==> !TornClear(geo, Committed(geo, d, sequence, targets, homes), i - committed, keep)
    ensures
      var e := CrashDisk(d, CommitOps(geo, d, sequence, targets, homes), i, j, keep);
      var committed := CommitPoint(targets) + 2;
      Recovery(geo, e).Mounted? <==>
        if i < committed then
          i < 2 || (i == 2 && keep != [true]) || (sequence < MAX_SEQUENCE && i == CommitPoint(targets) && keep == [true])
        else
          sequence < MAX_SEQUENCE && !StuckClear(geo, Committed(geo, d, sequence, targets, homes), i - committed, keep)
  {
    hide Run, Logical, Content, TornClear, StuckClear, Recovery, CheckpointOps, Committed, CrashDisk, Overlay;
    var desired := Desired(targets, homes);
    var ops := CommitOps(geo, d, sequence, targets, homes);
    var prepare := PrepareOps(geo, d[0], sequence, targets, desired);
    var committed := |prepare|;
    if i < committed {
      assert ops[committed - 1].Flush? && j < committed;
      CleanMeaning(geo, d);
      PrepareReordered(geo, d, sequence, targets, homes, i, j, keep);
    } else {
      CommittedTail(geo, d, sequence, targets, homes, i, j, keep);
    }
  }

  lemma CommittedTail(geo: Geometry, d: Disk, sequence: Sequence, targets: seq<nat>, homes: seq<Block>,
                      i: nat, j: nat, keep: seq<bool>)
    requires geo.Fits(d) && CommitAccepts(geo, d, sequence, targets, homes)
    requires CrashPoint(CommitOps(geo, d, sequence, targets, homes), i, j) && |keep| == j - i
    requires CommitPoint(targets) + 2 <= i
    ensures
      var e := CrashDisk(d, CommitOps(geo, d, sequence, targets, homes), i, j, keep);
      Logical(geo, e) == Overlay(Content(geo, d), targets, homes)
      <==> !TornClear(geo, Committed(geo, d, sequence, targets, homes), i - CommitPoint(targets) - 2, keep)
    ensures
      var e := CrashDisk(d, CommitOps(geo, d, sequence, targets, homes), i, j, keep);
      var m := Committed(geo, d, sequence, targets, homes);
      Recovery(geo, e).Mounted? <==> sequence < MAX_SEQUENCE && !StuckClear(geo, m, i - CommitPoint(targets) - 2, keep)
  {
    hide Run, Logical, Content, TornClear, StuckClear, Recovery, CheckpointOps, Committed, Overlay, Kept, Desired,
      CrashDisk, CrashPoint;
    var prepare := PrepareOps(geo, d[0], sequence, targets, Desired(targets, homes));
    var m, c := Committed(geo, d, sequence, targets, homes), |prepare|;
    PrepareRuns(geo, d, sequence, targets, homes);
    CommittedReplays(geo, d, sequence, targets, homes);
    var rest := Recovery(geo, m).ops;
    assert CommitOps(geo, d, sequence, targets, homes) == prepare + rest;
    CrashConcat(d, prepare, rest, i, j, keep);
    CommittedMounts(geo, d, sequence, targets, homes);
    MountReordered(geo, m, i - c, j - c, keep);
  }

  /** While the records are being written, a crash leaves the old file system until the commit record is kept. */
  lemma PrepareReordered(geo: Geometry, d: Disk, sequence: Sequence, targets: seq<nat>, homes: seq<Block>,
                         i: nat, j: nat, keep: seq<bool>)
    requires geo.Fits(d) && CommitAccepts(geo, d, sequence, targets, homes)
    requires CrashPoint(CommitOps(geo, d, sequence, targets, homes), i, j) && |keep| == j - i
    requires i <= j < CommitPoint(targets) + 2
    ensures Logical(geo, CrashDisk(d, CommitOps(geo, d, sequence, targets, homes), i, j, keep)) ==
      if i == CommitPoint(targets) && keep == [true] then Overlay(Logical(geo, d), targets, homes) else Logical(geo, d)
    ensures Recovery(geo, CrashDisk(d, CommitOps(geo, d, sequence, targets, homes), i, j, keep)).Mounted? <==>
      i < 2 || (i == 2 && keep != [true]) || (sequence < MAX_SEQUENCE && i == CommitPoint(targets) && keep == [true])
  {
    hide Run, Logical, Content, Recovery, CheckpointOps, CrashDisk, Overlay, Desired;
    var ops := CommitOps(geo, d, sequence, targets, homes);
    CommitLength(geo, d, sequence, targets, homes);
    assert ops[1].Flush? && ops[3].Flush? && ops[5 + |targets|].Flush?;
    if j <= i + 1 {
      KeptOne(d, ops, i, j, keep);
      CommitAtomic(geo, d, sequence, targets, homes, if keep == [true] then j else i);
    } else {
      assert i == 4;
      RecordsReordered(geo, d, sequence, targets, homes, j, keep);
    }
  }

  lemma RecordsReordered(geo: Geometry, d: Disk, sequence: Sequence, targets: seq<nat>, homes: seq<Block>,
                         j: nat, keep: seq<bool>)
    requires geo.Fits(d) && CommitAccepts(geo, d, sequence, targets, homes)
    requires 4 <= j <= 5 + |targets| && |keep| == j - 4
    ensures j <= |CommitOps(geo, d, sequence, targets, homes)|
    ensures Logical(geo, CrashDisk(d, CommitOps(geo, d, sequence, targets, homes), 4, j, keep)) == Logical(geo, d)
    ensures Recovery(geo, CrashDisk(d, CommitOps(geo, d, sequence, targets, homes), 4, j, keep)).Halted?
  {
    hide Run, Content, CheckpointOps, Desired, Kept;
    var ops := CommitOps(geo, d, sequence, targets, homes);
    CommitLength(geo, d, sequence, targets, homes);
    var desired := Desired(targets, homes);
    var tags := TagsFor(targets, desired);
    var d2 := d[0 := WithRecover(d[0], true)][geo.journal := JournalSb(sequence, geo.first)];
    ActiveDisk(geo, d, sequence, ops);
    var at, n := geo.journal + geo.first, |targets|;
    var pending := ops[4..j];
    assert forall x | 0 <= x < |pending| ::
      pending[x] == Write(at + x, if x == 0 then Block(true, Descriptor(sequence, tags)) else Encode(desired[x - 1]));
    var e := Run(d2, Kept(pending, keep));
    forall a | 0 <= a < |d| && !(at <= a < at + 1 + n) ensures e[a] == d2[a] {
      KeptMisses(d2, pending, keep, a);
    }
    if 0 < |pending| {
      KeptLands(d2, pending, keep, 0);
    } else {
      KeptMisses(d2, pending, keep, at);
    }
    SameContent(geo, e, d);
    UncommittedHalts(geo, e, n);
    RunNothing(e);
    CleanMeaning(geo, d);
  }

  lemma ActiveDisk(geo: Geometry, d: Disk, sequence: Sequence, ops: seq<Op>)
    requires geo.Fits(d) && d[0].body.FsSuper? && 4 <= |ops|
    requires ops[..4] == [Write(0, WithRecover(d[0], true)), Flush, Write(geo.journal, JournalSb(sequence, geo.first)), Flush]
    ensures Run(d, ops[..4]) == d[0 := WithRecover(d[0], true)][geo.journal := JournalSb(sequence, geo.first)]
  {
    var a, b := [ops[0], Flush], [ops[2], Flush];
    assert ops[..4][0] == ops[0] && ops[..4][2] == ops[2];
    assert ops[..4] == a + b;
    RunConcat(d, a, b);
    RunPair(d, ops[0], Flush);
    RunPair(d[0 := WithRecover(d[0], true)], ops[2], Flush);
  }

  /**
   The hazard is real: every transaction with a non-blank home outside block 0 has a
   crash, after its commit record and its homes were flushed, that recovery turns
   into a lost block.
   */
  lemma TornClearLoses(geo: Geometry, d: Disk, sequence: Sequence, targets: seq<nat>, homes: seq<Block>, t: nat)
    requires geo.Fits(d) && CommitAccepts(geo, d, sequence, targets, homes) && sequence < MAX_SEQUENCE
    requires t < |targets| && targets[t] != 0 && homes[t].body != Blank
    ensures
      var ops := CommitOps(geo, d, sequence, targets, homes);
      var i := CommitPoint(targets) + |targets| + 3;
      var keep := seq(t + 2, x => x == t + 1);
      && CrashPoint(ops, i, i + t + 2)
      && Logical(geo, CrashDisk(d, ops, i, i + t + 2, keep)) != Overlay(Content(geo, d), targets, homes)
  {
    hide Run, Logical, Content, Recovery, CheckpointOps, Committed, CrashDisk, Overlay, Desired, Kept, CommitOps, TornClear;
    var i, keep := CommitPoint(targets) + |targets| + 3, seq(t + 2, x => x == t + 1);
    ClearCrashPoint(geo, d, sequence, targets, homes, t);
    TornWitness(geo, d, Committed(geo, d, sequence, targets, homes), sequence, targets, homes, t, keep);
    CommitReordered(geo, d, sequence, targets, homes, i, i + t + 2, keep);
  }

  lemma ClearCrashPoint(geo: Geometry, d: Disk, sequence: Sequence, targets: seq<nat>, homes: seq<Block>, t: nat)
    requires geo.Fits(d) && CommitAccepts(geo, d, sequence, targets, homes) && sequence < MAX_SEQUENCE && t < |targets|
    ensures var i := CommitPoint(targets) + |targets| + 3;
      CrashPoint(CommitOps(geo, d, sequence, targets, homes), i, i + t + 2)
  {
    hide Run, Recovery, CheckpointOps, Committed, Desired, TransactionAt;
    var n := |targets|;
    var ops := CommitOps(geo, d, sequence, targets, homes);
    var prepare := PrepareOps(geo, d[0], sequence, targets, Desired(targets, homes));
    var m := Committed(geo, d, sequence, targets, homes);
    CommittedRecords(geo, d, sequence, targets, homes);
    CommittedReplays(geo, d, sequence, targets, homes);
    var n' := ReplayShape(geo, m);
    var rest := Recovery(geo, m).ops;
    assert forall x | |prepare| <= x < |ops| :: ops[x] == rest[x - |prepare|];
  }

  lemma TornWitness(geo: Geometry, d: Disk, m: Disk, sequence: Sequence, targets: seq<nat>, homes: seq<Block>, t: nat,
                    keep: seq<bool>)
    requires geo.Fits(d) && CommitAccepts(geo, d, sequence, targets, homes) && sequence < MAX_SEQUENCE
    requires geo.Fits(m) && m == Committed(geo, d, sequence, targets, homes)
    requires t < |targets| && targets[t] != 0 && homes[t].body != Blank
    requires |keep| == t + 2 && keep[t + 1] && forall x | 0 <= x <= t :: !keep[x]
    ensures TornClear(geo, m, |targets| + 1, keep)
  {
    hide Run, Logical, Content, Recovery, CheckpointOps, Committed, Overlay, TransactionAt;
    CommittedRecords(geo, d, sequence, targets, homes);
    CommittedReplays(geo, d, sequence, targets, homes);
    var at := geo.journal + geo.first;
    var tags := TagsFor(targets, Desired(targets, homes));
    assert m[at].body.tags == tags && |tags| == |targets|;
    assert DecodedHomes(m, at, tags)[t] == homes[t];
    assert Decode(m[at + 1 + t], tags[t].escaped) == homes[t];
  }
}

/**
 The requests that a journal commit and a journal recovery send to the disk,
 as functions of what is on the disk. JournalEngine proves that the commit and
 recovery code issues exactly these requests.
 */
module Journal {
  import opened Blocks
  import opened Storage

  const MAX_TAGS := 8

  /** Where the journal lies: an extent of `length` blocks from `journal`, on a disk of `count` blocks. */
  datatype Geometry = Geometry(journal: nat, length: nat, first: nat, count: nat) {
    predicate Valid() {
      0 < journal && 0 < first < length && journal + length <= count <= 0x1_0000_0000
    }

    predicate InJournal(a: nat) {
      journal <= a < journal + length
    }

    predicate Fits(d: Disk) {
      Valid() && |d| == count
    }

    /** The targets are on the disk, outside the journal and pairwise distinct. */
    predicate Safe(targets: seq<nat>) {
      forall i | 0 <= i < |targets| ::
        targets[i] < count && !InJournal(targets[i]) && targets[i] !in targets[..i]
    }
  }

  // ---------------------------------------------------------------- blocks

  function WithRecover(b: Block, recover: bool): Block
    requires b.body.FsSuper?
  {
    b.(body := b.body.(recover := recover))
  }

  predicate Dirty(b: Block) {
    b.body.FsSuper? && b.body.recover
  }

  predicate Clean(b: Block) {
    b.body.FsSuper? && !b.body.recover
  }

  function JournalSb(sequence: Sequence, start: nat): Block {
    Block(true, JournalSuper(sequence, start))
  }

  predicate JournalSbOk(geo: Geometry, b: Block) {
    && b.magic && b.body.JournalSuper? && b.body.sequence != 0
    && (b.body.start == 0 || geo.first <= b.body.start < geo.length)
  }

  /** A home block as it is stored in the journal: a leading JBD2 magic is blanked and noted in the tag. */
  function Encode(home: Block): Block {
    home.(magic := false)
  }

  function Decode(logged: Block, escaped: bool): Block {
    if escaped then logged.(magic := true) else logged
  }

  function TagsFor(targets: seq<nat>, homes: seq<Block>): seq<Tag>
    requires |targets| == |homes|
  {
    seq(|targets|, i requires 0 <= i < |targets| => Tag(targets[i], homes[i].magic))
  }

  function TagTargets(tags: seq<Tag>): (targets: seq<nat>)
    ensures |targets| == |tags|
  {
    seq(|tags|, i requires 0 <= i < |tags| => tags[i].target)
  }

  function DecodedHomes(d: Disk, at: nat, tags: seq<Tag>): (homes: seq<Block>)
    requires at + |tags| < |d|
    ensures |homes| == |tags|
  {
    seq(|tags|, i requires 0 <= i < |tags| => Decode(d[at + 1 + i], tags[i].escaped))
  }

  function IndexOf(targets: seq<nat>, a: nat): (i: nat)
    requires a in targets
    ensures i < |targets| && targets[i] == a && a !in targets[..i]
  {
    if targets[0] == a then 0 else 1 + IndexOf(targets[1..], a)
  }

  // ---------------------------------------------------------------- batches of requests

  function HomeWrites(targets: seq<nat>, homes: seq<Block>): (ops: seq<Op>)
    requires |targets| == |homes|
    ensures |ops| == |targets|
  {
    seq(|targets|, i requires 0 <= i < |targets| => Write(targets[i], homes[i]))
  }

  function DataWrites(at: nat, homes: seq<Block>): seq<Op> {
    seq(|homes|, i requires 0 <= i < |homes| => Write(at + i, Encode(homes[i])))
  }

  function ClearWrites(at: nat, n: nat): seq<Op> {
    seq(n, i requires 0 <= i < n => Write(at + i, ZERO))
  }

  /** Block 0 as it is left at the end: the journaled superblock if it was a target, else the one read at the start. */
  function FinalFs(fs: Block, targets: seq<nat>, homes: seq<Block>): Block
    requires |targets| == |homes| && fs.body.FsSuper?
    requires forall i | 0 <= i < |targets| && targets[i] == 0 :: homes[i].body.FsSuper?
  {
    WithRecover(if 0 in targets then homes[IndexOf(targets, 0)] else fs, false)
  }

  function CleanupOps(geo: Geometry, at: nat, sequence: Sequence, fs: Block, targets: seq<nat>, homes: seq<Block>): seq<Op>
    requires |targets| == |homes| && fs.body.FsSuper?
    requires forall i | 0 <= i < |targets| && targets[i] == 0 :: homes[i].body.FsSuper?
  {
    if sequence == MAX_SEQUENCE then [] else
      ClearWrites(at, |targets| + 2)
      + [Write(geo.journal, JournalSb(sequence + 1, 0)), Flush,
         Write(0, FinalFs(fs, targets, homes)), Flush]
  }

  /**
   Write the homes, then clear the records, deactivate the journal and clear the
   recovery flag. A sequence number that cannot be advanced stops the kernel
   after the homes are flushed.
   */
  function CheckpointOps(geo: Geometry, at: nat, sequence: Sequence, fs: Block, targets: seq<nat>, homes: seq<Block>): seq<Op>
    requires |targets| == |homes| && fs.body.FsSuper?
    requires forall i | 0 <= i < |targets| && targets[i] == 0 :: homes[i].body.FsSuper?
  {
    HomeWrites(targets, homes) + [Flush] + CleanupOps(geo, at, sequence, fs, targets, homes)
  }

  // ---------------------------------------------------------------- recovery

  /** What a mount does: the requests it issues, and whether it ends mounted or halts the kernel. */
  datatype Outcome = Mounted(ops: seq<Op>) | Halted(ops: seq<Op>)

  predicate TransactionAt(geo: Geometry, d: Disk, at: nat, sequence: Sequence)
    requires geo.Fits(d) && geo.InJournal(at)
  {
    && d[at].magic && d[at].body.Descriptor?
    && d[at].body.descriptorSequence == sequence
    && var tags := d[at].body.tags;
       && 1 <= |tags| <= MAX_TAGS
       && at + 1 + |tags| < geo.journal + geo.length
       && d[at + 1 + |tags|] == Block(true, Commit(sequence))
       && geo.Safe(TagTargets(tags))
       && forall i | 0 <= i < |tags| && tags[i].target == 0 :: Dirty(DecodedHomes(d, at, tags)[i])
  }

  /** The disk holds an active journal with a complete, acceptable transaction. */
  predicate Replayable(geo: Geometry, d: Disk)
    requires geo.Fits(d)
  {
    && Dirty(d[0])
    && JournalSbOk(geo, d[geo.journal])
    && d[geo.journal].body.start != 0
    && TransactionAt(geo, d, geo.journal + d[geo.journal].body.start, d[geo.journal].body.sequence)
  }

  function Recovery(geo: Geometry, d: Disk): Outcome
    requires geo.Fits(d)
  {
    if Clean(d[0]) then Mounted([])
    else if !Dirty(d[0]) || !JournalSbOk(geo, d[geo.journal]) then Halted([])
    else
      var sb := d[geo.journal].body;
      if sb.start == 0 then Mounted([Write(0, WithRecover(d[0], false)), Flush])
      else if !Replayable(geo, d) then Halted([])
      else
        var at := geo.journal + sb.start;
        var tags := d[at].body.tags;
        var ops := CheckpointOps(geo, at, sb.sequence, d[0], TagTargets(tags), DecodedHomes(d, at, tags));
        if sb.sequence == MAX_SEQUENCE then Halted(ops) else Mounted(ops)
  }

  // ---------------------------------------------------------------- commit

  /** A clean disk whose journal is idle at `sequence`, with `n + 2` blank record blocks. */
  predicate Idle(geo: Geometry, d: Disk, sequence: Sequence, n: nat)
    requires geo.Fits(d) && geo.first + n + 1 < geo.length
  {
    && Clean(d[0])
    && sequence != 0 && d[geo.journal] == JournalSb(sequence, 0)
    && forall a | geo.journal + geo.first <= a < geo.journal + geo.first + n + 2 :: d[a] == ZERO
  }

  /** Exactly the checks that the multi-block commit makes before it writes anything. */
  predicate CommitAccepts(geo: Geometry, d: Disk, sequence: Sequence, targets: seq<nat>, homes: seq<Block>)
    requires geo.Fits(d)
  {
    && |homes| == |targets| && 1 <= |targets| <= MAX_TAGS
    && geo.first + |targets| + 1 < geo.length
    && geo.Safe(targets)
    && Idle(geo, d, sequence, |targets|)
    && forall i | 0 <= i < |targets| && targets[i] == 0 :: homes[i].body.FsSuper?
  }

  /** The homes as they are journaled: a new superblock is journaled with the recovery flag set. */
  function Desired(targets: seq<nat>, homes: seq<Block>): (r: seq<Block>)
    requires |homes| == |targets|
    requires forall i | 0 <= i < |targets| && targets[i] == 0 :: homes[i].body.FsSuper?
    ensures |r| == |targets|
    ensures forall i | 0 <= i < |targets| && targets[i] == 0 :: Dirty(r[i])
  {
    seq(|targets|, i requires 0 <= i < |targets| =>
      if targets[i] == 0 then WithRecover(homes[i], true) else homes[i])
  }

  /** Set the recovery flag, activate the journal, log the descriptor and the data, and then the commit record. */
  function RecordOps(geo: Geometry, fs: Block, sequence: Sequence, targets: seq<nat>, homes: seq<Block>): (ops: seq<Op>)
    requires |targets| == |homes| && fs.body.FsSuper?
    ensures |ops| == 6 + |targets|
  {
    [Write(0, WithRecover(fs, true)), Flush,
     Write(geo.journal, JournalSb(sequence, geo.first)), Flush,
     Write(geo.journal + geo.first, Block(true, Descriptor(sequence, TagsFor(targets, homes))))]
    + DataWrites(geo.journal + geo.first + 1, homes)
    + [Flush]
  }

  function PrepareOps(geo: Geometry, fs: Block, sequence: Sequence, targets: seq<nat>, homes: seq<Block>): (ops: seq<Op>)
    requires |targets| == |homes| && fs.body.FsSuper?
    ensures |ops| == 8 + |targets|
  {
    RecordOps(geo, fs, sequence, targets, homes)
    + [Write(geo.journal + geo.first + 1 + |targets|, Block(true, Commit(sequence))), Flush]
  }

  function CommitOps(geo: Geometry, d: Disk, sequence: Sequence, targets: seq<nat>, homes: seq<Block>): seq<Op>
    requires geo.Fits(d) && CommitAccepts(geo, d, sequence, targets, homes)
  {
    var desired := Desired(targets, homes);
    PrepareOps(geo, d[0], sequence, targets, desired)
    + CheckpointOps(geo, geo.journal + geo.first, sequence, WithRecover(d[0], true), targets, desired)
  }

  /** The checks that the single-block commit makes, of a target on the disk: it does not look at where the target lies. */
  predicate SingleAccepts(geo: Geometry, d: Disk, sequence: Sequence, target: nat)
    requires geo.Fits(d)
  {
    geo.first + 2 < geo.length && target < geo.count && Idle(geo, d, sequence, 1)
  }

  /** The single-block commit flushes each step of the clean-up separately and blanks the records last. */
  function SingleOps(geo: Geometry, d: Disk, sequence: Sequence, target: nat, home: Block): seq<Op>
    requires geo.Fits(d) && SingleAccepts(geo, d, sequence, target)
  {
    PrepareOps(geo, d[0], sequence, [target], [home])
    + [Write(target, home), Flush]
    + if sequence == MAX_SEQUENCE then [] else
        [Write(geo.journal, JournalSb(sequence + 1, 0)), Flush,
         Write(0, WithRecover(d[0], false)), Flush]
        + ClearWrites(geo.journal + geo.first, 3) + [Flush]
  }

  // ---------------------------------------------------------------- what a disk means

  /** The file system proper: every block outside the journal, with the recovery flag of block 0 ignored. */
  function Content(geo: Geometry, d: Disk): (c: Disk)
    requires geo.Fits(d)
    ensures |c| == |d|
  {
    seq(|d|, a requires 0 <= a < |d| =>
      if geo.InJournal(a) then ZERO
      else if a == 0 && d[0].body.FsSuper? then WithRecover(d[0], false)
      else d[a])
  }

  /** What the file system holds once the disk has been mounted: the meaning of a disk found after a crash. */
  function Logical(geo: Geometry, d: Disk): (c: Disk)
    requires geo.Fits(d)
    ensures |c| == |d|
  {
    Content(geo, Run(d, Recovery(geo, d).ops))
  }

  /** The content with one whole transaction applied. */
  function Overlay(c: Disk, targets: seq<nat>, homes: seq<Block>): (r: Disk)
    requires |homes| == |targets|
    requires forall i | 0 <= i < |targets| && targets[i] == 0 :: homes[i].body.FsSuper?
    ensures |r| == |c|
  {
    seq(|c|, a requires 0 <= a < |c| =>
      if a !in targets then c[a]
      else if a == 0 then WithRecover(homes[IndexOf(targets, 0)], false)
      else homes[IndexOf(targets, a)])
  }
}

/**
 Whole lifetimes of a disk: any sequence of transactions of both kinds, power cuts, and mounts
 that may themselves be cut short, with writes persisting in issue order.
 */
module JournalHistory {
  import opened Blocks
  import opened Storage
  import opened Journal
  import opened JournalCrash
  import opened JournalSingle

  /** `persisted` is the number of requests that reach the disk before the power goes, if it does. */
  datatype Event =
    | Transaction(sequence: Sequence, targets: seq<nat>, homes: seq<Block>, persisted: nat)
    | Single(sequence: Sequence, target: nat, home: Block, persisted: nat)
    | Mount(persisted: nat)
  {
    function Targets(): seq<nat> {
      match this
      case Transaction(_, targets, _, _) => targets
      case Single(_, target, _, _) => [target]
      case Mount(_) => []
    }

    function Homes(): seq<Block> {
      match this
      case Transaction(_, _, homes, _) => homes
      case Single(_, _, home, _) => [home]
      case Mount(_) => []
    }

    /** A single block stored is an ordinary one: the code does not check it, and SingleStores says what it does then. */
    predicate Proper(geo: Geometry) {
      Single? ==> target != 0 && !geo.InJournal(target)
    }
  }

  /** The kernel is running on the disk, or has halted or lost power. */
  datatype Machine = Up(disk: Disk) | Down(disk: Disk)

  function Min(a: nat, b: nat): nat {
    if a <= b then a else b
  }

  /** Whether the commit goes ahead; otherwise the kernel stops. */
  predicate Accepts(geo: Geometry, d: Disk, event: Event)
    requires geo.Fits(d)
  {
    match event
    case Transaction(sequence, targets, homes, _) => CommitAccepts(geo, d, sequence, targets, homes)
    case Single(sequence, target, _, _) => SingleAccepts(geo, d, sequence, target)
    case Mount(_) => true
  }

  /** The requests the event issues unless it is cut short. */
  function Requests(geo: Geometry, d: Disk, event: Event): seq<Op>
    requires geo.Fits(d) && Accepts(geo, d, event)
  {
    match event
    case Transaction(sequence, targets, homes, _) => CommitOps(geo, d, sequence, targets, homes)
    case Single(sequence, target, home, _) => SingleOps(geo, d, sequence, target, home)
    case Mount(_) => Recovery(geo, d).ops
  }

  /** Whether the kernel carries on after the last request. */
  predicate Returns(geo: Geometry, d: Disk, event: Event)
    requires geo.Fits(d)
  {
    if event.Mount? then Recovery(geo, d).Mounted? else event.sequence < MAX_SEQUENCE
  }

  function Next(geo: Geometry, m: Machine, event: Event): (m': Machine)
    requires geo.Fits(m.disk)
    ensures geo.Fits(m'.disk)
  {
    if m.Down? && !event.Mount? then m
    else if !Accepts(geo, m.disk, event) then Down(m.disk)
    else
      var ops := Requests(geo, m.disk, event);
      var disk := Run(m.disk, ops[..Min(event.persisted, |ops|)]);
      if event.persisted >= |ops| && Returns(geo, m.disk, event) then Up(disk) else Down(disk)
  }

  function Exec(geo: Geometry, m: Machine, events: seq<Event>): (m': Machine)
    requires geo.Fits(m.disk)
    ensures geo.Fits(m'.disk)
    decreases |events|
  {
    if events == [] then m else Exec(geo, Next(geo, m, events[0]), events[1..])
  }

  /** A transaction is begun on the running kernel. */
  predicate Begins(geo: Geometry, m: Machine, event: Event)
    requires geo.Fits(m.disk)
  {
    !event.Mount? && m.Up? && Accepts(geo, m.disk, event)
  }

  /** The event is a transaction whose commit record reached the disk. */
  predicate TakesEffect(geo: Geometry, m: Machine, event: Event)
    requires geo.Fits(m.disk)
  {
    Begins(geo, m, event) && event.persisted > CommitPoint(event.Targets())
  }

  predicate AllProper(geo: Geometry, events: seq<Event>) {
    forall i | 0 <= i < |events| :: events[i].Proper(geo)
  }

  /** What the file system should hold: the effective transactions applied whole, in order, and nothing else. */
  function Expected(geo: Geometry, m: Machine, events: seq<Event>, content: Disk): Disk
    requires geo.Fits(m.disk) && AllProper(geo, events)
    decreases |events|
  {
    if events == [] then content else
      var content' :=
        if TakesEffect(geo, m, events[0]) then Overlay(content, events[0].Targets(), events[0].Homes()) else content;
      Expected(geo, Next(geo, m, events[0]), events[1..], content')
  }

  /** The cut leaves a disk that no mount can use any more. */
  predicate Strands(geo: Geometry, m: Machine, event: Event)
    requires geo.Fits(m.disk)
  {
    match event
    case Transaction(sequence, targets, _, persisted) =>
      Begins(geo, m, event) && !MountsAfterCut(|targets|, sequence, persisted)
    case Single(sequence, _, _, persisted) => Begins(geo, m, event) && !SingleMountsAfterCut(sequence, persisted)
    case Mount(persisted) => CutInClear(geo, m.disk, persisted)
  }

  predicate NeverStrands(geo: Geometry, m: Machine, events: seq<Event>)
    requires geo.Fits(m.disk)
    decreases |events|
  {
    events == [] || (!Strands(geo, m, events[0]) && NeverStrands(geo, Next(geo, m, events[0]), events[1..]))
  }

  /** The running kernel always sits on a clean disk, so what it sees is what the disk means. */
  predicate Sound(m: Machine) {
    m.disk != [] && (m.Up? ==> Clean(m.disk[0]))
  }

  lemma RequestCount(geo: Geometry, d: Disk, event: Event)
    requires geo.Fits(d) && Accepts(geo, d, event) && !event.Mount?
    ensures |Requests(geo, d, event)| > CommitPoint(event.Targets())
    ensures var n, c := |event.Targets()|, |Requests(geo, d, event)|;
      if event.Transaction? then c == (if event.sequence < MAX_SEQUENCE then 15 + 3 * n else 9 + 2 * n)
      else c == (if event.sequence < MAX_SEQUENCE then 19 else 11)
  {
    hide Run, Recovery;
    if event.Transaction? {
      CommitLength(geo, d, event.sequence, event.targets, event.homes);
    }
  }

  /** A transaction that returns to its caller has taken effect. */
  lemma ReturnedTookEffect(geo: Geometry, m: Machine, event: Event)
    requires geo.Fits(m.disk) && m.Up? && !event.Mount? && Next(geo, m, event).Up?
    ensures TakesEffect(geo, m, event)
  {
    hide Run, Logical, Recovery, Requests;
    RequestCount(geo, m.disk, event);
  }

  lemma StepAtomic(geo: Geometry, m: Machine, event: Event)
    requires geo.Fits(m.disk) && Sound(m) && event.Proper(geo)
    ensures Sound(Next(geo, m, event))
    ensures Logical(geo, Next(geo, m, event).disk) ==
            if TakesEffect(geo, m, event) then Overlay(Logical(geo, m.disk), event.Targets(), event.Homes())
            else Logical(geo, m.disk)
    ensures Recovery(geo, Next(geo, m, event).disk).Mounted? <==>
            Recovery(geo, m.disk).Mounted? && !Strands(geo, m, event)
  {
    hide Run, Logical, Recovery, Overlay, CommitOps, SingleOps, CommitAccepts, SingleAccepts, MountsAfterCut,
      SingleMountsAfterCut, CutInClear;
    if event.Mount? {
      MountStep(geo, m, event.persisted);
    } else if Begins(geo, m, event) {
      CleanMounts(geo, m.disk);
      if event.Transaction? {
        TransactionStep(geo, m.disk, event);
      } else {
        SingleStep(geo, m.disk, event);
      }
    }
  }

  lemma TransactionStep(geo: Geometry, d: Disk, event: Event)
    requires geo.Fits(d) && event.Transaction? && Accepts(geo, d, event)
    ensures var m := Next(geo, Up(d), event);
      && (m.Up? ==> Clean(m.disk[0]))
      && Logical(geo, m.disk) == (if event.persisted > CommitPoint(event.targets)
                                  then Overlay(Logical(geo, d), event.targets, event.homes) else Logical(geo, d))
      && (Recovery(geo, m.disk).Mounted? <==> MountsAfterCut(|event.targets|, event.sequence, event.persisted))
  {
    hide Run, Logical, Recovery, Overlay, CommitOps, CommitAccepts;
    var ops := CommitOps(geo, d, event.sequence, event.targets, event.homes);
    var k := Min(event.persisted, |ops|);
    RequestCount(geo, d, event);
    CommitAtomic(geo, d, event.sequence, event.targets, event.homes, k);
    if event.persisted >= |ops| && event.sequence < MAX_SEQUENCE {
      assert ops[..k] == ops;
      CommitCompletes(geo, d, event.sequence, event.targets, event.homes);
    }
  }

  lemma SingleStep(geo: Geometry, d: Disk, event: Event)
    requires geo.Fits(d) && event.Single? && Accepts(geo, d, event) && event.Proper(geo)
    ensures var m := Next(geo, Up(d), event);
      && (m.Up? ==> Clean(m.disk[0]))
      && Logical(geo, m.disk) == (if event.persisted > SINGLE_COMMIT_POINT
                                  then Overlay(Logical(geo, d), [event.target], [event.home]) else Logical(geo, d))
      && (Recovery(geo, m.disk).Mounted? <==> SingleMountsAfterCut(event.sequence, event.persisted))
  {
    hide Run, Logical, Recovery, Overlay, SingleOps, SingleAccepts;
    var ops := SingleOps(geo, d, event.sequence, event.target, event.home);
    var k := Min(event.persisted, |ops|);
    RequestCount(geo, d, event);
    SingleAtomic(geo, d, event.sequence, event.target, event.home, k);
    if event.persisted >= |ops| && event.sequence < MAX_SEQUENCE {
      SingleTail(geo, d, event.sequence, event.target, event.home, k);
      SingleClean(geo, d, event.sequence, event.target);
    }
  }

  lemma MountStep(geo: Geometry, m: Machine, persisted: nat)
    requires geo.Fits(m.disk)
    ensures var m' := Next(geo, m, Mount(persisted));
      && (m'.Up? ==> Clean(m'.disk[0]))
      && Logical(geo, m'.disk) == Logical(geo, m.disk)
      && (Recovery(geo, m'.disk).Mounted? <==> Recovery(geo, m.disk).Mounted? && !CutInClear(geo, m.disk, persisted))
  {
    hide Run, Logical, Recovery, CutInClear;
    var out := Recovery(geo, m.disk);
    var k := Min(persisted, |out.ops|);
    MountTransparent(geo, m.disk, k);
    if k == |out.ops| {
      assert out.ops[..k] == out.ops;
      MountSettles(geo, m.disk);
      NotCut(geo, m.disk, persisted);
    }
  }

  /** A mount that is not cut short is not cut in its clearing. */
  lemma NotCut(geo: Geometry, d: Disk, persisted: nat)
    requires geo.Fits(d) && persisted >= |Recovery(geo, d).ops|
    ensures Recovery(geo, d).Mounted? ==> !CutInClear(geo, d, persisted) && !CutInClear(geo, d, |Recovery(geo, d).ops|)
  {
    hide FinalFs, DecodedHomes, TagTargets, Geometry.Safe;
  }

  /**
   Atomicity and durability over every lifetime: whatever transactions are run and
   wherever the power is cut, any number of times and also during recovery, the disk
   means the effective transactions applied whole and in order.
   */
  lemma {:induction false} HistoryAtomic(geo: Geometry, m: Machine, events: seq<Event>)
    requires geo.Fits(m.disk) && Sound(m) && AllProper(geo, events)
    ensures Sound(Exec(geo, m, events))
    ensures Logical(geo, Exec(geo, m, events).disk) == Expected(geo, m, events, Logical(geo, m.disk))
    ensures Exec(geo, m, events).Up? ==>
      Content(geo, Exec(geo, m, events).disk) == Expected(geo, m, events, Logical(geo, m.disk))
    decreases |events|
  {
    hide Run, Logical, Recovery, Overlay, Content, Next, TakesEffect, Strands;
    if events == [] {
      if m.Up? { CleanMeaning(geo, m.disk); }
    } else {
      StepAtomic(geo, m, events[0]);
      HistoryAtomic(geo, Next(geo, m, events[0]), events[1..]);
    }
  }

  /** And the disk can be mounted at the end exactly if it could at the start and no cut stranded it on the way. */
  lemma {:induction false} HistoryMounts(geo: Geometry, m: Machine, events: seq<Event>)
    requires geo.Fits(m.disk) && Sound(m) && AllProper(geo, events)
    ensures Recovery(geo, Exec(geo, m, events).disk).Mounted? <==>
      Recovery(geo, m.disk).Mounted? && NeverStrands(geo, m, events)
    decreases |events|
  {
    hide Run, Logical, Recovery, Overlay, Content, Next, TakesEffect, Strands;
    if events != [] {
      StepAtomic(geo, m, events[0]);
      HistoryMounts(geo, Next(geo, m, events[0]), events[1..]);
    }
  }

  /** A transaction that is accepted and not cut short returns, and so does a mount of a disk that can be mounted. */
  lemma UncutReturns(geo: Geometry, m: Machine, event: Event)
    requires geo.Fits(m.disk) && (event.Mount? || m.Up?) && Accepts(geo, m.disk, event)
    requires event.persisted >= |Requests(geo, m.disk, event)|
    ensures Next(geo, m, event).Up? <==>
      if event.Mount? then Recovery(geo, m.disk).Mounted? else event.sequence < MAX_SEQUENCE
    ensures Next(geo, m, event).disk == Run(m.disk, Requests(geo, m.disk, event))
  {
    hide Run, Recovery, Accepts, Requests;
    var ops := Requests(geo, m.disk, event);
    assert ops[..|ops|] == ops;
  }
}

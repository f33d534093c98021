/**
 * The three-task executor and its halt, with interrupts at every point where they are enabled: no byte is lost
 * uncounted and the processor never halts on work.
 */
module Executor {
  import opened InputRing

  /** The places the desktop watches besides the ring: configuration, policy, wallpaper and surface. */
  const CHANNELS: nat := 4

  /**
   * What the block task can wait for: its start, a request to the disk, and what the desktop task posts to it, which
   * is a wallpaper request, a reload request, an acknowledgement, a surface event or bytes on the socket.
   */
  const SOURCES: nat := 7
  const START: nat := 0
  const DISK: nat := 1

  /**
   * Where the executor is. `Polling(next)` is the desktop task looking at a channel; then it reads the ring's tail,
   * head and cell and stores the tail. `Serving` is the block task's code between two waits, `owed` saying that a
   * publication has been made whose wake-up is still to come; `Checking` is its poll, with the sources not yet looked
   * at. `Masked` has interrupts off; `Halted` waits for one.
   */
  datatype Place =
    | Swapping
    | Polling(next: nat)
    | TailRead(tail: nat)
    | HeadRead(tail: nat)
    | CellRead(tail: nat, word: bv16)
    | Checking(left: set<nat>)
    | Serving(owed: bool)
    | Masking
    | Masked
    | Halted

  /**
   * The block task: its ready bit; whether it is due in this round; whether the desktop task has posted to it and is
   * still to wake it; whether the disk's interrupt is pending; what was posted and taken per source; and the sources
   * it waits for.
   */
  datatype BlockTask = BlockTask(
    ready: bool, due: bool, owes: bool, irq: bool, posted: seq<nat>, taken: seq<nat>, awaiting: set<nat>)
  {
    predicate Shaped() {
      |posted| == |taken| == SOURCES && forall k | k in awaiting :: k < SOURCES
    }
  }

  /** The input task's ready bit and the timer task's; generations published and seen per channel. */
  datatype State = State(
    place: Place, input: bool, timer: bool, block: BlockTask, ring: Ring, generation: seq<nat>, seen: seq<nat>,
    arrived: seq<RawByte>, accepted: seq<RawByte>, delivered: seq<RawByte>, dropped: nat)
  {
    predicate Shaped() {
      ring.Valid() && |generation| == |seen| == CHANNELS && block.Shaped()
    }

    predicate InterruptsOn() { !place.Masked? }

    /** Something awaits the desktop. */
    ghost predicate Work()
      requires Shaped()
    {
      ring.head != ring.tail || exists k | 0 <= k < CHANNELS :: generation[k] != seen[k]
    }
  }

  datatype Event =
    | Byte(b: RawByte)
    | OtherInterrupt(toInput: bool)
    | Complete
    | DiskInterrupt
    | Swap
    | Look
    | Post(source: nat)
    | WakeBlock
    | ReadTail
    | ReadHead
    | ReadCell
    | StoreTail
    | Examine(source: nat)
    | Publish(channel: nat)
    | WakeInput
    | Await(sources: set<nat>)
    | Finish
    | Mask
    | CheckReady

  function Init(): State {
    State(Swapping, true, true, BlockTask(true, false, false, false, [1, 0, 0, 0, 0, 0, 0], [0, 0, 0, 0, 0, 0, 0], {START}),
          Ring(seq(QUEUE_CAPACITY, _ => 0), 0, 0), [0, 0, 0, 0], [0, 0, 0, 0], [], [], [], 0)
  }

  /** An interrupt resumes a halted processor at the top of its loop. */
  function Resume(place: Place): Place {
    if place.Halted? then Swapping else place
  }

  /** Where the round goes on once the desktop task is done: to the block task if it is due. */
  function AfterInput(block: BlockTask): Place {
    if block.due then Checking(block.awaiting) else Masking
  }

  /** Interrupts, and the disk answering. */
  function InterruptStep(s: State, e: Event): (t: State)
    requires s.Shaped()
    ensures t.Shaped()
  {
    match e
    case Byte(b) =>
      if !s.InterruptsOn() then s
      else if s.ring.Full() then s.(dropped := s.dropped + 1, arrived := s.arrived + [b], place := Resume(s.place))
      else
        s.(ring := s.ring.Push(b), input := true, arrived := s.arrived + [b], accepted := s.accepted + [b],
           place := Resume(s.place))
    case OtherInterrupt(toInput) =>
      if !s.InterruptsOn() then s
      else s.(timer := s.timer || !toInput, input := s.input || toInput, place := Resume(s.place))
    case Complete => s.(block := Posted(s.block, DISK).(irq := true))
    case DiskInterrupt =>
      if s.InterruptsOn() && s.block.irq then s.(block := s.block.(irq := false, ready := true), place := Resume(s.place))
      else s
    case _ => s
  }

  /** Steps of the desktop task. */
  function DesktopStep(s: State, e: Event): (t: State)
    requires s.Shaped()
    ensures t.Shaped()
  {
    match e
    case Look =>
      if !s.place.Polling? || s.place.next >= CHANNELS || s.block.owes then s
      else if s.generation[s.place.next] != 0 && s.generation[s.place.next] != s.seen[s.place.next] then
        s.(seen := s.seen[s.place.next := s.generation[s.place.next]], place := Polling(0))
      else s.(place := Polling(s.place.next + 1))
    case Post(k) =>
      if s.place.Polling? && !s.block.owes && DISK < k < SOURCES then s.(block := Posted(s.block, k).(owes := true)) else s
    case WakeBlock =>
      if s.place.Polling? && s.block.owes then s.(block := s.block.(owes := false, ready := true)) else s
    case ReadTail =>
      if s.place == Polling(CHANNELS) && !s.block.owes then s.(place := TailRead(s.ring.tail)) else s
    case ReadHead =>
      if !s.place.TailRead? then s
      else if s.place.tail == s.ring.head then s.(place := AfterInput(s.block))
      else s.(place := HeadRead(s.place.tail))
    case ReadCell =>
      if s.place.HeadRead? && s.place.tail < QUEUE_CAPACITY
      then s.(place := CellRead(s.place.tail, s.ring.cells[s.place.tail])) else s
    case StoreTail =>
      if !s.place.CellRead? then s
      else
        s.(ring := s.ring.(tail := Wrap(s.place.tail + 1)), delivered := s.delivered + [Decode(s.place.word)],
           place := Polling(0))
    case _ => s
  }

  /** Steps of the block task. */
  function BlockStep(s: State, e: Event): (t: State)
    requires s.Shaped()
    ensures t.Shaped()
  {
    match e
    case Examine(k) =>
      if !s.place.Checking? || k !in s.place.left || k >= SOURCES then s
      else if s.block.posted[k] != s.block.taken[k] then
        s.(block := s.block.(taken := s.block.taken[k := s.block.posted[k]]), place := Serving(false))
      else s.(place := Checking(s.place.left - {k}))
    case Publish(k) =>
      if !s.place.Serving? || k >= CHANNELS then s
      else s.(generation := s.generation[k := s.generation[k] + 1], place := Serving(true))
    case WakeInput => if s.place.Serving? then s.(input := true, place := Serving(false)) else s
    case Await(sources) =>
      if s.place == Serving(false) && forall k | k in sources :: k < SOURCES then
        s.(block := s.block.(awaiting := sources), place := Checking(sources))
      else s
    case Finish => if s.place == Checking({}) then s.(place := Masking) else s
    case _ => s
  }

  /** Steps of the executor's own loop. */
  function LoopStep(s: State, e: Event): (t: State)
    requires s.Shaped()
    ensures t.Shaped()
  {
    match e
    case Swap =>
      if !s.place.Swapping? then s
      else
        var block := s.block.(ready := false, due := s.block.ready);
        s.(input := false, timer := false, block := block, place := if s.input then Polling(0) else AfterInput(block))
    case Mask => if s.place.Masking? then s.(place := Masked) else s
    case CheckReady =>
      if !s.place.Masked? then s
      else if s.input || s.timer || s.block.ready then s.(place := Swapping)
      else s.(place := Halted)
    case _ => s
  }

  function Step(s: State, e: Event): (t: State)
    requires s.Shaped()
    ensures t.Shaped()
  {
    if e.Byte? || e.OtherInterrupt? || e.Complete? || e.DiskInterrupt? then InterruptStep(s, e)
    else if e.Swap? || e.Mask? || e.CheckReady? then LoopStep(s, e)
    else if e.Examine? || e.Publish? || e.WakeInput? || e.Await? || e.Finish? then BlockStep(s, e)
    else DesktopStep(s, e)
  }

  function Posted(block: BlockTask, k: nat): BlockTask
    requires block.Shaped() && k < SOURCES
  {
    block.(posted := block.posted[k := block.posted[k] + 1])
  }

  function Run(s: State, events: seq<Event>): (t: State)
    requires s.Shaped()
    ensures t.Shaped()
    decreases |events|
  {
    if events == [] then s else Run(Step(s, events[0]), events[1..])
  }

  /** Nothing awaits the desktop in the channels before this one. */
  predicate SeenBelow(s: State, n: nat)
    requires |s.generation| == |s.seen| == CHANNELS && n <= CHANNELS
  {
    forall k | 0 <= k < n :: s.generation[k] == s.seen[k]
  }

  /** Work is noticed: the input bit is set, or a wake-up is owed, or the desktop task has yet to look. */
  predicate Noticed(s: State)
    requires s.Shaped()
  {
    match s.place
    case Polling(next) => next <= CHANNELS && SeenBelow(s, next)
    case TailRead(tail) => SeenBelow(s, CHANNELS) && tail == s.ring.tail
    case HeadRead(tail) => SeenBelow(s, CHANNELS) && tail == s.ring.tail && s.ring.head != s.ring.tail
    case CellRead(tail, word) =>
      SeenBelow(s, CHANNELS) && tail == s.ring.tail && s.ring.head != s.ring.tail && word == s.ring.cells[tail]
    case Serving(true) => s.ring.head == s.ring.tail || s.input
    case Halted => s.ring.head == s.ring.tail && SeenBelow(s, CHANNELS)
    case _ => s.input || (s.ring.head == s.ring.tail && SeenBelow(s, CHANNELS))
  }

  /** What the sources outside `left` have posted to the waiting block task has been taken, or the disk will interrupt. */
  predicate TakenBut(block: BlockTask, left: set<nat>)
    requires block.Shaped()
  {
    forall k | k in block.awaiting && k !in left :: block.posted[k] == block.taken[k] || (k == DISK && block.irq)
  }

  /** And so are the block task's posts: its bit is set, a wake-up is owed, or it is due or still to look. */
  predicate BlockNoticed(s: State)
    requires s.Shaped()
  {
    match s.place
    case Polling(_) => s.block.ready || s.block.due || s.block.owes || TakenBut(s.block, {})
    case TailRead(_) => !s.block.owes && (s.block.ready || s.block.due || TakenBut(s.block, {}))
    case HeadRead(_) => !s.block.owes && (s.block.ready || s.block.due || TakenBut(s.block, {}))
    case CellRead(_, _) => !s.block.owes && (s.block.ready || s.block.due || TakenBut(s.block, {}))
    case Checking(left) => !s.block.owes && (s.block.ready || TakenBut(s.block, left))
    case Serving(_) => !s.block.owes
    case Halted => !s.block.owes && TakenBut(s.block, {})
    case _ => !s.block.owes && (s.block.ready || TakenBut(s.block, {}))
  }

  predicate Inv(s: State) {
    && s.Shaped() && BlockNoticed(s)
    && (forall k | 0 <= k < CHANNELS :: s.seen[k] <= s.generation[k])
    && (s.place.Halted? ==> !s.input && !s.timer && !s.block.ready)
    && Noticed(s)
    && s.accepted == s.delivered + s.ring.Queued()
    && |s.arrived| == |s.accepted| + s.dropped
  }

  lemma ByteInv(s: State, b: RawByte)
    requires Inv(s)
    ensures Inv(InterruptStep(s, Byte(b)))
  {
    hide Wrap, Encode, Decode, TakenBut;
    if s.InterruptsOn() && !s.ring.Full() {
      PushQueued(s.ring, b);
      FullCount(s.ring);
      assert s.delivered + (s.ring.Queued() + [b]) == s.accepted + [b];
    }
  }

  lemma StoreTailInv(s: State)
    requires Inv(s)
    ensures Inv(DesktopStep(s, StoreTail))
  {
    hide Wrap, Decode, TakenBut;
    if s.place.CellRead? {
      PopQueued(s.ring);
      var head := [Decode(s.ring.cells[s.ring.tail])];
      assert s.delivered + (head + s.ring.Pop().Queued()) == s.delivered + head + s.ring.Pop().Queued();
    }
  }

  lemma DesktopInv(s: State, e: Event)
    requires Inv(s) && !e.StoreTail?
    ensures Inv(DesktopStep(s, e))
  {
    hide Wrap, Encode, Decode, Ring.Queued;
  }

  lemma BlockInv(s: State, e: Event)
    requires Inv(s)
    ensures Inv(BlockStep(s, e))
  {
    hide Wrap, Encode, Decode, Ring.Queued;
  }

  lemma InterruptInv(s: State, e: Event)
    requires Inv(s) && !e.Byte?
    ensures Inv(InterruptStep(s, e))
  {
    hide Wrap, Encode, Decode, Ring.Queued;
  }

  lemma LoopInv(s: State, e: Event)
    requires Inv(s)
    ensures Inv(LoopStep(s, e))
  {
    hide Wrap, Encode, Decode, Ring.Queued;
  }

  lemma StepInv(s: State, e: Event)
    requires Inv(s)
    ensures Inv(Step(s, e))
  {
    hide InterruptStep, DesktopStep, BlockStep, LoopStep, Inv;
    LoopInv(s, e);
    BlockInv(s, e);
    if e.Byte? {
      ByteInv(s, e.b);
    } else {
      InterruptInv(s, e);
    }
    if e.StoreTail? {
      StoreTailInv(s);
    } else {
      DesktopInv(s, e);
    }
  }

  lemma {:induction false} RunInv(s: State, events: seq<Event>)
    requires Inv(s)
    ensures Inv(Run(s, events))
    decreases |events|
  {
    if events != [] {
      StepInv(s, events[0]);
      RunInv(Step(s, events[0]), events[1..]);
    }
  }

  lemma InitInv()
    ensures Inv(Init())
  {
  }

  /** In every interleaving with interrupts, the processor halts only when nothing awaits the desktop. */
  lemma NoLostWakeUp(events: seq<Event>)
    ensures Run(Init(), events).place.Halted? ==> !Run(Init(), events).Work()
  {
    InitInv();
    RunInv(Init(), events);
  }

  /**
   * And only when the block task has nothing to take up from what it waits for, unless it is the disk's answer and
   * its interrupt is about to come.
   */
  lemma NoLostBlockWakeUp(events: seq<Event>)
    ensures var s := Run(Init(), events);
      s.place.Halted? ==> forall k | k in s.block.awaiting && !(k == DISK && s.block.irq) :: s.block.posted[k] == s.block.taken[k]
  {
    InitInv();
    RunInv(Init(), events);
  }

  /**
   * A halted processor has no wake-up pending, and an interrupt starts the loop again, with the desktop exactly if it is
   * for the desktop.
   */
  lemma InterruptResumes(events: seq<Event>, toInput: bool)
    requires Run(Init(), events).place.Halted?
    ensures var s := Run(Init(), events);
      && !s.input && !s.timer && !s.block.ready
      && Step(Step(s, OtherInterrupt(toInput)), Swap).place == if toInput then Polling(0) else Masking
  {
    InitInv();
    RunInv(Init(), events);
    hide Run, Noticed, BlockNoticed;
  }

  /** Bytes are delivered in the order they were accepted, none twice; those that found the ring full are counted. */
  lemma NoLostByte(events: seq<Event>)
    ensures var s := Run(Init(), events);
      s.accepted == s.delivered + s.ring.Queued() && |s.arrived| == |s.accepted| + s.dropped
  {
    InitInv();
    RunInv(Init(), events);
  }

  /** The desktop task, having found nothing published, takes the oldest byte of a ring that is not empty. */
  lemma TakesOldest(events: seq<Event>)
    requires var s := Run(Init(), events);
      s.place == Polling(CHANNELS) && !s.block.owes && s.ring.head != s.ring.tail
    ensures var s := Run(Init(), events);
      var t := Step(Step(Step(Step(s, ReadTail), ReadHead), ReadCell), StoreTail);
      s.ring.Queued() != [] && t.delivered == s.delivered + [s.ring.Queued()[0]] && t.ring.Queued() == s.ring.Queued()[1..]
  {
    InitInv();
    RunInv(Init(), events);
    hide Run, Inv, Step;
    TakeOne(Run(Init(), events));
  }

  lemma TakeOne(s: State)
    requires s.Shaped() && s.place == Polling(CHANNELS) && !s.block.owes && s.ring.head != s.ring.tail
    ensures var t := Step(Step(Step(Step(s, ReadTail), ReadHead), ReadCell), StoreTail);
      s.ring.Queued() != [] && t.delivered == s.delivered + [s.ring.Queued()[0]] && t.ring.Queued() == s.ring.Queued()[1..]
  {
    hide Wrap, Decode, AfterInput, Ring.Queued;
    var s1 := Step(s, ReadTail);
    assert s1 == s.(place := TailRead(s.ring.tail));
    var s2 := Step(s1, ReadHead);
    assert s2 == s.(place := HeadRead(s.ring.tail));
    var s3 := Step(s2, ReadCell);
    assert s3 == s.(place := CellRead(s.ring.tail, s.ring.cells[s.ring.tail]));
    PopQueued(s.ring);
  }

  /** The block task takes up whatever it waits for and finds posted, and a finished poll lets the loop go on. */
  lemma TakesPosted(events: seq<Event>, k: nat)
    requires var s := Run(Init(), events); s.place.Checking? && k in s.place.left && k < SOURCES
    ensures var s := Run(Init(), events);
      var t := Step(s, Examine(k));
      if s.block.posted[k] != s.block.taken[k]
      then t.place == Serving(false) && t.block.taken[k] == s.block.posted[k]
      else t.place == Checking(s.place.left - {k})
  {
    hide Run;
  }
}

/**
 * Client surfaces: the client's commit fills the bank that is not on screen, the desktop shows it, acknowledges it and
 * then records which bank is on screen. Every step is one access to shared memory.
 */
module SurfaceBanks {
  import opened Sizes
  import opened Wrappers

  datatype Writer =
    | Resting
    | Checked
    | Filling(bank: nat)
    | Announced(bank: nat)

  /** `Counted` is the acknowledgement half made: the generation is acknowledged, the active bank not yet recorded. */
  datatype Renderer =
    | Waiting
    | Looked(seen: nat)
    | Reading(seen: nat, from: nat)
    | Holding(seen: nat)
    | Counted(seen: nat, bank: nat)

  datatype State<T> = State(
    banks: seq<T>, published: Option<nat>, active: Option<nat>, generation: nat, acknowledged: nat, writer: Writer,
    renderer: Renderer, mine: nat, inUse: Option<nat>, log: seq<T>)
  {
    function Held(): set<nat> {
      (if inUse.Some? then {inUse.value} else {}) + (if renderer.Reading? then {renderer.from} else {})
    }

    predicate Safe() {
      writer.Filling? ==> writer.bank !in Held()
    }

    predicate AcknowledgementDue() {
      renderer.Holding? ==>
        renderer.seen > 0 && renderer.seen == generation && published.Some? && acknowledged == renderer.seen - 1
    }
  }

  datatype Event<T> =
    | Check
    | ChooseBank
    | Store(value: T)
    | Announce
    | Publish
    | LoadGeneration
    | LoadBank
    | Adopt
    | Count
    | RecordActive

  function Init<T>(first: T, second: T): State<T> {
    State([first, second], None, None, 0, 0, Resting, Waiting, 0, None, [])
  }

  function Step<T>(s: State<T>, e: Event<T>): (t: State<T>)
    requires |s.banks| == 2
    ensures |t.banks| == 2
  {
    match e
    case Check => if s.writer.Resting? && s.generation == s.acknowledged then s.(writer := Checked) else s
    case ChooseBank =>
      if s.writer.Checked? then s.(writer := Filling(if s.active == Some(0) then 1 else 0)) else s
    case Store(value) =>
      if s.writer.Filling? && s.writer.bank < 2 then s.(banks := s.banks[s.writer.bank := value]) else s
    case Announce =>
      if !s.writer.Filling? then s
      else if s.generation >= U64_MAX then s.(writer := Resting)
      else s.(published := Some(s.writer.bank), writer := Announced(s.writer.bank))
    case Publish =>
      if s.writer.Announced? && s.writer.bank < 2
      then s.(generation := s.generation + 1, writer := Resting, log := s.log + [s.banks[s.writer.bank]]) else s
    case LoadGeneration => if s.renderer.Waiting? then s.(renderer := Looked(s.generation)) else s
    case LoadBank =>
      if !s.renderer.Looked? then s
      else if s.renderer.seen == 0 || s.renderer.seen == s.mine || s.published.None? then s.(renderer := Waiting)
      else s.(renderer := Reading(s.renderer.seen, s.published.value))
    case Adopt =>
      if s.renderer.Reading?
      then s.(inUse := Some(s.renderer.from), mine := s.renderer.seen, renderer := Holding(s.renderer.seen)) else s
    case Count =>
      if s.renderer.Holding? && s.AcknowledgementDue()
      then s.(acknowledged := s.renderer.seen, renderer := Counted(s.renderer.seen, s.published.value)) else s
    case RecordActive =>
      if s.renderer.Counted? then s.(active := Some(s.renderer.bank), renderer := Waiting) else s
  }

  /** The client picks a bank between the two halves of an acknowledgement. */
  predicate Races<T>(s: State<T>, e: Event<T>) {
    e.ChooseBank? && s.writer.Checked? && s.renderer.Counted?
  }

  function Run<T>(s: State<T>, events: seq<Event<T>>): (t: State<T>)
    requires |s.banks| == 2
    ensures |t.banks| == 2
    decreases |events|
  {
    if events == [] then s else Run(Step(s, events[0]), events[1..])
  }

  predicate RaceFree<T>(s: State<T>, events: seq<Event<T>>)
    requires |s.banks| == 2
    decreases |events|
  {
    events == [] || (!Races(s, events[0]) && RaceFree(Step(s, events[0]), events[1..]))
  }

  predicate Settled<T>(s: State<T>) {
    && s.generation == s.acknowledged == s.mine
    && (s.renderer.Waiting? || s.renderer == Looked(s.mine)) && s.inUse == s.active
  }

  predicate HalfAcknowledged<T>(s: State<T>) {
    && s.generation == s.acknowledged == s.mine && s.renderer.Counted?
    && s.inUse == s.published == Some(s.renderer.bank) && s.active != s.published
  }

  predicate Pending<T>(s: State<T>) {
    && s.generation == s.acknowledged + 1 && s.published.Some? && s.published != s.active
    && match s.renderer
       case Waiting => s.mine == s.acknowledged && s.inUse == s.active
       case Looked(seen) => s.mine == s.acknowledged && s.inUse == s.active && (seen == s.generation || seen == s.mine)
       case Reading(seen, from) =>
         s.mine == s.acknowledged && s.inUse == s.active && seen == s.generation && Some(from) == s.published
       case Holding(seen) => s.mine == seen == s.generation && s.inUse == s.published
       case Counted(_, _) => false
  }

  ghost predicate Inv<T>(s: State<T>) {
    && |s.banks| == 2 && |s.log| == s.generation && s.mine <= s.generation
    && (s.published.Some? ==> s.published.value < 2) && (s.active.Some? ==> s.active.value < 2)
    && (s.active.None? && s.published.Some? ==> s.published.value == 0)
    && (s.active.None? && s.writer.Filling? ==> s.writer.bank == 0)
    && (s.inUse.Some? ==> s.inUse.value < 2 && s.mine > 0 && s.banks[s.inUse.value] == s.log[s.mine - 1])
    && (Pending(s) ==> s.banks[s.published.value] == s.log[s.generation - 1])
    && match s.writer
       case Resting => Settled(s) || HalfAcknowledged(s) || Pending(s)
       case Checked => Settled(s) || HalfAcknowledged(s)
       case Filling(bank) => Settled(s) && bank < 2 && s.active != Some(bank)
       case Announced(bank) => Settled(s) && bank < 2 && s.active != Some(bank) && s.published == Some(bank)
  }

  lemma WriterInv<T>(s: State<T>, e: Event<T>)
    requires Inv(s) && !Races(s, e) && (e.Check? || e.ChooseBank? || e.Store? || e.Announce? || e.Publish?)
    ensures Inv(Step(s, e))
  {
  }

  lemma RendererInv<T>(s: State<T>, e: Event<T>)
    requires Inv(s) && (e.LoadGeneration? || e.LoadBank? || e.Adopt? || e.Count? || e.RecordActive?)
    ensures Inv(Step(s, e))
  {
  }

  lemma StepInv<T>(s: State<T>, e: Event<T>)
    requires Inv(s) && !Races(s, e)
    ensures Inv(Step(s, e))
  {
    hide Inv, Step;
    if e.LoadGeneration? || e.LoadBank? || e.Adopt? || e.Count? || e.RecordActive? {
      RendererInv(s, e);
    } else {
      WriterInv(s, e);
    }
  }

  lemma {:induction false} RunInv<T>(s: State<T>, events: seq<Event<T>>)
    requires Inv(s) && RaceFree(s, events)
    ensures Inv(Run(s, events))
    decreases |events|
  {
    if events != [] {
      StepInv(s, events[0]);
      RunInv(Step(s, events[0]), events[1..]);
    }
  }

  /** As long as the client does not run between the two halves of an acknowledgement, all is safe. */
  lemma BankSafety<T>(first: T, second: T, events: seq<Event<T>>)
    requires RaceFree(Init(first, second), events)
    ensures var s := Run(Init(first, second), events);
      && s.Safe() && s.AcknowledgementDue() && s.acknowledged <= s.generation <= s.acknowledged + 1
      && |s.log| == s.generation
      && (s.inUse.Some? ==> s.inUse.value < 2 && 0 < s.mine <= |s.log| && s.banks[s.inUse.value] == s.log[s.mine - 1])
  {
    RunInv(Init(first, second), events);
  }

  /** The condition is exact: a step is safe if and only if it is not that race. */
  lemma RaceIsExact<T>(first: T, second: T, events: seq<Event<T>>, e: Event<T>)
    requires RaceFree(Init(first, second), events)
    ensures Step(Run(Init(first, second), events), e).Safe() <==> !Races(Run(Init(first, second), events), e)
  {
    var s := Run(Init(first, second), events);
    RunInv(Init(first, second), events);
    hide Run, RaceFree, Inv;
    if Races(s, e) {
      RaceUnsafe(s, e);
    } else {
      StepInv(s, e);
      InvSafe(Step(s, e));
    }
  }

  lemma InvSafe<T>(s: State<T>)
    requires Inv(s)
    ensures s.Safe()
  {
  }

  lemma RaceUnsafe<T>(s: State<T>, e: Event<T>)
    requires Inv(s) && Races(s, e)
    ensures !Step(s, e).Safe()
  {
    assert HalfAcknowledged(s);
  }

  /** And the race can come about: one commit, and the next begun as the first is being acknowledged. */
  lemma RaceHappens<T>(first: T, second: T, value: T) returns (events: seq<Event<T>>)
    ensures RaceFree(Init(first, second), events) && Races(Run(Init(first, second), events), ChooseBank)
  {
    var s0 := Init(first, second);
    var committed := State([value, second], Some(0), None, 1, 0, Resting, Waiting, 0, None, [value]);
    var a, b, c, d: seq<Event<T>> :=
      [Check, ChooseBank, Store(value)], [Announce, Publish, Check], [LoadGeneration, LoadBank, Adopt], [Count, Check, Check];
    CommitRuns(first, second, value);
    ShowRuns(second, value);
    hide Run, RaceFree;
    Concat(s0, a, b);
    Concat(committed, c, d);
    Concat(s0, a + b, c + d);
    events := a + b + (c + d);
  }

  lemma CommitRuns<T>(first: T, second: T, value: T)
    ensures var committed := State([value, second], Some(0), None, 1, 0, Resting, Waiting, 0, None, [value]);
      var s1 := Run(Init(first, second), [Check, ChooseBank, Store(value)]);
      && RaceFree(Init(first, second), [Check, ChooseBank, Store(value)])
      && RaceFree(s1, [Announce, Publish, Check]) && Run(s1, [Announce, Publish, Check]) == committed
  {
    Three(Init(first, second), Check, ChooseBank, Store(value));
    Three(Step(Step(Step(Init(first, second), Check), ChooseBank), Store(value)), Announce, Publish, Check);
  }

  lemma ShowRuns<T>(second: T, value: T)
    ensures var committed := State([value, second], Some(0), None, 1, 0, Resting, Waiting, 0, None, [value]);
      var s1 := Run(committed, [LoadGeneration, LoadBank, Adopt]);
      && RaceFree(committed, [LoadGeneration, LoadBank, Adopt]) && RaceFree(s1, [Count, Check, Check])
      && Run(s1, [Count, Check, Check]) ==
         committed.(acknowledged := 1, renderer := Counted(1, 0), mine := 1, inUse := Some(0), writer := Checked)
  {
    var committed := State([value, second], Some(0), None, 1, 0, Resting, Waiting, 0, None, [value]);
    Three(committed, LoadGeneration, LoadBank, Adopt);
    Three(Step(Step(Step(committed, LoadGeneration), LoadBank), Adopt), Count, Check, Check);
  }

  lemma Three<T>(s: State<T>, a: Event<T>, b: Event<T>, c: Event<T>)
    requires |s.banks| == 2
    ensures Run(s, [a, b, c]) == Step(Step(Step(s, a), b), c)
    ensures RaceFree(s, [a, b, c]) <==> !Races(s, a) && !Races(Step(s, a), b) && !Races(Step(Step(s, a), b), c)
  {
    hide Step, Races;
    assert [a, b, c][1..] == [b, c] && [b, c][1..] == [c];
    var s2 := Step(Step(s, a), b);
    assert Run(s2, [c]) == Step(s2, c);
    assert RaceFree(s2, [c]) <==> !Races(s2, c);
    assert RaceFree(Step(s, a), [b, c]) <==> !Races(Step(s, a), b) && RaceFree(s2, [c]);
  }

  lemma {:induction false} Concat<T>(s: State<T>, a: seq<Event<T>>, b: seq<Event<T>>)
    requires |s.banks| == 2
    ensures Run(s, a + b) == Run(Run(s, a), b)
    ensures RaceFree(s, a + b) <==> RaceFree(s, a) && RaceFree(Run(s, a), b)
    decreases |a|
  {
    if a == [] {
      assert a + b == b;
    } else {
      assert (a + b)[1..] == a[1..] + b;
      Concat(Step(s, a[0]), a[1..], b);
    }
  }

  /** In every such run a surface that awaits the desktop is put on screen by its next steps, and then acknowledged. */
  lemma TakenUp<T>(first: T, second: T, events: seq<Event<T>>)
    requires RaceFree(Init(first, second), events)
    requires var s := Run(Init(first, second), events); s.renderer.Waiting? && s.acknowledged < s.generation
    ensures var s := Run(Init(first, second), events);
      var seen := Step(Step(Step(s, LoadGeneration), LoadBank), Adopt);
      var t := Step(Step(seen, Count), RecordActive);
      && t.inUse.Some? && t.inUse.value < 2 && 0 < |s.log| && t.banks[t.inUse.value] == s.log[|s.log| - 1]
      && t.active == t.inUse && t.acknowledged == t.generation == s.generation && t.renderer.Waiting?
  {
    RunInv(Init(first, second), events);
    hide Run, RaceFree;
  }

  /** And with none awaiting, a client at rest publishes its surface. */
  lemma Published<T>(first: T, second: T, events: seq<Event<T>>, value: T)
    requires RaceFree(Init(first, second), events)
    requires var s := Run(Init(first, second), events);
      s.writer.Resting? && s.acknowledged == s.generation < U64_MAX && !s.renderer.Counted?
    ensures var s := Run(Init(first, second), events);
      var t := Step(Step(Step(Step(Step(s, Check), ChooseBank), Store(value)), Announce), Publish);
      t.log == s.log + [value] && t.generation == s.generation + 1 && t.writer.Resting?
  {
    RunInv(Init(first, second), events);
    hide Run, RaceFree;
  }
}

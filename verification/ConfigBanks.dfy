/**
 * The desktop configuration's two banks: one writer, one reader, every step one access to shared memory, in any
 * interleaving.
 */
module ConfigBanks {
  import opened Sizes
  import opened Wrappers

  /** Where the writer is: nothing claimed, flag claimed, generation checked, bank open, bank announced, letting go. */
  datatype Writer =
    | Resting
    | Claimed
    | Checked
    | Writing(bank: nat)
    | Announced(bank: nat)
    | Leaving

  /** Where the reader is: at rest, generation read, bank in hand, configuration replaced, generation consumed. */
  datatype Reader =
    | Waiting
    | Looked(seen: nat)
    | Reading(seen: nat, from: nat)
    | Switched(seen: nat)
    | Consumed(seen: nat)

  /**
   * `published` is None until the first publication; `inUse` is the bank the running configuration refers to; `log`
   * lists what was published, for the statements below.
   */
  datatype State<T> = State(
    banks: seq<T>, published: Option<nat>, generation: nat, consumed: nat, applied: nat, writing: bool,
    writer: Writer, reader: Reader, mine: nat, inUse: Option<nat>, log: seq<T>)
  {
    /** The banks the reader can still dereference. */
    function Held(): set<nat> {
      (if inUse.Some? then {inUse.value} else {}) + (if reader.Reading? then {reader.from} else {})
    }

    /** The writer's open bank is one the reader cannot reach. */
    predicate Safe() {
      (writer.Writing? || writer.Announced?) ==> writer.bank !in Held()
    }

    /** The acknowledgement about to be made is of the generation after the last one made. */
    predicate AcknowledgementDue() {
      reader.Consumed? ==> reader.seen > 0 && applied == reader.seen - 1
    }
  }

  datatype Event<T> =
    | ClaimFlag
    | CheckGeneration
    | ChooseBank
    | Store(value: T)
    | Announce
    | Publish
    | Cancel
    | ReleaseFlag
    | LoadGeneration
    | LoadBank
    | Switch
    | Consume
    | Acknowledge

  function Init<T>(first: T, second: T): State<T> {
    State([first, second], None, 0, 0, 0, false, Resting, Waiting, 0, None, [])
  }

  /** One step of the writer or the reader; an event whose turn it is not changes nothing. */
  function Step<T>(s: State<T>, e: Event<T>): (t: State<T>)
    requires |s.banks| == 2
    ensures |t.banks| == 2
  {
    match e
    case ClaimFlag =>
      if s.writer.Resting? && !s.writing then s.(writing := true, writer := Claimed) else s
    case CheckGeneration =>
      if !s.writer.Claimed? then s
      else if s.generation == s.consumed then s.(writer := Checked)
      else s.(writer := Leaving)
    case ChooseBank =>
      if s.writer.Checked? then s.(writer := Writing(if s.published == Some(0) then 1 else 0)) else s
    case Store(value) =>
      if s.writer.Writing? && s.writer.bank < 2 then s.(banks := s.banks[s.writer.bank := value]) else s
    case Announce =>
      if s.writer.Writing? then s.(published := Some(s.writer.bank), writer := Announced(s.writer.bank)) else s
    case Publish =>
      if s.writer.Announced? && s.writer.bank < 2 then
        s.(generation := SaturatingNext(s.generation), writer := Leaving, log := s.log + [s.banks[s.writer.bank]])
      else s
    case Cancel =>
      if s.writer.Writing? then s.(writer := Leaving) else s
    case ReleaseFlag =>
      if s.writer.Leaving? then s.(writing := false, writer := Resting) else s
    case LoadGeneration =>
      if s.reader.Waiting? then s.(reader := Looked(s.generation)) else s
    case LoadBank =>
      if !s.reader.Looked? then s
      else if s.reader.seen == 0 || s.reader.seen == s.mine || s.published.None? then s.(reader := Waiting)
      else s.(reader := Reading(s.reader.seen, s.published.value))
    case Switch =>
      if s.reader.Reading?
      then s.(inUse := Some(s.reader.from), mine := s.reader.seen, reader := Switched(s.reader.seen)) else s
    case Consume =>
      if s.reader.Switched? then s.(consumed := s.reader.seen, reader := Consumed(s.reader.seen)) else s
    case Acknowledge =>
      if s.reader.Consumed? && s.AcknowledgementDue() then s.(applied := s.reader.seen, reader := Waiting) else s
  }

  function SaturatingNext(generation: nat): nat {
    if generation >= U64_MAX then generation else generation + 1
  }

  function Run<T>(s: State<T>, events: seq<Event<T>>): (r: State<T>)
    requires |s.banks| == 2
    ensures |r.banks| == 2
    decreases |events|
  {
    if events == [] then s else Run(Step(s, events[0]), events[1..])
  }

  /** The published bank is the one in use: nothing is pending. */
  predicate Settled<T>(s: State<T>) {
    && s.consumed == s.generation == s.mine
    && (s.reader == Waiting || s.reader == Looked(s.generation) || s.reader == Consumed(s.generation))
    && (s.generation > 0 ==> s.inUse.Some?) && (s.generation == 0 ==> s.inUse.None?)
  }

  /** A publication awaits the reader, or the reader is part-way through it. */
  predicate Pending<T>(s: State<T>) {
    && s.generation == s.consumed + 1 && s.published.Some?
    && match s.reader
       case Waiting => s.mine == s.consumed && s.inUse != s.published
       case Looked(seen) => s.mine == s.consumed && s.inUse != s.published && (seen == s.generation || seen == s.consumed)
       case Reading(seen, from) =>
         s.mine == s.consumed && s.inUse != s.published && seen == s.generation && Some(from) == s.published
       case Switched(seen) => s.mine == seen == s.generation && s.inUse == s.published
       case Consumed(seen) => s.mine == seen == s.consumed && s.inUse != s.published
  }

  ghost predicate Inv<T>(s: State<T>) {
    && |s.banks| == 2 && (s.published.Some? ==> s.published.value < 2)
    && (s.writing <==> !s.writer.Resting?)
    && s.applied == (if s.reader.Consumed? then s.consumed - 1 else s.consumed)
    && |s.log| == s.generation && s.mine <= s.generation
    && (s.inUse.Some? ==> s.inUse.value < 2 && s.mine > 0 && s.banks[s.inUse.value] == s.log[s.mine - 1])
    && (Pending(s) ==> s.banks[s.published.value] == s.log[s.generation - 1])
    && (match s.writer
        case Announced(bank) => Settled(s) && bank < 2 && s.published == Some(bank) && s.inUse != Some(bank)
        case Writing(bank) => Settled(s) && s.published == s.inUse && bank < 2 && s.inUse != Some(bank)
        case Checked => Settled(s) && s.published == s.inUse
        case _ => (Settled(s) && s.published == s.inUse) || Pending(s))
  }

  lemma WriterInv<T>(s: State<T>, e: Event<T>)
    requires Inv(s) && |Step(s, e).log| <= U64_MAX
    requires e.ClaimFlag? || e.CheckGeneration? || e.ChooseBank? || e.Store? || e.Announce? || e.Publish? || e.Cancel?
    ensures Inv(Step(s, e))
  {
  }

  lemma ReaderInv<T>(s: State<T>, e: Event<T>)
    requires Inv(s)
    requires e.LoadGeneration? || e.LoadBank? || e.Switch? || e.Consume? || e.Acknowledge?
    ensures Inv(Step(s, e))
  {
  }

  lemma StepInv<T>(s: State<T>, e: Event<T>)
    requires Inv(s) && |Step(s, e).log| <= U64_MAX
    ensures Inv(Step(s, e))
  {
    if e.LoadGeneration? || e.LoadBank? || e.Switch? || e.Consume? || e.Acknowledge? {
      ReaderInv(s, e);
    } else if !e.ReleaseFlag? {
      WriterInv(s, e);
    }
  }

  lemma Monotone<T>(s: State<T>, e: Event<T>)
    requires |s.banks| == 2
    ensures |s.log| <= |Step(s, e).log| <= |s.log| + 1
  {
  }

  lemma {:induction false} RunMonotone<T>(s: State<T>, events: seq<Event<T>>)
    requires |s.banks| == 2
    ensures |s.log| <= |Run(s, events).log|
    decreases |events|
  {
    if events != [] {
      Monotone(s, events[0]);
      RunMonotone(Step(s, events[0]), events[1..]);
    }
  }

  lemma {:induction false} RunInv<T>(s: State<T>, events: seq<Event<T>>)
    requires Inv(s) && |Run(s, events).log| <= U64_MAX
    ensures Inv(Run(s, events))
    decreases |events|
  {
    if events != [] {
      RunMonotone(Step(s, events[0]), events[1..]);
      StepInv(s, events[0]);
      RunInv(Step(s, events[0]), events[1..]);
    }
  }

  /**
   * In every interleaving with no more publications than the generation counter can count: the writer never has open
   * a bank the reader can reach, no acknowledgement is out of turn, and at most one publication is not yet consumed.
   */
  lemma BankSafety<T>(first: T, second: T, events: seq<Event<T>>)
    requires |Run(Init(first, second), events).log| <= U64_MAX
    ensures var s := Run(Init(first, second), events);
      s.Safe() && s.AcknowledgementDue() && s.consumed <= s.generation <= s.consumed + 1
  {
    RunInv(Init(first, second), events);
  }

  /** So what the reader refers to is exactly what was published under its generation, and stays so. */
  lemma ReadsWhatWasPublished<T>(first: T, second: T, events: seq<Event<T>>)
    requires |Run(Init(first, second), events).log| <= U64_MAX
    ensures var s := Run(Init(first, second), events);
      && |s.log| == s.generation
      && (s.inUse.Some? ==> s.inUse.value < 2 && 0 < s.mine <= |s.log| && s.banks[s.inUse.value] == s.log[s.mine - 1])
      && (s.reader.Reading? ==>
            && s.reader.from < 2 && 0 < s.reader.seen <= |s.log|
            && s.banks[s.reader.from] == s.log[s.reader.seen - 1])
  {
    RunInv(Init(first, second), events);
  }

  // ------------------------------------------------------------------ the end of the generation counter

  /** Safe all along the run, and after any further steps that publish nothing. */
  ghost predicate SafeThroughout<T(!new)>(s: State<T>, events: seq<Event<T>>)
    requires |s.banks| == 2
  {
    forall n, quiet | 0 <= n <= |events| && Publishes(s, events[..n] + quiet) == Publishes(s, events[..n]) ::
      Run(s, events[..n] + quiet).Safe()
  }

  function Publishes<T>(s: State<T>, events: seq<Event<T>>): nat
    requires |s.banks| == 2
  {
    |Run(s, events).log|
  }

  /** The step that publishes once more than the counter can count. */
  lemma {:induction false} Crossing<T>(s: State<T>, events: seq<Event<T>>) returns (n: nat)
    requires Inv(s) && |s.log| <= U64_MAX < Publishes(s, events)
    ensures n < |events| && Inv(Run(s, events[..n])) && |Run(s, events[..n]).log| == U64_MAX
    ensures Run(s, events[..n + 1]) == Step(Run(s, events[..n]), events[n])
    ensures |Run(s, events[..n + 1]).log| == U64_MAX + 1
    decreases |events|
  {
    var t := Step(s, events[0]);
    Monotone(s, events[0]);
    if |t.log| > U64_MAX {
      n := 0;
      assert events[..1][1..] == [];
    } else {
      StepInv(s, events[0]);
      var m := Crossing(t, events[1..]);
      n := m + 1;
      assert events[..n][1..] == events[1..][..m] && events[..n + 1][1..] == events[1..][..m + 1];
    }
  }

  /** Steps of the writer, about to leave, up to having its next bank open. */
  function Reopen<T>(): seq<Event<T>> {
    [ReleaseFlag] + [ClaimFlag, CheckGeneration, ChooseBank]
  }

  /** A publication that goes unseen: the writer's next bank is the one in use. */
  lemma UnseenUnsafe<T>(s: State<T>)
    requires |s.banks| == 2 && s.writer.Leaving? && s.generation == s.consumed
    requires s.published.Some? && s.inUse.Some? && s.published.value < 2 && s.inUse.value == 1 - s.published.value
    ensures Run(s, Reopen()).log == s.log && !Run(s, Reopen()).Safe()
  {
    RunConcat(s, [ReleaseFlag], [ClaimFlag, CheckGeneration, ChooseBank]);
    assert Run(s, [ReleaseFlag]) == Step(s, ReleaseFlag);
    RunThree(Run(s, [ReleaseFlag]), ClaimFlag, CheckGeneration, ChooseBank);
  }

  lemma PastUnsafe<T>(s: State<T>, e: Event<T>, t: State<T>)
    requires Inv(s) && |s.log| == U64_MAX && t == Step(s, e) && |t.log| > U64_MAX
    ensures Run(t, Reopen()).log == t.log && !Run(t, Reopen()).Safe()
  {
    assert s.writer.Announced? && Settled(s) && s.inUse.Some?;
    hide Run;
    UnseenUnsafe(t);
  }

  lemma SafeWithin<T(!new)>(first: T, second: T, events: seq<Event<T>>)
    requires Publishes(Init(first, second), events) <= U64_MAX
    ensures SafeThroughout(Init(first, second), events)
  {
    hide Run, State.Safe;
    var s := Init(first, second);
    forall n, quiet | 0 <= n <= |events| && Publishes(s, events[..n] + quiet) == Publishes(s, events[..n])
      ensures Run(s, events[..n] + quiet).Safe()
    {
      assert events[..n] + events[n..] == events;
      RunConcat(s, events[..n], events[n..]);
      RunMonotone(Run(s, events[..n]), events[n..]);
      BankSafety(first, second, events[..n] + quiet);
    }
  }

  /** Exactly the runs that publish no more than the counter can count are safe throughout. */
  lemma SafeExactly<T(!new)>(first: T, second: T, events: seq<Event<T>>)
    ensures SafeThroughout(Init(first, second), events) <==> |Run(Init(first, second), events).log| <= U64_MAX
  {
    hide Run, Step, Inv, State.Safe;
    var s := Init(first, second);
    if Publishes(s, events) <= U64_MAX {
      SafeWithin(first, second, events);
    } else {
      assert Inv(s) by {
        InitInv(first, second);
      }
      var n := Crossing(s, events);
      PastUnsafe(Run(s, events[..n]), events[n], Run(s, events[..n + 1]));
      RunConcat(s, events[..n + 1], Reopen());
      assert Publishes(s, events[..n + 1] + Reopen()) == Publishes(s, events[..n + 1]);
      assert !SafeThroughout(s, events);
    }
  }

  lemma InitInv<T>(first: T, second: T)
    ensures Inv(Init(first, second))
  {
  }

  /** The writer's steps that publish a value from rest. */
  function Write<T>(value: T): seq<Event<T>> {
    [ClaimFlag, CheckGeneration, ChooseBank] + [Store(value), Announce, Publish]
  }

  /** The writer's last step, and the reader's that take the value up. */
  function TakeUp<T>(): seq<Event<T>> {
    [ReleaseFlag, LoadGeneration, LoadBank] + [Switch, Consume, Acknowledge]
  }

  predicate AtRest<T>(s: State<T>) {
    && s.writer.Resting? && s.reader.Waiting? && !s.writing && s.generation == s.consumed == s.applied == s.mine
    && |s.banks| == 2 && |s.log| == s.generation
  }

  lemma WriteRuns<T>(s: State<T>, value: T, bank: nat)
    requires AtRest(s) && bank == (if s.published == Some(0) then 1 else 0)
    ensures Run(s, Write(value)) == s.(banks := s.banks[bank := value], published := Some(bank), writing := true,
      generation := SaturatingNext(s.generation), writer := Leaving, log := s.log + [value])
  {
    var open: seq<Event<T>> := [ClaimFlag, CheckGeneration, ChooseBank];
    RunConcat(s, open, [Store(value), Announce, Publish]);
    RunThree(s, ClaimFlag, CheckGeneration, ChooseBank);
    RunThree(Run(s, open), Store(value), Announce, Publish);
  }

  lemma TakeUpRuns<T>(s: State<T>)
    requires |s.banks| == 2 && s.writer.Leaving? && s.reader.Waiting? && s.published.Some?
    requires s.generation == |s.log| == s.consumed + 1 && s.consumed == s.applied == s.mine
    ensures AtRest(Run(s, TakeUp())) && Run(s, TakeUp()).log == s.log
  {
    var look: seq<Event<T>> := [ReleaseFlag, LoadGeneration, LoadBank];
    RunConcat(s, look, [Switch, Consume, Acknowledge]);
    RunThree(s, ReleaseFlag, LoadGeneration, LoadBank);
    RunThree(Run(s, look), Switch, Consume, Acknowledge);
  }

  /** Every count up to the largest is reached, each publication taken up before the next. */
  lemma {:induction false} Reached<T>(first: T, second: T, value: T, n: nat) returns (events: seq<Event<T>>)
    requires n <= U64_MAX
    ensures AtRest(Run(Init(first, second), events)) && Publishes(Init(first, second), events) == n
    decreases n
  {
    events := [];
    if n > 0 {
      var earlier := Reached(first, second, value, n - 1);
      var s := Run(Init(first, second), earlier);
      events := earlier + Write(value) + TakeUp();
      RunConcat(Init(first, second), earlier, Write(value));
      RunConcat(Init(first, second), earlier + Write(value), TakeUp());
      WriteRuns(s, value, if s.published == Some(0) then 1 else 0);
      hide Run;
      TakeUpRuns(Run(s, Write(value)));
    }
  }

  /** And the count is passed: there is a run in which the writer opens the bank in use. */
  lemma ExhaustedUnsafe<T(!new)>(first: T, second: T, value: T) returns (events: seq<Event<T>>)
    ensures !Run(Init(first, second), events).Safe()
  {
    var s := Init(first, second);
    var full := Reached(first, second, value, U64_MAX);
    var rested := Run(s, full);
    RunConcat(s, full, Write(value));
    WriteRuns(rested, value, if rested.published == Some(0) then 1 else 0);
    SafeExactly(first, second, full + Write(value));
    var n, quiet :| 0 <= n <= |full + Write(value)| && !Run(s, (full + Write(value))[..n] + quiet).Safe();
    events := (full + Write(value))[..n] + quiet;
  }

  lemma RunThree<T>(s: State<T>, a: Event<T>, b: Event<T>, c: Event<T>)
    requires |s.banks| == 2
    ensures Run(s, [a, b, c]) == Step(Step(Step(s, a), b), c)
  {
    hide Step;
    assert [a, b, c][1..] == [b, c] && [b, c][1..] == [c];
    assert Run(Step(Step(s, a), b), [c]) == Step(Step(Step(s, a), b), c);
  }

  lemma {:induction false} RunConcat<T>(s: State<T>, a: seq<Event<T>>, b: seq<Event<T>>)
    requires |s.banks| == 2
    ensures Run(s, a + b) == Run(Run(s, a), b)
    decreases |a|
  {
    if a == [] {
      assert a + b == b;
    } else {
      assert (a + b)[1..] == a[1..] + b;
      RunConcat(Step(s, a[0]), a[1..], b);
    }
  }

  /** In every countable run a publication that awaits the reader is taken up by its next steps, whole. */
  lemma TakenUp<T>(first: T, second: T, events: seq<Event<T>>)
    requires var s := Run(Init(first, second), events);
      |s.log| <= U64_MAX && s.reader.Waiting? && s.consumed < s.generation
    ensures var s := Run(Init(first, second), events);
      var seen := Step(Step(Step(s, LoadGeneration), LoadBank), Switch);
      var t := Step(Step(seen, Consume), Acknowledge);
      && t.inUse.Some? && t.inUse.value < 2 && 0 < |s.log| && t.banks[t.inUse.value] == s.log[|s.log| - 1]
      && t.consumed == t.applied == t.generation == s.generation && t.reader.Waiting?
  {
    hide Run, Step;
    RunInv(Init(first, second), events);
    hide Inv;
    var s := Run(Init(first, second), events);
    Awaited(s);
    TakeUpSteps(s);
  }

  lemma Awaited<T>(s: State<T>)
    requires Inv(s) && |s.log| <= U64_MAX && s.reader.Waiting? && s.consumed < s.generation
    ensures s.published.Some? && s.published.value < 2 && s.mine == s.applied == s.generation - 1
    ensures 0 < |s.log| && s.banks[s.published.value] == s.log[|s.log| - 1]
  {
  }

  lemma TakeUpSteps<T>(s: State<T>)
    requires |s.banks| == 2 && s.reader.Waiting? && s.published.Some? && s.mine == s.applied == s.generation - 1
    ensures var seen := Step(Step(Step(s, LoadGeneration), LoadBank), Switch);
      var t := Step(Step(seen, Consume), Acknowledge);
      && t.inUse == s.published && t.banks == s.banks && t.consumed == t.applied == t.generation == s.generation
      && t.reader.Waiting?
  {
    var g := s.generation;
    var looked := Step(s, LoadGeneration);
    assert looked == s.(reader := Looked(g));
    var reading := Step(looked, LoadBank);
    assert reading == s.(reader := Reading(g, s.published.value));
    var seen := Step(reading, Switch);
    assert seen == s.(inUse := s.published, mine := g, reader := Switched(g));
  }

  /** And with none awaiting, a writer at rest publishes its value. */
  lemma Published<T>(first: T, second: T, events: seq<Event<T>>, value: T)
    requires var s := Run(Init(first, second), events);
      |s.log| < U64_MAX && s.writer.Resting? && s.consumed == s.generation
    ensures var s := Run(Init(first, second), events);
      var open := Step(Step(Step(s, ClaimFlag), CheckGeneration), ChooseBank);
      var t := Step(Step(Step(open, Store(value)), Announce), Publish);
      t.log == s.log + [value] && t.generation == s.generation + 1 && Step(t, ReleaseFlag).writer.Resting?
  {
    RunInv(Init(first, second), events);
    hide Run;
  }

  /** A writer that gives up leaves nothing behind and makes way for the next. */
  lemma Cancelled<T>(first: T, second: T, events: seq<Event<T>>)
    requires Run(Init(first, second), events).writer.Writing?
    ensures var s := Run(Init(first, second), events);
      var t := Step(Step(s, Cancel), ReleaseFlag);
      t == s.(writer := Resting, writing := false) && Step(t, ClaimFlag).writer.Claimed?
  {
    hide Run;
  }
}

/**
 * The desktop policy's one-word mailbox: a commit is packed into one shared word and announced by a generation, and
 * the next commit is refused until the desktop has applied the last. Every step is one access to shared memory.
 */
module PolicyMailbox {
  import opened Sizes

  type U8 = b: bv64 | b <= 0xFF

  type U32 = b: bv64 | b <= 0xFFFF_FFFF

  const SERVICE_PID: U32 := 2
  const REQUIRED_CAPABILITIES: U32 := 7
  const WALLPAPER_AURORA: U8 := 1

  datatype Commit = Commit(capabilities: U32, cpu: U8, memory: U8, wallpaper: U8) {
    predicate Valid() {
      capabilities == REQUIRED_CAPABILITIES && cpu <= 100 && memory <= 100 && wallpaper == WALLPAPER_AURORA
    }
  }

  datatype Snapshot = Snapshot(pid: U32, commit: Commit)

  function Word(pid: bv64, capabilities: bv64, cpu: bv64, memory: bv64, wallpaper: bv64): bv64 {
    pid | (capabilities << 32) | (cpu << 40) | (memory << 48) | (wallpaper << 56)
  }

  function Byte(w: bv64, shift: bv8): (b: U8)
    requires shift < 64
  {
    (w >> shift) & 0xFF
  }

  function Low(w: bv64): (b: U32) { w & 0xFFFF_FFFF }

  lemma Fields(pid: bv64, capabilities: bv64, cpu: bv64, memory: bv64, wallpaper: bv64)
    requires pid <= 0xFFFF_FFFF && capabilities <= 0xFF && cpu <= 0xFF && memory <= 0xFF && wallpaper <= 0xFF
    ensures var w := Word(pid, capabilities, cpu, memory, wallpaper);
      Low(w) == pid && Byte(w, 32) == capabilities && Byte(w, 40) == cpu && Byte(w, 48) == memory
      && Byte(w, 56) == wallpaper
  {
  }

  function Pack(s: Snapshot): bv64 {
    Word(s.pid, s.commit.capabilities, s.commit.cpu, s.commit.memory, s.commit.wallpaper)
  }

  function Unpack(w: bv64): Snapshot {
    Snapshot(Low(w), Commit(Byte(w, 32), Byte(w, 40), Byte(w, 48), Byte(w, 56)))
  }

  /** The word carries a snapshot faithfully exactly when its capabilities fit the byte given to them. */
  lemma PackRoundTrip(s: Snapshot)
    ensures Unpack(Pack(s)) == s <==> s.commit.capabilities <= 0xFF
  {
    hide Word, Byte, Low;
    if s.commit.capabilities <= 0xFF {
      Fields(s.pid, s.commit.capabilities, s.commit.cpu, s.commit.memory, s.commit.wallpaper);
    }
  }

  datatype Writer = Resting | Checked(commit: Commit) | Stored

  datatype Reader = Waiting | Looked(seen: nat) | Applying(seen: nat, snapshot: Snapshot)

  /** `log` lists the accepted commits, for the statements below. */
  datatype State = State(
    word: bv64, generation: nat, applied: nat, writer: Writer, reader: Reader, mine: nat, log: seq<Commit>)

  datatype Event =
    | Submit(pid: U32, commit: Commit)
    | StoreWord
    | Publish
    | LoadGeneration
    | LoadWord
    | Acknowledge

  const INIT := State(0, 0, 0, Resting, Waiting, 0, [])

  /** Whether the checks made on acknowledging pass. */
  predicate AcknowledgementDue(s: State) {
    s.reader.Applying? ==> s.reader.seen > 0 && s.reader.seen == s.generation && s.applied == s.reader.seen - 1
  }

  function Step(s: State, e: Event): State {
    match e
    case Submit(pid, commit) =>
      if s.writer.Resting? && pid == SERVICE_PID && commit.Valid() && s.generation == s.applied && s.generation < U64_MAX
      then s.(writer := Checked(commit)) else s
    case StoreWord =>
      if s.writer.Checked?
      then s.(word := Pack(Snapshot(SERVICE_PID, s.writer.commit)), writer := Stored, log := s.log + [s.writer.commit]) else s
    case Publish => if s.writer.Stored? then s.(generation := s.generation + 1, writer := Resting) else s
    case LoadGeneration => if s.reader.Waiting? then s.(reader := Looked(s.generation)) else s
    case LoadWord =>
      if !s.reader.Looked? then s
      else if s.reader.seen == 0 || s.reader.seen == s.mine then s.(reader := Waiting)
      else s.(reader := Applying(s.reader.seen, Unpack(s.word)))
    case Acknowledge =>
      if s.reader.Applying? && AcknowledgementDue(s)
      then s.(applied := s.reader.seen, mine := s.reader.seen, reader := Waiting) else s
  }

  function Run(s: State, events: seq<Event>): State
    decreases |events|
  {
    if events == [] then s else Run(Step(s, events[0]), events[1..])
  }

  predicate Inv(s: State) {
    && s.mine == s.applied && (s.generation == s.applied || s.generation == s.applied + 1)
    && s.generation <= U64_MAX && (!s.writer.Resting? ==> s.generation == s.applied < U64_MAX)
    && (s.writer.Checked? ==> s.writer.commit.Valid())
    && |s.log| == s.generation + (if s.writer.Stored? then 1 else 0)
    && (forall i | 0 <= i < |s.log| :: s.log[i].Valid())
    && (s.writer.Stored? ==> s.word == Pack(Snapshot(SERVICE_PID, s.log[s.generation])))
    && (s.generation > s.applied ==> s.word == Pack(Snapshot(SERVICE_PID, s.log[s.generation - 1])))
    && match s.reader
       case Waiting => true
       case Looked(seen) => seen == s.applied || seen == s.generation
       case Applying(seen, snapshot) =>
         seen == s.generation == s.applied + 1 && snapshot == Snapshot(SERVICE_PID, s.log[s.generation - 1])
  }

  lemma StepInv(s: State, e: Event)
    requires Inv(s)
    ensures Inv(Step(s, e))
  {
    hide Pack, Unpack;
    if e.LoadWord? && s.generation > s.applied {
      PackRoundTrip(Snapshot(SERVICE_PID, s.log[s.generation - 1]));
    }
  }

  lemma {:induction false} RunInv(s: State, events: seq<Event>)
    requires Inv(s)
    ensures Inv(Run(s, events))
    decreases |events|
  {
    if events != [] {
      StepInv(s, events[0]);
      RunInv(Step(s, events[0]), events[1..]);
    }
  }

  /**
   * In every interleaving: the desktop applies exactly the commits accepted, each once and in order, unmixed although
   * the word and the generation are read apart; no acknowledgement is refused; and the generation never runs over,
   * because a commit past the last one is refused.
   */
  lemma AppliesWhatWasSubmitted(events: seq<Event>)
    ensures var s := Run(INIT, events);
      && AcknowledgementDue(s) && s.applied <= s.generation <= s.applied + 1 && s.generation <= |s.log| <= U64_MAX
      && (s.reader.Applying? ==>
            && 0 < s.reader.seen <= |s.log| && s.reader.seen == s.applied + 1
            && s.reader.snapshot == Snapshot(SERVICE_PID, s.log[s.reader.seen - 1]) && s.reader.snapshot.commit.Valid())
  {
    RunInv(INIT, events);
  }

  predicate Authorised(events: seq<Event>, commit: Commit) {
    exists k | 0 <= k < |events| :: events[k] == Submit(SERVICE_PID, commit)
  }

  /** Everything accepted so far, or about to be, was submitted by the service. */
  ghost predicate AllAuthorised(s: State, events: seq<Event>) {
    && (forall i | 0 <= i < |s.log| :: Authorised(events, s.log[i]))
    && (s.writer.Checked? ==> Authorised(events, s.writer.commit))
  }

  lemma AuthorisedStep(s: State, events: seq<Event>, e: Event)
    requires AllAuthorised(s, events)
    ensures AllAuthorised(Step(s, e), events + [e])
  {
    hide Pack, Unpack, Commit.Valid;
    var more := events + [e];
    assert more[|events|] == e;
    forall c | Authorised(events, c) ensures Authorised(more, c) {
      var k :| 0 <= k < |events| && events[k] == Submit(SERVICE_PID, c);
      assert more[k] == events[k];
    }
  }

  lemma {:induction false} AuthorisedRun(s: State, before: seq<Event>, events: seq<Event>)
    requires AllAuthorised(s, before)
    ensures AllAuthorised(Run(s, events), before + events)
    decreases |events|
  {
    hide AllAuthorised, Step;
    if events == [] {
      assert before + events == before;
    } else {
      AuthorisedStep(s, before, events[0]);
      AuthorisedRun(Step(s, events[0]), before + [events[0]], events[1..]);
      assert before + [events[0]] + events[1..] == before + events;
    }
  }

  /** In every interleaving each accepted policy was submitted by the service process, whoever else tries. */
  lemma OnlyTheService(events: seq<Event>, i: nat)
    requires i < |Run(INIT, events).log|
    ensures Authorised(events, Run(INIT, events).log[i])
  {
    AuthorisedRun(INIT, [], events);
    assert [] + events == events;
  }

  /** And none is left lying: in every state at rest a commit goes through, the desktop gets it, and the next is due. */
  lemma Delivers(events: seq<Event>, commit: Commit)
    requires commit.Valid()
    requires var s := Run(INIT, events);
      s.writer.Resting? && s.reader.Waiting? && s.generation == s.applied < U64_MAX
    ensures var s := Run(INIT, events);
      var sent := Step(Step(Step(s, Submit(SERVICE_PID, commit)), StoreWord), Publish);
      var got := Step(Step(sent, LoadGeneration), LoadWord);
      && sent.log == s.log + [commit] && got.reader == Applying(s.generation + 1, Snapshot(SERVICE_PID, commit))
      && Step(got, Acknowledge).applied == Step(got, Acknowledge).generation == s.generation + 1
  {
    RunInv(INIT, events);
    hide Pack, Unpack, Run;
    PackRoundTrip(Snapshot(SERVICE_PID, commit));
  }
}

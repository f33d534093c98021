/**
 * Wallpaper files: the desktop asks for one, the block task answers through one of two banks, the desktop shows it
 * and acknowledges. Every step is one access to shared memory, in any interleaving of the two tasks.
 */
module WallpaperBanks {
  import opened Wrappers

  /** What a bank holds: an image or the news that there is none. */
  datatype Bank<T> = Bank(value: T, ok: bool)

  /** The desktop: at rest; asking (flag claimed, numbered, slot filled); answering a result. */
  datatype Desktop =
    | Resting
    | Claimed
    | Numbered(asked: nat)
    | Filled(asked: nat)
    | Looked(seen: nat)
    | Reading(seen: nat, from: nat)
    | Applied(seen: nat, pin: bool)
    | Shown(seen: nat, pin: bool)
    | Counted(seen: nat, bank: nat, pin: bool)
    | Pinned

  /** The block task: at rest; request taken but not yet copied; copied; filling a bank; bank announced. */
  datatype Worker =
    | Idle
    | Taken
    | Copied(answering: nat)
    | Filling(answering: nat, bank: nat)
    | Announced(answering: nat, bank: nat)

  /**
   * `slot` is the request's generation; `mine` the desktop's last result; `current` and `previous` the banks of the
   * images on screen; `shown` the generation of the current one; `log` lists the results, for the statements below.
   */
  datatype State<T> = State(
    slot: nat, busy: bool, ready: bool, next: nat, banks: seq<Bank<T>>, published: Option<nat>, active: Option<nat>,
    result: nat, consumed: nat, desktop: Desktop, worker: Worker, mine: nat, current: Option<nat>, previous: Option<nat>,
    shown: nat, log: seq<Bank<T>>)
  {
    /** The banks the desktop can still dereference. */
    function Held(): set<nat> {
      (if current.Some? then {current.value} else {}) + (if previous.Some? then {previous.value} else {})
      + (if desktop.Reading? then {desktop.from} else {})
    }

    /** The worker's open bank is out of the desktop's reach, and the slot is not filled while it is being copied. */
    predicate Safe() {
      && (worker.Filling? ==> worker.bank !in Held())
      && (desktop.Numbered? ==> !worker.Taken?)
    }

    /** The checks made on acknowledging would all pass. */
    predicate AcknowledgementDue() {
      && (desktop.Shown? ==> desktop.seen > 0 && desktop.seen == result && published.Some? && consumed == desktop.seen - 1)
      && (desktop.Counted? && desktop.pin ==> desktop.bank < |banks| && banks[desktop.bank].ok)
    }
  }

  datatype Event<T> =
    | ClaimSlot
    | Number
    | Fill
    | Offer
    | Take
    | Copy
    | ChooseBank
    | Store(bank: Bank<T>)
    | Announce
    | Publish
    | LoadResult
    | LoadBank
    | Apply(accept: bool)
    | FinishTransition
    | Count
    | Pin
    | Free
    | Clear

  function Init<T>(first: Bank<T>, second: Bank<T>): State<T> {
    State(0, false, false, 0, [first, second], None, None, 0, 0, Resting, Idle, 0, None, None, 0, [])
  }

  function Step<T>(s: State<T>, e: Event<T>): (t: State<T>)
    requires |s.banks| == 2
    ensures |t.banks| == 2
  {
    match e
    case ClaimSlot => if s.desktop.Resting? && !s.busy then s.(busy := true, desktop := Claimed) else s
    case Number => if s.desktop.Claimed? then s.(next := s.next + 1, desktop := Numbered(s.next + 1)) else s
    case Fill => if s.desktop.Numbered? then s.(slot := s.desktop.asked, desktop := Filled(s.desktop.asked)) else s
    case Offer => if s.desktop.Filled? then s.(ready := true, desktop := Resting) else s
    case Take => if s.worker.Idle? && s.ready then s.(ready := false, worker := Taken) else s
    case Copy => if s.worker.Taken? then s.(worker := Copied(s.slot)) else s
    case ChooseBank =>
      if s.worker.Copied? then s.(worker := Filling(s.worker.answering, if s.active == Some(0) then 1 else 0)) else s
    case Store(bank) =>
      if s.worker.Filling? && s.worker.bank < 2 then s.(banks := s.banks[s.worker.bank := bank]) else s
    case Announce =>
      if s.worker.Filling?
      then s.(published := Some(s.worker.bank), worker := Announced(s.worker.answering, s.worker.bank)) else s
    case Publish =>
      if s.worker.Announced? && s.worker.bank < 2
      then s.(result := s.worker.answering, worker := Idle, log := s.log + [s.banks[s.worker.bank]]) else s
    case LoadResult => if s.desktop.Resting? then s.(desktop := Looked(s.result)) else s
    case LoadBank =>
      if !s.desktop.Looked? then s
      else if s.desktop.seen == 0 || s.desktop.seen == s.mine || s.published.None? then s.(desktop := Resting)
      else s.(desktop := Reading(s.desktop.seen, s.published.value))
    case Apply(accept) =>
      if !s.desktop.Reading? || s.desktop.from >= 2 then s
      else if accept && s.banks[s.desktop.from].ok then
        s.(previous := s.current, current := Some(s.desktop.from), shown := s.desktop.seen,
           desktop := Applied(s.desktop.seen, true))
      else s.(desktop := Applied(s.desktop.seen, false))
    case FinishTransition =>
      if s.desktop.Applied?
      then s.(previous := None, mine := s.desktop.seen, desktop := Shown(s.desktop.seen, s.desktop.pin)) else s
    case Count =>
      if s.desktop.Shown? && s.AcknowledgementDue()
      then s.(consumed := s.desktop.seen, desktop := Counted(s.desktop.seen, s.published.value, s.desktop.pin)) else s
    case Pin =>
      if s.desktop.Counted? && s.AcknowledgementDue()
      then s.(active := if s.desktop.pin then Some(s.desktop.bank) else s.active, desktop := Pinned) else s
    case Free => if s.desktop.Pinned? then s.(busy := false, desktop := Resting) else s
    case Clear => if s.desktop.Resting? then s.(current := None, previous := None) else s
  }

  function Run<T>(s: State<T>, events: seq<Event<T>>): (t: State<T>)
    requires |s.banks| == 2
    ensures |t.banks| == 2
    decreases |events|
  {
    if events == [] then s else Run(Step(s, events[0]), events[1..])
  }

  /** At rest, or looking before anything new came. */
  predicate AtRest<T>(s: State<T>) {
    s.desktop.Resting? || s.desktop == Looked(s.mine)
  }

  /** The image on screen is in the pinned bank. */
  predicate OnScreen<T>(s: State<T>) {
    s.previous.None? && (s.current.None? || s.current == s.active)
  }

  /** Where the one request in flight is, if there is one. */
  predicate Phase<T>(s: State<T>)
    requires |s.banks| == 2
  {
    if !s.busy then
      AtRest(s) && OnScreen(s) && s.worker.Idle? && !s.ready && s.next == s.result == s.consumed == s.mine
    else if s.desktop.Claimed? then
      OnScreen(s) && s.worker.Idle? && !s.ready && s.next == s.result == s.consumed == s.mine
    else if s.desktop.Numbered? then
      && OnScreen(s) && s.worker.Idle? && !s.ready && s.next == s.desktop.asked == s.result + 1
      && s.result == s.consumed == s.mine
    else if s.desktop.Filled? then
      && OnScreen(s) && s.worker.Idle? && !s.ready && s.next == s.desktop.asked == s.slot == s.result + 1
      && s.result == s.consumed == s.mine
    else if s.ready || !s.worker.Idle? then
      && OnScreen(s) && AtRest(s) && s.next == s.slot == s.result + 1 && s.result == s.consumed == s.mine
      && (s.ready ==> s.worker.Idle?)
      && (s.worker.Copied? || s.worker.Filling? || s.worker.Announced? ==> s.worker.answering == s.next)
      && (s.worker.Filling? || s.worker.Announced? ==> s.worker.bank < 2 && s.active != Some(s.worker.bank))
      && (s.worker.Announced? ==> s.published == Some(s.worker.bank))
    else
      Answering(s)
  }

  /** A result is out and the desktop is somewhere between noticing it and freeing the request. */
  predicate Answering<T>(s: State<T>)
    requires |s.banks| == 2
  {
    && s.next == s.result && s.result > 0 && s.published.Some? && s.published.value < 2
    && match s.desktop
       case Resting => s.consumed == s.mine == s.result - 1 && OnScreen(s) && s.active != s.published
       case Looked(seen) =>
         s.consumed == s.mine == s.result - 1 && OnScreen(s) && s.active != s.published && (seen == s.result || seen == s.mine)
       case Reading(seen, from) =>
         && s.consumed == s.mine == s.result - 1 && OnScreen(s) && s.active != s.published
         && seen == s.result && Some(from) == s.published
       case Applied(seen, pin) =>
         && s.consumed == s.result - 1 && seen == s.result && s.active != s.published
         && (if pin then s.current == s.published && (s.previous.None? || s.previous == s.active) else OnScreen(s))
         && (pin ==> s.banks[s.published.value].ok)
       case Shown(seen, pin) =>
         && s.consumed == s.result - 1 && seen == s.mine == s.result && s.active != s.published && s.previous.None?
         && (if pin then s.current == s.published else OnScreen(s)) && (pin ==> s.banks[s.published.value].ok)
       case Counted(seen, bank, pin) =>
         && s.consumed == seen == s.mine == s.result && Some(bank) == s.published && s.active != s.published
         && s.previous.None? && (if pin then s.current == s.published else OnScreen(s)) && (pin ==> s.banks[bank].ok)
       case Pinned => s.consumed == s.mine == s.result && OnScreen(s)
       case _ => false
  }

  ghost predicate Inv<T>(s: State<T>) {
    && |s.banks| == 2 && |s.log| == s.result && (s.active.Some? ==> s.active.value < 2)
    && (s.current.Some? ==> s.current.value < 2 && 0 < s.shown <= s.result && s.banks[s.current.value] == s.log[s.shown - 1])
    && Phase(s)
    && (s.worker.Idle? && s.result > 0 && s.consumed < s.result ==>
          s.published.Some? && s.published.value < 2 && s.banks[s.published.value] == s.log[s.result - 1])
  }

  lemma AskInv<T>(s: State<T>, e: Event<T>)
    requires Inv(s) && (e.ClaimSlot? || e.Number? || e.Fill? || e.Offer? || e.Clear?)
    ensures Inv(Step(s, e))
  {
  }

  lemma WorkInv<T>(s: State<T>, e: Event<T>)
    requires Inv(s) && (e.Take? || e.Copy? || e.ChooseBank? || e.Store? || e.Announce? || e.Publish?)
    ensures Inv(Step(s, e))
  {
  }

  lemma LookInv<T>(s: State<T>)
    requires Inv(s)
    ensures Inv(Step(s, LoadResult))
  {
  }

  lemma NoticeInv<T>(s: State<T>)
    requires Inv(s)
    ensures Inv(Step(s, LoadBank))
  {
  }

  lemma ShowInv<T>(s: State<T>, accept: bool)
    requires Inv(s)
    ensures Inv(Step(s, Apply(accept)))
  {
  }

  lemma FinishInv<T>(s: State<T>)
    requires Inv(s)
    ensures Inv(Step(s, FinishTransition))
  {
  }

  lemma AcknowledgeInv<T>(s: State<T>, e: Event<T>)
    requires Inv(s) && (e.Count? || e.Pin? || e.Free?)
    ensures Inv(Step(s, e))
  {
  }

  lemma StepInv<T>(s: State<T>, e: Event<T>)
    requires Inv(s)
    ensures Inv(Step(s, e))
  {
    hide Inv, Step;
    match e
    case ClaimSlot | Number | Fill | Offer | Clear => AskInv(s, e);
    case Take | Copy | ChooseBank | Store(_) | Announce | Publish => WorkInv(s, e);
    case LoadResult => LookInv(s);
    case LoadBank => NoticeInv(s);
    case Apply(accept) => ShowInv(s, accept);
    case FinishTransition => FinishInv(s);
    case Count | Pin | Free => AcknowledgeInv(s, e);
  }

  lemma {:induction false} RunInv<T>(s: State<T>, events: seq<Event<T>>)
    requires Inv(s)
    ensures Inv(Run(s, events))
    decreases |events|
  {
    if events != [] {
      StepInv(s, events[0]);
      RunInv(Step(s, events[0]), events[1..]);
    }
  }

  /**
   * In every interleaving: the worker never has open a bank the desktop can reach, the request slot is never filled
   * while it is copied, no check made on acknowledging fails, and requests, results and acknowledgements are in step.
   */
  lemma BankSafety<T>(first: Bank<T>, second: Bank<T>, events: seq<Event<T>>)
    ensures var s := Run(Init(first, second), events);
      && s.Safe() && s.AcknowledgementDue()
      && s.consumed <= s.result <= s.next <= s.consumed + 1
  {
    RunInv(Init(first, second), events);
  }

  /** The image on screen is the result it was shown for, unchanged since; a result being read is the latest one. */
  lemma ShowsWhatWasPublished<T>(first: Bank<T>, second: Bank<T>, events: seq<Event<T>>)
    ensures var s := Run(Init(first, second), events);
      && |s.log| == s.result
      && (s.current.Some? ==>
            s.current.value < 2 && 0 < s.shown <= |s.log| && s.banks[s.current.value] == s.log[s.shown - 1])
      && (s.desktop.Reading? ==>
            && s.desktop.from < 2 && s.desktop.seen == |s.log| && 0 < |s.log|
            && s.banks[s.desktop.from] == s.log[|s.log| - 1])
  {
    RunInv(Init(first, second), events);
  }

  /** In every run a request on offer is answered by the worker's next steps. */
  lemma Answered<T>(first: Bank<T>, second: Bank<T>, events: seq<Event<T>>, bank: Bank<T>)
    requires var s := Run(Init(first, second), events); s.ready && s.worker.Idle?
    ensures var s := Run(Init(first, second), events);
      var open := Step(Step(Step(s, Take), Copy), ChooseBank);
      var t := Step(Step(Step(open, Store(bank)), Announce), Publish);
      t.result == s.next == s.result + 1 && t.log == s.log + [bank] && t.worker.Idle?
  {
    RunInv(Init(first, second), events);
    hide Run;
  }

  /** And an image that awaits the desktop is put on screen by its next steps. */
  lemma PutOnScreen<T>(first: Bank<T>, second: Bank<T>, events: seq<Event<T>>)
    requires var s := Run(Init(first, second), events);
      s.desktop.Resting? && s.mine < s.result && 0 < |s.log| && s.log[|s.log| - 1].ok
    ensures var s := Run(Init(first, second), events);
      var t := Step(Step(Step(s, LoadResult), LoadBank), Apply(true));
      t.current.Some? && t.current.value < 2 && t.banks[t.current.value] == s.log[|s.log| - 1] && t.shown == s.result
  {
    RunInv(Init(first, second), events);
    hide Run;
  }

  /** A desktop at rest with no request open can ask. */
  lemma Asked<T>(first: Bank<T>, second: Bank<T>, events: seq<Event<T>>)
    requires var s := Run(Init(first, second), events); s.desktop.Resting? && !s.busy
    ensures var s := Run(Init(first, second), events);
      var t := Step(Step(Step(Step(s, ClaimSlot), Number), Fill), Offer);
      t.ready && t.busy && t.slot == t.next == s.next + 1 && t.desktop.Resting?
  {
    RunInv(Init(first, second), events);
    hide Run;
  }

  /** And after showing the answer it acknowledges it, pins the image and is free to ask again. */
  lemma Freed<T>(first: Bank<T>, second: Bank<T>, events: seq<Event<T>>)
    requires Run(Init(first, second), events).desktop.Applied?
    ensures var s := Run(Init(first, second), events);
      var t := Step(Step(Step(Step(s, FinishTransition), Count), Pin), Free);
      && t.desktop.Resting? && !t.busy && t.consumed == t.mine == t.result == s.result && t.previous.None?
      && (s.desktop.pin ==> t.active == t.current == s.current)
  {
    hide Run, Step;
    RunInv(Init(first, second), events);
    hide Inv;
    Due(Run(Init(first, second), events));
    FreeSteps(Run(Init(first, second), events));
  }

  lemma Due<T>(s: State<T>)
    requires Inv(s) && s.desktop.Applied?
    ensures s.published.Some? && s.published.value < 2 && 0 < s.desktop.seen == s.result == s.consumed + 1
    ensures s.desktop.pin ==> s.current == s.published && s.banks[s.published.value].ok
  {
  }

  lemma FreeSteps<T>(s: State<T>)
    requires |s.banks| == 2 && s.desktop.Applied?
    requires s.published.Some? && s.published.value < 2 && 0 < s.desktop.seen == s.result == s.consumed + 1
    requires s.desktop.pin ==> s.current == s.published && s.banks[s.published.value].ok
    ensures var t := Step(Step(Step(Step(s, FinishTransition), Count), Pin), Free);
      && t.desktop.Resting? && !t.busy && t.consumed == t.mine == t.result == s.result && t.previous.None?
      && (s.desktop.pin ==> t.active == t.current == s.current)
  {
    var seen, pin := s.desktop.seen, s.desktop.pin;
    var shown := Step(s, FinishTransition);
    assert shown == s.(previous := None, mine := seen, desktop := Shown(seen, pin));
    var counted := Step(shown, Count);
    assert counted == shown.(consumed := seen, desktop := Counted(seen, s.published.value, pin));
    assert counted.AcknowledgementDue();
  }

  /** Taking the image off the screen lets go of both banks. */
  lemma Cleared<T>(first: Bank<T>, second: Bank<T>, events: seq<Event<T>>)
    requires Run(Init(first, second), events).desktop.Resting?
    ensures Step(Run(Init(first, second), events), Clear).Held() == {}
  {
    hide Run;
  }
}

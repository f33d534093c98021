/**
 * Wayland input: what the server records about a client's focus, keys, modifiers and buttons is exactly what the
 * client can work out from the events delivered to it, whichever sends fail.
 */
module ClientMirror {
  import opened Sizes
  import opened Wrappers
  import opened KeyBits

  // ------------------------------------------------------------------ events and the client's view

  /** The events that carry input state, and those that only report movement. */
  datatype Event =
    | KeyboardEnter
    | KeyboardLeave
    | Modifiers(modifiers: nat)
    | Key(key: nat, pressed: bool)
    | PointerEnter(x: int, y: int)
    | PointerLeave
    | PointerMotion(x: int, y: int)
    | PointerButton(button: nat, down: bool)
    | PointerAxis(value: int)
    | PointerFrame

  datatype Client = Client(keyboard: bool, modifiers: nat, keys: set<nat>, pointer: bool, buttons: bv8)

  const BLIND := Client(false, 0, {}, false, 0)

  /** The bit of a button code, left, right and middle. */
  function ButtonMask(button: nat): bv8 {
    if button == 0x110 then 1 else if button == 0x111 then 2 else if button == 0x112 then 4 else 0
  }

  function SetButton(buttons: bv8, mask: bv8, down: bool): bv8 {
    if down then buttons | mask else buttons & !mask
  }

  /** How an event changes the client's view. */
  function See(c: Client, e: Event): Client {
    match e
    case KeyboardEnter => c.(keyboard := true, keys := {})
    case KeyboardLeave => c.(keyboard := false, keys := {}, modifiers := 0)
    case Modifiers(m) => c.(modifiers := m)
    case Key(key, pressed) => c.(keys := if pressed then c.keys + {key} else c.keys - {key})
    case PointerEnter(_, _) => c.(pointer := true)
    case PointerLeave => c.(pointer := false, buttons := 0)
    case PointerButton(button, down) =>
      c.(buttons := SetButton(c.buttons, ButtonMask(button), down))
    case _ => c
  }

  function View(events: seq<Event>): Client {
    if events == [] then BLIND else See(View(events[..|events| - 1]), events[|events| - 1])
  }

  function SeeAll(c: Client, events: seq<Event>): Client {
    if events == [] then c else See(SeeAll(c, events[..|events| - 1]), events[|events| - 1])
  }

  lemma {:induction false} ViewConcat(a: seq<Event>, b: seq<Event>)
    ensures View(a + b) == SeeAll(View(a), b)
  {
    if b == [] {
      assert a + b == a;
    } else {
      assert (a + b)[..|a + b| - 1] == a + b[..|b| - 1];
      ViewConcat(a, b[..|b| - 1]);
    }
  }

  /** Whether the client believes a button to be down: it was last pressed and the pointer has not left since. */
  function Down(events: seq<Event>, button: nat): bool {
    if events == [] then false
    else
      match events[|events| - 1]
      case PointerButton(b, down) => if b == button then down else Down(events[..|events| - 1], button)
      case PointerLeave => false
      case _ => Down(events[..|events| - 1], button)
  }

  /** The bits of the view are the left, the right and the middle button, by their Linux input codes. */
  lemma {:induction false} ButtonsSeen(events: seq<Event>)
    ensures var buttons := View(events).buttons;
      && (buttons & 1 != 0 <==> Down(events, 0x110))
      && (buttons & 2 != 0 <==> Down(events, 0x111))
      && (buttons & 4 != 0 <==> Down(events, 0x112))
  {
    if events != [] {
      var before := events[..|events| - 1];
      ButtonsSeen(before);
      var e := events[|events| - 1];
      if e.PointerButton? {
        ButtonBit(View(before).buttons, e.button, e.down);
      }
      hide SetButton, ButtonMask;
      NoBits();
    }
  }

  lemma NoBits()
    ensures (0 as bv8) & 1 == 0 && (0 as bv8) & 2 == 0 && (0 as bv8) & 4 == 0
  {
  }

  lemma ButtonBit(buttons: bv8, button: nat, down: bool)
    ensures var after := SetButton(buttons, ButtonMask(button), down);
      && (after & 1 != 0 <==> if button == 0x110 then down else buttons & 1 != 0)
      && (after & 2 != 0 <==> if button == 0x111 then down else buttons & 2 != 0)
      && (after & 4 != 0 <==> if button == 0x112 then down else buttons & 4 != 0)
  {
  }

  /** Where the client last saw the pointer, while it is inside. */
  function Position(events: seq<Event>): Option<(int, int)> {
    if events == [] then None
    else
      match events[|events| - 1]
      case PointerEnter(x, y) => Some((x, y))
      case PointerMotion(x, y) => Some((x, y))
      case PointerLeave => None
      case _ => Position(events[..|events| - 1])
  }

  /** How far the wheel has been turned in all. */
  function Scrolled(events: seq<Event>): int {
    if events == [] then 0
    else
      match events[|events| - 1]
      case PointerAxis(value) => Scrolled(events[..|events| - 1]) + value
      case _ => Scrolled(events[..|events| - 1])
  }

  /** Events that report neither. */
  predicate Still(events: seq<Event>) {
    forall i | 0 <= i < |events| :: events[i].PointerButton? || events[i].PointerFrame?
  }

  lemma {:induction false} StillKeeps(events: seq<Event>, more: seq<Event>)
    requires Still(more)
    ensures Position(events + more) == Position(events) && Scrolled(events + more) == Scrolled(events)
    decreases |more|
  {
    if more == [] {
      assert events + more == events;
    } else {
      var n := |more| - 1;
      assert (events + more)[..|events| + n] == events + more[..n];
      StillKeeps(events, more[..n]);
    }
  }

  lemma SnocSeen(events: seq<Event>, e: Event)
    ensures e.PointerEnter? || e.PointerMotion? ==>
      Position(events + [e]) == Some((e.x, e.y)) && Scrolled(events + [e]) == Scrolled(events)
    ensures e.PointerAxis? ==>
      Position(events + [e]) == Position(events) && Scrolled(events + [e]) == Scrolled(events) + e.value
  {
    assert (events + [e])[..|events|] == events;
  }

  /** The first event of a report from inside: where the pointer entered or moved to, if it did. */
  function Arrival(inside: bool, at: (int, int), moved: bool): seq<Event> {
    if !inside then [PointerEnter(at.0, at.1)] else if moved then [PointerMotion(at.0, at.1)] else []
  }

  /** One notch of the wheel is fifteen units in 24.8 fixed point, against the direction of the report. */
  function Turn(wheel: int): seq<Event> {
    if wheel != 0 then [PointerAxis(-wheel * 3840)] else []
  }

  /** What a report tells the client about the pointer's place and the wheel. */
  lemma ReportSeen(events: seq<Event>, inside: bool, at: (int, int), moved: bool, wheel: int, middle: seq<Event>,
                   end: seq<Event>)
    requires Still(middle) && Still(end)
    ensures var all := events + (Arrival(inside, at, moved) + middle + Turn(wheel) + end);
      && Position(all) == (if !inside || moved then Some(at) else Position(events))
      && Scrolled(all) == Scrolled(events) - wheel * 3840
  {
    hide Position, Scrolled, Still;
    var e1 := events + Arrival(inside, at, moved);
    var e2 := e1 + middle;
    var e3 := e2 + Turn(wheel);
    assert events + (Arrival(inside, at, moved) + middle + Turn(wheel) + end) == e3 + end;
    if inside && !moved {
      assert e1 == events;
    } else {
      SnocSeen(events, Arrival(inside, at, moved)[0]);
    }
    StillKeeps(e1, middle);
    if wheel == 0 {
      assert e3 == e2;
    } else {
      SnocSeen(e2, PointerAxis(-wheel * 3840));
    }
    StillKeeps(e3, end);
  }

  /** No key is released that the client does not hold down, and no button either. */
  ghost predicate Orderly(events: seq<Event>) {
    forall i | 0 <= i < |events| :: Allowed(View(events[..i]), events[i])
  }

  predicate Allowed(c: Client, e: Event) {
    && (e.Key? && !e.pressed ==> e.key in c.keys)
    && (e.PointerButton? && !e.down ==> Shares(c.buttons, ButtonMask(e.button)))
  }

  predicate Shares(a: bv8, b: bv8) { a & b != 0 }

  /** The event ends a press of the key: its release, or the keyboard coming or going. */
  predicate EndsKey(e: Event, key: nat) {
    e == Key(key, false) || e.KeyboardEnter? || e.KeyboardLeave?
  }

  /** A key the client holds down was pressed by an event it received, and nothing received since ended the press. */
  lemma {:induction false} HeldWasPressed(events: seq<Event>, key: nat) returns (i: nat)
    requires key in View(events).keys
    ensures i < |events| && events[i] == Key(key, true)
    ensures forall k | i < k < |events| :: !EndsKey(events[k], key)
  {
    var last := |events| - 1;
    if events[last] == Key(key, true) {
      i := last;
    } else {
      i := HeldWasPressed(events[..last], key);
      assert forall k | i < k < last :: events[..last][k] == events[k];
    }
  }

  /** So every release delivered answers a press of that key delivered earlier, and no press is answered twice. */
  lemma ReleaseFollowsPress(events: seq<Event>, j: nat) returns (i: nat)
    requires Orderly(events) && j < |events| && events[j].Key? && !events[j].pressed
    ensures i < j && events[i] == Key(events[j].key, true)
    ensures forall k | i < k < j :: !EndsKey(events[k], events[j].key)
  {
    assert Allowed(View(events[..j]), events[j]);
    i := HeldWasPressed(events[..j], events[j].key);
    assert forall k | i < k < j :: events[..j][k] == events[k];
  }

  predicate EndsButton(e: Event, button: nat) {
    e == PointerButton(button, false) || e.PointerLeave?
  }

  /** Setting or clearing one button leaves the others alone. */
  lemma OtherButton(buttons: bv8, button: nat, other: nat, down: bool)
    requires other != button
    ensures Shares(SetButton(buttons, ButtonMask(other), down), ButtonMask(button)) <==> Shares(buttons, ButtonMask(button))
  {
  }

  lemma ReleasedButton(buttons: bv8, mask: bv8)
    ensures !Shares(SetButton(buttons, mask, false), mask)
  {
  }

  lemma {:induction false} HeldButtonWasPressed(events: seq<Event>, button: nat) returns (i: nat)
    requires Shares(View(events).buttons, ButtonMask(button))
    ensures i < |events| && events[i] == PointerButton(button, true)
    ensures forall k | i < k < |events| :: !EndsButton(events[k], button)
  {
    hide Shares, SetButton, ButtonMask;
    var last := |events| - 1;
    NoneHeld(button);
    if events[last] == PointerButton(button, true) {
      i := last;
    } else {
      var before := View(events[..last]).buttons;
      if events[last].PointerButton? {
        if events[last].button == button {
          ReleasedButton(before, ButtonMask(button));
        } else {
          OtherButton(before, button, events[last].button, events[last].down);
        }
      }
      i := HeldButtonWasPressed(events[..last], button);
      assert forall k | i < k < last :: events[..last][k] == events[k];
    }
  }

  lemma NoneHeld(button: nat)
    ensures !Shares(0, ButtonMask(button))
  {
  }

  /** The same of the pointer's buttons. */
  lemma ButtonReleaseFollowsPress(events: seq<Event>, j: nat) returns (i: nat)
    requires Orderly(events) && j < |events| && events[j].PointerButton? && !events[j].down
    ensures i < j && events[i] == PointerButton(events[j].button, true)
    ensures forall k | i < k < j :: !EndsButton(events[k], events[j].button)
  {
    hide Shares, SetButton, ButtonMask;
    assert Allowed(View(events[..j]), events[j]);
    i := HeldButtonWasPressed(events[..j], events[j].button);
    assert forall k | i < k < j :: events[..j][k] == events[k];
  }

  /** Every release of the batch is of something held just before it. */
  predicate BatchAllowed(c: Client, batch: seq<Event>) {
    forall i | 0 <= i < |batch| :: Allowed(SeeAll(c, batch[..i]), batch[i])
  }

  lemma BatchSnoc(c: Client, batch: seq<Event>, e: Event)
    requires BatchAllowed(c, batch) && Allowed(SeeAll(c, batch), e)
    ensures BatchAllowed(c, batch + [e]) && SeeAll(c, batch + [e]) == See(SeeAll(c, batch), e)
  {
    var more := batch + [e];
    forall i | 0 <= i < |more| ensures Allowed(SeeAll(c, more[..i]), more[i]) {
      assert more[..i] == batch[..i];
    }
    assert more[..|batch|] == batch;
  }

  /** Delivering such a batch keeps the events orderly and takes the client's view through it. */
  lemma Extends(events: seq<Event>, batch: seq<Event>)
    requires Orderly(events) && BatchAllowed(View(events), batch)
    ensures Orderly(events + batch) && View(events + batch) == SeeAll(View(events), batch)
  {
    hide Allowed, See, View, SeeAll;
    var all := events + batch;
    ViewConcat(events, batch);
    forall i | 0 <= i < |all| ensures Allowed(View(all[..i]), all[i]) {
      if i < |events| {
        assert all[..i] == events[..i];
      } else {
        var j := i - |events|;
        assert all[..i] == events + batch[..j];
        ViewConcat(events, batch[..j]);
        assert Allowed(SeeAll(View(events), batch[..j]), batch[j]);
      }
    }
  }

  // ------------------------------------------------------------------ the batches

  function FocusBatch(focused: bool, modifiers: nat): seq<Event> {
    if focused then [KeyboardEnter] + [Modifiers(modifiers)] else [KeyboardLeave]
  }

  lemma FocusSeen(c: Client, focused: bool, modifiers: nat)
    ensures BatchAllowed(c, FocusBatch(focused, modifiers))
    ensures SeeAll(c, FocusBatch(focused, modifiers)) ==
      c.(keyboard := focused, keys := {}, modifiers := if focused then modifiers else 0)
  {
    hide SeeAll, BatchAllowed, Shares, SetButton, ButtonMask;
    EmptyBatch(c);
    BatchSnoc(c, [], if focused then KeyboardEnter else KeyboardLeave);
    assert [] + [KeyboardEnter] == [KeyboardEnter] && [] + [KeyboardLeave] == [KeyboardLeave];
    if focused {
      BatchSnoc(c, [KeyboardEnter], Modifiers(modifiers));
    }
  }

  /** A key event, and the modifiers when they differ from those last sent. */
  function KeyBatch(c: Client, key: nat, pressed: bool, modifiers: nat): seq<Event> {
    [Key(key, pressed)] + (if modifiers != c.modifiers then [Modifiers(modifiers)] else [])
  }

  lemma KeySeen(c: Client, key: nat, pressed: bool, modifiers: nat)
    requires pressed || key in c.keys
    ensures BatchAllowed(c, KeyBatch(c, key, pressed, modifiers))
    ensures SeeAll(c, KeyBatch(c, key, pressed, modifiers)) ==
      c.(keys := (if pressed then c.keys + {key} else c.keys - {key}), modifiers := modifiers)
  {
    hide SeeAll, BatchAllowed, Shares, SetButton, ButtonMask;
    EmptyBatch(c);
    BatchSnoc(c, [], Key(key, pressed));
    assert [] + [Key(key, pressed)] == [Key(key, pressed)] == [Key(key, pressed)] + [];
    if modifiers != c.modifiers {
      BatchSnoc(c, [Key(key, pressed)], Modifiers(modifiers));
    }
  }

  // ------------------------------------------------------------------ the server

  /** The three buttons of a pointer report. */
  function ButtonBits(buttons: bv8): bv8 { buttons & 7 }

  lemma ThreeBits(buttons: bv8)
    ensures ButtonBits(buttons) & 1 == buttons & 1 && ButtonBits(buttons) & 2 == buttons & 2
    ensures ButtonBits(buttons) & 4 == buttons & 4
  {
  }

  lemma NoButtons()
    ensures ButtonBits(0) == 0
  {
  }

  class InputServer {
    var serial: nat
    var keyboardFocused: bool
    var pointerFocused: bool
    var modifiers: nat
    var pressed: KeyWords
    var pointerButtons: bv8
    var droppedBatches: nat
    ghost var delivered: seq<Event>

    /** What the server records of the client. */
    ghost function Record(): Client
      reads this
    {
      Client(keyboardFocused, modifiers, Keys(pressed), pointerFocused, ButtonBits(pointerButtons))
    }

    /** The record is the client's view of the delivered events, which release only what was pressed. */
    ghost predicate Valid()
      reads this
    {
      && 0 < serial <= U32_MAX && View(delivered) == Record() && Orderly(delivered)
      && (!keyboardFocused ==> Keys(pressed) == {}) && (!pointerFocused ==> pointerButtons == 0)
    }

    constructor ()
      ensures Valid() && delivered == []
    {
      serial := 1;
      keyboardFocused, pointerFocused := false, false;
      modifiers, pointerButtons, droppedBatches := 0, 0, 0;
      pressed := NO_KEYS;
      delivered := [];
      new;
      NothingHeld();
      NoButtons();
    }

    /** The next serial number: zero is skipped when the counter wraps. */
    method NextSerial() returns (next: nat)
      requires serial <= U32_MAX
      modifies this`serial
      ensures next == serial && 0 < serial <= U32_MAX
      ensures serial == if old(serial) == U32_MAX then 1 else old(serial) + 1
    {
      serial := (serial + 1) % (U32_MAX + 1);
      if serial == 0 {
        serial := 1;
      }
      next := serial;
    }

    /** Sends a batch whole or not at all; `accepts` is the socket's answer, and an empty batch needs none. */
    method SendBatch(batch: seq<Event>, accepts: bool) returns (sent: bool)
      modifies this`droppedBatches, this`delivered
      ensures sent <==> batch == [] || accepts
      ensures delivered == if sent then old(delivered) + batch else old(delivered)
      ensures droppedBatches == if sent || old(droppedBatches) >= U64_MAX then old(droppedBatches) else old(droppedBatches) + 1
    {
      if batch == [] {
        assert delivered + batch == delivered;
        return true;
      }
      if accepts {
        delivered := delivered + batch;
        return true;
      }
      if droppedBatches < U64_MAX {
        droppedBatches := droppedBatches + 1;
      }
      return false;
    }

    /** Gives the client the keyboard or takes it away; the record follows only if the client was told. */
    method SetKeyboardFocus(presented: bool, focused: bool, newModifiers: nat, accepts: bool)
      requires Valid()
      modifies this
      ensures Valid()
      ensures Record() ==
        if presented && accepts && focused != old(keyboardFocused)
        then old(Record()).(keyboard := focused, keys := {}, modifiers := if focused then newModifiers else 0)
        else old(Record())
    {
      hide View, Orderly, FocusBatch, Keys, ButtonBits;
      if !presented || keyboardFocused == focused {
        return;
      }
      var number := NextSerial();
      var batch := FocusBatch(focused, newModifiers);
      FocusSeen(View(delivered), focused, newModifiers);
      Extends(delivered, batch);
      FocusTalks(focused, newModifiers);
      var sent := SendBatch(batch, accepts);
      if sent {
        keyboardFocused := focused;
        modifiers := if focused then newModifiers else 0;
        NothingHeld();
        if !focused {
          pressed := NO_KEYS;
        }
      }
    }

    /** Reports a key; only to a focused client, and a release only of a key it holds. */
    method PublishKeyboardKey(presented: bool, key: nat, down: bool, newModifiers: nat, accepts: bool)
      requires Valid()
      modifies this
      ensures Valid()
      ensures Record() ==
        if presented && accepts && old(keyboardFocused) && key < KEY_COUNT && (down || key in old(Record()).keys)
        then old(Record()).(keys := (if down then old(Record()).keys + {key} else old(Record()).keys - {key}),
                            modifiers := newModifiers)
        else old(Record())
    {
      hide View, Orderly, KeyBatch, ButtonBits, Holds, Set;
      if !presented || !keyboardFocused || key >= KEY_COUNT || (!down && !Holds(pressed, key)) {
        return;
      }
      var number := NextSerial();
      ghost var c := View(delivered);
      var batch := [Key(key, down)] + (if newModifiers != modifiers then [Modifiers(newModifiers)] else []);
      assert batch == KeyBatch(c, key, down, newModifiers) by {
        KeyBatchIs(c, key, down, newModifiers);
      }
      KeySeen(c, key, down, newModifiers);
      Extends(delivered, batch);
      var sent := SendBatch(batch, accepts);
      if sent {
        SetKeys(pressed, key, down);
        pressed := Set(pressed, key, down);
        modifiers := newModifiers;
      }
    }

    /**
     * Reports the pointer: entering or moving, each button that changed, the wheel, and a frame to close; or leaving.
     * A report with nothing to say needs no send.
     */
    method PublishPointer(presented: bool, position: Option<(int, int)>, moved: bool, buttons: bv8, wheel: int, accepts: bool)
      requires Valid()
      modifies this
      ensures Valid()
      ensures Record() ==
        if presented && accepts
        then old(Record()).(pointer := position.Some?, buttons := if position.Some? then ButtonBits(buttons) else 0)
        else old(Record())
      // The place and the wheel reach the client as they were reported.
      ensures presented && accepts && position.Some? ==>
        && Position(delivered) ==
             (if !old(pointerFocused) || moved then position else Position(old(delivered)))
        && Scrolled(delivered) == Scrolled(old(delivered)) - wheel * 3840
        && (Down(delivered, 0x110) <==> buttons & 1 != 0)
        && (Down(delivered, 0x111) <==> buttons & 2 != 0)
        && (Down(delivered, 0x112) <==> buttons & 4 != 0)
      // What is said is closed by a frame.
      ensures old(delivered) <= delivered
      ensures delivered != old(delivered) ==> delivered[|delivered| - 1] == PointerFrame
      ensures !presented || !accepts ==> delivered == old(delivered)
    {
      hide View, Orderly, ButtonBits, SeeAll, BatchAllowed, Keys, Position, Scrolled, Still, Arrival, Turn, Down;
      if !presented {
        return;
      }
      NoButtons();
      ghost var c := View(delivered);
      if position.Some? {
        var batch, middle, end := ReportBatch(c, position.value, moved, buttons, wheel);
        ReportSeen(delivered, pointerFocused, position.value, moved, wheel, middle, end);
        Extends(delivered, batch);
        EmptyBatch(c);
        var sent := SendBatch(batch, accepts);
        if sent {
          pointerFocused := true;
          pointerButtons := buttons;
          ButtonsSeen(delivered);
          ThreeBits(buttons);
        }
      } else if pointerFocused {
        var number := NextSerial();
        EmptyBatch(c);
        BatchSnoc(c, [], PointerLeave);
        BatchSnoc(c, [] + [PointerLeave], PointerFrame);
        var batch := [] + [PointerLeave] + [PointerFrame];
        Extends(delivered, batch);
        var sent := SendBatch(batch, accepts);
        if sent {
          pointerFocused := false;
          pointerButtons := 0;
        }
      }
    }

    /** The events of a report from inside the surface. */
    method ReportBatch(ghost c: Client, at: (int, int), moved: bool, buttons: bv8, wheel: int)
      returns (batch: seq<Event>, ghost middle: seq<Event>, ghost end: seq<Event>)
      requires 0 < serial <= U32_MAX && c.pointer == pointerFocused && c.buttons == ButtonBits(pointerButtons)
      modifies this`serial
      ensures 0 < serial <= U32_MAX && BatchAllowed(c, batch)
      ensures SeeAll(c, batch) == c.(pointer := true, buttons := ButtonBits(buttons))
      ensures batch == Arrival(pointerFocused, at, moved) + middle + Turn(wheel) + end && Still(middle) && Still(end)
      ensures batch != [] ==> batch[|batch| - 1] == PointerFrame
    {
      hide SeeAll, BatchAllowed, ButtonBits, Still;
      EmptyBatch(c);
      var first := [];
      if !pointerFocused {
        var number := NextSerial();
        first := [PointerEnter(at.0, at.1)];
      } else if moved {
        first := [PointerMotion(at.0, at.1)];
      }
      ArrivalSeen(c, at, moved);
      batch, middle := AddButtons(first, c, buttons);
      batch, end := CloseBatch(c, batch, wheel);
    }

    /** Adds the wheel, and a frame to close a batch that says something. */
    method CloseBatch(ghost c: Client, before: seq<Event>, wheel: int) returns (batch: seq<Event>, ghost end: seq<Event>)
      requires BatchAllowed(c, before)
      ensures BatchAllowed(c, batch) && SeeAll(c, batch) == SeeAll(c, before)
      ensures batch == before + Turn(wheel) + end && Still(end)
      ensures batch != [] ==> batch[|batch| - 1] == PointerFrame
    {
      hide SeeAll, BatchAllowed;
      batch, end := before, [];
      if wheel != 0 {
        BatchSnoc(c, batch, PointerAxis(-wheel * 3840));
        batch := batch + [PointerAxis(-wheel * 3840)];
      }
      if batch != [] {
        BatchSnoc(c, batch, PointerFrame);
        batch, end := batch + [PointerFrame], [PointerFrame];
      }
    }

    /** Adds an event for each button that differs from the record. */
    method AddButtons(before: seq<Event>, ghost c: Client, buttons: bv8)
      returns (batch: seq<Event>, ghost added: seq<Event>)
      requires 0 < serial <= U32_MAX && BatchAllowed(c, before)
      requires SeeAll(c, before).buttons == ButtonBits(pointerButtons)
      modifies this`serial
      ensures 0 < serial <= U32_MAX && BatchAllowed(c, batch)
      ensures SeeAll(c, batch) == SeeAll(c, before).(buttons := ButtonBits(buttons))
      ensures batch == before + added && Still(added)
    {
      hide SeeAll, BatchAllowed, ButtonBits, SetButton, Shares;
      batch, added := before, [];
      var codes := [0x110, 0x111, 0x112];
      ghost var seen := SeeAll(c, before);
      for i := 0 to 3
        invariant 0 < serial <= U32_MAX && BatchAllowed(c, batch)
        invariant SeeAll(c, batch) == seen.(buttons := Switched(pointerButtons, buttons, i))
        invariant batch == before + added && Still(added)
      {
        var mask := ButtonMask(codes[i]);
        SwitchNext(pointerButtons, buttons, i, mask);
        if buttons & mask != pointerButtons & mask {
          var number := NextSerial();
          BatchSnoc(c, batch, PointerButton(codes[i], buttons & mask != 0));
          batch := batch + [PointerButton(codes[i], buttons & mask != 0)];
          added := added + [PointerButton(codes[i], buttons & mask != 0)];
        }
      }
    }
  }

  /** The recorded buttons with the first `n` of the three taken from the report. */
  function Switched(was: bv8, now: bv8, n: nat): bv8 {
    if n == 0 then ButtonBits(was)
    else if n == 1 then (was & 6) | (now & 1)
    else if n == 2 then (was & 4) | (now & 3)
    else ButtonBits(now)
  }

  lemma SwitchNext(was: bv8, now: bv8, n: nat, mask: bv8)
    requires n < 3 && mask == (if n == 0 then 1 else if n == 1 then 2 else 4)
    ensures Switched(was, now, n + 1) ==
      if now & mask != was & mask then SetButton(Switched(was, now, n), mask, now & mask != 0) else Switched(was, now, n)
    ensures now & mask != was & mask && now & mask == 0 ==> Shares(Switched(was, now, n), mask)
  {
  }

  lemma ArrivalSeen(c: Client, at: (int, int), moved: bool)
    ensures var first := Arrival(c.pointer, at, moved);
      BatchAllowed(c, first) && SeeAll(c, first) == c.(pointer := true)
  {
    hide SeeAll, BatchAllowed, Shares, SetButton, ButtonMask;
    EmptyBatch(c);
    if !c.pointer {
      BatchSnoc(c, [], PointerEnter(at.0, at.1));
      assert [] + [PointerEnter(at.0, at.1)] == [PointerEnter(at.0, at.1)];
    } else if moved {
      BatchSnoc(c, [], PointerMotion(at.0, at.1));
      assert [] + [PointerMotion(at.0, at.1)] == [PointerMotion(at.0, at.1)];
    }
  }

  lemma EmptyBatch(c: Client)
    ensures BatchAllowed(c, []) && SeeAll(c, []) == c
  {
  }

  lemma KeyBatchIs(c: Client, key: nat, pressed: bool, modifiers: nat)
    ensures KeyBatch(c, key, pressed, modifiers) ==
      [Key(key, pressed)] + (if modifiers != c.modifiers then [Modifiers(modifiers)] else [])
  {
  }

  lemma FocusTalks(focused: bool, modifiers: nat)
    ensures FocusBatch(focused, modifiers) != []
  {
  }
}

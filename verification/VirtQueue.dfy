/**
 * The split virtqueue: a driver that keeps at most two requests in flight and a device that takes and completes them at
 * its own pace, sharing rings whose indices wrap at sixteen bits (section 2.6 of VIRTIO Version 1.1).
 */
module VirtQueue {
  import opened Arithmetic
  import opened Wrappers

  const WRAP: nat := 0x1_0000
  const SLOTS: nat := 2
  const DESCRIPTORS_PER_REQUEST: nat := 3

  // ------------------------------------------------------------------ the queue size

  /** The largest power of two not above `n`, starting from `p`. */
  function LargestPower(n: nat, p: nat): (q: nat)
    requires 0 < p <= n
    ensures q <= n < 2 * q
    decreases n - p
  {
    if 2 * p <= n then LargestPower(n, 2 * p) else p
  }

  function ChooseQueueSize(offered: nat, limit: nat): Option<nat> {
    var maximum := if offered < limit then offered else limit;
    if maximum < 4 then None else Some(LargestPower(maximum, 1))
  }

  /** The ring cell of the request with this number, by its sixteen-bit index. */
  function Cell(k: nat, q: nat): (c: nat)
    requires q > 0
    ensures c < q
  {
    Index(k) % q
  }

  /** A count as the sixteen-bit index that stands for it. */
  function Index(n: nat): nat { n % WRAP }

  lemma IndexAdd(n: nat, m: nat)
    ensures Index(Index(n) + m) == Index(n + m)
  {
  }

  /** The last index before the wrap is not in the first cell. */
  predicate NoCollision(q: nat)
    requires q > 0
  {
    q > 1 && (WRAP - 1) % q != 0
  }

  /** Two requests in a row never share a cell exactly when the last index before the wrap is not in the first cell. */
  lemma CellsDistinct(q: nat)
    requires q > 0
    ensures (forall k: nat :: Cell(k, q) != Cell(k + 1, q)) <==> NoCollision(q)
  {
    if NoCollision(q) {
      forall k: nat ensures Cell(k, q) != Cell(k + 1, q) {
        Neighbours(k, q);
      }
    } else {
      assert Cell(WRAP - 1, q) == Cell((WRAP - 1) + 1, q);
    }
  }

  lemma Neighbours(k: nat, q: nat)
    requires q > 0 && NoCollision(q)
    ensures Cell(k, q) != Cell(k + 1, q)
  {
    if k % WRAP == WRAP - 1 {
      assert (k + 1) % WRAP == 0;
    } else {
      assert (k + 1) % WRAP == k % WRAP + 1;
      StepMod(k % WRAP, q);
    }
  }

  lemma StepMod(n: nat, q: nat)
    requires q > 1
    ensures n % q != (n + 1) % q
  {
    var r := n % q;
    assert n == q * (n / q) + r;
    if r + 1 < q {
      DivUnique(n + 1, q, n / q, r + 1);
    } else {
      DivUnique(n + 1, q, n / q + 1, 0);
    }
  }

  function Pow2(e: nat): nat { if e == 0 then 1 else 2 * Pow2(e - 1) }

  /** The search for the largest power keeps to divisors of the wrap, and no such divisor but one lets cells collide. */
  lemma {:induction false} PowerFits(n: nat, p: nat, e: nat)
    requires 0 < p <= n < WRAP && p * Pow2(e) == WRAP
    ensures var q := LargestPower(n, p); p <= q <= n && (q > 1 ==> (WRAP - 1) % q != 0)
    decreases n - p
  {
    if 2 * p <= n {
      assert e > 0;
      assert (2 * p) * Pow2(e - 1) == p * (2 * Pow2(e - 1));
      PowerFits(n, 2 * p, e - 1);
    } else {
      assert Pow2(e) > 0;
      assert WRAP - 1 == p * (Pow2(e) - 1) + (p - 1);
      DivUnique(WRAP - 1, p, Pow2(e) - 1, p - 1);
    }
  }

  /** So with a size the kernel chooses, requests in a row never share a cell. */
  lemma ChosenSizeFits(offered: nat, limit: nat)
    requires limit < WRAP && ChooseQueueSize(offered, limit).Some?
    ensures var q := ChooseQueueSize(offered, limit).value; 1 < q <= limit && forall k: nat :: Cell(k, q) != Cell(k + 1, q)
  {
    var maximum := if offered < limit then offered else limit;
    assert Pow2(14) == 0x4000 by {
      assert Pow2(4) == 16 && Pow2(8) == 256 && Pow2(12) == 0x1000;
    }
    PowerFits(maximum, 4, 14);
    assert LargestPower(maximum, 1) == LargestPower(maximum, 4);
    CellsDistinct(LargestPower(maximum, 4));
  }

  // ------------------------------------------------------------------ driver and device

  /** A request as the driver prepares it in one of its slots; what is in it matters only to the device. */
  type Request = nat

  /** The driver: idle; preparing slots; filling ring cells; about to announce; waiting for the used index. */
  datatype Driver =
    | Idle
    | Preparing(batch: seq<Request>, done: nat)
    | Filling(batch: seq<Request>, done: nat)
    | Waiting(expected: nat)

  /**
   * `available` and `used` are the shared sixteen-bit indices and `ring` the available ring. The device has taken
   * `taken` requests and has those numbered in `open` under way. The rest is history: every request announced with its
   * head, and what the device carried out under each number.
   */
  datatype State = State(
    q: nat, ring: seq<nat>, available: nat, used: nat, slots: seq<Request>, driver: Driver, taken: nat, open: map<nat, nat>,
    heads: seq<nat>, requests: seq<Request>, carriedOut: map<nat, Request>)
  {
    predicate Shaped() {
      q > 0 && |ring| == q && |slots| == SLOTS && |heads| == |requests|
    }
  }

  datatype Event =
    | Begin(batch: seq<Request>)
    | Prepare
    | Fill
    | Announce
    | Poll
    | Take
    | Finish(number: nat)

  function Head(slot: nat): nat { slot * DESCRIPTORS_PER_REQUEST }

  function SlotOf(head: nat): nat { head / DESCRIPTORS_PER_REQUEST }

  function Heads(n: nat): (h: seq<nat>)
    ensures |h| == n && forall i | 0 <= i < n :: h[i] == Head(i)
  {
    seq(n, i requires 0 <= i => Head(i))
  }

  function Init(q: nat): State
    requires q > 0
  {
    State(q, seq(q, _ => 0), 0, 0, seq(SLOTS, _ => 0), Idle, 0, map[], [], [], map[])
  }

  function Step(s: State, e: Event): (t: State)
    requires s.Shaped()
    ensures t.Shaped() && t.q == s.q
  {
    match e
    case Begin(batch) => if s.driver.Idle? && 0 < |batch| <= SLOTS then s.(driver := Preparing(batch, 0)) else s
    case Prepare =>
      if !s.driver.Preparing? then s
      else if s.driver.done < |s.driver.batch| && s.driver.done < SLOTS then
        s.(slots := s.slots[s.driver.done := s.driver.batch[s.driver.done]],
           driver := Preparing(s.driver.batch, s.driver.done + 1))
      else s.(driver := Filling(s.driver.batch, 0))
    case Fill =>
      if s.driver.Filling? && s.driver.done < |s.driver.batch| then
        s.(ring := s.ring[Cell(s.available + s.driver.done, s.q) := Head(s.driver.done)],
           driver := Filling(s.driver.batch, s.driver.done + 1))
      else s
    case Announce =>
      if s.driver.Filling? && s.driver.done == |s.driver.batch| then
        var next := Index(s.available + |s.driver.batch|);
        s.(available := next, driver := Waiting(next), heads := s.heads + Heads(|s.driver.batch|),
           requests := s.requests + s.driver.batch)
      else s
    case Poll => if s.driver.Waiting? && s.used == s.driver.expected then s.(driver := Idle) else s
    case Take =>
      if Index(s.taken) != s.available
      then s.(open := s.open[s.taken := s.ring[Cell(s.taken, s.q)]], taken := s.taken + 1) else s
    case Finish(k) =>
      if k in s.open && SlotOf(s.open[k]) < SLOTS then
        s.(open := s.open - {k}, used := Index(s.used + 1),
           carriedOut := s.carriedOut[k := s.slots[s.open[k] / DESCRIPTORS_PER_REQUEST]])
      else s
  }

  function Run(s: State, events: seq<Event>): (t: State)
    requires s.Shaped()
    ensures t.Shaped() && t.q == s.q
    decreases |events|
  {
    if events == [] then s else Run(Step(s, events[0]), events[1..])
  }

  // ------------------------------------------------------------------ what holds throughout

  /** A request announced and not yet carried out. */
  predicate Outstanding(s: State, k: nat) {
    k < |s.requests| && (s.taken <= k || k in s.open)
  }

  /** The slot a head names holds the request. */
  predicate Stored(s: State, k: nat)
    requires s.Shaped() && k < |s.requests|
  {
    (s.heads[k] == Head(0) && s.slots[0] == s.requests[k]) || (s.heads[k] == Head(1) && s.slots[1] == s.requests[k])
  }

  ghost predicate DriverFits(s: State)
    requires s.Shaped()
  {
    var p := |s.requests|;
    match s.driver
    case Idle => Quiet(s)
    case Preparing(batch, done) =>
      Quiet(s) && 0 < |batch| <= SLOTS && done <= |batch| && forall i | 0 <= i < done :: s.slots[i] == batch[i]
    case Filling(batch, done) =>
      && Quiet(s) && 0 < |batch| <= SLOTS && done <= |batch| && (forall i | 0 <= i < |batch| :: s.slots[i] == batch[i])
      && Filled(s.ring, s.q, p, done)
    case Waiting(expected) => expected == Index(p)
  }

  /** Nothing is in flight. */
  predicate Quiet(s: State) {
    s.taken == |s.requests| && s.open == map[]
  }

  /** The shared indices are the counts of requests announced and carried out, and at most two are in between. */
  predicate Counts(s: State) {
    && |s.open| <= s.taken <= |s.requests| <= s.taken - |s.open| + SLOTS
    && s.available == Index(|s.requests|) && s.used == Index(s.taken - |s.open|)
  }

  /** The device has, and will find, the heads announced. */
  predicate Rings(s: State)
    requires s.Shaped()
  {
    && s.taken <= |s.requests|
    && (forall k | k in s.open :: k < s.taken && s.open[k] == s.heads[k])
    && (forall k | s.taken <= k < |s.requests| :: s.ring[Cell(k, s.q)] == s.heads[k])
  }

  predicate AllStored(s: State)
    requires s.Shaped()
  {
    forall k | 0 <= k < |s.requests| && Outstanding(s, k) :: Stored(s, k)
  }

  predicate Done(s: State)
    requires s.Shaped()
  {
    && s.taken <= |s.requests|
    && forall k | 0 <= k < s.taken && k !in s.open :: k in s.carriedOut && s.carriedOut[k] == s.requests[k]
  }

  ghost predicate Inv(s: State) {
    s.Shaped() && NoCollision(s.q) && Counts(s) && Rings(s) && AllStored(s) && Done(s) && DriverFits(s)
  }

  lemma SameIndex(a: nat, b: nat)
    requires a <= b <= a + SLOTS
    ensures Index(a) == Index(b) <==> a == b
  {
  }

  lemma CellShift(p: nat, i: nat, q: nat)
    requires q > 0
    ensures Cell(Index(p) + i, q) == Cell(p + i, q)
  {
    hide Index;
    IndexAdd(p, i);
  }

  lemma PrepareInv(s: State, e: Event)
    requires Inv(s) && (e.Begin? || e.Prepare?)
    ensures Inv(Step(s, e))
  {
    hide Cell, Index, NoCollision;
  }

  lemma QuietFine(s: State)
    requires s.Shaped() && Quiet(s)
    ensures Rings(s) && AllStored(s)
  {
  }

  /** The cells filled so far, counting from request `p`. */
  predicate Filled(ring: seq<nat>, q: nat, p: nat, done: nat)
    requires q > 0 && |ring| == q
  {
    forall i | 0 <= i < done :: ring[Cell(p + i, q)] == Head(i)
  }

  lemma FillRing(ring: seq<nat>, q: nat, p: nat, done: nat)
    requires q > 0 && |ring| == q && NoCollision(q) && done < SLOTS && Filled(ring, q, p, done)
    ensures Filled(ring[Cell(p + done, q) := Head(done)], q, p, done + 1)
  {
    hide Cell, NoCollision, Head;
    if done == 1 {
      Neighbours(p, q);
      assert ring[Cell(p + 0, q)] == Head(0);
    }
  }

  lemma FillInv(s: State)
    requires Inv(s)
    ensures Inv(Step(s, Fill))
  {
    if s.driver.Filling? && s.driver.done < |s.driver.batch| {
      var p := |s.requests|;
      CellShift(p, s.driver.done, s.q);
      FillRing(s.ring, s.q, p, s.driver.done);
      QuietFine(Step(s, Fill));
      hide Cell, Index, NoCollision, Rings, AllStored, Filled;
    }
  }

  lemma AnnounceInv(s: State)
    requires Inv(s)
    ensures Inv(Step(s, Announce))
  {
    hide Cell, Index, NoCollision;
    if s.driver.Filling? && s.driver.done == |s.driver.batch| {
      var t := Step(s, Announce);
      var p := |s.requests|;
      IndexAdd(p, |s.driver.batch|);
      forall k | p <= k < |t.requests| ensures Stored(t, k) && t.ring[Cell(k, t.q)] == t.heads[k] {
        Announced(s, k);
      }
      assert Rings(t) && AllStored(t) by {
        hide Stored, Heads;
      }
    }
  }

  lemma Announced(s: State, k: nat)
    requires Inv(s) && s.driver.Filling? && s.driver.done == |s.driver.batch|
    requires |s.requests| <= k < |s.requests| + |s.driver.batch|
    ensures var t := Step(s, Announce); Stored(t, k) && t.ring[Cell(k, t.q)] == t.heads[k]
  {
    hide Cell, Index, NoCollision, Rings, AllStored, Done, Counts;
    var i := k - |s.requests|;
    assert Step(s, Announce).heads[k] == Head(i);
    assert s.ring[Cell(|s.requests| + i, s.q)] == Head(i);
  }

  lemma PollInv(s: State)
    requires Inv(s)
    ensures Inv(Step(s, Poll))
  {
    hide Cell, Index, NoCollision;
    SameIndex(s.taken - |s.open|, |s.requests|);
  }

  lemma TakeInv(s: State)
    requires Inv(s)
    ensures Inv(Step(s, Take))
  {
    hide Cell, Index, NoCollision, Stored;
    SameIndex(s.taken, |s.requests|);
    if s.taken < |s.requests| {
      var t := Step(s, Take);
      assert s.driver.Waiting? && s.taken !in s.open;
      hide DriverFits;
      assert DriverFits(t) by {
        WaitingFits(s, t);
      }
      assert |t.open| == |s.open| + 1;
      forall k | 0 <= k < |t.requests| && Outstanding(t, k) ensures Stored(t, k) {
        assert Outstanding(s, k);
        StoredSame(s, t, k);
      }
    }
  }

  lemma WaitingFits(s: State, t: State)
    requires s.Shaped() && t.Shaped() && s.driver.Waiting? && t.driver == s.driver && t.requests == s.requests && DriverFits(s)
    ensures DriverFits(t)
  {
  }

  lemma StoredSame(s: State, t: State, k: nat)
    requires s.Shaped() && t.Shaped() && t.heads == s.heads && t.requests == s.requests && t.slots == s.slots && k < |s.requests|
    ensures Stored(t, k) == Stored(s, k)
  {
  }

  lemma FinishValue(s: State, n: nat)
    requires Inv(s) && n in s.open
    ensures n < s.taken <= |s.requests| && SlotOf(s.open[n]) < SLOTS && s.slots[SlotOf(s.open[n])] == s.requests[n]
    ensures s.driver.Waiting?
  {
    hide Cell, Index, NoCollision, Done;
    assert Outstanding(s, n) && Stored(s, n);
  }

  lemma FinishStep(s: State, n: nat)
    requires Inv(s) && n in s.open
    ensures n < |s.requests| && s.driver.Waiting?
    ensures Step(s, Finish(n)) ==
      s.(open := s.open - {n}, used := Index(s.used + 1), carriedOut := s.carriedOut[n := s.requests[n]])
  {
    FinishValue(s, n);
    hide Inv;
  }

  lemma FinishCounts(s: State, t: State, n: nat)
    requires Counts(s) && n in s.open && t.open == s.open - {n} && t.used == Index(s.used + 1)
    requires t.taken == s.taken && t.requests == s.requests && t.available == s.available
    ensures Counts(t)
  {
    hide Index;
    assert |t.open| == |s.open| - 1 by {
      assert s.open == (s.open - {n})[n := s.open[n]];
    }
    IndexAdd(s.taken - |s.open|, 1);
  }

  lemma FinishDone(s: State, t: State, n: nat)
    requires s.Shaped() && t.Shaped() && Done(s) && n in s.open && n < |s.requests| && t.open == s.open - {n}
    requires t.taken == s.taken && t.requests == s.requests && t.carriedOut == s.carriedOut[n := s.requests[n]]
    ensures Done(t)
  {
    forall k | 0 <= k < t.taken && k !in t.open ensures k in t.carriedOut && t.carriedOut[k] == t.requests[k] {
      assert k != n ==> k !in s.open;
    }
  }

  lemma FinishStored(s: State, t: State, n: nat)
    requires s.Shaped() && t.Shaped() && Rings(s) && AllStored(s) && t.open == s.open - {n} && t.ring == s.ring && t.q == s.q
    requires t.taken == s.taken && t.requests == s.requests && t.heads == s.heads && t.slots == s.slots
    ensures Rings(t) && AllStored(t)
  {
    hide Stored, Cell;
    forall k | 0 <= k < |t.requests| && Outstanding(t, k) ensures Stored(t, k) {
      assert Outstanding(s, k);
      StoredSame(s, t, k);
    }
  }

  lemma FinishInv(s: State, n: nat)
    requires Inv(s)
    ensures Inv(Step(s, Finish(n)))
  {
    if n in s.open {
      FinishStep(s, n);
      hide Step, NoCollision, Rings, AllStored, Counts, Done, DriverFits;
      var t := Step(s, Finish(n));
      WaitingFits(s, t);
      FinishCounts(s, t, n);
      FinishDone(s, t, n);
      FinishStored(s, t, n);
    }
  }

  lemma StepInv(s: State, e: Event)
    requires Inv(s)
    ensures Inv(Step(s, e))
  {
    hide Inv, Step;
    match e
    case Begin(_) | Prepare => PrepareInv(s, e);
    case Fill => FillInv(s);
    case Announce => AnnounceInv(s);
    case Poll => PollInv(s);
    case Take => TakeInv(s);
    case Finish(n) => FinishInv(s, n);
  }

  lemma {:induction false} RunInv(s: State, events: seq<Event>)
    requires Inv(s)
    ensures Inv(Run(s, events))
    decreases |events|
  {
    if events != [] {
      StepInv(s, events[0]);
      RunInv(Step(s, events[0]), events[1..]);
    }
  }

  /**
   * For any number of requests, past any number of wraps: the device takes exactly the heads announced, in order, and
   * carries out exactly the requests announced under them; the driver sees completion only when nothing is in flight,
   * so it never touches a slot, its descriptors or its page, while the device may.
   */
  lemma QueueSound(q: nat, events: seq<Event>)
    requires q > 0 && NoCollision(q)
    ensures var s := Run(Init(q), events);
      && s.taken <= |s.heads| == |s.requests|
      && (forall k | k in s.open :: k < s.taken && s.open[k] == s.heads[k])
      && (forall k | 0 <= k < s.taken && k !in s.open :: k in s.carriedOut && s.carriedOut[k] == s.requests[k])
      && (!s.driver.Waiting? ==> Quiet(s))
      && (s.driver.Waiting? && s.used == s.driver.expected ==> Quiet(s))
  {
    var s := Run(Init(q), events);
    assert Inv(Init(q));
    RunInv(Init(q), events);
    PollQuiet(s);
  }

  lemma PollQuiet(s: State)
    requires Inv(s)
    ensures s.driver.Waiting? && s.used == s.driver.expected ==> Quiet(s)
  {
    hide Cell, Index, NoCollision;
    SameIndex(s.taken - |s.open|, |s.requests|);
  }

  lemma TakeMoves(s: State)
    requires Inv(s) && s.taken < |s.requests|
    ensures Step(s, Take).taken == s.taken + 1 && Step(s, Take).open == s.open[s.taken := s.heads[s.taken]]
  {
    hide NoCollision, AllStored, Done, DriverFits, Cell, Index;
    SameIndex(s.taken, |s.requests|);
    assert s.ring[Cell(s.taken, s.q)] == s.heads[s.taken];
  }

  lemma FinishMoves(s: State, number: nat)
    requires Inv(s) && number in s.open
    ensures number < |s.requests| && Step(s, Finish(number)).open == s.open - {number}
    ensures Step(s, Finish(number)).carriedOut == s.carriedOut[number := s.requests[number]]
  {
    FinishStep(s, number);
  }

  lemma PollMoves(s: State)
    requires Inv(s) && s.driver.Waiting? && Quiet(s)
    ensures Step(s, Poll).driver.Idle?
  {
    hide NoCollision, AllStored, Done, Rings, Cell, Index;
  }

  /**
   * And nothing is left lying: in every run the device can take the next request announced and carry out any it has
   * taken, and the driver sees completion as soon as nothing is in flight.
   */
  lemma QueueMoves(q: nat, events: seq<Event>, number: nat)
    requires q > 0 && NoCollision(q)
    ensures var s := Run(Init(q), events);
      && (s.taken < |s.requests| ==>
            && s.taken < |s.heads| && Step(s, Take).taken == s.taken + 1
            && Step(s, Take).open == s.open[s.taken := s.heads[s.taken]])
      && (number in s.open ==>
            && number < |s.requests| && Step(s, Finish(number)).open == s.open - {number}
            && Step(s, Finish(number)).carriedOut == s.carriedOut[number := s.requests[number]])
      && (s.driver.Waiting? && Quiet(s) ==> Step(s, Poll).driver.Idle?)
  {
    var s := Run(Init(q), events);
    assert Inv(Init(q));
    RunInv(Init(q), events);
    hide Run, Step, Inv, NoCollision;
    if s.taken < |s.requests| {
      TakeMoves(s);
    }
    if number in s.open {
      FinishMoves(s, number);
    }
    if s.driver.Waiting? && Quiet(s) {
      PollMoves(s);
    }
  }

  /** An idle driver announces the requests it is given, in order. */
  lemma Announces(q: nat, events: seq<Event>, batch: seq<Request>)
    requires q > 0 && NoCollision(q) && 0 < |batch| <= SLOTS
    requires Run(Init(q), events).driver.Idle?
    ensures var s := Run(Init(q), events);
      var ready := PrepareAll(Step(s, Begin(batch)), |batch|);
      var t := Step(FillAll(ready, |batch|), Announce);
      t.requests == s.requests + batch && t.driver == Waiting(t.available)
  {
    var s := Run(Init(q), events);
    hide Run, Cell, Index, Head;
    var begun := Step(s, Begin(batch));
    assert begun.driver == Preparing(batch, 0);
    PreparedAll(begun, batch, 0);
    FilledAll(PrepareAll(begun, |batch|), batch, 0);
  }

  function PrepareAll(s: State, n: nat): (t: State)
    requires s.Shaped()
    ensures t.Shaped()
    decreases n
  {
    if n == 0 then Step(s, Prepare) else PrepareAll(Step(s, Prepare), n - 1)
  }

  function FillAll(s: State, n: nat): (t: State)
    requires s.Shaped()
    ensures t.Shaped()
    decreases n
  {
    if n == 0 then s else FillAll(Step(s, Fill), n - 1)
  }

  lemma {:induction false} PreparedAll(s: State, batch: seq<Request>, done: nat)
    requires s.Shaped() && s.driver == Preparing(batch, done) && done <= |batch| <= SLOTS
    ensures var t := PrepareAll(s, |batch| - done);
      t.driver == Filling(batch, 0) && t.requests == s.requests && t.available == s.available && t.heads == s.heads
    decreases |batch| - done
  {
    if done < |batch| {
      PreparedAll(Step(s, Prepare), batch, done + 1);
    }
  }

  lemma {:induction false} FilledAll(s: State, batch: seq<Request>, done: nat)
    requires s.Shaped() && s.driver == Filling(batch, done) && done <= |batch|
    ensures var t := FillAll(s, |batch| - done);
      t.driver == Filling(batch, |batch|) && t.requests == s.requests && t.available == s.available && t.heads == s.heads
    decreases |batch| - done
  {
    hide Cell, Head;
    if done < |batch| {
      FilledAll(Step(s, Fill), batch, done + 1);
    }
  }

  /** The size is the largest power of two that neither side objects to, and there is one unless fewer than four fit. */
  lemma ChosenSize(offered: nat, limit: nat)
    ensures var size, maximum := ChooseQueueSize(offered, limit), if offered < limit then offered else limit;
      && (size.Some? <==> maximum >= 4)
      && (size.Some? ==> size.value <= maximum < 2 * size.value && exists e: nat :: Pow2(e) == size.value)
  {
    var maximum := if offered < limit then offered else limit;
    if maximum >= 4 {
      PowerIs(maximum, 1, 0);
    }
  }

  lemma {:induction false} PowerIs(n: nat, p: nat, e: nat)
    requires 0 < p <= n && Pow2(e) == p
    ensures exists f: nat :: Pow2(f) == LargestPower(n, p)
    decreases n - p
  {
    if 2 * p <= n {
      PowerIs(n, 2 * p, e + 1);
    }
  }
}

/** The keyboard and mouse ring: filled by interrupts, emptied by the desktop task. */
module InputRing {
  import opened Wrappers

  const QUEUE_CAPACITY: nat := 128

  /** A byte from the keyboard or the mouse, and its stored form. */
  datatype RawByte = RawByte(mouse: bool, value: bv8)

  function Encode(b: RawByte): bv16 {
    (b.value as bv16) | (if b.mouse then 0x100 else 0)
  }

  function Decode(word: bv16): RawByte {
    RawByte(word & 0x100 != 0, (word & 0xFF) as bv8)
  }

  lemma CodecRoundTrip(b: RawByte)
    ensures Decode(Encode(b)) == b
  {
  }

  datatype Ring = Ring(cells: seq<bv16>, head: nat, tail: nat) {
    predicate Valid() {
      |cells| == QUEUE_CAPACITY && head < QUEUE_CAPACITY && tail < QUEUE_CAPACITY
    }

    function Count(): nat
      requires Valid()
    {
      if tail <= head then head - tail else head + QUEUE_CAPACITY - tail
    }

    predicate Full()
      requires Valid()
    {
      Wrap(head + 1) == tail
    }

    /** The queued bytes, oldest first. */
    function Queued(): (q: seq<RawByte>)
      requires Valid()
      ensures |q| == Count()
    {
      seq(Count(), i requires 0 <= i < Count() => Decode(cells[Wrap(tail + i)]))
    }

    /** What the interrupt handler stores. */
    function Push(b: RawByte): Ring
      requires Valid()
    {
      Ring(cells[head := Encode(b)], Wrap(head + 1), tail)
    }

    /** What the desktop task stores once it has read the oldest byte. */
    function Pop(): Ring
      requires Valid()
    {
      Ring(cells, head, Wrap(tail + 1))
    }
  }

  function Wrap(i: nat): (j: nat)
    ensures j < QUEUE_CAPACITY && (i < QUEUE_CAPACITY ==> j == i)
    ensures QUEUE_CAPACITY <= i < 2 * QUEUE_CAPACITY ==> j == i - QUEUE_CAPACITY
  {
    i % QUEUE_CAPACITY
  }

  /** The ring is full exactly when it holds one byte less than its capacity. */
  lemma FullCount(r: Ring)
    requires r.Valid()
    ensures r.Full() <==> r.Count() == QUEUE_CAPACITY - 1
    ensures r.Count() < QUEUE_CAPACITY && (r.Count() == 0 <==> r.head == r.tail)
  {
    hide Wrap;
  }

  lemma PushQueued(r: Ring, b: RawByte)
    requires r.Valid() && !r.Full()
    ensures r.Push(b).Valid() && r.Push(b).Queued() == r.Queued() + [b]
    ensures r.Count() > 0 ==> r.Push(b).cells[r.tail] == r.cells[r.tail]
  {
    hide Wrap, Encode, Decode;
    FullCount(r);
    CodecRoundTrip(b);
    var p := r.Push(b);
    assert p.Count() == r.Count() + 1;
    forall i | 0 <= i < r.Count() ensures p.Queued()[i] == r.Queued()[i] {
      assert Wrap(r.tail + i) != r.head;
    }
    assert Wrap(r.tail + r.Count()) == r.head;
    assert p.Queued() == r.Queued() + [b];
  }

  lemma PopQueued(r: Ring)
    requires r.Valid() && r.head != r.tail
    ensures r.Pop().Valid() && r.Queued() == [Decode(r.cells[r.tail])] + r.Pop().Queued()
  {
    hide Wrap, Decode;
    FullCount(r);
    var p := r.Pop();
    forall i | 0 <= i < p.Count() ensures p.Queued()[i] == r.Queued()[i + 1] {
      assert Wrap(p.tail + i) == Wrap(r.tail + (i + 1));
    }
    assert Wrap(r.tail + 0) == r.tail;
    assert r.Queued() == [Decode(r.cells[r.tail])] + p.Queued();
  }

  /** The ring as the kernel keeps it. */
  class InputQueue {
    const cells: array<bv16>
    var head: nat
    var tail: nat
    var dropped: nat

    ghost predicate Valid()
      reads this, cells
    {
      View().Valid()
    }

    ghost function View(): Ring
      reads this, cells
    {
      Ring(cells[..], head, tail)
    }

    constructor ()
      ensures Valid() && fresh(cells) && View().Queued() == [] && dropped == 0
    {
      cells := new bv16[QUEUE_CAPACITY](_ => 0);
      head, tail, dropped := 0, 0, 0;
    }

    /** The interrupt's byte joins the queue, or is counted as dropped when the queue is full. */
    method EnqueueInterruptByte(b: RawByte) returns (accepted: bool)
      requires Valid()
      modifies this, cells
      ensures Valid() && accepted == (|old(View().Queued())| < QUEUE_CAPACITY - 1)
      ensures View().Queued() == if accepted then old(View().Queued()) + [b] else old(View().Queued())
      ensures dropped == if accepted then old(dropped) else old(dropped) + 1
    {
      hide Encode, Decode;
      FullCount(View());
      var next := Wrap(head + 1);
      if next == tail {
        dropped := dropped + 1;
        return false;
      }
      PushQueued(View(), b);
      ghost var pushed := View().Push(b);
      cells[head] := Encode(b);
      head := next;
      assert View() == pushed;
      return true;
    }

    /** The oldest byte leaves the queue. */
    method NextByte() returns (b: Option<RawByte>)
      requires Valid()
      modifies this`tail
      ensures Valid() && (b.None? <==> old(View().Queued()) == [])
      ensures View().Queued() == if b.Some? then old(View().Queued())[1..] else []
      ensures b.Some? ==> b.value == old(View().Queued())[0]
    {
      hide Encode, Decode;
      FullCount(View());
      if tail == head {
        return None;
      }
      PopQueued(View());
      b := Some(Decode(cells[tail]));
      tail := Wrap(tail + 1);
    }
  }
}

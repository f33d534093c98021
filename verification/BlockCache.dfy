/** The eight-entry block cache with round-robin replacement that file reads go through. */
module Caching {
  import opened Storage
  import opened Wrappers

  const ENTRY_COUNT: nat := 8

  datatype Entry<T> = Entry(block: nat, data: T, valid: bool)

  predicate Holds<T>(s: seq<Entry<T>>, i: int, b: nat) {
    0 <= i < |s| && s[i].valid && s[i].block == b
  }

  /** No block has two valid entries: this is what makes it enough to invalidate the first match. */
  ghost predicate Unique<T>(s: seq<Entry<T>>) {
    forall i, j, b :: Holds(s, i, b) && Holds(s, j, b) ==> i == j
  }

  /** The cached copy of block `b`, if there is one. */
  ghost function Lookup<T>(s: seq<Entry<T>>, b: nat): (r: Option<T>)
    ensures r.None? <==> forall i :: !Holds(s, i, b)
    ensures r.Some? ==> exists i :: Holds(s, i, b) && r.value == s[i].data
  {
    if i :| Holds(s, i, b) then Some(s[i].data) else None
  }

  lemma LookupHit<T>(s: seq<Entry<T>>, i: int, b: nat)
    requires Unique(s) && Holds(s, i, b)
    ensures Lookup(s, b) == Some(s[i].data)
  {
  }

  /** Every cached block outside `exempt` is the block on the disk. */
  ghost predicate Coherent<T>(s: seq<Entry<T>>, disk: seq<T>, exempt: iset<nat>) {
    forall b: nat :: b !in exempt && Lookup(s, b).Some? ==> b < |disk| && Lookup(s, b).value == disk[b]
  }

  /** Replacing the entry at `v` drops what it held and caches `b`; every other block is as before. */
  lemma ReplaceEffect<T>(s: seq<Entry<T>>, v: nat, b: nat, data: T)
    requires Unique(s) && v < |s| && Lookup(s, b).None?
    ensures var t := s[v := Entry(b, data, true)];
      && Unique(t) && Lookup(t, b) == Some(data)
      && (forall c | c != b :: Lookup(t, c) == if Holds(s, v, c) then None else Lookup(s, c))
  {
    var t := s[v := Entry(b, data, true)];
    assert forall i, c | i != v :: Holds(t, i, c) == Holds(s, i, c);
    assert Holds(t, v, b);
    LookupHit(t, v, b);
    forall c | c != b ensures Lookup(t, c) == if Holds(s, v, c) then None else Lookup(s, c) {
      assert !Holds(t, v, c);
      if i :| i != v && Holds(s, i, c) {
        assert Holds(t, i, c);
        LookupHit(s, i, c);
        LookupHit(t, i, c);
      }
    }
  }

  lemma DropEffect<T>(s: seq<Entry<T>>, v: nat, b: nat)
    requires Unique(s) && Holds(s, v, b)
    ensures var t := s[v := s[v].(valid := false)];
      Unique(t) && Lookup(t, b) == None && (forall c | c != b :: Lookup(t, c) == Lookup(s, c))
  {
    var t := s[v := s[v].(valid := false)];
    assert forall i, c | i != v :: Holds(t, i, c) == Holds(s, i, c);
    assert forall c :: !Holds(t, v, c);
    assert forall i :: !Holds(t, i, b) by {
      assert forall i | i != v :: !Holds(s, i, b);
    }
    forall c | c != b ensures Lookup(t, c) == Lookup(s, c) {
      assert !Holds(s, v, c);
      if i :| Holds(s, i, c) {
        assert Holds(t, i, c);
        LookupHit(s, i, c);
        LookupHit(t, i, c);
      }
    }
  }

  /** The entry `n` places on, round and round. */
  function Later(victim: nat, n: nat): nat {
    (victim + n) % ENTRY_COUNT
  }

  /** A block is in one of the two entries whose turn it is. */
  predicate Evicted<T>(s: seq<Entry<T>>, victim: nat, c: nat) {
    Holds(s, victim, c) || Holds(s, Later(victim, 1), c)
  }

  /** Replacing two entries in turn: the second replacement leaves the first block alone. */
  lemma ReplaceTwo<T>(s: seq<Entry<T>>, v: nat, first: nat, one: T, second: nat, two: T)
    requires Unique(s) && |s| == ENTRY_COUNT && v < |s| && first != second
    requires Lookup(s, first).None? && Lookup(s, second).None?
    ensures var t := s[v := Entry(first, one, true)][Later(v, 1) := Entry(second, two, true)];
      && Unique(t) && Lookup(t, first) == Some(one) && Lookup(t, second) == Some(two)
      && forall c | c != first && c != second :: Lookup(t, c) == Lookup(s, c) || (Lookup(t, c).None? && Evicted(s, v, c))
  {
    hide Unique, Lookup;
    var middle := s[v := Entry(first, one, true)];
    ReplaceEffect(s, v, first, one);
    assert !Holds(s, v, second);
    ReplaceEffect(middle, Later(v, 1), second, two);
    assert Later(v, 1) != v;
    assert forall c :: Holds(middle, Later(v, 1), c) == Holds(s, Later(v, 1), c);
  }

  class BlockCache<T> {
    const entries: array<Entry<T>>
    var nextVictim: nat

    ghost predicate Valid()
      reads this, entries
    {
      entries.Length == ENTRY_COUNT && nextVictim < ENTRY_COUNT && Unique(entries[..])
    }

    constructor (blank: T)
      ensures Valid() && fresh(entries) && forall b :: Lookup(entries[..], b).None?
    {
      entries := new Entry[ENTRY_COUNT](_ => Entry(0, blank, false));
      nextVictim := 0;
      new;
      assert forall i, b :: !Holds(entries[..], i, b);
    }

    method Find(block: nat) returns (index: int)
      requires Valid()
      ensures -1 <= index < ENTRY_COUNT
      ensures index >= 0 ==> Holds(entries[..], index, block)
      ensures index < 0 <==> Lookup(entries[..], block).None?
    {
      index := 0;
      while index < entries.Length
        invariant 0 <= index <= entries.Length
        invariant forall i | i < index :: !Holds(entries[..], i, block)
      {
        if entries[index].valid && entries[index].block == block {
          assert Holds(entries[..], index, block);
          return;
        }
        index := index + 1;
      }
      index := -1;
    }

    method ReadBlock(device: BlockDevice<T>, block: nat) returns (data: T)
      requires Valid() && device.Valid() && block < |device.media|
      modifies this, entries
      ensures Valid()
      ensures data ==
        if Lookup(old(entries[..]), block).Some? then Lookup(old(entries[..]), block).value else device.View()[block]
      ensures Lookup(entries[..], block) == Some(data)
      ensures forall c | c != block ::
        || Lookup(entries[..], c) == Lookup(old(entries[..]), c)
        || (Lookup(entries[..], c).None? && Holds(old(entries[..]), old(nextVictim), c)
            && Lookup(old(entries[..]), block).None?)
      ensures nextVictim == Later(old(nextVictim), if Lookup(old(entries[..]), block).None? then 1 else 0)
    {
      var index := Find(block);
      if index >= 0 {
        LookupHit(entries[..], index, block);
        return entries[index].data;
      }
      data := device.Read(block);
      var victim := nextVictim;
      nextVictim := (nextVictim + 1) % ENTRY_COUNT;
      ghost var before := entries[..];
      entries[victim] := Entry(block, data, true);
      assert entries[..] == before[victim := Entry(block, data, true)];
      ReplaceEffect(before, victim, block, data);
    }

    /** Reads two uncached blocks with one pair of requests; refuses equal blocks, and does nothing if either is cached. */
    method PrefetchPair(device: BlockDevice<T>, first: nat, second: nat) returns (ok: bool)
      requires Valid() && device.Valid() && first < |device.media| && second < |device.media|
      modifies this, entries
      ensures Valid() && ok == (first != second)
      ensures !ok || Lookup(old(entries[..]), first).Some? || Lookup(old(entries[..]), second).Some? ==>
        entries[..] == old(entries[..]) && nextVictim == old(nextVictim)
      ensures ok && Lookup(old(entries[..]), first).None? && Lookup(old(entries[..]), second).None? ==>
        && Lookup(entries[..], first) == Some(device.View()[first]) && Lookup(entries[..], second) == Some(device.View()[second])
        && forall c | c != first && c != second ::
             || Lookup(entries[..], c) == Lookup(old(entries[..]), c)
             || (Lookup(entries[..], c).None? && Evicted(old(entries[..]), old(nextVictim), c))
      ensures ok && Lookup(old(entries[..]), first).None? && Lookup(old(entries[..]), second).None? ==>
        nextVictim == Later(old(nextVictim), 2)
    {
      hide Unique, Lookup, Evicted, BlockDevice.View, BlockDevice.Valid;
      if first == second {
        return false;
      }
      ok := true;
      var firstAt := Find(first);
      var secondAt := Find(second);
      if firstAt >= 0 || secondAt >= 0 {
        return;
      }
      var firstData := device.Read(first);
      var secondData := device.Read(second);
      var firstVictim := nextVictim;
      var secondVictim := (firstVictim + 1) % ENTRY_COUNT;
      nextVictim := (secondVictim + 1) % ENTRY_COUNT;
      ReplaceTwo(entries[..], firstVictim, first, firstData, second, secondData);
      ghost var before := entries[..];
      entries[firstVictim] := Entry(first, firstData, true);
      entries[secondVictim] := Entry(second, secondData, true);
      assert entries[..] == before[firstVictim := Entry(first, firstData, true)][secondVictim := Entry(second, secondData, true)];
    }

    method Invalidate(block: nat) returns (found: bool)
      requires Valid()
      modifies entries
      ensures Valid() && nextVictim == old(nextVictim)
      ensures found == Lookup(old(entries[..]), block).Some?
      ensures Lookup(entries[..], block).None?
      ensures forall c | c != block :: Lookup(entries[..], c) == Lookup(old(entries[..]), c)
    {
      var index := Find(block);
      if index < 0 {
        return false;
      }
      ghost var before := entries[..];
      entries[index] := entries[index].(valid := false);
      assert entries[..] == before[index := before[index].(valid := false)];
      DropEffect(before, index, block);
      return true;
    }
  }
}

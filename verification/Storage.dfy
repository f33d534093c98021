/**
 A disk as the kernel sees it: numbered blocks, and write and flush requests of
 which the writes since the last flush may still be on their way.
 */
module Storage {

  datatype Request<T> = Write(at: nat, block: T) | Flush

  function Step<T>(d: seq<T>, op: Request<T>): (r: seq<T>)
    ensures |r| == |d|
  {
    if op.Write? && op.at < |d| then d[op.at := op.block] else d
  }

  /** The disk once every request in `ops` has reached the medium, in issue order. */
  function Run<T>(d: seq<T>, ops: seq<Request<T>>): (r: seq<T>)
    ensures |r| == |d|
    decreases |ops|
  {
    if ops == [] then d else Run(Step(d, ops[0]), ops[1..])
  }

  predicate Touches<T>(ops: seq<Request<T>>, a: nat) {
    exists i | 0 <= i < |ops| :: ops[i].Write? && ops[i].at == a
  }

  lemma {:induction false} RunConcat<T>(d: seq<T>, a: seq<Request<T>>, b: seq<Request<T>>)
    ensures Run(d, a + b) == Run(Run(d, a), b)
    decreases |a|
  {
    if a == [] {
      assert a + b == b;
    } else {
      assert (a + b)[1..] == a[1..] + b;
      RunConcat(Step(d, a[0]), a[1..], b);
    }
  }

  lemma {:induction false} RunUntouched<T>(d: seq<T>, ops: seq<Request<T>>, a: nat)
    requires a < |d| && !Touches(ops, a)
    ensures Run(d, ops)[a] == d[a]
    decreases |ops|
  {
    if ops != [] {
      assert forall i | 0 <= i < |ops[1..]| :: ops[1..][i] == ops[i + 1];
      RunUntouched(Step(d, ops[0]), ops[1..], a);
    }
  }

  /** The last write to a block is what the block ends up holding. */
  lemma {:induction false} RunLanded<T>(d: seq<T>, ops: seq<Request<T>>, i: nat)
    requires i < |ops| && ops[i].Write? && ops[i].at < |d|
    requires !Touches(ops[i + 1..], ops[i].at)
    ensures Run(d, ops)[ops[i].at] == ops[i].block
  {
    assert ops == ops[..i] + ([ops[i]] + ops[i + 1..]);
    RunConcat(d, ops[..i], [ops[i]] + ops[i + 1..]);
    var m := Run(d, ops[..i]);
    assert ([ops[i]] + ops[i + 1..])[1..] == ops[i + 1..];
    RunUntouched(Step(m, ops[i]), ops[i + 1..], ops[i].at);
  }

  /** The same two facts with the requests written out. */
  lemma Last<T>(d: seq<T>, ops: seq<Request<T>>, i: nat)
    requires i < |ops| && ops[i].Write? && ops[i].at < |d|
    requires forall x | i < x < |ops| && ops[x].Write? :: ops[x].at != ops[i].at
    ensures Run(d, ops)[ops[i].at] == ops[i].block
  {
    RunLanded(d, ops, i);
  }

  lemma Missed<T>(d: seq<T>, ops: seq<Request<T>>, a: nat)
    requires a < |d| && forall x | 0 <= x < |ops| && ops[x].Write? :: ops[x].at != a
    ensures Run(d, ops)[a] == d[a]
  {
    RunUntouched(d, ops, a);
  }

  lemma RunNothing<T>(d: seq<T>)
    ensures Run(d, []) == d
  {
  }

  lemma RunPair<T>(d: seq<T>, x: Request<T>, y: Request<T>)
    ensures Run(d, [x]) == Step(d, x)
    ensures Run(d, [x, y]) == Step(Step(d, x), y)
  {
    assert [x][1..] == [] && [x, y][1..] == [y] && [y][1..] == [];
    assert Run(d, [x, y]) == Run(Step(d, x), [y]);
  }

  lemma RunSnoc<T>(d: seq<T>, ops: seq<Request<T>>, op: Request<T>)
    ensures Run(d, ops + [op]) == Step(Run(d, ops), op)
  {
    RunConcat(d, ops, [op]);
    RunPair(Run(d, ops), op, op);
  }

  // ---------------------------------------------------------------- crashes

  /** `ops[..i]` is flushed and `ops[i..j]` are the writes issued since. */
  predicate CrashPoint<T>(ops: seq<Request<T>>, i: nat, j: nat) {
    && i <= j <= |ops|
    && (i == 0 || ops[i - 1].Flush?)
    && forall x | i <= x < j :: ops[x].Write?
  }

  function Kept<T>(pending: seq<Request<T>>, keep: seq<bool>): seq<Request<T>>
    requires |keep| == |pending|
    decreases |pending|
  {
    if pending == [] then [] else (if keep[0] then [pending[0]] else []) + Kept(pending[1..], keep[1..])
  }

  /** The disk found after a crash at (i, j) that kept the pending writes marked in `keep`. */
  function CrashDisk<T>(d: seq<T>, ops: seq<Request<T>>, i: nat, j: nat, keep: seq<bool>): (e: seq<T>)
    requires i <= j <= |ops| && |keep| == j - i
    ensures |e| == |d|
  {
    Run(Run(d, ops[..i]), Kept(ops[i..j], keep))
  }

  function AllKept(n: nat): seq<bool> {
    seq(n, _ => true)
  }

  lemma {:induction false} KeptAll<T>(pending: seq<Request<T>>)
    ensures Kept(pending, AllKept(|pending|)) == pending
    decreases |pending|
  {
    if pending != [] {
      assert AllKept(|pending|)[1..] == AllKept(|pending[1..]|);
      KeptAll(pending[1..]);
      assert pending == [pending[0]] + pending[1..];
    }
  }

  /** With writes persisting in issue order, a crash keeps all of the writes issued since the last flush. */
  lemma InOrder<T>(d: seq<T>, ops: seq<Request<T>>, k: nat) returns (i: nat)
    requires k <= |ops|
    ensures CrashPoint(ops, i, k) && CrashDisk(d, ops, i, k, AllKept(k - i)) == Run(d, ops[..k])
  {
    i := k;
    while i > 0 && ops[i - 1].Write?
      invariant i <= k && forall x | i <= x < k :: ops[x].Write?
    {
      i := i - 1;
    }
    KeptAll(ops[i..k]);
    assert ops[..k] == ops[..i] + ops[i..k];
    RunConcat(d, ops[..i], ops[i..k]);
  }

  /** A crash after the first list of requests is a crash of the second, on the disk the first leaves. */
  lemma CrashConcat<T>(d: seq<T>, a: seq<Request<T>>, b: seq<Request<T>>, i: nat, j: nat, keep: seq<bool>)
    requires |a| <= i && CrashPoint(a + b, i, j) && |keep| == j - i
    ensures CrashPoint(b, i - |a|, j - |a|)
    ensures CrashDisk(d, a + b, i, j, keep) == CrashDisk(Run(d, a), b, i - |a|, j - |a|, keep)
  {
    hide Run, Kept;
    var c, ops := |a|, a + b;
    assert ops[..i] == a + b[..i - c];
    assert ops[i..j] == b[i - c..j - c];
    RunConcat(d, a, b[..i - c]);
    assert i > c ==> b[i - c - 1] == ops[i - 1];
    forall x | i - c <= x < j - c ensures b[x].Write? {
      assert ops[c + x] == b[x];
    }
  }

  // ---------------------------------------------------------------- the device

  /**
   The block device. `log` records every request since the medium held `base`, so
   that a crash at any moment is a crash point of the log.
   */
  class BlockDevice<T> {
    var media: seq<T>
    var pending: seq<Request<T>>
    ghost const base: seq<T>
    ghost var log: seq<Request<T>>

    ghost predicate Valid()
      reads this
    {
      && |pending| <= |log|
      && var i := |log| - |pending|;
         && pending == log[i..] && media == Run(base, log[..i])
         && CrashPoint(log, i, |log|)
    }

    /** What a read returns: the medium with the pending writes on top. */
    ghost function View(): (d: seq<T>)
      requires Valid()
      reads this
      ensures |d| == |base| == |media|
    {
      Run(base, log)
    }

    constructor (medium: seq<T>)
      ensures Valid() && View() == medium && base == medium && log == []
    {
      media, pending, base, log := medium, [], medium, [];
    }

    method Read(at: nat) returns (block: T)
      requires Valid() && at < |media|
      ensures block == View()[at]
    {
      assert log == log[..|log| - |pending|] + pending;
      RunConcat(base, log[..|log| - |pending|], pending);
      block := Run(media, pending)[at];
    }

    method Write(at: nat, block: T)
      requires Valid() && at < |media|
      modifies this
      ensures Valid() && log == old(log) + [Request.Write(at, block)]
      ensures View() == old(View())[at := block]
    {
      RunSnoc(base, log, Request.Write(at, block));
      pending := pending + [Request.Write(at, block)];
      log := log + [Request.Write(at, block)];
      assert log[..|log| - |pending|] == old(log[..|log| - |pending|]);
    }

    method Flush()
      requires Valid()
      modifies this
      ensures Valid() && log == old(log) + [Request.Flush]
      ensures View() == old(View()) && media == View() && pending == []
    {
      assert log == log[..|log| - |pending|] + pending;
      RunConcat(base, log[..|log| - |pending|], pending);
      RunSnoc(base, log, Request.Flush);
      media := Run(media, pending);
      pending := [];
      log := log + [Request.Flush];
      assert log[..|log|] == log;
    }

    /** Power is lost now: what the medium may hold is a crash disk of the log. */
    lemma CrashNow(keep: seq<bool>)
      requires Valid() && |keep| == |pending|
      ensures Run(media, Kept(pending, keep)) == CrashDisk(base, log, |log| - |pending|, |log|, keep)
    {
      assert log[|log| - |pending|..|log|] == pending;
    }
  }
}

/**
 The single forward pass is exact: the facts it computes at an instruction are
 the meet over all control-flow paths, and the verifier accepts precisely the
 programs that satisfy the path-based definition of well-formedness.
 */
module BpfExact {
  import opened Wrappers
  import opened BpfIsa
  import opened BpfVerifier

  // ---------------------------------------------------------------- paths

  lemma SuccessorsForward(ins: Instruction, pc: nat, t: nat)
    requires t in Successors(ins, pc)
    ensures pc < t
  {
    hide KindOf;
  }

  /** Control only moves forward, so a path visits increasing addresses. */
  lemma {:induction false} PathIncreasing(program: Program, path: seq<nat>, i: nat, j: nat)
    requires IsPath(program, path) && i < j < |path|
    ensures path[i] < path[j]
    decreases j
  {
    hide Successors;
    SuccessorsForward(program[path[j - 1]], path[j - 1], path[j]);
    if i < j - 1 {
      PathIncreasing(program, path, i, j - 1);
    }
  }

  lemma PathPrefix(program: Program, path: seq<nat>)
    requires IsPath(program, path) && |path| > 1
    ensures var before := path[..|path| - 1];
      && IsPath(program, before)
      && InitOn(program, path) == Transfer(program[before[|before| - 1]], InitOn(program, before))
  {
    hide Successors, Transfer;
    var before := path[..|path| - 1];
    assert forall i | 0 <= i < |before| :: before[i] == path[i];
  }

  lemma PathExtend(program: Program, path: seq<nat>, t: nat)
    requires IsPath(program, path) && t < |program| && t in Successors(program[path[|path| - 1]], path[|path| - 1])
    ensures IsPath(program, path + [t])
    ensures InitOn(program, path + [t]) == Transfer(program[path[|path| - 1]], InitOn(program, path))
  {
    hide InitOn;
    var p := path + [t];
    assert p[..|p| - 1] == path;
    PathAppend(program, path, t);
    PathPrefix(program, p);
  }

  lemma PathAppend(program: Program, path: seq<nat>, t: nat)
    requires IsPath(program, path) && t < |program| && t in Successors(program[path[|path| - 1]], path[|path| - 1])
    ensures IsPath(program, path + [t])
  {
    hide Successors;
  }

  /** A path to `q` all of whose earlier instructions lie below `p`. */
  ghost predicate Arrives(program: Program, path: seq<nat>, q: nat, p: nat) {
    PathTo(program, path, q) && forall i | 0 <= i < |path| - 1 :: path[i] < p
  }

  lemma ArrivesAll(program: Program, path: seq<nat>, q: nat, p: nat)
    requires PathTo(program, path, q) && q <= p
    ensures Arrives(program, path, q, p)
  {
    forall i | 0 <= i < |path| - 1 ensures path[i] < p {
      PathIncreasing(program, path, i, |path| - 1);
    }
  }

  /** A path that becomes possible once `p` is processed comes from a path to `p` by one edge. */
  lemma ArrivesNext(program: Program, path: seq<nat>, q: nat, p: nat)
    requires Arrives(program, path, q, p + 1) && !Arrives(program, path, q, p)
    ensures |path| > 1 && Arrives(program, path[..|path| - 1], p, p)
    ensures p < |program| && q in Successors(program[p], p)
    ensures InitOn(program, path) == Transfer(program[p], InitOn(program, path[..|path| - 1]))
  {
    hide Successors, Transfer, InitOn, Arrives;
    ArrivesLast(program, path, q, p);
    PathPrefix(program, path);
    var before := path[..|path| - 1];
    assert before[|before| - 1] == p && PathTo(program, before, p);
    ArrivesAll(program, before, p, p);
  }

  lemma ArrivesLast(program: Program, path: seq<nat>, q: nat, p: nat)
    requires Arrives(program, path, q, p + 1) && !Arrives(program, path, q, p)
    ensures IsPath(program, path) && |path| > 1 && path[|path| - 2] == p && p < |program|
    ensures q in Successors(program[p], p)
  {
    hide Successors;
    var i :| 0 <= i < |path| - 1 && path[i] >= p;
    var j := |path| - 2;
    if i < j {
      PathIncreasing(program, path, i, j);
      assert false;
    }
    assert path[j + 1] in Successors(program[path[j]], path[j]);
  }

  lemma ArrivesStep(program: Program, path: seq<nat>, q: nat, p: nat)
    requires Arrives(program, path, p, p) && p < |program| && q < |program| && q in Successors(program[p], p)
    ensures Arrives(program, path + [q], q, p + 1)
    ensures InitOn(program, path + [q]) == Transfer(program[p], InitOn(program, path))
  {
    hide Successors, Transfer, InitOn;
    PathExtend(program, path, q);
  }

  // ---------------------------------------------------------------- facts

  /** Register `r` is initialised on every path that arrives at `q` through instructions below `p`. */
  ghost predicate Everywhere(program: Program, q: nat, p: nat, r: nat) {
    forall path | Arrives(program, path, q, p) :: r in InitOn(program, path)
  }

  /** The facts at `q` are the meet over the paths that arrive there through instructions below `p`. */
  ghost predicate Meets(program: Program, facts: Facts, q: nat, p: nat) {
    && (facts.None? <==> forall path :: !Arrives(program, path, q, p))
    && (facts.Some? ==> forall r: nat :: r in facts.value <==> Everywhere(program, q, p, r))
  }

  /** An edge that carries no new path leaves the facts as they are. */
  lemma MeetsUnchanged(program: Program, facts: Facts, q: nat, p: nat)
    requires Meets(program, facts, q, p)
    requires (forall path :: !Arrives(program, path, p, p)) || p >= |program| || q !in Successors(program[p], p)
    ensures Meets(program, facts, q, p + 1)
  {
    hide Successors, InitOn, IsPath;
    var next := p + 1;
    forall path ensures Arrives(program, path, q, next) <==> Arrives(program, path, q, p) {
      if Arrives(program, path, q, next) && !Arrives(program, path, q, p) {
        ArrivesNext(program, path, q, p);
        assert false;
      }
    }
    hide Arrives;
    assert forall r: nat :: Everywhere(program, q, next, r) <==> Everywhere(program, q, p, r);
  }

  /** An edge from `p` contributes what is initialised on every way to `p`, after the instruction. */
  lemma MeetsJoin(program: Program, facts: Facts, q: nat, p: nat, at: set<nat>)
    requires p < |program| && q < |program| && q in Successors(program[p], p)
    requires Meets(program, facts, q, p) && Meets(program, Some(at), p, p)
    ensures Meets(program, Join(facts, Transfer(program[p], at)), q, p + 1)
  {
    hide Successors, InitOn, IsPath, Gen, Kill;
    var out := Transfer(program[p], at);
    var joined := Join(facts, out).value;
    var witness' :| Arrives(program, witness', p, p);
    ArrivesStep(program, witness', q, p);
    forall r: nat ensures r in joined <==> Everywhere(program, q, p + 1, r) {
      if r in joined {
        assert r in out && (facts.Some? ==> Everywhere(program, q, p, r));
        assert r in at ==> Everywhere(program, p, p, r);
        forall path | Arrives(program, path, q, p + 1) ensures r in InitOn(program, path) {
          if !Arrives(program, path, q, p) {
            ArrivesNext(program, path, q, p);
          }
        }
      } else if facts.Some? && r !in facts.value {
        assert !Everywhere(program, q, p, r);
        var path :| Arrives(program, path, q, p) && r !in InitOn(program, path);
        assert Arrives(program, path, q, p + 1);
      } else {
        MissingOnEdge(program, q, p, at, r);
      }
    }
  }

  /** A register that the edge does not deliver is missing on some path along it. */
  lemma MissingOnEdge(program: Program, q: nat, p: nat, at: set<nat>, r: nat)
    requires p < |program| && q < |program| && q in Successors(program[p], p)
    requires Meets(program, Some(at), p, p) && r !in Transfer(program[p], at)
    ensures !Everywhere(program, q, p + 1, r)
  {
    hide Successors, InitOn, IsPath, Gen, Kill;
    var path;
    if r in at {
      path :| Arrives(program, path, p, p);
    } else {
      assert !Everywhere(program, p, p, r);
      path :| Arrives(program, path, p, p) && r !in InitOn(program, path);
    }
    ArrivesStep(program, path, q, p);
  }

  // ---------------------------------------------------------------- the pass

  ghost predicate Exact(program: Program, incoming: seq<Facts>, p: nat) {
    |incoming| == |program| && forall q | 0 <= q < |program| :: Meets(program, incoming[q], q, p)
  }

  /** The pass never reaches the second half of a wide instruction. */
  predicate Quiet(wide: seq<bool>, incoming: seq<Facts>) {
    |wide| == |incoming| && forall q | 0 <= q < |wide| && wide[q] :: incoming[q].None?
  }

  /** Whatever path leads to `q`, the instruction there passes every check on it. */
  ghost predicate Fine(program: Program, wide: seq<bool>, allowed: seq<i32>, q: nat)
    requires q < |program|
  {
    forall path | PathTo(program, path, q) ::
      LocalOk(program[q], wide, allowed, q) && Needs(program[q]) <= InitOn(program, path)
  }

  lemma {:induction false} PropagateAt(incoming: seq<Facts>, targets: seq<nat>, out: set<nat>, q: nat)
    requires forall i | 0 <= i < |targets| :: targets[i] < |incoming|
    requires q < |incoming|
    ensures Propagate(incoming, targets, out)[q] == if q in targets then Join(incoming[q], out) else incoming[q]
    decreases |targets|
  {
    if targets != [] {
      PropagateAt(incoming[targets[0] := Join(incoming[targets[0]], out)], targets[1..], out, q);
      assert targets == [targets[0]] + targets[1..];
      JoinTwice(incoming[q], out);
    }
  }

  lemma JoinTwice(facts: Facts, out: set<nat>)
    ensures Join(Join(facts, out), out) == Join(facts, out)
  {
    if facts.None? {
      assert out * out == out;
    } else {
      assert facts.value * out * out == facts.value * out;
    }
  }

  /** Control never enters the second half of a wide instruction. */
  lemma SuccessorsStart(program: Program, wide: seq<bool>, allowed: seq<i32>, p: nat, t: nat)
    requires |wide| == |program| && WellEncoded(program, wide)
    requires p < |program| && !wide[p] && LocalOk(program[p], wide, allowed, p)
    requires t in Successors(program[p], p)
    ensures t < |program| && !wide[t]
  {
    hide KindOf, AccessSize, InFrame, IsContinuation;
    var next := Successors(program[p], p);
    var i :| 0 <= i < |next| && next[i] == t;
    assert t < |wide| && EncodedAt(program, wide, p) && (p + 1 < |program| ==> EncodedAt(program, wide, p + 1));
    if KindOf(program[p].opcode).Wide? {
      assert t == p + 2 && wide[p + 1];
    } else if t == p + 1 {
    } else {
      assert t == p + 1 + program[p].offset;
    }
  }

  /** Processing an instruction that nothing reaches. */
  lemma SkipStep(program: Program, incoming: seq<Facts>, p: nat)
    requires Exact(program, incoming, p) && p < |program| && incoming[p].None?
    ensures Exact(program, incoming, p + 1)
  {
    hide Meets;
    forall q | 0 <= q < |program| ensures Meets(program, incoming[q], q, p + 1) {
      assert forall path :: !Arrives(program, path, p, p) by { NoneArrives(program, incoming[p], p); }
      MeetsUnchanged(program, incoming[q], q, p);
    }
  }

  lemma NoneArrives(program: Program, facts: Facts, p: nat)
    requires Meets(program, facts, p, p) && facts.None?
    ensures forall path :: !Arrives(program, path, p, p)
  {
  }

  /** Processing a reached instruction that passes its checks. */
  lemma FlowStep(program: Program, wide: seq<bool>, allowed: seq<i32>, incoming: seq<Facts>, p: nat)
    requires Exact(program, incoming, p) && p < |program| && incoming[p].Some?
    requires |wide| == |program| && WellEncoded(program, wide) && Quiet(wide, incoming)
    requires LocalOk(program[p], wide, allowed, p)
    ensures
      var out := Propagate(incoming, Successors(program[p], p), Transfer(program[p], incoming[p].value));
      Exact(program, out, p + 1) && Quiet(wide, out)
  {
    hide Meets, Successors, Transfer, WellEncoded, InFrame, AccessSize, KindOf, Join;
    var next, flow := Successors(program[p], p), Transfer(program[p], incoming[p].value);
    var out := Propagate(incoming, next, flow);
    forall q | 0 <= q < |program| ensures Meets(program, out[q], q, p + 1) && (wide[q] ==> out[q].None?) {
      PropagateAt(incoming, next, flow, q);
      if q in next {
        SuccessorsStart(program, wide, allowed, p, q);
        assert incoming[p] == Some(incoming[p].value);
        MeetsJoin(program, incoming[q], q, p, incoming[p].value);
      } else {
        MeetsUnchanged(program, incoming[q], q, p);
      }
    }
  }

  /** What the pass knows when it comes to an instruction decides whether the instruction is fine. */
  lemma CheckDecides(program: Program, wide: seq<bool>, allowed: seq<i32>, p: nat, initialized: set<nat>)
    requires p < |program| && Meets(program, Some(initialized), p, p)
    ensures Fine(program, wide, allowed, p) <==> LocalCheck(program[p], wide, allowed, p, initialized).None?
    ensures Reachable(program, p)
  {
    hide LocalCheck, LocalOk, InitOn, IsPath, Needs;
    LocalCheckPasses(program[p], wide, allowed, p, initialized);
    var some :| Arrives(program, some, p, p);
    forall path | PathTo(program, path, p) ensures Arrives(program, path, p, p) {
      ArrivesAll(program, path, p, p);
    }
    if Needs(program[p]) <= initialized {
      forall path | PathTo(program, path, p) ensures Needs(program[p]) <= InitOn(program, path) {
        forall r | r in Needs(program[p]) ensures r in InitOn(program, path) {
          assert Everywhere(program, p, p, r);
        }
      }
    } else {
      var r :| r in Needs(program[p]) && r !in initialized;
      var path := MissingPath(program, p, initialized, r);
    }
  }

  /** A register that is not initialised has a path to show for it. */
  lemma MissingPath(program: Program, p: nat, initialized: set<nat>, r: nat) returns (path: seq<nat>)
    requires Meets(program, Some(initialized), p, p) && r !in initialized
    ensures PathTo(program, path, p) && r !in InitOn(program, path)
  {
    hide InitOn, IsPath;
    assert !Everywhere(program, p, p, r);
    path :| Arrives(program, path, p, p) && r !in InitOn(program, path);
  }

  ghost predicate ExitBefore(program: Program, p: nat) {
    exists q | 0 <= q < p && q < |program| :: Reachable(program, q) && KindOf(program[q].opcode).Exit?
  }

  /** The errors that only the pass reports, at an instruction it has reached. */
  predicate OfPass(error: VerifyError) {
    error.FramePointerWrite? || error.UninitializedRegister? || error.InvalidJump? || error.BackwardJump?
    || error.JumpIntoWideImmediate? || error.InvalidHelper? || error.InvalidStackBase? || error.StackOutOfBounds?
    || error.ReachableFallthrough?
  }

  /**
   An error of the pass names an instruction that can be reached, an uninitialised-register rejection comes with a
   path on which the register is not initialised, and a missing exit is one that no path reaches.
   */
  ghost predicate Justified(program: Program, error: VerifyError) {
    && (OfPass(error) ==> error.pc < |program| && Reachable(program, error.pc))
    && (error.UninitializedRegister? ==>
          && error.register in Needs(program[error.pc])
          && exists path :: PathTo(program, path, error.pc) && error.register !in InitOn(program, path))
    && (error.MissingExit? ==> !ExitBefore(program, |program|))
  }

  /**
   The pass from `pc` on: it succeeds exactly when every instruction from `pc` on is
   fine and an exit can be reached, and then its facts are the meets over all paths.
   */
  lemma {:induction false} PassExact(program: Program, wide: seq<bool>, allowed: seq<i32>, incoming: seq<Facts>, pc: nat,
                                     sawExit: bool)
    requires |wide| == |program| && WellEncoded(program, wide) && pc <= |program|
    requires Exact(program, incoming, pc) && Quiet(wide, incoming)
    requires sawExit <==> ExitBefore(program, pc)
    ensures
      var r := Pass(program, wide, allowed, incoming, pc, sawExit);
      && (r.Ok? <==> (forall q | pc <= q < |program| :: Fine(program, wide, allowed, q)) && ExitBefore(program, |program|))
      && (r.Ok? ==> Exact(program, r.value, |program|))
      && (r.Err? ==> Justified(program, r.error))
    decreases |program| - pc
  {
    hide Exact, WellEncoded, LocalCheck, LocalOk, Transfer, Successors, Fine, ExitBefore, Justified, KindOf, Quiet;
    ExactLength(program, incoming, pc);
    if pc == |program| {
      if !sawExit { NoExit(program); }
    } else if incoming[pc].None? {
      SkipStep(program, incoming, pc);
      NothingReaches(program, wide, allowed, incoming, pc);
      PassExact(program, wide, allowed, incoming, pc + 1, sawExit);
    } else {
      QuietNot(wide, incoming, pc);
      var initialized := incoming[pc].value;
      ExactAt(program, incoming, pc, initialized);
      CheckDecides(program, wide, allowed, pc, initialized);
      LocalCheckPasses(program[pc], wide, allowed, pc, initialized);
      if LocalCheck(program[pc], wide, allowed, pc, initialized).Some? {
        LocalCheckBlames(program[pc], wide, allowed, pc, initialized);
        BlameJustified(program, pc, initialized, LocalCheck(program[pc], wide, allowed, pc, initialized).value);
      } else {
        FlowStep(program, wide, allowed, incoming, pc);
        ExitStep(program, pc);
        TargetsInRange(program[pc], wide, allowed, pc);
        var out := Propagate(incoming, Successors(program[pc], pc), Transfer(program[pc], initialized));
        PassExact(program, wide, allowed, out, pc + 1, sawExit || KindOf(program[pc].opcode).Exit?);
      }
    }
  }

  lemma TargetsInRange(ins: Instruction, wide: seq<bool>, allowed: seq<i32>, pc: nat)
    requires LocalOk(ins, wide, allowed, pc)
    ensures forall i | 0 <= i < |Successors(ins, pc)| :: Successors(ins, pc)[i] < |wide|
  {
    hide KindOf, Successors;
  }

  lemma NoExit(program: Program)
    requires !ExitBefore(program, |program|)
    ensures Justified(program, MissingExit)
  {
  }

  lemma NoJustification(program: Program, error: VerifyError)
    requires !OfPass(error) && !error.MissingExit?
    ensures Justified(program, error)
  {
  }

  lemma ExactLength(program: Program, incoming: seq<Facts>, pc: nat)
    requires Exact(program, incoming, pc)
    ensures |incoming| == |program|
  {
  }

  lemma ExactAt(program: Program, incoming: seq<Facts>, pc: nat, initialized: set<nat>)
    requires Exact(program, incoming, pc) && pc < |program| && |incoming| == |program| && incoming[pc] == Some(initialized)
    ensures Meets(program, Some(initialized), pc, pc)
  {
  }

  lemma QuietNot(wide: seq<bool>, incoming: seq<Facts>, pc: nat)
    requires Quiet(wide, incoming) && pc < |incoming| && incoming[pc].Some?
    ensures |wide| == |incoming| && !wide[pc]
  {
  }

  lemma BlameJustified(program: Program, pc: nat, initialized: set<nat>, error: VerifyError)
    requires pc < |program| && Meets(program, Some(initialized), pc, pc) && Reachable(program, pc)
    requires !error.EmptyProgram? && !error.ProgramTooLarge? && !error.MissingExit? && error.pc == pc
    requires error.UninitializedRegister? ==> error.register in Needs(program[pc]) && error.register !in initialized
    ensures Justified(program, error)
  {
    if error.UninitializedRegister? {
      var path := MissingPath(program, pc, initialized, error.register);
    }
  }

  lemma NothingReaches(program: Program, wide: seq<bool>, allowed: seq<i32>, incoming: seq<Facts>, pc: nat)
    requires Exact(program, incoming, pc) && pc < |program| && |incoming| == |program| && incoming[pc].None?
    ensures Fine(program, wide, allowed, pc)
    ensures ExitBefore(program, pc + 1) <==> ExitBefore(program, pc)
  {
    hide LocalOk, Needs, InitOn, IsPath, KindOf;
    NoneArrives(program, incoming[pc], pc);
    forall path ensures !PathTo(program, path, pc) {
      if PathTo(program, path, pc) {
        ArrivesAll(program, path, pc, pc);
        assert false;
      }
    }
  }

  lemma ExitStep(program: Program, pc: nat)
    requires pc < |program| && Reachable(program, pc)
    ensures ExitBefore(program, pc + 1) <==> ExitBefore(program, pc) || KindOf(program[pc].opcode).Exit?
  {
    hide KindOf, Reachable;
  }

  /** At the start only the empty run-up has happened, and only instruction 0 is reached. */
  lemma EntryExact(program: Program)
    requires program != []
    ensures Exact(program, Entry(|program|), 0)
  {
    hide Successors;
    var start := [0];
    assert Arrives(program, start, 0, 0);
    forall path, q | Arrives(program, path, q, 0) ensures path == [0] && q == 0 {
      assert path[0] == 0;
    }
    forall q | 0 <= q < |program| ensures Meets(program, Entry(|program|)[q], q, 0) {
      if q == 0 {
        forall r: nat ensures r in ENTRY <==> Everywhere(program, 0, 0, r) {
          if Everywhere(program, 0, 0, r) {
            assert r in InitOn(program, start);
          }
        }
      }
    }
  }

  // ---------------------------------------------------------------- the scan

  /** The marks made so far tile the instructions below `pc`, and `pc` starts an instruction. */
  predicate Scanned(program: Program, wide: seq<bool>, pc: nat) {
    && |wide| == |program|
    && (forall q | 0 <= q < pc && q < |program| :: EncodedAt(program, wide, q))
    && (forall q | pc <= q < |program| :: !wide[q])
    && (|program| > 0 ==> !wide[0])
  }

  lemma {:induction false} ScanSound(program: Program, pc: nat, wide: seq<bool>)
    requires Scanned(program, wide, pc)
    ensures var r := Scan(program, pc, wide); r.Ok? ==> WellEncoded(program, r.value)
    decreases |program| - pc
  {
    hide KindOf, IsContinuation;
    if pc < |program| && Scan(program, pc, wide).Ok? {
      if KindOf(program[pc].opcode).Wide? {
        var wide' := wide[pc + 1 := true];
        forall q | 0 <= q < pc + 2 && q < |program| ensures EncodedAt(program, wide', q) {
          if q < pc { assert EncodedAt(program, wide, q); }
        }
        ScanSound(program, pc + 2, wide');
      } else {
        ScanSound(program, pc + 1, wide);
      }
    }
  }

  lemma {:induction false} ScanComplete(program: Program, pc: nat, wide: seq<bool>, good: seq<bool>)
    requires |wide| == |program| == |good| && WellEncoded(program, good) && pc <= |program|
    requires good[..pc] == wide[..pc] && forall q | pc <= q < |program| :: !wide[q]
    requires pc < |program| ==> !good[pc]
    ensures Scan(program, pc, wide) == Ok(good)
    decreases |program| - pc
  {
    hide KindOf, IsContinuation;
    if pc == |program| {
      assert good == good[..pc] && wide == wide[..pc];
    } else {
      assert EncodedAt(program, good, pc);
      if KindOf(program[pc].opcode).Wide? {
        assert EncodedAt(program, good, pc + 1);
        ScanComplete(program, pc + 2, wide[pc + 1 := true], good);
      } else {
        ScanComplete(program, pc + 1, wide, good);
      }
    }
  }

  // ---------------------------------------------------------------- the verdict

  /** The path-based definition of an acceptable program. */
  ghost predicate WellFormed(program: Program, wide: seq<bool>, allowed: seq<i32>) {
    && 0 < |program| <= MAX_INSTRUCTIONS && |wide| == |program| && WellEncoded(program, wide)
    && (forall q | 0 <= q < |program| :: Fine(program, wide, allowed, q))
    && ExitBefore(program, |program|)
  }

  /**
   The verifier accepts exactly the well-formed programs; the facts it computed are
   then the meets over all paths, and when it blames an uninitialised register there
   is a path on which that register is not initialised.
   */
  lemma VerifyExact(program: Program, allowed: seq<i32>)
    ensures Verdict(program, allowed).Ok? <==> exists wide :: WellFormed(program, wide, allowed)
    ensures Verdict(program, allowed).Ok? ==> Exact(program, Verdict(program, allowed).value, |program|)
    ensures Verdict(program, allowed).Err? ==> Justified(program, Verdict(program, allowed).error)
  {
    hide Exact, Justified, Fine, ExitBefore, Scan, Pass, WellEncoded;
    if program == [] || |program| > MAX_INSTRUCTIONS {
      NoJustification(program, EmptyProgram);
      NoJustification(program, ProgramTooLarge);
    } else {
      var none := seq(|program|, _ => false);
      var scan := Scan(program, 0, none);
      forall wide | WellFormed(program, wide, allowed) ensures scan == Ok(wide) {
        NotWideAtZero(program, wide);
        ScanComplete(program, 0, none, wide);
      }
      ScanSound(program, 0, none);
      if scan.Ok? {
        EntryExact(program);
        EntryQuiet(program, scan.value);
        NoExitYet(program);
        PassExact(program, scan.value, allowed, Entry(|program|), 0, false);
        assert Verdict(program, allowed).Ok? ==> WellFormed(program, scan.value, allowed);
      } else {
        ScanBlames(program, 0, none);
        NoJustification(program, scan.error);
      }
    }
  }

  lemma NotWideAtZero(program: Program, wide: seq<bool>)
    requires |wide| == |program| > 0 && WellEncoded(program, wide)
    ensures !wide[0]
  {
  }

  lemma EntryQuiet(program: Program, wide: seq<bool>)
    requires |wide| == |program| > 0 && WellEncoded(program, wide)
    ensures Quiet(wide, Entry(|program|))
  {
  }

  lemma NoExitYet(program: Program)
    ensures !ExitBefore(program, 0)
  {
  }

  lemma {:induction false} ScanBlames(program: Program, pc: nat, wide: seq<bool>)
    requires |wide| == |program|
    ensures var r := Scan(program, pc, wide); r.Err? ==> !OfPass(r.error) && !r.error.MissingExit?
    decreases |program| - pc
  {
    hide KindOf, IsContinuation;
    if pc < |program| {
      if pc + 1 < |program| { ScanBlames(program, pc + 2, wide[pc + 1 := true]); }
      ScanBlames(program, pc + 1, wide);
    }
  }
}

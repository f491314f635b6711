/** Runs through the blocks of a function: which registers they ask for, and when the allocation keeps
    the meaning of all of them. */
module Runs {
  import opened AllocatedBlocks
  import opened LinearScan
  import opened Liveness
  import opened Paths
  import opened Renaming
  import opened Wrappers

  /** The blocks of a path. */
  ghost function Along(codes: seq<Code>, q: seq<nat>): (blocks: seq<Code>)
    requires forall i :: 0 <= i < |q| ==> q[i] < |codes|
    ensures |blocks| == |q| && forall i :: 0 <= i < |q| ==> blocks[i] == codes[q[i]]
  {
    seq(|q|, i requires 0 <= i < |q| => codes[q[i]])
  }

  /** A run from `start` follows the edges from block to block. */
  ghost predicate IsRun(e: Edges, codes: seq<Code>, start: nat, q: seq<nat>) {
    IsPath(e, q) && q[0] == start && forall i :: 0 <= i < |q| ==> q[i] < |codes|
  }

  /** The sets hold what each block exposes and writes. */
  ghost predicate Summarise(codes: seq<Code>, ue: RegSets, kill: RegSets) {
    |ue| == |kill| == |codes| && forall b :: 0 <= b < |codes| ==> Summary(codes[b], ue[b], kill[b])
  }

  ghost predicate Summary(code: Code, ue: set<nat>, kill: set<nat>) {
    forall r: nat :: (r in ue <==> IsIncoming(code, iset{}, r)) && (r in kill <==> WrittenWithin(code, 0, |code|, r))
  }

  // ---------------------------------------------------------------- what live-out means for runs

  lemma IncomingInRow(a: Code, b: Code, out: iset<nat>, r: nat)
    ensures IsIncoming(a + b, out, r) <==>
      IsIncoming(a, iset{}, r) || (!WrittenWithin(a, 0, |a|, r) && IsIncoming(b, out, r))
  {
    var n := |a|;
    if p: nat :| DemandedFromEntry(a + b, out, p, r) {
      if p < n {
        WrittenInFirst(a, b, 0, p, r);
        assert DemandedFromEntry(a, iset{}, p, r);
      } else {
        var m := p - n;
        WrittenAcross(a + b, 0, n, p, r);
        WrittenInFirst(a, b, 0, n, r);
        WrittenInSecond(a, b, 0, m, r);
        assert DemandedFromEntry(b, out, m, r);
      }
    }
    if p: nat :| DemandedFromEntry(a, iset{}, p, r) {
      WrittenInFirst(a, b, 0, p, r);
      assert DemandedFromEntry(a + b, out, p, r);
    }
    if p: nat :| !WrittenWithin(a, 0, n, r) && DemandedFromEntry(b, out, p, r) {
      WrittenAcross(a + b, 0, n, n + p, r);
      WrittenInFirst(a, b, 0, n, r);
      WrittenInSecond(a, b, 0, p, r);
      assert DemandedFromEntry(a + b, out, n + p, r);
    }
  }

  /** Block `i` of the path exposes `r`, and no block before it kills `r`. */
  ghost predicate ExposedAt(ue: RegSets, kill: RegSets, q: seq<nat>, r: nat, i: nat) {
    i < |q| && q[i] < |ue| && r in ue[q[i]] && forall j :: 0 <= j < i ==> Spared(kill, q[j], r)
  }

  ghost predicate ExposedAlong(ue: RegSets, kill: RegSets, q: seq<nat>, r: nat) {
    exists i: nat :: ExposedAt(ue, kill, q, r, i)
  }

  lemma ExposedFromFirst(ue: RegSets, kill: RegSets, q: seq<nat>, r: nat)
    requires q != [] && |ue| == |kill| && q[0] < |ue|
    ensures ExposedAlong(ue, kill, q, r) <==>
      r in ue[q[0]] || (r !in kill[q[0]] && ExposedAlong(ue, kill, q[1..], r))
  {
    var rest := q[1..];
    if i: nat :| ExposedAt(ue, kill, q, r, i) && i > 0 {
      assert Spared(kill, q[0], r) && forall j :: 0 <= j < i - 1 ==> rest[j] == q[j + 1];
      assert ExposedAt(ue, kill, rest, r, i - 1);
    }
    if i: nat :| ExposedAt(ue, kill, rest, r, i) && r !in kill[q[0]] {
      assert forall j :: 0 < j < i + 1 ==> q[j] == rest[j - 1];
      assert ExposedAt(ue, kill, q, r, i + 1);
    }
    if r in ue[q[0]] {
      assert ExposedAt(ue, kill, q, r, 0);
    }
  }

  lemma TraceFromFirst(codes: seq<Code>, q: seq<nat>)
    requires q != [] && forall i :: 0 <= i < |q| ==> q[i] < |codes|
    ensures Trace(Along(codes, q)) == codes[q[0]] + Trace(Along(codes, q[1..]))
  {
    assert Along(codes, q)[1..] == Along(codes, q[1..]);
  }

  /** A run asks for what a block on it exposes before any block kills it. */
  lemma {:induction false} RunAsksFor(codes: seq<Code>, ue: RegSets, kill: RegSets, q: seq<nat>, r: nat)
    requires Summarise(codes, ue, kill) && forall i :: 0 <= i < |q| ==> q[i] < |codes|
    ensures IsIncoming(Trace(Along(codes, q)), iset{}, r) <==> ExposedAlong(ue, kill, q, r)
    decreases |q|
  {
    if q == [] {
      assert Trace(Along(codes, q)) == [];
    } else {
      assert Summary(codes[q[0]], ue[q[0]], kill[q[0]]);
      RunAsksFor(codes, ue, kill, q[1..], r);
      TraceFromFirst(codes, q);
      IncomingInRow(codes[q[0]], Trace(Along(codes, q[1..])), iset{}, r);
      ExposedFromFirst(ue, kill, q, r);
    }
  }

  /** Some run on from `b` asks for `r` after `b`. */
  ghost predicate AskedForAfter(e: Edges, codes: seq<Code>, b: nat, r: nat) {
    exists q: seq<nat> :: AsksFor(e, codes, b, r, q)
  }

  ghost predicate AsksFor(e: Edges, codes: seq<Code>, b: nat, r: nat, q: seq<nat>) {
    IsRun(e, codes, b, q) && IsIncoming(Trace(Along(codes, q[1..])), iset{}, r)
  }

  lemma ExposingIsAlong(e: Edges, ue: RegSets, kill: RegSets, b: nat, r: nat, q: seq<nat>)
    requires ExposingPath(e, ue, b, r, q) && |q| > 1 && SparedBetween(kill, r, q, |q| - 1)
    ensures ExposedAlong(ue, kill, q[1..], r)
  {
    var rest := q[1..];
    forall j | 0 <= j < |rest| - 1 ensures Spared(kill, rest[j], r) {
      assert rest[j] == q[j + 1];
    }
    assert ExposedAt(ue, kill, rest, r, |rest| - 1);
  }

  lemma AlongIsTextbook(e: Edges, ue: RegSets, kill: RegSets, r: nat, q: seq<nat>)
    requires IsPath(e, q) && ExposedAlong(ue, kill, q[1..], r)
    ensures TextbookPath(e, ue, kill, q[0], r)
  {
    var rest := q[1..];
    var i: nat :| ExposedAt(ue, kill, rest, r, i);
    PrefixIsPath(e, q, i + 1);
    var p := q[..i + 2];
    forall j | 0 < j < |p| - 1 ensures Spared(kill, p[j], r) {
      assert p[j] == rest[j - 1];
    }
    assert ExposingPath(e, ue, q[0], r, p) && SparedBetween(kill, r, p, |p| - 1);
  }

  /** A register is live out of a block, by the textbook's paths, exactly when some run through the
      block still asks for the value it has after it. */
  lemma LiveOutMeaning(e: Edges, codes: seq<Code>, ue: RegSets, kill: RegSets, b: nat, r: nat)
    requires Summarise(codes, ue, kill) && EdgesWithin(e, |codes|) && b < |codes|
    ensures TextbookPath(e, ue, kill, b, r) <==> AskedForAfter(e, codes, b, r)
  {
    if q: seq<nat> :| ExposingPath(e, ue, b, r, q) && |q| > 1 && SparedBetween(kill, r, q, |q| - 1) {
      ExposingIsAlong(e, ue, kill, b, r, q);
      PathStaysWithin(e, q, |codes|);
      RunAsksFor(codes, ue, kill, q[1..], r);
      assert AsksFor(e, codes, b, r, q);
    }
    if q: seq<nat> :| AsksFor(e, codes, b, r, q) {
      RunAsksFor(codes, ue, kill, q[1..], r);
      AlongIsTextbook(e, ue, kill, r, q);
    }
  }

  lemma PathStaysWithin(e: Edges, q: seq<nat>, n: nat)
    requires IsPath(e, q) && EdgesWithin(e, n) && q[0] < n
    ensures forall i :: 0 <= i < |q| ==> q[i] < n
  {
    forall i | 0 < i < |q| ensures q[i] < n {
      assert (q[i - 1], q[i]) in e;
    }
  }

  ghost function LiveOut(e: Edges, ue: RegSets, kill: RegSets, b: nat): iset<nat> {
    iset r: nat | TextbookPath(e, ue, kill, b, r)
  }

  /** What the rest of a run asks for is live out. */
  lemma NeededIsLiveOut(e: Edges, codes: seq<Code>, ue: RegSets, kill: RegSets, start: nat, q: seq<nat>, i: nat)
    requires Summarise(codes, ue, kill) && EdgesWithin(e, |codes|) && IsRun(e, codes, start, q) && i < |q|
    ensures NeededFrom(Along(codes, q), i + 1, iset{}) <= LiveOut(e, ue, kill, q[i])
  {
    SuffixIsPath(e, q, i);
    var rest := q[i..];
    assert Along(codes, q)[i + 1..] == Along(codes, rest[1..]);
    forall r | r in NeededFrom(Along(codes, q), i + 1, iset{}) ensures TextbookPath(e, ue, kill, q[i], r) {
      assert AsksFor(e, codes, q[i], r, rest);
      LiveOutMeaning(e, codes, ue, kill, q[i], r);
    }
  }

  // ---------------------------------------------------------------- one run

  lemma CoversLess(ivs: seq<RegLiveInterval>, code: Code, out: iset<nat>, out': iset<nat>)
    requires Covers(ivs, code, out) && out' <= out
    ensures Covers(ivs, code, out')
  {
    forall p: nat, r: nat | Demanded(code, out', p, r) ensures Reached(ivs, code, p, r) {
      assert Demanded(code, out, p, r);
    }
  }

  lemma DeadFirstWriteOfLess(ivs: seq<RegLiveInterval>, code: Code, out: iset<nat>, out': iset<nat>)
    requires DeadFirstWrite(ivs, code, out') && out' <= out
    ensures DeadFirstWrite(ivs, code, out)
  {
    var l, k :| 0 <= l < k < |ivs| && Overwrites(ivs, code, out', l, k);
    StillOverwrites(ivs, code, out', out, l, k);
  }

  lemma {:induction false} TraceIsWithin(blocks: seq<Code>, regs: nat)
    requires forall i :: 0 <= i < |blocks| ==> WithinFile(blocks[i], regs)
    ensures WithinFile(Trace(blocks), regs)
  {
    if blocks != [] {
      TraceIsWithin(blocks[1..], regs);
      assert WithinFile(blocks[0], regs);
    }
  }

  /** The intervals cover every block, with all that is live out of it. */
  ghost predicate CoversBlocks(ivs: seq<RegLiveInterval>, e: Edges, codes: seq<Code>, ue: RegSets, kill: RegSets,
                               regs: nat) {
    forall b :: 0 <= b < |codes| ==> CoversBlock(ivs, e, codes[b], ue, kill, regs, b)
  }

  ghost predicate CoversBlock(ivs: seq<RegLiveInterval>, e: Edges, code: Code, ue: RegSets, kill: RegSets,
                              regs: nat, b: nat) {
    Covers(ivs, code, LiveOut(e, ue, kill, b)) && Within(code, LiveOut(e, ue, kill, b), regs)
  }

  /** The block at position `i` of the run opens with a dead write that hands its register to one that
      the rest of the run still needs from before. */
  ghost predicate LosesAt(ivs: seq<RegLiveInterval>, codes: seq<Code>, q: seq<nat>, i: nat)
    requires (forall j :: 0 <= j < |q| ==> q[j] < |codes|) && i < |q|
  {
    DeadFirstWrite(ivs, codes[q[i]], NeededFrom(Along(codes, q), i + 1, iset{}))
  }

  lemma BlockOfRunKeepsIff(ivs: seq<RegLiveInterval>, e: Edges, codes: seq<Code>, ue: RegSets, kill: RegSets,
                           regs: nat, used: nat, start: nat, q: seq<nat>, i: nat)
    requires Renames(ivs, regs, used) && Summarise(codes, ue, kill) && EdgesWithin(e, |codes|)
    requires CoversBlocks(ivs, e, codes, ue, kill, regs) && IsRun(e, codes, start, q) && i < |q|
    ensures KeepsBound(ivs, regs) && Within(codes[q[i]], NeededFrom(Along(codes, q), i + 1, iset{}), regs)
    ensures MeaningPreserved(ivs, codes[q[i]], NeededFrom(Along(codes, q), i + 1, iset{}), regs) <==>
      !LosesAt(ivs, codes, q, i)
  {
    var needed, b := NeededFrom(Along(codes, q), i + 1, iset{}), q[i];
    NeededIsLiveOut(e, codes, ue, kill, start, q, i);
    assert CoversBlock(ivs, e, codes[b], ue, kill, regs, b);
    CoversLess(ivs, codes[b], LiveOut(e, ue, kill, b), needed);
    AllocationPreservesMeaningIff(ivs, codes[b], needed, regs, used);
  }

  /** A run through blocks that the intervals cover, with what is live out of them, keeps its meaning if
      and only if no block on it opens with a dead write over a register that the run still needs. */
  lemma RunKeepsMeaningIff(ivs: seq<RegLiveInterval>, e: Edges, codes: seq<Code>, ue: RegSets, kill: RegSets,
                           regs: nat, used: nat, start: nat, q: seq<nat>)
    requires Renames(ivs, regs, used) && Summarise(codes, ue, kill) && EdgesWithin(e, |codes|)
    requires CoversBlocks(ivs, e, codes, ue, kill, regs) && IsRun(e, codes, start, q)
    ensures KeepsBound(ivs, regs) && WithinFile(Trace(Along(codes, q)), regs)
    ensures MeaningPreserved(ivs, Trace(Along(codes, q)), iset{}, regs) <==>
      forall i :: 0 <= i < |q| ==> !LosesAt(ivs, codes, q, i)
  {
    var blocks := Along(codes, q);
    forall i | 0 <= i < |q|
      ensures KeepsBound(ivs, regs) && Within(blocks[i], NeededFrom(blocks, i + 1, iset{}), regs)
      ensures MeaningPreserved(ivs, blocks[i], NeededFrom(blocks, i + 1, iset{}), regs) <==> !LosesAt(ivs, codes, q, i)
    {
      BlockOfRunKeepsIff(ivs, e, codes, ue, kill, regs, used, start, q, i);
    }
    RenamingKeepsBound(ivs, regs, used);
    TraceIsWithin(blocks, regs);
    RunPreservesMeaningIff(ivs, blocks, iset{}, regs);
  }

  // ---------------------------------------------------------------- all runs

  /** Some run through `b` asks for what is live out of it. */
  lemma RunThrough(e: Edges, codes: seq<Code>, ue: RegSets, kill: RegSets, start: nat, b: nat, r: nat)
    returns (q: seq<nat>, i: nat)
    requires Summarise(codes, ue, kill) && EdgesWithin(e, |codes|) && start < |codes|
    requires Paths.Reaches(e, start, b) && b < |codes|
    ensures IsRun(e, codes, start, q) && i < |q| && q[i] == b
    ensures r in LiveOut(e, ue, kill, b) ==> r in NeededFrom(Along(codes, q), i + 1, iset{})
  {
    q :| PathFromTo(e, start, b, q);
    PathStaysWithin(e, q, |codes|);
    i := |q| - 1;
    if r in LiveOut(e, ue, kill, b) {
      LiveOutMeaning(e, codes, ue, kill, b, r);
      var q' :| AsksFor(e, codes, b, r, q');
      JoinPaths(e, q, q');
      q := q + q'[1..];
      assert Along(codes, q)[i + 1..] == Along(codes, q'[1..]);
    }
  }

  /** Some run loses what a reachable block overwrites: one that goes through the block and on to where
      the register is asked for. */
  lemma SomeRunLoses(ivs: seq<RegLiveInterval>, e: Edges, codes: seq<Code>, ue: RegSets, kill: RegSets,
                     start: nat, b: nat) returns (q: seq<nat>, i: nat)
    requires Summarise(codes, ue, kill) && EdgesWithin(e, |codes|) && start < |codes|
    requires Paths.Reaches(e, start, b) && b < |codes| && DeadFirstWrite(ivs, codes[b], LiveOut(e, ue, kill, b))
    ensures IsRun(e, codes, start, q) && i < |q| && LosesAt(ivs, codes, q, i)
  {
    var l, k :| 0 <= l < k < |ivs| && Overwrites(ivs, codes[b], LiveOut(e, ue, kill, b), l, k);
    q, i := RunThrough(e, codes, ue, kill, start, b, ivs[k].oldReg);
    StillOverwrites(ivs, codes[b], LiveOut(e, ue, kill, b), NeededFrom(Along(codes, q), i + 1, iset{}), l, k);
  }

  lemma StillOverwrites(ivs: seq<RegLiveInterval>, code: Code, out: iset<nat>, out': iset<nat>, l: nat, k: nat)
    requires l < k < |ivs| && code != [] && code[0].write.Some? && Overwrites(ivs, code, out, l, k)
    requires ivs[k].oldReg in out ==> ivs[k].oldReg in out'
    ensures DeadFirstWrite(ivs, code, out')
  {
    var p: nat :| p > 0 && DemandedFromEntry(code, out, p, ivs[k].oldReg);
    assert DemandedFromEntry(code, out', p, ivs[k].oldReg);
    assert Overwrites(ivs, code, out', l, k);
  }

  /** All runs of a function whose blocks are covered, with what is live out of them, keep their meaning
      if and only if no block that can be reached opens with a dead write that hands its register to one
      which is read later in the block, or live out of it, and comes from before. */
  lemma AllRunsKeepMeaningIff(ivs: seq<RegLiveInterval>, e: Edges, codes: seq<Code>, ue: RegSets, kill: RegSets,
                              regs: nat, used: nat, start: nat)
    requires Renames(ivs, regs, used) && Summarise(codes, ue, kill) && EdgesWithin(e, |codes|) && start < |codes|
    requires CoversBlocks(ivs, e, codes, ue, kill, regs)
    ensures KeepsBound(ivs, regs)
    ensures (forall q :: IsRun(e, codes, start, q) ==> KeepsRun(ivs, codes, q, regs)) <==>
      forall b :: 0 <= b < |codes| && Paths.Reaches(e, start, b) ==>
        !DeadFirstWrite(ivs, codes[b], LiveOut(e, ue, kill, b))
  {
    RenamingKeepsBound(ivs, regs, used);
    if b :| 0 <= b < |codes| && Paths.Reaches(e, start, b) && DeadFirstWrite(ivs, codes[b], LiveOut(e, ue, kill, b)) {
      var q, i := SomeRunLoses(ivs, e, codes, ue, kill, start, b);
      RunKeepsMeaningIff(ivs, e, codes, ue, kill, regs, used, start, q);
    } else {
      forall q | IsRun(e, codes, start, q) ensures KeepsRun(ivs, codes, q, regs) {
        RunKeepsMeaningIff(ivs, e, codes, ue, kill, regs, used, start, q);
        forall i | 0 <= i < |q| ensures !LosesAt(ivs, codes, q, i) {
          LosingBlockIsReached(ivs, e, codes, ue, kill, start, q, i);
        }
      }
    }
  }

  lemma LosingBlockIsReached(ivs: seq<RegLiveInterval>, e: Edges, codes: seq<Code>, ue: RegSets, kill: RegSets,
                             start: nat, q: seq<nat>, i: nat)
    requires Summarise(codes, ue, kill) && EdgesWithin(e, |codes|) && IsRun(e, codes, start, q) && i < |q|
    ensures Paths.Reaches(e, start, q[i])
    ensures LosesAt(ivs, codes, q, i) ==> DeadFirstWrite(ivs, codes[q[i]], LiveOut(e, ue, kill, q[i]))
  {
    PrefixIsPath(e, q, i);
    assert PathFromTo(e, start, q[i], q[..i + 1]);
    NeededIsLiveOut(e, codes, ue, kill, start, q, i);
    if LosesAt(ivs, codes, q, i) {
      DeadFirstWriteOfLess(ivs, codes[q[i]], LiveOut(e, ue, kill, q[i]), NeededFrom(Along(codes, q), i + 1, iset{}));
    }
  }

  ghost predicate KeepsRun(ivs: seq<RegLiveInterval>, codes: seq<Code>, q: seq<nat>, regs: nat)
    requires forall i :: 0 <= i < |q| ==> q[i] < |codes|
  {
    && KeepsBound(ivs, regs) && WithinFile(Trace(Along(codes, q)), regs)
    && MeaningPreserved(ivs, Trace(Along(codes, q)), iset{}, regs)
  }
}

/** Rewriting register operands: the allocator renames interval by interval, in place. When that
    chain of substitutions is the intended mapping, and when the mapping preserves meaning. */
module Renaming {
  import opened LinearScan
  import opened Wrappers

  /** One interval's substitution on one register number. */
  function RenameOne(iv: RegLiveInterval, r: nat): nat {
    if iv.oldReg == r then iv.newReg else r
  }

  /** All substitutions, one after the other, each applied to the outcome of the one before. */
  function RenameInSequence(ivs: seq<RegLiveInterval>, r: nat): nat {
    if ivs == [] then r else RenameOne(ivs[|ivs| - 1], RenameInSequence(ivs[..|ivs| - 1], r))
  }

  ghost predicate OneIntervalPerRegister(ivs: seq<RegLiveInterval>) {
    forall i, j :: 0 <= i < j < |ivs| ==> ivs[i].oldReg != ivs[j].oldReg
  }

  /** The mapping the intervals stand for: `r` goes to the register given to its interval. */
  ghost predicate MapsTo(ivs: seq<RegLiveInterval>, r: nat, r': nat) {
    if exists k :: 0 <= k < |ivs| && ivs[k].oldReg == r
    then exists k :: 0 <= k < |ivs| && ivs[k].oldReg == r && ivs[k].newReg == r'
    else r' == r
  }

  /** No interval is given a register that a later interval renames to something else. */
  predicate ChainFree(ivs: seq<RegLiveInterval>) {
    forall i, j :: 0 <= i < j < |ivs| && ivs[i].newReg == ivs[j].oldReg ==> ivs[j].newReg == ivs[j].oldReg
  }

  /** The in-place chain of substitutions applies the mapping, for every operand, exactly when it
      is chain free. */
  lemma SequenceIsMappingIffChainFree(ivs: seq<RegLiveInterval>)
    requires OneIntervalPerRegister(ivs)
    ensures (forall r: nat :: MapsTo(ivs, r, RenameInSequence(ivs, r))) <==> ChainFree(ivs)
  {
    if ChainFree(ivs) {
      forall r: nat ensures MapsTo(ivs, r, RenameInSequence(ivs, r)) {
        ChainFreeSequence(ivs, r, |ivs|);
      }
    } else {
      var i, j :| 0 <= i < j < |ivs| && ivs[i].newReg == ivs[j].oldReg && ivs[j].newReg != ivs[j].oldReg;
      ChainMergesRegisters(ivs, i, j);
      assert !MapsTo(ivs, ivs[i].oldReg, RenameInSequence(ivs, ivs[i].oldReg))
        || !MapsTo(ivs, ivs[j].oldReg, RenameInSequence(ivs, ivs[j].oldReg));
    }
  }

  /** Two registers that were given different ones both end up in the same register. */
  lemma ChainMergesRegisters(ivs: seq<RegLiveInterval>, i: nat, j: nat)
    requires OneIntervalPerRegister(ivs) && i < j < |ivs| && ivs[i].newReg == ivs[j].oldReg
    ensures RenameInSequence(ivs, ivs[i].oldReg) == RenameInSequence(ivs, ivs[j].oldReg)
  {
    var a, b := ivs[i].oldReg, ivs[j].oldReg;
    Untouched(ivs, a, a, 0, i);
    RenameStep(ivs, a, i);
    Untouched(ivs, a, b, i + 1, j);
    Untouched(ivs, b, b, 0, j);
    SameFromHere(ivs, a, b, j, |ivs|);
    assert ivs[..|ivs|] == ivs;
  }

  lemma RenameStep(ivs: seq<RegLiveInterval>, r: nat, n: nat)
    requires n < |ivs|
    ensures RenameInSequence(ivs[..n + 1], r) == RenameOne(ivs[n], RenameInSequence(ivs[..n], r))
  {
    assert ivs[..n + 1][..n] == ivs[..n];
  }

  /** Step by step: interval after interval renames what the ones before have made of the operand, also where
      a register has several intervals or chains occur. */
  lemma {:induction false} SequenceStepByStep(ivs: seq<RegLiveInterval>, r: nat) returns (steps: seq<nat>)
    ensures |steps| == |ivs| + 1 && steps[0] == r && steps[|ivs|] == RenameInSequence(ivs, r)
    ensures forall k, n :: 0 <= k < |ivs| && n == k + 1 ==>
      steps[n] == if steps[k] == ivs[k].oldReg then ivs[k].newReg else steps[k]
  {
    if ivs == [] {
      steps := [r];
    } else {
      steps := SequenceStepByStep(ivs[..|ivs| - 1], r);
      steps := steps + [RenameInSequence(ivs, r)];
    }
  }

  /** While no interval renames `x`, an operand that has become `x` stays `x`. */
  lemma {:induction false} Untouched(ivs: seq<RegLiveInterval>, r: nat, x: nat, from: nat, to: nat)
    requires from <= to <= |ivs| && forall k :: from <= k < to ==> ivs[k].oldReg != x
    requires RenameInSequence(ivs[..from], r) == x
    ensures RenameInSequence(ivs[..to], r) == x
  {
    if from < to {
      Untouched(ivs, r, x, from, to - 1);
      RenameStep(ivs, r, to - 1);
    }
  }

  lemma {:induction false} SameFromHere(ivs: seq<RegLiveInterval>, a: nat, b: nat, from: nat, to: nat)
    requires from <= to <= |ivs| && RenameInSequence(ivs[..from], a) == RenameInSequence(ivs[..from], b)
    ensures RenameInSequence(ivs[..to], a) == RenameInSequence(ivs[..to], b)
  {
    if from < to {
      SameFromHere(ivs, a, b, from, to - 1);
      RenameStep(ivs, a, to - 1);
      RenameStep(ivs, b, to - 1);
    }
  }

  lemma {:induction false} ChainFreeSequence(ivs: seq<RegLiveInterval>, r: nat, n: nat)
    requires OneIntervalPerRegister(ivs) && ChainFree(ivs) && n <= |ivs|
    ensures MapsTo(ivs[..n], r, RenameInSequence(ivs[..n], r))
    ensures n == |ivs| ==> MapsTo(ivs, r, RenameInSequence(ivs, r))
  {
    if n > 0 {
      var m := n - 1;
      assert ivs[..n][..m] == ivs[..m];
      ChainFreeSequence(ivs, r, m);
    }
    assert ivs[..|ivs|] == ivs;
  }

  /** With old numbers ascending in the order of the scan, an interval never gets a register above
      its own old number, and the chain is free. */
  lemma AscendingIsChainFree(ivs: seq<RegLiveInterval>, regs: nat, count: nat, used: nat)
    requires Allocation(ivs, regs, count, used)
    requires forall i, j :: 0 <= i < j < |ivs| ==> ivs[i].oldReg < ivs[j].oldReg
    ensures forall k :: 0 <= k < |ivs| ==> ivs[k].newReg <= ivs[k].oldReg
    ensures ChainFree(ivs) && OneIntervalPerRegister(ivs)
  {
    forall k | 0 <= k < |ivs| ensures ivs[k].newReg <= ivs[k].oldReg {
      if k < count && !Point(ivs[k]) {
        NewRegisterIsAtMostPosition(ivs, count, used, k);
        AscendingReachesPosition(ivs, k);
      }
    }
  }

  lemma {:induction false} AscendingReachesPosition(ivs: seq<RegLiveInterval>, k: nat)
    requires k < |ivs| && forall i, j :: 0 <= i < j < |ivs| ==> ivs[i].oldReg < ivs[j].oldReg
    ensures k <= ivs[k].oldReg
  {
    if k > 0 {
      AscendingReachesPosition(ivs, k - 1);
    }
  }

  /** Without the ordering a renamed operand can be renamed again: register 1 is given register 0
      first, and register 0 is later given register 1. */
  lemma ChainCanRenameTwice()
    ensures exists ivs, used ::
      && Allocation(ivs, 3, |ivs|, used) && used < 3 && OneIntervalPerRegister(ivs)
      && RenameInSequence(ivs, 1) == 1 && MapsTo(ivs, 1, 0)
  {
    var a, b := RegLiveInterval(1, 0, 0, 9), RegLiveInterval(0, 1, 2, 9);
    var ivs := [a, b];
    assert Holds(ivs, 2, 0, 0) && Holds(ivs, 1, 0, 0) && Holds(ivs, 2, 1, 1);
    assert Clique(ivs, [0, 1]) && |[0, 1]| == 2;
    FewHaveRoom(ivs, 3);
    assert ivs[..1] == [a] && [a][..0] == [];
    assert RenameInSequence([], 1) == 1;
    assert RenameInSequence([a], 1) == 0;
    assert RenameInSequence(ivs, 1) == 1;
    assert Allocation(ivs, 3, |ivs|, 2);
  }

  ghost predicate HasInterval(ivs: seq<RegLiveInterval>, r: nat) {
    exists k :: 0 <= k < |ivs| && ivs[k].oldReg == r && !Point(ivs[k])
  }

  // ---------------------------------------------------------------- straight-line code

  /** What an instruction does with registers: it reads the registers of `uses`, then sets `write`. */
  datatype Access = Access(offset: nat, uses: seq<nat>, write: Option<nat>)

  type Code = seq<Access>

  /** A register file. */
  type File = seq<int>

  /** The value an instruction computes from its position and the values it has read. */
  type Effect = (nat, seq<int>) -> int

  ghost predicate WithinFile(code: Code, regs: nat) {
    forall p :: 0 <= p < |code| ==>
      && (forall i :: 0 <= i < |code[p].uses| ==> code[p].uses[i] < regs)
      && (code[p].write.Some? ==> code[p].write.value < regs)
  }

  function Values(uses: seq<nat>, file: File): (v: seq<int>)
    requires forall i :: 0 <= i < |uses| ==> uses[i] < |file|
    ensures |v| == |uses| && forall i :: 0 <= i < |uses| ==> v[i] == file[uses[i]]
  {
    seq(|uses|, i requires 0 <= i < |uses| => file[uses[i]])
  }

  function Store(f: File, a: Access, v: int): (f': File)
    requires a.write.Some? ==> a.write.value < |f|
    ensures |f'| == |f|
  {
    if a.write.Some? then f[a.write.value := v] else f
  }

  /** The register file before instruction `p`. */
  ghost function Before(code: Code, file: File, effect: Effect, p: nat): (f: File)
    requires WithinFile(code, |file|) && p <= |code|
    ensures |f| == |file|
  {
    if p == 0 then file
    else
      var f := Before(code, file, effect, p - 1);
      Store(f, code[p - 1], effect(p - 1, Values(code[p - 1].uses, f)))
  }

  function RenameAccess(ivs: seq<RegLiveInterval>, a: Access): Access {
    Access(a.offset,
           seq(|a.uses|, i requires 0 <= i < |a.uses| => RenameInSequence(ivs, a.uses[i])),
           if a.write.Some? then Some(RenameInSequence(ivs, a.write.value)) else None)
  }

  function RenameCode(ivs: seq<RegLiveInterval>, code: Code): Code {
    seq(|code|, p requires 0 <= p < |code| => RenameAccess(ivs, code[p]))
  }

  /** Instructions `from` to `to` - 1 write `r`. */
  ghost predicate WrittenWithin(code: Code, from: nat, to: nat, r: nat)
    requires to <= |code|
  {
    exists q :: from <= q < to && code[q].write == Some(r)
  }

  /** The code still asks for `r` at position `p`: instruction `p` reads it or, at the end of the code,
      it is among the registers that matter afterwards. */
  ghost predicate Demanded(code: Code, out: iset<nat>, p: nat, r: nat) {
    if p < |code| then r in code[p].uses else p == |code| && r in out
  }

  /** A demand that is met by what the register held before the code. */
  ghost predicate DemandedFromEntry(code: Code, out: iset<nat>, p: nat, r: nat) {
    Demanded(code, out, p, r) && !WrittenWithin(code, 0, p, r)
  }

  /** The registers that matter before the code. */
  ghost function Incoming(code: Code, out: iset<nat>): iset<nat> {
    iset r: nat | IsIncoming(code, out, r)
  }

  ghost predicate IsIncoming(code: Code, out: iset<nat>, r: nat) {
    exists p: nat :: DemandedFromEntry(code, out, p, r)
  }

  ghost predicate Within(code: Code, out: iset<nat>, regs: nat) {
    WithinFile(code, regs) && forall r :: r in out ==> r < regs
  }

  /** Renaming does not lead out of the register file. */
  ghost predicate KeepsBound(ivs: seq<RegLiveInterval>, regs: nat) {
    forall r: nat :: r < regs ==> RenameInSequence(ivs, r) < regs
  }

  lemma RenamedCodeStaysWithin(ivs: seq<RegLiveInterval>, code: Code, regs: nat)
    requires WithinFile(code, regs) && KeepsBound(ivs, regs)
    ensures WithinFile(RenameCode(ivs, code), regs)
  {
  }

  /** The two register files agree on the given registers, each read where its code expects it. */
  ghost predicate Agree(ivs: seq<RegLiveInterval>, on: iset<nat>, file: File, file': File) {
    forall r :: r in on && r < |file| && RenameInSequence(ivs, r) < |file'| ==>
      file[r] == file'[RenameInSequence(ivs, r)]
  }

  /** From these register files the code and the renamed code read the same values at every
      instruction, and leave files that agree on what matters afterwards. */
  ghost predicate RunsAlike(ivs: seq<RegLiveInterval>, code: Code, out: iset<nat>, file: File, file': File,
                            effect: Effect)
    requires |file| == |file'| && Within(code, out, |file|) && KeepsBound(ivs, |file|)
  {
    assert WithinFile(RenameCode(ivs, code), |file|) by { RenamedCodeStaysWithin(ivs, code, |file|); }
    var code' := RenameCode(ivs, code);
    && (forall p :: 0 <= p < |code| ==> SameReads(ivs, code, file, file', effect, p))
    && Agree(ivs, out, Before(code, file, effect, |code|), Before(code', file', effect, |code|))
  }

  ghost predicate SameReads(ivs: seq<RegLiveInterval>, code: Code, file: File, file': File, effect: Effect, p: nat)
    requires |file| == |file'| && WithinFile(code, |file|) && WithinFile(RenameCode(ivs, code), |file|) && p < |code|
  {
    Values(code[p].uses, Before(code, file, effect, p)) ==
      Values(RenameCode(ivs, code)[p].uses, Before(RenameCode(ivs, code), file', effect, p))
  }

  /** Renaming keeps the meaning: whatever the instructions compute, and from any two register files
      that agree on what matters before the code. */
  ghost predicate MeaningPreserved(ivs: seq<RegLiveInterval>, code: Code, out: iset<nat>, regs: nat)
    requires Within(code, out, regs) && KeepsBound(ivs, regs)
  {
    forall file: File, file': File, effect: Effect ::
      |file| == |file'| == regs && Agree(ivs, Incoming(code, out), file, file') ==>
        RunsAlike(ivs, code, out, file, file', effect)
  }

  /** The same for a register file that is not rearranged on entry. */
  ghost predicate MeaningKeptInPlace(ivs: seq<RegLiveInterval>, code: Code, out: iset<nat>, regs: nat)
    requires Within(code, out, regs) && KeepsBound(ivs, regs)
  {
    forall file: File, effect: Effect :: |file| == regs ==> RunsAlike(ivs, code, out, file, file, effect)
  }

  // ---------------------------------------------------------------- when meaning is kept, for any renaming

  /** The value that `r` holds at `p` is overwritten by instruction `q` once the registers are renamed:
      after the last write of `r`, `q` writes another register that is renamed to the same one. */
  ghost predicate ClobberedBy(ivs: seq<RegLiveInterval>, code: Code, p: nat, r: nat, q: nat)
    requires p <= |code|
  {
    && q < p && code[q].write.Some? && code[q].write.value != r
    && RenameInSequence(ivs, code[q].write.value) == RenameInSequence(ivs, r)
    && !WrittenWithin(code, q + 1, p, r)
  }

  ghost predicate Clobbered(ivs: seq<RegLiveInterval>, code: Code, p: nat, r: nat)
    requires p <= |code|
  {
    exists q: nat :: ClobberedBy(ivs, code, p, r, q)
  }

  ghost predicate NoneClobbered(ivs: seq<RegLiveInterval>, code: Code, out: iset<nat>) {
    forall p: nat, r: nat :: Demanded(code, out, p, r) ==> !Clobbered(ivs, code, p, r)
  }

  /** A register that is not clobbered holds the same value in both runs. */
  lemma {:induction false} UnclobberedHoldsSame(ivs: seq<RegLiveInterval>, code: Code, out: iset<nat>,
                                                file: File, file': File, effect: Effect, p: nat, r: nat)
    requires |file| == |file'| && Within(code, out, |file|) && KeepsBound(ivs, |file|) && p <= |code| && r < |file|
    requires WithinFile(RenameCode(ivs, code), |file|)
    requires NoneClobbered(ivs, code, out) && Agree(ivs, Incoming(code, out), file, file')
    requires !Clobbered(ivs, code, p, r)
    requires WrittenWithin(code, 0, p, r) || file[r] == file'[RenameInSequence(ivs, r)]
    ensures Before(code, file, effect, p)[r]
      == Before(RenameCode(ivs, code), file', effect, p)[RenameInSequence(ivs, r)]
    decreases p, 0
  {
    if p > 0 {
      if code[p - 1].write == Some(r) {
        ReadsAreSame(ivs, code, out, file, file', effect, p - 1);
      } else {
        EarlierUnclobbered(ivs, code, p, r);
        UnclobberedHoldsSame(ivs, code, out, file, file', effect, p - 1, r);
      }
    }
  }

  lemma EarlierUnclobbered(ivs: seq<RegLiveInterval>, code: Code, p: nat, r: nat)
    requires 0 < p <= |code| && !Clobbered(ivs, code, p, r) && code[p - 1].write != Some(r)
    ensures !Clobbered(ivs, code, p - 1, r)
    ensures code[p - 1].write.Some? ==>
      RenameInSequence(ivs, code[p - 1].write.value) != RenameInSequence(ivs, r)
  {
    assert !ClobberedBy(ivs, code, p, r, p - 1);
    var m := p - 1;
    if q: nat :| ClobberedBy(ivs, code, m, r, q) {
      assert ClobberedBy(ivs, code, p, r, q);
    }
  }

  lemma {:induction false} ReadsAreSame(ivs: seq<RegLiveInterval>, code: Code, out: iset<nat>,
                                        file: File, file': File, effect: Effect, p: nat)
    requires |file| == |file'| && Within(code, out, |file|) && KeepsBound(ivs, |file|) && p < |code|
    requires WithinFile(RenameCode(ivs, code), |file|)
    requires NoneClobbered(ivs, code, out) && Agree(ivs, Incoming(code, out), file, file')
    ensures SameReads(ivs, code, file, file', effect, p)
    decreases p, 1
  {
    forall i | 0 <= i < |code[p].uses|
      ensures Before(code, file, effect, p)[code[p].uses[i]] ==
        Before(RenameCode(ivs, code), file', effect, p)[RenameInSequence(ivs, code[p].uses[i])]
    {
      var r := code[p].uses[i];
      assert Demanded(code, out, p, r);
      assert !WrittenWithin(code, 0, p, r) ==> DemandedFromEntry(code, out, p, r) && r in Incoming(code, out);
      UnclobberedHoldsSame(ivs, code, out, file, file', effect, p, r);
    }
  }

  lemma UnclobberedRunsAlike(ivs: seq<RegLiveInterval>, code: Code, out: iset<nat>, file: File, file': File,
                             effect: Effect)
    requires |file| == |file'| && Within(code, out, |file|) && KeepsBound(ivs, |file|)
    requires NoneClobbered(ivs, code, out) && Agree(ivs, Incoming(code, out), file, file')
    ensures RunsAlike(ivs, code, out, file, file', effect)
  {
    RenamedCodeStaysWithin(ivs, code, |file|);
    forall p | 0 <= p < |code| ensures SameReads(ivs, code, file, file', effect, p) {
      ReadsAreSame(ivs, code, out, file, file', effect, p);
    }
    var n := |code|;
    forall r | r in out && r < |file| && RenameInSequence(ivs, r) < |file'|
      ensures Before(code, file, effect, n)[r]
        == Before(RenameCode(ivs, code), file', effect, n)[RenameInSequence(ivs, r)]
    {
      assert Demanded(code, out, n, r);
      assert !WrittenWithin(code, 0, n, r) ==> DemandedFromEntry(code, out, n, r) && r in Incoming(code, out);
      UnclobberedHoldsSame(ivs, code, out, file, file', effect, n, r);
    }
  }

  // ---------------------------------------------------------------- when it is not

  /** Every instruction computes its own position, counted from 1. */
  ghost function Stamp(): Effect {
    (q: nat, v: seq<int>) => q + 1
  }

  /** What was written before instruction `q` shows as at most `q`. */
  lemma {:induction false} OldValueIsSmall(code: Code, file: File, p: nat, r: nat, q: nat)
    requires WithinFile(code, |file|) && q <= p <= |code| && r < |file| && file[r] <= 0
    requires !WrittenWithin(code, q, p, r)
    ensures Before(code, file, Stamp(), p)[r] <= q
    decreases p
  {
    if p > q {
      assert code[p - 1].write != Some(r);
      assert !WrittenWithin(code, q, p - 1, r);
      OldValueIsSmall(code, file, p - 1, r, q);
    } else {
      StampsAreBelow(code, file, p, r);
    }
  }

  lemma {:induction false} StampsAreBelow(code: Code, file: File, p: nat, r: nat)
    requires WithinFile(code, |file|) && p <= |code| && r < |file| && file[r] <= 0
    ensures Before(code, file, Stamp(), p)[r] <= p
    decreases p
  {
    if p > 0 {
      StampsAreBelow(code, file, p - 1, r);
    }
  }

  /** What instruction `q` has written shows as more than `q` from then on. */
  lemma {:induction false} NewValueIsLarge(code: Code, file: File, p: nat, r: nat, q: nat)
    requires WithinFile(code, |file|) && q < p <= |code| && r < |file| && code[q].write == Some(r)
    ensures Before(code, file, Stamp(), p)[r] > q
    decreases p
  {
    if p > q + 1 {
      NewValueIsLarge(code, file, p - 1, r, q);
    }
  }

  lemma ClobberedShows(ivs: seq<RegLiveInterval>, code: Code, file: File, file': File, p: nat, r: nat)
    requires |file| == |file'| && WithinFile(code, |file|) && KeepsBound(ivs, |file|) && p <= |code| && r < |file|
    requires WithinFile(RenameCode(ivs, code), |file|) && file[r] <= 0 && Clobbered(ivs, code, p, r)
    ensures Before(code, file, Stamp(), p)[r] <
      Before(RenameCode(ivs, code), file', Stamp(), p)[RenameInSequence(ivs, r)]
  {
    var q: nat :| ClobberedBy(ivs, code, p, r, q);
    assert forall x :: q <= x < p ==> code[x].write != Some(r);
    OldValueIsSmall(code, file, p, r, q);
    NewValueIsLarge(RenameCode(ivs, code), file', p, RenameInSequence(ivs, r), q);
  }

  /** A demand whose values differ shows in the run. */
  lemma DifferenceShows(ivs: seq<RegLiveInterval>, code: Code, out: iset<nat>, file: File, file': File, effect: Effect,
                        p: nat, r: nat)
    requires |file| == |file'| && Within(code, out, |file|) && KeepsBound(ivs, |file|)
    requires WithinFile(RenameCode(ivs, code), |file|) && Demanded(code, out, p, r) && r < |file|
    requires Before(code, file, effect, p)[r] !=
      Before(RenameCode(ivs, code), file', effect, p)[RenameInSequence(ivs, r)]
    ensures !RunsAlike(ivs, code, out, file, file', effect)
  {
    if p < |code| {
      var i :| 0 <= i < |code[p].uses| && code[p].uses[i] == r;
      assert Values(code[p].uses, Before(code, file, effect, p))[i] !=
        Values(RenameCode(ivs, code)[p].uses, Before(RenameCode(ivs, code), file', effect, p))[i];
      assert !SameReads(ivs, code, file, file', effect, p);
    }
  }

  lemma DemandIsWithin(code: Code, out: iset<nat>, regs: nat, p: nat, r: nat)
    requires Within(code, out, regs) && Demanded(code, out, p, r)
    ensures p <= |code| && r < regs
  {
  }

  /** Run from given files with stamps, a clobbered demand shows. */
  lemma ClobberedRunsDiffer(ivs: seq<RegLiveInterval>, code: Code, out: iset<nat>, file: File, file': File)
    requires |file| == |file'| && Within(code, out, |file|) && KeepsBound(ivs, |file|)
    requires !NoneClobbered(ivs, code, out) && forall r :: 0 <= r < |file| ==> file[r] <= 0
    ensures !RunsAlike(ivs, code, out, file, file', Stamp())
  {
    RenamedCodeStaysWithin(ivs, code, |file|);
    var p: nat, r: nat :| Demanded(code, out, p, r) && Clobbered(ivs, code, p, r);
    DemandIsWithin(code, out, |file|, p, r);
    ClobberedShows(ivs, code, file, file', p, r);
    DifferenceShows(ivs, code, out, file, file', Stamp(), p, r);
  }

  function Zeros(regs: nat): (file: File)
    ensures |file| == regs && forall r :: 0 <= r < regs ==> file[r] == 0
  {
    seq(regs, r => 0)
  }

  /** For any code, with branches taken or not, and any renaming: meaning is kept, whatever the
      instructions compute, if and only if no demanded value is clobbered. */
  lemma RenamingPreservesMeaningIff(ivs: seq<RegLiveInterval>, code: Code, out: iset<nat>, regs: nat)
    requires Within(code, out, regs) && KeepsBound(ivs, regs)
    ensures MeaningPreserved(ivs, code, out, regs) <==> NoneClobbered(ivs, code, out)
  {
    if NoneClobbered(ivs, code, out) {
      forall file: File, file': File, effect: Effect |
        |file| == |file'| == regs && Agree(ivs, Incoming(code, out), file, file')
        ensures RunsAlike(ivs, code, out, file, file', effect)
      {
        UnclobberedRunsAlike(ivs, code, out, file, file', effect);
      }
    } else {
      assert Agree(ivs, Incoming(code, out), Zeros(regs), Zeros(regs));
      ClobberedRunsDiffer(ivs, code, out, Zeros(regs), Zeros(regs));
    }
  }

  /** A register file in which all registers differ. */
  function Distinguished(regs: nat): (file: File)
    ensures |file| == regs && forall r :: 0 <= r < regs ==> file[r] == -1 - r
  {
    seq(regs, r => -1 - r)
  }

  lemma {:induction false} UnwrittenKeeps(code: Code, file: File, effect: Effect, p: nat, r: nat)
    requires WithinFile(code, |file|) && p <= |code| && r < |file| && !WrittenWithin(code, 0, p, r)
    ensures Before(code, file, effect, p)[r] == file[r]
    decreases p
  {
    if p > 0 {
      assert !WrittenWithin(code, 0, p - 1, r) && code[p - 1].write != Some(r);
      UnwrittenKeeps(code, file, effect, p - 1, r);
    }
  }

  /** With an unchanged register file on entry, meaning is kept if and only if, in addition, every
      register that the code reads from before keeps its number. */
  lemma RenamingInPlacePreservesMeaningIff(ivs: seq<RegLiveInterval>, code: Code, out: iset<nat>, regs: nat)
    requires Within(code, out, regs) && KeepsBound(ivs, regs)
    ensures MeaningKeptInPlace(ivs, code, out, regs) <==>
      NoneClobbered(ivs, code, out) && forall r :: r in Incoming(code, out) ==> RenameInSequence(ivs, r) == r
  {
    var file := Distinguished(regs);
    if !NoneClobbered(ivs, code, out) {
      ClobberedRunsDiffer(ivs, code, out, file, file);
    } else if r :| r in Incoming(code, out) && RenameInSequence(ivs, r) != r {
      MovedEntryShows(ivs, code, out, regs, r);
    } else {
      forall f: File, effect: Effect | |f| == regs ensures RunsAlike(ivs, code, out, f, f, effect) {
        UnclobberedRunsAlike(ivs, code, out, f, f, effect);
      }
    }
  }

  lemma MovedEntryShows(ivs: seq<RegLiveInterval>, code: Code, out: iset<nat>, regs: nat, r: nat)
    requires Within(code, out, regs) && KeepsBound(ivs, regs) && NoneClobbered(ivs, code, out)
    requires r in Incoming(code, out) && RenameInSequence(ivs, r) != r
    ensures !RunsAlike(ivs, code, out, Distinguished(regs), Distinguished(regs), Stamp())
  {
    var file, code', x := Distinguished(regs), RenameCode(ivs, code), RenameInSequence(ivs, r);
    RenamedCodeStaysWithin(ivs, code, regs);
    var p: nat :| DemandedFromEntry(code, out, p, r);
    DemandIsWithin(code, out, regs, p, r);
    UnwrittenKeeps(code, file, Stamp(), p, r);
    forall q | 0 <= q < p ensures code'[q].write != Some(x) {
      assert !ClobberedBy(ivs, code, p, r, q);
    }
    UnwrittenKeeps(code', file, Stamp(), p, x);
    DifferenceShows(ivs, code, out, file, file, Stamp(), p, r);
  }

  // ---------------------------------------------------------------- runs through several blocks

  lemma WrittenInFirst(a: Code, b: Code, from: nat, to: nat, r: nat)
    requires to <= |a|
    ensures WrittenWithin(a + b, from, to, r) <==> WrittenWithin(a, from, to, r)
  {
    if q :| from <= q < to && a[q].write == Some(r) {
      assert (a + b)[q] == a[q];
    }
  }

  lemma WrittenInSecond(a: Code, b: Code, from: nat, to: nat, r: nat)
    requires from <= to <= |b|
    ensures WrittenWithin(a + b, |a| + from, |a| + to, r) <==> WrittenWithin(b, from, to, r)
  {
    if q :| from <= q < to && b[q].write == Some(r) {
      assert (a + b)[|a| + q] == b[q];
    }
    if q :| |a| + from <= q < |a| + to && (a + b)[q].write == Some(r) {
      assert (a + b)[q] == b[q - |a|];
    }
  }

  lemma WrittenAcross(code: Code, from: nat, mid: nat, to: nat, r: nat)
    requires from <= mid <= to <= |code|
    ensures WrittenWithin(code, from, to, r) <==> WrittenWithin(code, from, mid, r) || WrittenWithin(code, mid, to, r)
  {
  }

  /** What is clobbered in the first of two blocks, for what matters after it, is clobbered in both. */
  lemma ClobberedInFirst(ivs: seq<RegLiveInterval>, a: Code, b: Code, out: iset<nat>, p: nat, r: nat)
    requires Demanded(a, Incoming(b, out), p, r) && Clobbered(ivs, a, p, r)
    ensures !NoneClobbered(ivs, a + b, out)
  {
    var q: nat :| ClobberedBy(ivs, a, p, r, q);
    if p < |a| {
      WrittenInFirst(a, b, q + 1, p, r);
      assert ClobberedBy(ivs, a + b, p, r, q) && Demanded(a + b, out, p, r);
    } else {
      assert IsIncoming(b, out, r);
      var d: nat :| DemandedFromEntry(b, out, d, r);
      WrittenInFirst(a, b, q + 1, p, r);
      WrittenInSecond(a, b, 0, d, r);
      WrittenAcross(a + b, q + 1, p, p + d, r);
      assert ClobberedBy(ivs, a + b, p + d, r, q) && Demanded(a + b, out, p + d, r);
    }
  }

  lemma ClobberedInSecond(ivs: seq<RegLiveInterval>, a: Code, b: Code, out: iset<nat>, p: nat, r: nat)
    requires Demanded(b, out, p, r) && Clobbered(ivs, b, p, r)
    ensures !NoneClobbered(ivs, a + b, out)
  {
    var q: nat :| ClobberedBy(ivs, b, p, r, q);
    WrittenInSecond(a, b, q + 1, p, r);
    assert ClobberedBy(ivs, a + b, |a| + p, r, |a| + q) && Demanded(a + b, out, |a| + p, r);
  }

  lemma ClobberedInEither(ivs: seq<RegLiveInterval>, a: Code, b: Code, out: iset<nat>, p: nat, r: nat)
    requires Demanded(a + b, out, p, r) && Clobbered(ivs, a + b, p, r)
    ensures !NoneClobbered(ivs, a, Incoming(b, out)) || !NoneClobbered(ivs, b, out)
  {
    var q: nat :| ClobberedBy(ivs, a + b, p, r, q);
    var n := |a|;
    if p < n {
      WrittenInFirst(a, b, q + 1, p, r);
      assert ClobberedBy(ivs, a, p, r, q) && Demanded(a, Incoming(b, out), p, r);
    } else if q >= n {
      WrittenInSecond(a, b, q - n + 1, p - n, r);
      assert ClobberedBy(ivs, b, p - n, r, q - n) && Demanded(b, out, p - n, r);
    } else {
      WrittenAcross(a + b, q + 1, n, p, r);
      WrittenInFirst(a, b, q + 1, n, r);
      WrittenInSecond(a, b, 0, p - n, r);
      assert DemandedFromEntry(b, out, p - n, r) && IsIncoming(b, out, r);
      assert ClobberedBy(ivs, a, n, r, q) && Demanded(a, Incoming(b, out), n, r);
    }
  }

  /** Two blocks in a row lose nothing exactly when the first loses nothing of what the second and the
      rest still need, and neither does the second. */
  lemma NoneClobberedInRow(ivs: seq<RegLiveInterval>, a: Code, b: Code, out: iset<nat>)
    ensures NoneClobbered(ivs, a + b, out) <==>
      NoneClobbered(ivs, a, Incoming(b, out)) && NoneClobbered(ivs, b, out)
  {
    if p: nat, r: nat :| Demanded(a, Incoming(b, out), p, r) && Clobbered(ivs, a, p, r) {
      ClobberedInFirst(ivs, a, b, out, p, r);
    } else if p: nat, r: nat :| Demanded(b, out, p, r) && Clobbered(ivs, b, p, r) {
      ClobberedInSecond(ivs, a, b, out, p, r);
    } else if p: nat, r: nat :| Demanded(a + b, out, p, r) && Clobbered(ivs, a + b, p, r) {
      ClobberedInEither(ivs, a, b, out, p, r);
    }
  }

  /** The instructions of a run through several blocks. */
  ghost function Trace(blocks: seq<Code>): Code {
    if blocks == [] then [] else blocks[0] + Trace(blocks[1..])
  }

  /** What still matters once the first `n` blocks of a run are done. */
  ghost function NeededFrom(blocks: seq<Code>, n: nat, out: iset<nat>): iset<nat>
    requires n <= |blocks|
  {
    Incoming(Trace(blocks[n..]), out)
  }

  /** A run through any sequence of blocks keeps its meaning if and only if each block of it does,
      for the registers that the rest of the run needs. */
  lemma {:induction false} RunPreservesMeaningIff(ivs: seq<RegLiveInterval>, blocks: seq<Code>, out: iset<nat>,
                                                  regs: nat)
    requires Within(Trace(blocks), out, regs) && KeepsBound(ivs, regs)
    requires forall i :: 0 <= i < |blocks| ==> Within(blocks[i], NeededFrom(blocks, i + 1, out), regs)
    ensures MeaningPreserved(ivs, Trace(blocks), out, regs) <==>
      forall i :: 0 <= i < |blocks| ==> MeaningPreserved(ivs, blocks[i], NeededFrom(blocks, i + 1, out), regs)
  {
    RenamingPreservesMeaningIff(ivs, Trace(blocks), out, regs);
    RunLosesNothingIff(ivs, blocks, out);
    forall i | 0 <= i < |blocks|
      ensures MeaningPreserved(ivs, blocks[i], NeededFrom(blocks, i + 1, out), regs) <==> Safe(ivs, blocks, i, out)
    {
      RenamingPreservesMeaningIff(ivs, blocks[i], NeededFrom(blocks, i + 1, out), regs);
    }
  }

  ghost predicate Safe(ivs: seq<RegLiveInterval>, blocks: seq<Code>, i: nat, out: iset<nat>)
    requires i < |blocks|
  {
    NoneClobbered(ivs, blocks[i], NeededFrom(blocks, i + 1, out))
  }

  lemma {:induction false} RunLosesNothingIff(ivs: seq<RegLiveInterval>, blocks: seq<Code>, out: iset<nat>)
    ensures NoneClobbered(ivs, Trace(blocks), out) <==> forall i :: 0 <= i < |blocks| ==> Safe(ivs, blocks, i, out)
  {
    if blocks == [] {
      assert forall p: nat, r: nat :: p <= 0 ==> !ClobberedBy(ivs, [], 0, r, p);
    } else {
      RunLosesNothingIff(ivs, blocks[1..], out);
      NoneClobberedInRow(ivs, blocks[0], Trace(blocks[1..]), out);
      var rest := blocks[1..];
      forall i | 0 <= i < |rest| ensures Safe(ivs, rest, i, out) <==> Safe(ivs, blocks, i + 1, out) {
        assert rest[i + 1..] == blocks[i + 2..];
      }
      if forall i :: 0 <= i < |rest| ==> Safe(ivs, rest, i, out) {
        forall i | 0 < i < |blocks| ensures Safe(ivs, blocks, i, out) {
          assert Safe(ivs, rest, i - 1, out);
        }
      } else {
        var i: nat :| i < |rest| && !Safe(ivs, rest, i, out);
        assert !Safe(ivs, blocks, i + 1, out);
      }
      assert Safe(ivs, blocks, 0, out) <==> NoneClobbered(ivs, blocks[0], Incoming(Trace(rest), out));
    }
  }
}

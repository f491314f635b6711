/** What the allocation does to a block whose accesses lie in the intervals: the only register it can
    clobber is one that a dead first write hands its new register to. */
module AllocatedBlocks {
  import opened LinearScan
  import opened Renaming
  import opened Wrappers

  // ---------------------------------------------------------------- blocks and their intervals

  /** The allocated interval of `r`. */
  predicate IsFor(iv: RegLiveInterval, r: nat) {
    iv.oldReg == r && !Point(iv)
  }

  ghost predicate OffsetBefore(code: Code, p: nat, q: nat)
    requires p < |code| && q < |code|
  {
    code[p].offset < code[q].offset
  }

  ghost predicate InOffsetOrder(code: Code) {
    forall p, q :: 0 <= p < q < |code| ==> OffsetBefore(code, p, q)
  }

  ghost predicate OpensAt(ivs: seq<RegLiveInterval>, r: nat, offset: nat) {
    exists k :: 0 <= k < |ivs| && IsFor(ivs[k], r) && ivs[k].start == offset
  }

  /** The interval is open from where the demanded value comes from up to the demand. */
  ghost predicate Reaches(iv: RegLiveInterval, code: Code, p: nat)
    requires p <= |code|
  {
    && (WrittenWithin(code, 0, p, iv.oldReg) || code == [] || iv.start <= code[0].offset)
    && (if p < |code| then code[p].offset <= iv.end else code == [] || code[|code| - 1].offset < iv.end)
  }

  ghost predicate Reached(ivs: seq<RegLiveInterval>, code: Code, p: nat, r: nat)
    requires p <= |code|
  {
    exists k :: 0 <= k < |ivs| && IsFor(ivs[k], r) && Reaches(ivs[k], code, p)
  }

  /** The intervals cover what the block does: a register is written only where its interval opens,
      and each demanded value lies in the interval of its register. Nothing is asked of registers that
      the block does not mention. */
  ghost predicate Covers(ivs: seq<RegLiveInterval>, code: Code, out: iset<nat>) {
    && OneIntervalPerRegister(ivs)
    && InOffsetOrder(code)
    && (forall p :: 0 <= p < |code| && code[p].write.Some? ==> OpensAt(ivs, code[p].write.value, code[p].offset))
    && forall p: nat, r: nat :: Demanded(code, out, p, r) ==> Reached(ivs, code, p, r)
  }

  /** The allocator has visited every interval, and the rewriting applies its mapping. */
  ghost predicate Renames(ivs: seq<RegLiveInterval>, regs: nat, used: nat) {
    && Allocation(ivs, regs, |ivs|, used)
    && ChainFree(ivs) && OneIntervalPerRegister(ivs)
    && forall k :: 0 <= k < |ivs| ==> ivs[k].oldReg < regs
  }

  lemma RenamesTo(ivs: seq<RegLiveInterval>, k: nat)
    requires OneIntervalPerRegister(ivs) && ChainFree(ivs) && k < |ivs|
    ensures RenameInSequence(ivs, ivs[k].oldReg) == ivs[k].newReg
  {
    ChainFreeSequence(ivs, ivs[k].oldReg, |ivs|);
    assert MapsTo(ivs, ivs[k].oldReg, RenameInSequence(ivs, ivs[k].oldReg));
  }

  lemma RenamingKeepsBound(ivs: seq<RegLiveInterval>, regs: nat, used: nat)
    requires Renames(ivs, regs, used)
    ensures KeepsBound(ivs, regs)
  {
    forall r: nat | r < regs ensures RenameInSequence(ivs, r) < regs {
      ChainFreeSequence(ivs, r, |ivs|);
    }
  }

  // ---------------------------------------------------------------- sharing a register

  /** Every allocated interval from `l` up to `k` ends before it starts. */
  ghost predicate DeadUntil(ivs: seq<RegLiveInterval>, l: nat, k: nat)
    requires k <= |ivs|
  {
    forall m :: l <= m < k ==> Point(ivs[m]) || ivs[m].end < ivs[m].start
  }

  /** Two intervals share a register and the one is open where the other starts: then the other starts
      with it, comes before it and is dead. */
  lemma SharingMeansDead(ivs: seq<RegLiveInterval>, k: nat, l: nat)
    requires Sorted(ByStart, ivs) && NonInterfering(ivs, |ivs|) && k < |ivs| && l < |ivs| && k != l
    requires !Point(ivs[k]) && !Point(ivs[l]) && ivs[k].newReg == ivs[l].newReg
    requires ivs[k].start <= ivs[l].start < ivs[k].end
    ensures l < k && ivs[l].start == ivs[k].start && ivs[l].end < ivs[l].start
  {
    if k < l {
      assert Overlaps(ivs, k, l);
    } else {
      assert InOrder(ByStart, ivs[l], ivs[k]);
      assert !Overlaps(ivs, l, k);
    }
  }

  /** The next interval allocated at the start of a dead one takes over its register. */
  lemma TakesOverDead(ivs: seq<RegLiveInterval>, l: nat, k: nat)
    requires Sorted(ByStart, ivs) && LastReleasedFirst(ivs, |ivs|) && l < k < |ivs| && !Point(ivs[k])
    requires ivs[l].end < ivs[l].start == ivs[k].start && forall m :: l < m < k ==> Point(ivs[m])
    ensures ivs[k].newReg == ivs[l].newReg
  {
    assert Idle(ivs, l, k) && TakesLatest(ivs, k);
    var t: nat :| TakesFrom(ivs, t, k);
    assert !ReleasedBefore(ivs, t, l) && ivs[t].end <= ivs[l].start;
    assert forall m :: 0 <= m < l ==> InOrder(ByStart, ivs[m], ivs[l]);
  }

  /** A dead interval's register is handed along to the next allocated intervals of the same start,
      until one of them is not dead. */
  lemma {:induction false} HandedAlong(ivs: seq<RegLiveInterval>, l: nat, k: nat)
    requires Sorted(ByStart, ivs) && LastReleasedFirst(ivs, |ivs|) && l < k < |ivs| && DeadUntil(ivs, l, k)
    requires !Point(ivs[l]) && !Point(ivs[k]) && ivs[l].start == ivs[k].start
    ensures ivs[k].newReg == ivs[l].newReg
    decreases k - l
  {
    forall m | l < m < k ensures ivs[m].start == ivs[l].start {
      assert InOrder(ByStart, ivs[l], ivs[m]) && InOrder(ByStart, ivs[m], ivs[k]);
    }
    if m: nat :| l < m < k && !Point(ivs[m]) {
      HandedAlong(ivs, l, m);
      HandedAlong(ivs, m, k);
    } else {
      TakesOverDead(ivs, l, k);
    }
  }

  lemma {:induction false} SharedUntil(ivs: seq<RegLiveInterval>, l: nat, n: nat, k: nat)
    requires Sorted(ByStart, ivs) && NonInterfering(ivs, |ivs|) && LastReleasedFirst(ivs, |ivs|) && l < n <= k < |ivs|
    requires !Point(ivs[k]) && ivs[l].end < ivs[l].start == ivs[k].start && ivs[k].newReg == ivs[l].newReg
    ensures DeadUntil(ivs, l, n)
    decreases n
  {
    if n > l + 1 {
      var m := n - 1;
      SharedUntil(ivs, l, m, k);
      if !Point(ivs[m]) && ivs[m].end > ivs[m].start {
        assert InOrder(ByStart, ivs[l], ivs[m]) && InOrder(ByStart, ivs[m], ivs[k]);
        HandedAlong(ivs, l, m);
        assert Overlaps(ivs, m, k);
      }
    }
  }

  /** An interval that starts with a dead one shares its register exactly when everything allocated
      between them is dead. */
  lemma SharesWithDeadIff(ivs: seq<RegLiveInterval>, l: nat, k: nat)
    requires Sorted(ByStart, ivs) && NonInterfering(ivs, |ivs|) && LastReleasedFirst(ivs, |ivs|) && l < k < |ivs|
    requires !Point(ivs[k]) && ivs[l].end < ivs[l].start == ivs[k].start
    ensures ivs[k].newReg == ivs[l].newReg <==> DeadUntil(ivs, l, k)
  {
    if ivs[k].newReg == ivs[l].newReg {
      SharedUntil(ivs, l, k, k);
    } else if DeadUntil(ivs, l, k) {
      HandedAlong(ivs, l, k);
    }
  }

  // ---------------------------------------------------------------- the one way to fail

  /** The block reads `r` after its first instruction, or passes it on, without writing it before. */
  ghost predicate NeededLater(code: Code, out: iset<nat>, r: nat) {
    exists p: nat :: p > 0 && DemandedFromEntry(code, out, p, r)
  }

  /** The first instruction's write is dead, and the interval that its register is handed along to is
      that of a register which the block still needs from before. */
  ghost predicate DeadFirstWrite(ivs: seq<RegLiveInterval>, code: Code, out: iset<nat>) {
    code != [] && code[0].write.Some? && exists l, k :: 0 <= l < k < |ivs| && Overwrites(ivs, code, out, l, k)
  }

  ghost predicate Overwrites(ivs: seq<RegLiveInterval>, code: Code, out: iset<nat>, l: nat, k: nat)
    requires l < k < |ivs| && code != [] && code[0].write.Some?
  {
    && ivs[l].oldReg == code[0].write.value && ivs[l].end < ivs[l].start == ivs[k].start && !Point(ivs[k])
    && DeadUntil(ivs, l, k) && NeededLater(code, out, ivs[k].oldReg)
  }

  /** A demanded register's interval is open over any write that could clobber it; only the first
      instruction can stand where that interval starts, and only if the value is from before. */
  lemma DemandedIsOpen(ivs: seq<RegLiveInterval>, code: Code, out: iset<nat>, p: nat, r: nat, q: nat, k: nat)
    requires Covers(ivs, code, out) && Demanded(code, out, p, r) && p <= |code| && ClobberedBy(ivs, code, p, r, q)
    requires k < |ivs| && IsFor(ivs[k], r)
    ensures ivs[k].start <= code[q].offset < ivs[k].end
    ensures ivs[k].start == code[q].offset ==> q == 0 && !WrittenWithin(code, 0, p, r)
  {
    assert Reached(ivs, code, p, r);
    assert Reaches(ivs[k], code, p);
    assert p < |code| ==> OffsetBefore(code, q, p);
    assert q < |code| - 1 ==> OffsetBefore(code, q, |code| - 1);
    if w: nat :| w < p && code[w].write == Some(r) {
      assert w < q && OffsetBefore(code, w, q);
      assert OpensAt(ivs, r, code[w].offset);
    } else {
      assert 0 < q ==> OffsetBefore(code, 0, q);
    }
  }

  lemma ClobberedMeansDeadFirst(ivs: seq<RegLiveInterval>, code: Code, out: iset<nat>, regs: nat, used: nat, p: nat,
                                r: nat)
    requires Renames(ivs, regs, used) && Covers(ivs, code, out)
    requires Demanded(code, out, p, r) && p <= |code| && Clobbered(ivs, code, p, r)
    ensures DeadFirstWrite(ivs, code, out)
  {
    var q: nat :| ClobberedBy(ivs, code, p, r, q);
    assert Reached(ivs, code, p, r) && OpensAt(ivs, code[q].write.value, code[q].offset);
    var k: nat :| k < |ivs| && IsFor(ivs[k], r);
    var l: nat :| l < |ivs| && IsFor(ivs[l], code[q].write.value) && ivs[l].start == code[q].offset;
    RenamesTo(ivs, k);
    RenamesTo(ivs, l);
    DemandedIsOpen(ivs, code, out, p, r, q, k);
    SharingMeansDead(ivs, k, l);
    SharesWithDeadIff(ivs, l, k);
    assert DemandedFromEntry(code, out, p, r) && NeededLater(code, out, r);
    assert Overwrites(ivs, code, out, l, k);
  }

  lemma DeadFirstClobbers(ivs: seq<RegLiveInterval>, code: Code, out: iset<nat>, regs: nat, used: nat)
    requires Renames(ivs, regs, used) && DeadFirstWrite(ivs, code, out)
    ensures !NoneClobbered(ivs, code, out)
  {
    var l, k :| 0 <= l < k < |ivs| && Overwrites(ivs, code, out, l, k);
    SharesWithDeadIff(ivs, l, k);
    RenamesTo(ivs, k);
    RenamesTo(ivs, l);
    var r := ivs[k].oldReg;
    var p: nat :| p > 0 && DemandedFromEntry(code, out, p, r);
    assert ClobberedBy(ivs, code, p, r, 0);
  }

  /** A block covered by its intervals keeps its meaning under the allocator's renaming, for all
      register files and all effects of its instructions, if and only if it does not open with a dead
      write whose register is handed to one that the block still needs. */
  lemma AllocationPreservesMeaningIff(ivs: seq<RegLiveInterval>, code: Code, out: iset<nat>, regs: nat, used: nat)
    requires Renames(ivs, regs, used) && Covers(ivs, code, out) && Within(code, out, regs)
    ensures KeepsBound(ivs, regs)
    ensures MeaningPreserved(ivs, code, out, regs) <==> !DeadFirstWrite(ivs, code, out)
  {
    RenamingKeepsBound(ivs, regs, used);
    RenamingPreservesMeaningIff(ivs, code, out, regs);
    if DeadFirstWrite(ivs, code, out) {
      DeadFirstClobbers(ivs, code, out, regs, used);
    } else {
      forall p: nat, r: nat | Demanded(code, out, p, r) ensures !Clobbered(ivs, code, p, r) {
        if Clobbered(ivs, code, p, r) {
          ClobberedMeansDeadFirst(ivs, code, out, regs, used, p, r);
        }
      }
    }
  }

  // ---------------------------------------------------------------- a block of the failing family

  function DeadFirstIntervals(): seq<RegLiveInterval> {
    [RegLiveInterval(0, 0, 5, 0), RegLiveInterval(1, 0, 5, 6)]
  }

  function DeadFirstCode(): Code {
    [Access(5, [], Some(0)), Access(6, [1], None)]
  }

  /** It opens at offset 5 with a dead write of register 0 and then reads register 1, which is live on
      entry; both are given register 0. */
  lemma DeadFirstWriteExample()
    ensures Renames(DeadFirstIntervals(), 2, 1) && KeepsBound(DeadFirstIntervals(), 2)
    ensures Covers(DeadFirstIntervals(), DeadFirstCode(), iset{}) && Within(DeadFirstCode(), iset{}, 2)
    ensures !MeaningPreserved(DeadFirstIntervals(), DeadFirstCode(), iset{}, 2)
  {
    ExampleIsAllocated(DeadFirstIntervals());
    ExampleIsCovered(DeadFirstIntervals(), DeadFirstCode());
    ExampleOverwrites(DeadFirstIntervals(), DeadFirstCode());
    AllocationPreservesMeaningIff(DeadFirstIntervals(), DeadFirstCode(), iset{}, 2, 1);
  }

  lemma ExampleIsAllocated(ivs: seq<RegLiveInterval>)
    requires ivs == [RegLiveInterval(0, 0, 5, 0), RegLiveInterval(1, 0, 5, 6)]
    ensures Renames(ivs, 2, 1)
  {
    assert Holds(ivs, 2, 0, 0);
    assert Clique(ivs, [0]) && |[0]| == 1;
    assert TakesFrom(ivs, 0, 1);
    FewHaveRoom(ivs, 2);
  }

  lemma ExampleIsCovered(ivs: seq<RegLiveInterval>, code: Code)
    requires ivs == [RegLiveInterval(0, 0, 5, 0), RegLiveInterval(1, 0, 5, 6)]
    requires code == [Access(5, [], Some(0)), Access(6, [1], None)]
    ensures Covers(ivs, code, iset{}) && Within(code, iset{}, 2)
  {
    assert IsFor(ivs[0], 0) && IsFor(ivs[1], 1) && Reaches(ivs[1], code, 1);
    forall p: nat, r: nat | Demanded(code, iset{}, p, r) ensures Reached(ivs, code, p, r) {
      assert p == 1 && r == 1;
    }
  }

  lemma ExampleOverwrites(ivs: seq<RegLiveInterval>, code: Code)
    requires ivs == [RegLiveInterval(0, 0, 5, 0), RegLiveInterval(1, 0, 5, 6)]
    requires code == [Access(5, [], Some(0)), Access(6, [1], None)]
    ensures DeadFirstWrite(ivs, code, iset{})
  {
    assert 1 in code[1].uses && DemandedFromEntry(code, iset{}, 1, 1) && NeededLater(code, iset{}, 1);
    assert Overwrites(ivs, code, iset{}, 0, 1);
  }
}

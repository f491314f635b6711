/** The whole register pass, from live ranges to rewritten instructions. */
module RegisterCompression {
  import opened AllocatedBlocks
  import opened Counting
  import opened IR
  import opened LinearScan
  import opened Literals
  import opened RegisterByLifetime
  import opened Renaming
  import opened Rewriter
  import opened Wrappers
  import L = LiveRanges

  /** The intervals under allocation are those of the live ranges, each as often as it occurs there. */
  ghost predicate GatheredFrom(sorted: seq<RegLiveInterval>, of: nat -> seq<L.Interval>) {
    forall x :: multiset(sorted)[x] == Occurrences(of(x.oldReg), x)
  }

  lemma GatheredAreUnmapped(sorted: seq<RegLiveInterval>, of: nat -> seq<L.Interval>)
    requires GatheredFrom(sorted, of)
    ensures forall x :: x in sorted ==> x.newReg == x.oldReg
  {
    forall x | x in sorted ensures x.newReg == x.oldReg {
      assert x in multiset(sorted);
    }
  }

  /** If every register has at most one live interval, so it is after the scan. */
  lemma GatheredAreDistinct(sorted: seq<RegLiveInterval>, ivs: seq<RegLiveInterval>, of: nat -> seq<L.Interval>)
    requires GatheredFrom(sorted, of) && SameLifetimes(ivs, sorted) && forall r: nat :: |of(r)| <= 1
    ensures OneIntervalPerRegister(ivs)
  {
    forall i, j | 0 <= i < j < |ivs| ensures ivs[i].oldReg != ivs[j].oldReg {
      EntriesOfDistinctRegisters(sorted, of, i, j);
    }
  }

  /** Sort the live intervals, map them to registers, rewrite the instructions. */
  method Compress(pass: RegallocLinearScan, liveRanges: L.LiveRangeMap, insns: seq<Ins>, args: BytecodeArguments)
    returns (ghost sorted: seq<RegLiveInterval>, ghost count: nat)
    requires liveRanges.Valid() && Distinct(insns) && pass.newRegsCount == 0
    modifies pass`intervals, pass`newRegsCount, insns`readRegs, insns`writeReg, insns`literals, args
    ensures GatheredFrom(sorted, (r: nat) => old(liveRanges.Of(r))) && SameLifetimes(pass.intervals, sorted)
    ensures Allocation(pass.intervals, pass.regsCount, count, pass.newRegsCount)
    ensures args.bounds == OutcomeBounds(pass.regsCount, pass.newRegsCount, old(args.bounds))
    ensures forall ins :: ins in insns ==>
      Operands(ins.readRegs, ins.writeReg, ins.literals)
        == Outcome(pass.intervals, ins.hasReadReg, ins.hasWriteReg, old(args.bounds).registerEnd, pass.regsCount,
                   pass.newRegsCount, Operands(old(ins.readRegs), old(ins.writeReg), old(ins.literals)))
    ensures pass.newRegsCount >= pass.regsCount ==> args.bounds == old(args.bounds) && forall ins :: ins in insns ==>
      ins.readRegs == old(ins.readRegs) && ins.writeReg == old(ins.writeReg) && ins.literals == old(ins.literals)
  {
    pass.SortIntervals(liveRanges);
    sorted := pass.intervals;
    GatheredAreUnmapped(sorted, (r: nat) => old(liveRanges.Of(r)));
    count := pass.ComputeRegisterMapping();
    UpdateInstructions(pass.intervals, pass.regsCount, pass.newRegsCount, insns, args);
  }

  /** The pass: a function without registers is left alone, any other one is compressed. */
  method Run(pass: RegallocLinearScan, liveRanges: L.LiveRangeMap, insns: seq<Ins>, args: BytecodeArguments)
    returns (ghost sorted: seq<RegLiveInterval>, ghost count: nat)
    requires liveRanges.Valid() && Distinct(insns)
    modifies pass, insns`readRegs, insns`writeReg, insns`literals, args
    ensures pass.regsCount == old(args.bounds).registerEnd
    ensures pass.regsCount == 0 ==> args.bounds == old(args.bounds) && pass.newRegsCount == 0
    ensures pass.regsCount > 0 ==>
      && GatheredFrom(sorted, (r: nat) => old(liveRanges.Of(r))) && SameLifetimes(pass.intervals, sorted)
      && Allocation(pass.intervals, pass.regsCount, count, pass.newRegsCount)
    ensures pass.regsCount > 0 ==>
      && args.bounds == OutcomeBounds(pass.regsCount, pass.newRegsCount, old(args.bounds))
      && forall ins :: ins in insns ==>
        Operands(ins.readRegs, ins.writeReg, ins.literals)
          == Outcome(pass.intervals, ins.hasReadReg, ins.hasWriteReg, pass.regsCount, pass.regsCount,
                     pass.newRegsCount, Operands(old(ins.readRegs), old(ins.writeReg), old(ins.literals)))
    ensures pass.newRegsCount >= pass.regsCount ==> args.bounds == old(args.bounds) && forall ins :: ins in insns ==>
      ins.readRegs == old(ins.readRegs) && ins.writeReg == old(ins.writeReg) && ins.literals == old(ins.literals)
  {
    pass.intervals, pass.newRegsCount, pass.regsCount := [], 0, args.bounds.registerEnd;
    sorted, count := [], 0;
    if pass.regsCount == 0 {
      return;
    }
    sorted, count := Compress(pass, liveRanges, insns, args);
  }

  // ---------------------------------------------------------------- what it does to a block

  /** An instruction as the pass sees it. The data it reads stand at the positions `data` of its read
      list; the decoder lists the written register there as well. */
  datatype Decoded = Decoded(offset: nat, hasReadReg: bool, hasWriteReg: bool, operands: Operands, data: seq<nat>)

  ghost predicate DataListed(d: Decoded) {
    (d.data != [] ==> d.hasReadReg) && forall i :: 0 <= i < |d.data| ==> d.data[i] < |d.operands.readRegs|
  }

  ghost function AccessOf(d: Decoded): Access
    requires DataListed(d)
  {
    Access(d.offset, seq(|d.data|, i requires 0 <= i < |d.data| => d.operands.readRegs[d.data[i]]),
           if d.hasWriteReg then Some(d.operands.writeReg) else None)
  }

  ghost function CodeOf(block: seq<Decoded>): Code
    requires forall p :: 0 <= p < |block| ==> DataListed(block[p])
  {
    seq(|block|, p requires 0 <= p < |block| => AccessOf(block[p]))
  }

  ghost function Rewritten(d: Decoded, ivs: seq<RegLiveInterval>, regs: nat, used: nat): Decoded {
    d.(operands := Outcome(ivs, d.hasReadReg, d.hasWriteReg, regs, regs, used, d.operands))
  }

  lemma RewrittenAccess(d: Decoded, ivs: seq<RegLiveInterval>, regs: nat, used: nat)
    requires DataListed(d) && used < regs
    ensures DataListed(Rewritten(d, ivs, regs, used))
    ensures AccessOf(Rewritten(d, ivs, regs, used)) == RenameAccess(ivs, AccessOf(d))
  {
    assert AccessOf(Rewritten(d, ivs, regs, used)).uses == RenameAccess(ivs, AccessOf(d)).uses;
  }

  /** A rewritten block is the block with its registers renamed; so, covered by its intervals, it reads
      the same values as before and leaves the same ones behind, whatever its instructions compute,
      exactly when it does not open with a dead write over a register that it still needs. */
  lemma RewrittenBlockPreservesMeaningIff(block: seq<Decoded>, block': seq<Decoded>, out: iset<nat>,
                                          ivs: seq<RegLiveInterval>, regs: nat, used: nat)
    requires forall p :: 0 <= p < |block| ==> DataListed(block[p])
    requires |block'| == |block| && forall p :: 0 <= p < |block| ==> block'[p] == Rewritten(block[p], ivs, regs, used)
    requires used < regs && Renames(ivs, regs, used)
    requires Covers(ivs, CodeOf(block), out) && Within(CodeOf(block), out, regs)
    ensures forall p :: 0 <= p < |block| ==> DataListed(block'[p])
    ensures CodeOf(block') == RenameCode(ivs, CodeOf(block)) && KeepsBound(ivs, regs)
    ensures MeaningPreserved(ivs, CodeOf(block), out, regs) <==> !DeadFirstWrite(ivs, CodeOf(block), out)
  {
    forall p | 0 <= p < |block|
      ensures DataListed(block'[p]) && AccessOf(block'[p]) == RenameAccess(ivs, AccessOf(block[p]))
    {
      RewrittenAccess(block[p], ivs, regs, used);
    }
    assert CodeOf(block') == RenameCode(ivs, CodeOf(block));
    AllocationPreservesMeaningIff(ivs, CodeOf(block), out, regs, used);
  }

  // ---------------------------------------------------------------- what the builder makes of one block

  /** A function of one block, in offset order. */
  ghost predicate OneBlock(block: seq<Decoded>) {
    && (forall p :: 0 <= p < |block| ==> DataListed(block[p]))
    && forall p, q :: 0 <= p < q < |block| ==> StandsBefore(block, p, q)
  }

  ghost predicate StandsBefore(block: seq<Decoded>, p: nat, q: nat)
    requires p < |block| && q < |block|
  {
    block[p].offset < block[q].offset
  }

  lemma OffsetsDiffer(block: seq<Decoded>, p: nat, q: nat)
    requires OneBlock(block) && p < |block| && q < |block| && block[p].offset == block[q].offset
    ensures p == q
  {
    assert (p < q ==> StandsBefore(block, p, q)) && (q < p ==> StandsBefore(block, q, p));
  }

  /** The block as the interval builder visits it. */
  ghost function VisitsOf(block: seq<Decoded>): (visits: L.Visits)
    ensures |visits| == |block|
  {
    seq(|block|, p requires 0 <= p < |block| =>
      L.Visit(block[p].offset, block[0].offset,
              if block[p].hasWriteReg then Some(block[p].operands.writeReg) else None,
              if block[p].hasReadReg then block[p].operands.readRegs else []))
  }

  lemma VisitsInOrder(block: seq<Decoded>)
    requires OneBlock(block)
    ensures L.InOrder(VisitsOf(block))
  {
    var visits := VisitsOf(block);
    forall p, q | 0 <= p < q < |visits| ensures L.Precedes(visits, p, q) {
      assert StandsBefore(block, p, q);
    }
    forall p | 0 <= p < |visits| ensures visits[p].blockStart <= visits[p].offset {
      assert 0 < p ==> StandsBefore(block, 0, p);
    }
  }

  /** The builder sees every write, and the reads of the instructions that do not write. */
  lemma VisitsSeeAccesses(block: seq<Decoded>, p: nat, r: nat)
    requires OneBlock(block) && p < |block|
    ensures CodeOf(block)[p].write == Some(r) <==> L.WritesReg(VisitsOf(block)[p], r)
    ensures CodeOf(block)[p].write.None? && r in CodeOf(block)[p].uses ==> L.ReadsReg(VisitsOf(block)[p], r)
  {
  }

  /** The intervals are those of the builder, at most one for each register. */
  ghost predicate BuiltOnce(block: seq<Decoded>, argumentEnd: nat, sorted: seq<RegLiveInterval>,
                            ivs: seq<RegLiveInterval>) {
    && (forall x :: OccursAsBuilt(block, argumentEnd, sorted, x)) && SameLifetimes(ivs, sorted)
    && forall r: nat :: BuiltAtMostOnce(block, argumentEnd, r)
  }

  ghost predicate OccursAsBuilt(block: seq<Decoded>, argumentEnd: nat, sorted: seq<RegLiveInterval>,
                                x: RegLiveInterval) {
    multiset(sorted)[x] == Occurrences(BuiltFor(block, argumentEnd, x.oldReg), x)
  }

  ghost predicate BuiltAtMostOnce(block: seq<Decoded>, argumentEnd: nat, r: nat) {
    |BuiltFor(block, argumentEnd, r)| <= 1
  }

  ghost function BuiltFor(block: seq<Decoded>, argumentEnd: nat, r: nat): seq<L.Interval> {
    L.Ranges(VisitsOf(block), |block|, argumentEnd, r)
  }

  ghost predicate IsBuilt(block: seq<Decoded>, argumentEnd: nat, iv: RegLiveInterval) {
    BuiltFor(block, argumentEnd, iv.oldReg) == [L.Interval(iv.start, iv.end)]
  }

  lemma EntryIsBuilt(block: seq<Decoded>, argumentEnd: nat, sorted: seq<RegLiveInterval>, ivs: seq<RegLiveInterval>,
                     k: nat)
    requires BuiltOnce(block, argumentEnd, sorted, ivs) && k < |ivs|
    ensures IsBuilt(block, argumentEnd, ivs[k])
  {
    var list := BuiltFor(block, argumentEnd, sorted[k].oldReg);
    assert sorted[k] in multiset(sorted) && OccursAsBuilt(block, argumentEnd, sorted, sorted[k]);
    assert BuiltAtMostOnce(block, argumentEnd, sorted[k].oldReg);
    assert L.Interval(sorted[k].start, sorted[k].end) in multiset(list);
    assert |list| == 1 && list == [list[0]];
  }

  lemma MentionOpensInterval(visits: L.Visits, argumentEnd: nat, r: nat, p: nat)
    requires p < |visits| && (L.WritesReg(visits[p], r) || L.ReadsReg(visits[p], r))
    ensures L.Ranges(visits, p + 1, argumentEnd, r) != [] && L.Ranges(visits, |visits|, argumentEnd, r) != []
  {
    L.IntervalPersists(visits, p + 1, |visits|, argumentEnd, r, 0);
  }

  lemma MentionedIsBuilt(block: seq<Decoded>, argumentEnd: nat, sorted: seq<RegLiveInterval>, ivs: seq<RegLiveInterval>,
                         r: nat, p: nat) returns (k: nat)
    requires BuiltOnce(block, argumentEnd, sorted, ivs) && p < |block|
    requires L.WritesReg(VisitsOf(block)[p], r) || L.ReadsReg(VisitsOf(block)[p], r)
    ensures k < |ivs| && ivs[k].oldReg == r && IsBuilt(block, argumentEnd, ivs[k])
  {
    var list := BuiltFor(block, argumentEnd, r);
    MentionOpensInterval(VisitsOf(block), argumentEnd, r, p);
    var x := EntryOf(r, list[0]);
    assert OccursAsBuilt(block, argumentEnd, sorted, x) && BuiltAtMostOnce(block, argumentEnd, r);
    assert list == [list[0]] && multiset(list)[list[0]] == 1;
    assert multiset(sorted)[x] == 1 && x in multiset(sorted);
    k :| k < |sorted| && sorted[k] == x;
    EntryIsBuilt(block, argumentEnd, sorted, ivs, k);
  }

  lemma {:induction false} UnmentionedHasNone(visits: L.Visits, n: nat, argumentEnd: nat, r: nat)
    requires n <= |visits| && r >= argumentEnd && L.NoWrite(visits, 0, n, r) && L.NoRead(visits, 0, n, r)
    ensures L.Ranges(visits, n, argumentEnd, r) == []
  {
    if n > 0 {
      UnmentionedHasNone(visits, n - 1, argumentEnd, r);
    }
  }

  /** Only a write of a new register, which the builder has not met before, leaves it at one interval. */
  ghost predicate OpensFirst(visits: L.Visits, argumentEnd: nat, r: nat, q: nat)
    requires q <= |visits|
  {
    r >= argumentEnd && L.NoWrite(visits, 0, q, r) && L.NoRead(visits, 0, q, r)
  }

  lemma {:induction false} WritesOpenFirst(visits: L.Visits, n: nat, argumentEnd: nat, r: nat)
    requires n <= |visits|
    requires forall q :: 0 <= q < n && L.WritesReg(visits[q], r) ==> OpensFirst(visits, argumentEnd, r, q)
    ensures |L.Ranges(visits, n, argumentEnd, r)| <= 1
  {
    if n > 0 {
      WritesOpenFirst(visits, n - 1, argumentEnd, r);
      if L.WritesReg(visits[n - 1], r) {
        UnmentionedHasNone(visits, n - 1, argumentEnd, r);
      }
    }
  }

  /** A register has at most one interval exactly when it is written only where the builder meets it first. */
  lemma BuiltAtMostOnceIff(block: seq<Decoded>, argumentEnd: nat, r: nat)
    ensures BuiltAtMostOnce(block, argumentEnd, r) <==>
      forall q :: 0 <= q < |block| && L.WritesReg(VisitsOf(block)[q], r) ==>
        OpensFirst(VisitsOf(block), argumentEnd, r, q)
  {
    var visits, n := VisitsOf(block), |block|;
    if q :| 0 <= q < n && L.WritesReg(visits[q], r) && !OpensFirst(visits, argumentEnd, r, q) {
      var was := L.Ranges(visits, q, argumentEnd, r);
      L.CurrentInterval(visits, q, argumentEnd, r);
      assert was != [] && |L.Ranges(visits, q + 1, argumentEnd, r)| >= 2;
      L.IntervalPersists(visits, q + 1, n, argumentEnd, r, 1);
    } else {
      WritesOpenFirst(visits, n, argumentEnd, r);
    }
  }

  /** A write is listed, so with one interval all writes are at its start. */
  lemma {:induction false} WriteIsListed(visits: L.Visits, n: nat, r: nat, p: nat)
    requires p < n <= |visits| && L.WritesReg(visits[p], r)
    ensures visits[p].offset in L.WriteOffsets(visits, n, r)
  {
    if p < n - 1 {
      WriteIsListed(visits, n - 1, r, p);
    }
  }

  /** A write after a read opens a second interval. */
  lemma ReadThenWriteTakesTwo(visits: L.Visits, argumentEnd: nat, r: nat, p: nat, q: nat)
    requires p < q < |visits| && L.ReadsReg(visits[p], r) && L.WritesReg(visits[q], r)
    ensures |L.Ranges(visits, |visits|, argumentEnd, r)| >= 2
  {
    MentionOpensInterval(visits, argumentEnd, r, p);
    L.IntervalPersists(visits, p + 1, q, argumentEnd, r, 0);
    L.IntervalPersists(visits, q + 1, |visits|, argumentEnd, r, 0);
  }

  /** The one interval of a register opens at its only write or, if there is none, with the block. */
  lemma BuiltStart(block: seq<Decoded>, argumentEnd: nat, iv: RegLiveInterval)
    requires OneBlock(block) && IsBuilt(block, argumentEnd, iv)
    ensures forall p :: 0 <= p < |block| && CodeOf(block)[p].write == Some(iv.oldReg) ==> block[p].offset == iv.start
    ensures block != [] && !WrittenWithin(CodeOf(block), 0, |block|, iv.oldReg) ==> iv.start <= block[0].offset
  {
    var visits, n, r := VisitsOf(block), |block|, iv.oldReg;
    forall p | 0 <= p < n && CodeOf(block)[p].write == Some(r) ensures block[p].offset == iv.start {
      VisitsSeeAccesses(block, p, r);
      WriteIsListed(visits, n, r, p);
      L.WritesOpenIntervals(visits, n, argumentEnd, r);
    }
    if !WrittenWithin(CodeOf(block), 0, n, r) {
      forall p | 0 <= p < n ensures !L.WritesReg(visits[p], r) {
        VisitsSeeAccesses(block, p, r);
      }
      L.CurrentInterval(visits, n, argumentEnd, r);
    }
  }

  /** A read that the builder records lies in the interval, after any write of its register. */
  lemma RecordedReadIsInside(block: seq<Decoded>, argumentEnd: nat, iv: RegLiveInterval, p: nat)
    requires OneBlock(block) && IsBuilt(block, argumentEnd, iv) && p < |block|
    requires L.ReadsReg(VisitsOf(block)[p], iv.oldReg)
    ensures iv.start <= block[p].offset <= iv.end
    ensures forall q :: p <= q < |block| ==> CodeOf(block)[q].write != Some(iv.oldReg)
  {
    VisitsInOrder(block);
    L.RecordedReadIsCovered(VisitsOf(block), argumentEnd, iv.oldReg, p);
    forall q | p <= q < |block| ensures CodeOf(block)[q].write != Some(iv.oldReg) {
      VisitsSeeAccesses(block, q, iv.oldReg);
      if p < q && L.WritesReg(VisitsOf(block)[q], iv.oldReg) {
        ReadThenWriteTakesTwo(VisitsOf(block), argumentEnd, iv.oldReg, p, q);
      }
    }
  }

  /** Where another register is written, an interval opens only with the block. */
  lemma OpensUnwrittenAtEntry(block: seq<Decoded>, argumentEnd: nat, iv: RegLiveInterval, q: nat)
    requires OneBlock(block) && IsBuilt(block, argumentEnd, iv) && q < |block| && iv.start == block[q].offset
    requires CodeOf(block)[q].write.Some? && CodeOf(block)[q].write.value != iv.oldReg
    ensures q == 0
  {
    BuiltStart(block, argumentEnd, iv);
    assert 0 < q ==> StandsBefore(block, 0, q);
    if w :| 0 <= w < |block| && CodeOf(block)[w].write == Some(iv.oldReg) {
      OffsetsDiffer(block, w, q);
    }
  }

  /** A point interval opened by a write stands at offset 0. */
  lemma PointWriteIsAtZero(block: seq<Decoded>, argumentEnd: nat, iv: RegLiveInterval, q: nat)
    requires OneBlock(block) && IsBuilt(block, argumentEnd, iv) && Point(iv)
    requires q < |block| && CodeOf(block)[q].write == Some(iv.oldReg)
    ensures block[q].offset == 0
  {
    var visits, n, r := VisitsOf(block), |block|, iv.oldReg;
    BuiltStart(block, argumentEnd, iv);
    L.CurrentInterval(visits, n, argumentEnd, r);
    forall p | q < p < |block| ensures block[q].offset < block[p].offset {
      assert StandsBefore(block, q, p);
    }
    if p: nat :| L.LastRead(visits, n, r, p) && iv.end == visits[p].offset {
      RecordedReadIsInside(block, argumentEnd, iv, p);
    }
  }

  // ---------------------------------------------------------------- the whole way, for one block

  /** Instruction `q` writes another register between the value that `p` finds in `r` and `p`. */
  ghost predicate Intervenes(code: Code, p: nat, r: nat, q: nat)
    requires p <= |code|
  {
    q < p && code[q].write.Some? && code[q].write.value != r && !WrittenWithin(code, q + 1, p, r)
  }

  /** The builder records a read of the value that `r` has after `q`. */
  ghost predicate ReadAhead(block: seq<Decoded>, q: nat, r: nat)
    requires OneBlock(block)
  {
    exists t :: RecordedAhead(block, q, r, t)
  }

  ghost predicate RecordedAhead(block: seq<Decoded>, q: nat, r: nat, t: nat)
    requires OneBlock(block)
  {
    q < t < |block| && L.ReadsReg(VisitsOf(block)[t], r) && !WrittenWithin(CodeOf(block), q + 1, t, r)
  }

  /** What `p` reads in `r` is not safe from `q`: either the builder does not record this read, because
      `p` writes as well, and no later one of the same value; or `q` is the first instruction and what
      it writes is never read. */
  ghost predicate Unsafe(block: seq<Decoded>, p: nat, r: nat, q: nat)
    requires OneBlock(block)
  {
    && p < |block| && r in CodeOf(block)[p].uses && Intervenes(CodeOf(block), p, r, q)
    && ((CodeOf(block)[p].write.Some? && !ReadAhead(block, q, r))
        || (q == 0 && !ReadAhead(block, 0, CodeOf(block)[0].write.value)))
  }

  /** The interval of a register is open over `q` exactly when a read is recorded ahead. */
  lemma OpenIffReadAhead(block: seq<Decoded>, argumentEnd: nat, iv: RegLiveInterval, q: nat)
    requires OneBlock(block) && IsBuilt(block, argumentEnd, iv) && q < |block|
    ensures iv.start <= block[q].offset < iv.end <==> ReadAhead(block, q, iv.oldReg)
  {
    var visits, n, r := VisitsOf(block), |block|, iv.oldReg;
    BuiltStart(block, argumentEnd, iv);
    L.CurrentInterval(visits, n, argumentEnd, r);
    assert 0 < q ==> StandsBefore(block, 0, q);
    if iv.start <= block[q].offset < iv.end {
      var t: nat :| L.LastRead(visits, n, r, t) && iv.end == visits[t].offset;
      assert t < q ==> StandsBefore(block, t, q);
      forall w | q < w < t ensures CodeOf(block)[w].write != Some(r) {
        assert StandsBefore(block, q, w);
      }
      assert RecordedAhead(block, q, r, t);
    }
    if t: nat :| RecordedAhead(block, q, r, t) {
      RecordedReadIsInside(block, argumentEnd, iv, t);
      assert StandsBefore(block, q, t);
      if w :| 0 <= w < n && CodeOf(block)[w].write == Some(r) {
        assert w < q ==> StandsBefore(block, w, q);
      }
    }
  }

  /** Where a read of `r` is recorded ahead, only the first instruction can share its register, by a
      write that is never read. */
  lemma OpenIsSharedAtEntry(block: seq<Decoded>, argumentEnd: nat, sorted: seq<RegLiveInterval>,
                            ivs: seq<RegLiveInterval>, regs: nat, used: nat, p: nat, r: nat, q: nat)
    requires OneBlock(block) && BuiltOnce(block, argumentEnd, sorted, ivs) && Renames(ivs, regs, used)
    requires p < |block| && ClobberedBy(ivs, CodeOf(block), p, r, q) && ReadAhead(block, q, r)
    ensures q == 0 && !ReadAhead(block, 0, CodeOf(block)[0].write.value)
  {
    var s := CodeOf(block)[q].write.value;
    var t: nat :| RecordedAhead(block, q, r, t);
    var k := MentionedIsBuilt(block, argumentEnd, sorted, ivs, r, t);
    VisitsSeeAccesses(block, q, s);
    var l := MentionedIsBuilt(block, argumentEnd, sorted, ivs, s, q);
    OpenIffReadAhead(block, argumentEnd, ivs[k], q);
    OpenIffReadAhead(block, argumentEnd, ivs[l], q);
    BuiltStart(block, argumentEnd, ivs[l]);
    RenamesTo(ivs, k);
    RenamesTo(ivs, l);
    assert 0 < q ==> StandsBefore(block, 0, q);
    if Point(ivs[l]) {
      PointWriteIsAtZero(block, argumentEnd, ivs[l], q);
    } else {
      SharingMeansDead(ivs, k, l);
      OpensUnwrittenAtEntry(block, argumentEnd, ivs[k], q);
    }
  }

  /** A clobbered read was not safe. */
  lemma ClobberedIsUnsafe(block: seq<Decoded>, argumentEnd: nat, sorted: seq<RegLiveInterval>,
                          ivs: seq<RegLiveInterval>, regs: nat, used: nat, p: nat, r: nat, q: nat)
    requires OneBlock(block) && BuiltOnce(block, argumentEnd, sorted, ivs) && Renames(ivs, regs, used)
    requires p < |block| && r in CodeOf(block)[p].uses && ClobberedBy(ivs, CodeOf(block), p, r, q)
    ensures Unsafe(block, p, r, q)
  {
    if CodeOf(block)[p].write.None? {
      VisitsSeeAccesses(block, p, r);
      assert RecordedAhead(block, q, r, p);
    }
    if ReadAhead(block, q, r) {
      OpenIsSharedAtEntry(block, argumentEnd, sorted, ivs, regs, used, p, r, q);
    }
  }

  /** Meaning is lost exactly where an unsafe read shares its register with the write in between. */
  lemma LosesMeaningIffShared(block: seq<Decoded>, argumentEnd: nat, sorted: seq<RegLiveInterval>,
                              ivs: seq<RegLiveInterval>, regs: nat, used: nat)
    requires OneBlock(block) && BuiltOnce(block, argumentEnd, sorted, ivs) && Renames(ivs, regs, used)
    requires WithinFile(CodeOf(block), regs)
    ensures KeepsBound(ivs, regs)
    ensures NoneClobbered(ivs, CodeOf(block), iset{}) <==> forall p: nat, r: nat, q: nat :: Unsafe(block, p, r, q) ==>
      RenameInSequence(ivs, r) != RenameInSequence(ivs, CodeOf(block)[q].write.value)
    ensures MeaningPreserved(ivs, CodeOf(block), iset{}, regs) <==> NoneClobbered(ivs, CodeOf(block), iset{})
    ensures MeaningKeptInPlace(ivs, CodeOf(block), iset{}, regs) <==>
      && NoneClobbered(ivs, CodeOf(block), iset{})
      && forall r :: r in Incoming(CodeOf(block), iset{}) ==> RenameInSequence(ivs, r) == r
  {
    var code := CodeOf(block);
    RenamingKeepsBound(ivs, regs, used);
    RenamingPreservesMeaningIff(ivs, code, iset{}, regs);
    RenamingInPlacePreservesMeaningIff(ivs, code, iset{}, regs);
    forall p: nat, r: nat, q: nat | NoneClobbered(ivs, code, iset{}) && Unsafe(block, p, r, q)
      ensures RenameInSequence(ivs, r) != RenameInSequence(ivs, code[q].write.value)
    {
      assert Demanded(code, iset{}, p, r) && !ClobberedBy(ivs, code, p, r, q);
    }
    if p: nat, r: nat :| Demanded(code, iset{}, p, r) && Clobbered(ivs, code, p, r) {
      var q: nat :| ClobberedBy(ivs, code, p, r, q);
      ClobberedIsUnsafe(block, argumentEnd, sorted, ivs, regs, used, p, r, q);
    }
  }

  /** Without unsafe reads a function of one block keeps its meaning through builder, allocator and
      rewriter, whatever registers are handed out. */
  lemma SafeBlockKeepsMeaning(block: seq<Decoded>, argumentEnd: nat, sorted: seq<RegLiveInterval>,
                              ivs: seq<RegLiveInterval>, regs: nat, used: nat)
    requires OneBlock(block) && BuiltOnce(block, argumentEnd, sorted, ivs) && Renames(ivs, regs, used)
    requires WithinFile(CodeOf(block), regs)
    requires forall p: nat, r: nat, q: nat :: !Unsafe(block, p, r, q)
    ensures KeepsBound(ivs, regs) && MeaningPreserved(ivs, CodeOf(block), iset{}, regs)
  {
    LosesMeaningIffShared(block, argumentEnd, sorted, ivs, regs, used);
  }

  /** The number that starts and ends determine for `r`, before any interval is mapped. */
  ghost function NumberOf(sorted: seq<RegLiveInterval>, r: nat): nat {
    if HasInterval(sorted, r) then RegisterOf(sorted, IntervalOf(sorted, r)) else r
  }

  ghost function IntervalOf(sorted: seq<RegLiveInterval>, r: nat): (k: nat)
    requires HasInterval(sorted, r)
    ensures k < |sorted| && sorted[k].oldReg == r && !Point(sorted[k])
  {
    var k :| 0 <= k < |sorted| && sorted[k].oldReg == r && !Point(sorted[k]); k
  }

  lemma RenamedByLifetime(sorted: seq<RegLiveInterval>, ivs: seq<RegLiveInterval>, regs: nat, used: nat, r: nat)
    requires Renames(ivs, regs, used) && SameLifetimes(ivs, sorted) && LifetimesDiffer(sorted)
    ensures RenameInSequence(ivs, r) == NumberOf(sorted, r)
  {
    if HasInterval(sorted, r) {
      var k := IntervalOf(sorted, r);
      MappingFollowsLifetimes(sorted, ivs, regs, |ivs|, used, k);
      RenamesTo(ivs, k);
    } else {
      ChainFreeSequence(ivs, r, |ivs|);
      forall k | 0 <= k < |ivs| && ivs[k].oldReg == r ensures ivs[k].newReg == r {
        assert Point(sorted[k]);
      }
    }
  }

  /** What builder, allocator and rewriter do to a function of one block keeps its meaning, for all
      register files and all effects of its instructions, if and only if no unsafe read's register gets,
      by the starts and ends of the intervals, the same number as the register written in between. If
      the register file is not rearranged on entry, every register read from before must get its own
      number as well. */
  lemma OneBlockKeepsMeaningIff(block: seq<Decoded>, argumentEnd: nat, sorted: seq<RegLiveInterval>,
                                ivs: seq<RegLiveInterval>, regs: nat, used: nat)
    requires OneBlock(block) && BuiltOnce(block, argumentEnd, sorted, ivs) && Renames(ivs, regs, used)
    requires WithinFile(CodeOf(block), regs) && LifetimesDiffer(sorted)
    ensures KeepsBound(ivs, regs)
    ensures MeaningPreserved(ivs, CodeOf(block), iset{}, regs) <==> NumbersSeparate(block, sorted)
    ensures MeaningKeptInPlace(ivs, CodeOf(block), iset{}, regs) <==>
      NumbersSeparate(block, sorted) && forall r :: r in Incoming(CodeOf(block), iset{}) ==> NumberOf(sorted, r) == r
  {
    LosesMeaningIffShared(block, argumentEnd, sorted, ivs, regs, used);
    forall r: nat ensures RenameInSequence(ivs, r) == NumberOf(sorted, r) {
      RenamedByLifetime(sorted, ivs, regs, used, r);
    }
  }

  ghost predicate NumbersSeparate(block: seq<Decoded>, sorted: seq<RegLiveInterval>)
    requires OneBlock(block)
  {
    forall p: nat, r: nat, q: nat :: Unsafe(block, p, r, q) ==>
      NumberOf(sorted, r) != NumberOf(sorted, CodeOf(block)[q].write.value)
  }

  // ---------------------------------------------------------------- the passes in a row, for one block

  ghost predicate IsDecoded(d: Decoded, ins: Ins)
    reads ins
  {
    && d.offset == ins.offset && d.hasReadReg == ins.hasReadReg && d.hasWriteReg == ins.hasWriteReg
    && d.operands.readRegs == ins.readRegs && d.operands.writeReg == ins.writeReg
    && d.operands.literals == ins.literals
  }

  /** `block` lists what the instructions hold. */
  ghost predicate Lists(insns: seq<Ins>, block: seq<Decoded>)
    reads insns
  {
    |block| == |insns| && forall p :: 0 <= p < |block| ==> IsDecoded(block[p], insns[p])
  }

  ghost predicate BelowBound(block: seq<Decoded>, b: Bounds) {
    b.argumentEnd <= b.registerEnd && forall p :: 0 <= p < |block| ==> OperandsBelow(block[p], b.registerEnd)
  }

  ghost predicate OperandsBelow(d: Decoded, regs: nat) {
    (forall r :: r in d.operands.readRegs ==> r < regs) && (d.hasWriteReg ==> d.operands.writeReg < regs)
  }

  ghost function RewrittenBlock(block: seq<Decoded>, ivs: seq<RegLiveInterval>, regs: nat, used: nat): seq<Decoded> {
    seq(|block|, p requires 0 <= p < |block| => Rewritten(block[p], ivs, regs, used))
  }

  lemma BuiltIsBelow(block: seq<Decoded>, b: Bounds, r: nat)
    requires BelowBound(block, b) && BuiltFor(block, b.argumentEnd, r) != []
    ensures r < b.registerEnd
  {
    if r >= b.registerEnd {
      var visits := VisitsOf(block);
      forall p | 0 <= p < |block| ensures !L.WritesReg(visits[p], r) && !L.ReadsReg(visits[p], r) {
        assert OperandsBelow(block[p], b.registerEnd);
      }
      UnmentionedHasNone(visits, |block|, b.argumentEnd, r);
    }
  }

  lemma AccessIsBelow(d: Decoded, regs: nat)
    requires DataListed(d) && OperandsBelow(d, regs)
    ensures AccessBelow(AccessOf(d), regs)
  {
    forall i | 0 <= i < |d.data| ensures AccessOf(d).uses[i] < regs {
      assert d.operands.readRegs[d.data[i]] in d.operands.readRegs;
    }
  }

  lemma BlockIsWithin(block: seq<Decoded>, b: Bounds)
    requires OneBlock(block) && BelowBound(block, b)
    ensures WithinFile(CodeOf(block), b.registerEnd)
  {
    forall p | 0 <= p < |block| ensures AccessBelow(AccessOf(block[p]), b.registerEnd) {
      assert OperandsBelow(block[p], b.registerEnd);
      AccessIsBelow(block[p], b.registerEnd);
    }
    assert forall p :: 0 <= p < |block| ==> AccessBelow(CodeOf(block)[p], b.registerEnd);
  }

  ghost predicate AccessBelow(a: Access, regs: nat) {
    (forall i :: 0 <= i < |a.uses| ==> a.uses[i] < regs) && (a.write.Some? ==> a.write.value < regs)
  }

  lemma AllocatedRenames(block: seq<Decoded>, b: Bounds, sorted: seq<RegLiveInterval>, ivs: seq<RegLiveInterval>,
                         count: nat, used: nat)
    requires BelowBound(block, b) && BuiltOnce(block, b.argumentEnd, sorted, ivs)
    requires Allocation(ivs, b.registerEnd, count, used) && used < b.registerEnd
    requires OneIntervalPerRegister(ivs) && ChainFree(ivs)
    ensures Renames(ivs, b.registerEnd, used)
  {
    forall k | 0 <= k < |ivs| ensures ivs[k].oldReg < b.registerEnd {
      EntryIsBuilt(block, b.argumentEnd, sorted, ivs, k);
      BuiltIsBelow(block, b, ivs[k].oldReg);
    }
  }

  /** What the pass makes of the block: with registers saved and a chain-free mapping, the rewritten
      operands are the renamed ones, a safe block keeps its meaning, and any block does, if lifetimes
      differ, exactly when the numbers separate. */
  ghost predicate KeepsMeaningAsTold(block: seq<Decoded>, sorted: seq<RegLiveInterval>, ivs: seq<RegLiveInterval>,
                                     regs: nat, used: nat)
    requires OneBlock(block) && WithinFile(CodeOf(block), regs) && KeepsBound(ivs, regs)
  {
    var block' := RewrittenBlock(block, ivs, regs, used);
    && (forall p :: 0 <= p < |block'| ==> DataListed(block'[p])) && CodeOf(block') == RenameCode(ivs, CodeOf(block))
    && ((forall p: nat, r: nat, q: nat :: !Unsafe(block, p, r, q)) ==>
          MeaningPreserved(ivs, CodeOf(block), iset{}, regs))
    && (LifetimesDiffer(sorted) ==>
          (MeaningPreserved(ivs, CodeOf(block), iset{}, regs) <==> NumbersSeparate(block, sorted)))
  }

  lemma PassKeepsMeaningAsTold(block: seq<Decoded>, b: Bounds, sorted: seq<RegLiveInterval>,
                               ivs: seq<RegLiveInterval>, used: nat)
    requires OneBlock(block) && BelowBound(block, b) && BuiltOnce(block, b.argumentEnd, sorted, ivs)
    requires Renames(ivs, b.registerEnd, used) && used < b.registerEnd
    ensures WithinFile(CodeOf(block), b.registerEnd) && KeepsBound(ivs, b.registerEnd)
    ensures KeepsMeaningAsTold(block, sorted, ivs, b.registerEnd, used)
  {
    var regs := b.registerEnd;
    BlockIsWithin(block, b);
    RenamingKeepsBound(ivs, regs, used);
    var block' := RewrittenBlock(block, ivs, regs, used);
    forall p | 0 <= p < |block|
      ensures DataListed(block'[p]) && AccessOf(block'[p]) == RenameAccess(ivs, AccessOf(block[p]))
    {
      RewrittenAccess(block[p], ivs, regs, used);
    }
    assert CodeOf(block') == RenameCode(ivs, CodeOf(block));
    LosesMeaningIffShared(block, b.argumentEnd, sorted, ivs, regs, used);
    if LifetimesDiffer(sorted) {
      OneBlockKeepsMeaningIff(block, b.argumentEnd, sorted, ivs, regs, used);
    }
  }

  /** The live ranges of a function of one block, between an empty start and an empty end block. */
  method BuildForOneBlock(bbs: seq<BasicBlock>, argumentEnd: nat, ghost block: seq<Decoded>)
    returns (ranges: L.LiveRangeMap)
    requires |bbs| == 3 && bbs[0].insns == [] && bbs[2].insns == [] && Lists(bbs[1].insns, block)
    ensures fresh(ranges) && ranges.Valid() && forall r: nat :: ranges.Of(r) == BuiltFor(block, argumentEnd, r)
  {
    ghost var visits, before;
    ranges, visits, before := L.BuildLiveRanges(bbs, argumentEnd);
    assert before[1] == 0 && before[2] == |visits|;
    forall k | 0 <= k < |visits| ensures visits[k] == VisitsOf(block)[k] {
      assert IsDecoded(block[k], bbs[1].insns[k]) && IsDecoded(block[0], bbs[1].insns[0]);
      assert visits[before[1] + k].offset == bbs[1].insns[k].offset;
    }
    assert visits == VisitsOf(block);
  }

  lemma GatheredIsBuilt(block: seq<Decoded>, argumentEnd: nat, sorted: seq<RegLiveInterval>,
                        ivs: seq<RegLiveInterval>)
    requires SameLifetimes(ivs, sorted) && forall x :: OccursAsBuilt(block, argumentEnd, sorted, x)
    requires forall r: nat :: BuiltAtMostOnce(block, argumentEnd, r)
    ensures BuiltOnce(block, argumentEnd, sorted, ivs) && OneIntervalPerRegister(ivs)
  {
    var of := (r: nat) => BuiltFor(block, argumentEnd, r);
    forall r: nat ensures |of(r)| <= 1 {
      assert BuiltAtMostOnce(block, argumentEnd, r);
    }
    forall x ensures multiset(sorted)[x] == Occurrences(of(x.oldReg), x) {
      assert OccursAsBuilt(block, argumentEnd, sorted, x);
    }
    GatheredAreDistinct(sorted, ivs, of);
  }

  lemma RewrittenIsDecoded(block: seq<Decoded>, ivs: seq<RegLiveInterval>, regs: nat, used: nat)
    ensures used >= regs ==> RewrittenBlock(block, ivs, regs, used) == block
  {
    if used >= regs {
      forall p | 0 <= p < |block| ensures Rewritten(block[p], ivs, regs, used) == block[p] {
        OutcomeOnFields(ivs, block[p].hasReadReg, block[p].hasWriteReg, regs, regs, used, block[p].operands);
      }
    }
  }

  /** The pass, on instructions that are listed as values. */
  method RunOnListed(pass: RegallocLinearScan, liveRanges: L.LiveRangeMap, insns: seq<Ins>, args: BytecodeArguments,
                     ghost block: seq<Decoded>)
    returns (ghost sorted: seq<RegLiveInterval>, ghost count: nat)
    requires liveRanges.Valid() && Distinct(insns) && Lists(insns, block)
    modifies pass, insns`readRegs, insns`writeReg, insns`literals, args
    ensures pass.regsCount == old(args.bounds).registerEnd
    ensures Lists(insns, RewrittenBlock(block, pass.intervals, pass.regsCount, pass.newRegsCount))
    ensures pass.newRegsCount >= pass.regsCount ==> Lists(insns, block) && args.bounds == old(args.bounds)
    ensures pass.newRegsCount < pass.regsCount ==>
      && (forall x :: multiset(sorted)[x] == Occurrences(old(liveRanges.Of(x.oldReg)), x))
      && SameLifetimes(pass.intervals, sorted)
      && Allocation(pass.intervals, pass.regsCount, count, pass.newRegsCount)
  {
    sorted, count := Run(pass, liveRanges, insns, args);
    forall p | 0 <= p < |block|
      ensures IsDecoded(Rewritten(block[p], pass.intervals, pass.regsCount, pass.newRegsCount), insns[p])
    {
      assert old(IsDecoded(block[p], insns[p])) && insns[p] in insns;
    }
    RewrittenIsDecoded(block, pass.intervals, pass.regsCount, pass.newRegsCount);
  }

  /** Builder, allocator and rewriter on a function of one block. */
  method CompressOneBlock(pass: RegallocLinearScan, bbs: seq<BasicBlock>, args: BytecodeArguments,
                          ghost block: seq<Decoded>)
    returns (ghost sorted: seq<RegLiveInterval>)
    requires |bbs| == 3 && bbs[0].insns == [] && bbs[2].insns == [] && Distinct(bbs[1].insns)
    requires Lists(bbs[1].insns, block) && OneBlock(block) && BelowBound(block, args.bounds)
    requires forall r: nat :: BuiltAtMostOnce(block, args.bounds.argumentEnd, r)
    modifies pass, bbs[1].insns`readRegs, bbs[1].insns`writeReg, bbs[1].insns`literals, args
    ensures pass.regsCount == old(args.bounds).registerEnd
    ensures Lists(bbs[1].insns, RewrittenBlock(block, pass.intervals, pass.regsCount, pass.newRegsCount))
    ensures pass.newRegsCount >= pass.regsCount ==> Lists(bbs[1].insns, block) && args.bounds == old(args.bounds)
    ensures pass.newRegsCount < pass.regsCount ==>
      BuiltOnce(block, old(args.bounds).argumentEnd, sorted, pass.intervals)
    ensures pass.newRegsCount < pass.regsCount && ChainFree(pass.intervals) ==>
      && WithinFile(CodeOf(block), pass.regsCount) && KeepsBound(pass.intervals, pass.regsCount)
      && KeepsMeaningAsTold(block, sorted, pass.intervals, pass.regsCount, pass.newRegsCount)
  {
    ghost var bounds := args.bounds;
    var ranges := BuildForOneBlock(bbs, args.bounds.argumentEnd, block);
    ghost var count;
    label Built:
    sorted, count := RunOnListed(pass, ranges, bbs[1].insns, args, block);
    if pass.newRegsCount < pass.regsCount {
      forall x ensures OccursAsBuilt(block, bounds.argumentEnd, sorted, x) {
        assert old@Built(ranges.Of(x.oldReg)) == BuiltFor(block, bounds.argumentEnd, x.oldReg);
      }
      GatheredIsBuilt(block, bounds.argumentEnd, sorted, pass.intervals);
      if ChainFree(pass.intervals) {
        AllocatedRenames(block, bounds, sorted, pass.intervals, count, pass.newRegsCount);
        PassKeepsMeaningAsTold(block, bounds, sorted, pass.intervals, pass.newRegsCount);
      }
    }
  }
}

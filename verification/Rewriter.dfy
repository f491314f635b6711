/** Rewriting the instructions in place after register allocation. */
module Rewriter {
  import opened Counting
  import opened IR
  import opened LinearScan
  import opened Literals
  import opened Renaming

  /** An instruction's operand fields, as values. */
  datatype Operands = Operands(readRegs: seq<nat>, writeReg: nat, literals: seq<Literal>)

  function OperandsOf(ins: Ins): Operands
    reads ins`readRegs, ins`writeReg, ins`literals
  {
    Operands(ins.readRegs, ins.writeReg, ins.literals)
  }

  function RenameRegs(ivs: seq<RegLiveInterval>, regs: seq<nat>): (r: seq<nat>)
    ensures |r| == |regs| && forall i :: 0 <= i < |regs| ==> r[i] == RenameInSequence(ivs, regs[i])
  {
    seq(|regs|, i requires 0 <= i < |regs| => RenameInSequence(ivs, regs[i]))
  }

  function RenameLiterals(ivs: seq<RegLiveInterval>, lits: seq<Literal>): (r: seq<Literal>)
    ensures |r| == |lits|
    ensures forall i :: 0 <= i < |lits| ==> r[i] == lits[i].(index := RenameInSequence(ivs, lits[i].index))
  {
    seq(|lits|, i requires 0 <= i < |lits| => lits[i].(index := RenameInSequence(ivs, lits[i].index)))
  }

  /** Reads and literals are renamed under READ_REG, the write under WRITE_REG. */
  function RenameOperands(ivs: seq<RegLiveInterval>, hasReadReg: bool, hasWriteReg: bool, o: Operands): Operands {
    Operands(if hasReadReg then RenameRegs(ivs, o.readRegs) else o.readRegs,
             if hasWriteReg then RenameInSequence(ivs, o.writeReg) else o.writeReg,
             if hasReadReg then RenameLiterals(ivs, o.literals) else o.literals)
  }

  /** Literals at or above the register bound move down. */
  function ShiftLiterals(lits: seq<Literal>, registerEnd: nat, offset: int): (r: seq<Literal>)
    ensures |r| == |lits|
    ensures forall i :: 0 <= i < |lits| ==>
      r[i] == if lits[i].index >= registerEnd then MoveIndex(lits[i], offset) else lits[i]
  {
    seq(|lits|, i requires 0 <= i < |lits| =>
      if lits[i].index >= registerEnd then MoveIndex(lits[i], offset) else lits[i])
  }

  function ShiftOperands(o: Operands, registerEnd: nat, offset: int): Operands {
    o.(literals := ShiftLiterals(o.literals, registerEnd, offset))
  }

  function Rewrite(ivs: seq<RegLiveInterval>, hasReadReg: bool, hasWriteReg: bool, registerEnd: nat, offset: int,
                   o: Operands): Operands {
    ShiftOperands(RenameOperands(ivs, hasReadReg, hasWriteReg, o), registerEnd, offset)
  }

  /** With registers saved operands are rewritten and the bounds move; otherwise nothing happens. */
  function Outcome(ivs: seq<RegLiveInterval>, hasReadReg: bool, hasWriteReg: bool, registerEnd: nat,
                   regs: nat, used: nat, o: Operands): Operands {
    if used < regs then Rewrite(ivs, hasReadReg, hasWriteReg, registerEnd, used - regs, o) else o
  }

  /** The outcome, field by field. With registers saved, reads and literals are renamed under the read flag, the
      write under the write flag, and a literal at or above the register bound moves; otherwise nothing changes. */
  lemma OutcomeOnFields(ivs: seq<RegLiveInterval>, hasReadReg: bool, hasWriteReg: bool, registerEnd: nat,
                        regs: nat, used: nat, o: Operands)
    ensures var o' := Outcome(ivs, hasReadReg, hasWriteReg, registerEnd, regs, used, o);
      && |o'.readRegs| == |o.readRegs| && |o'.literals| == |o.literals|
      && (forall i :: 0 <= i < |o.readRegs| ==>
        o'.readRegs[i] == if used < regs && hasReadReg then RenameInSequence(ivs, o.readRegs[i]) else o.readRegs[i])
      && o'.writeReg == (if used < regs && hasWriteReg then RenameInSequence(ivs, o.writeReg) else o.writeReg)
      && forall i :: 0 <= i < |o.literals| ==>
        o'.literals[i] == LiteralOutcome(ivs, hasReadReg, registerEnd, regs, used, o.literals[i])
    ensures used >= regs ==> Outcome(ivs, hasReadReg, hasWriteReg, registerEnd, regs, used, o) == o
  {
  }

  function LiteralOutcome(ivs: seq<RegLiveInterval>, hasReadReg: bool, registerEnd: nat, regs: nat, used: nat,
                          lit: Literal): Literal {
    if used >= regs then lit
    else
      var r := if hasReadReg then RenameInSequence(ivs, lit.index) else lit.index;
      Literal(lit.kind, if r >= registerEnd then (r + used - regs) % 0x1_0000 else r)
  }

  function OutcomeBounds(regs: nat, used: nat, b: Bounds): Bounds {
    if used < regs then MoveBounds(b, used - regs) else b
  }

  /** The bounds, one by one: with registers saved all but that of the arguments move, by as many as are saved. */
  lemma BoundsOnFields(regs: nat, used: nat, b: Bounds)
    ensures var b', saved := OutcomeBounds(regs, used, b), if used < regs then regs - used else 0;
      && b'.argumentEnd == b.argumentEnd
      && (used >= regs ==> b' == b)
      && (Ordered(b) && saved <= b.registerEnd ==>
            && b'.registerEnd == b.registerEnd - saved && b'.identEnd == b.identEnd - saved
            && b'.constLiteralEnd == b.constLiteralEnd - saved && b'.literalEnd == b.literalEnd - saved)
  {
  }

  // ---------------------------------------------------------------- in place

  lemma SingleInterval(iv: RegLiveInterval)
    ensures forall r: nat :: RenameInSequence([iv], r) == RenameOne(iv, r)
  {
    forall r: nat ensures RenameInSequence([iv], r) == RenameOne(iv, r) {
      assert [iv][..0] == [] && RenameInSequence([], r) == r;
    }
  }

  /** One more interval after the first `k`. */
  lemma RenameOperandsStep(ivs: seq<RegLiveInterval>, k: nat, hasReadReg: bool, hasWriteReg: bool, o: Operands)
    requires k < |ivs|
    ensures RenameOperands([ivs[k]], hasReadReg, hasWriteReg, RenameOperands(ivs[..k], hasReadReg, hasWriteReg, o))
      == RenameOperands(ivs[..k + 1], hasReadReg, hasWriteReg, o)
  {
    forall r: nat ensures RenameInSequence([ivs[k]], RenameInSequence(ivs[..k], r))
      == RenameInSequence(ivs[..k + 1], r) {
      SingleInterval(ivs[k]);
      RenameStep(ivs, r, k);
    }
    assert RenameRegs([ivs[k]], RenameRegs(ivs[..k], o.readRegs)) == RenameRegs(ivs[..k + 1], o.readRegs);
    assert RenameLiterals([ivs[k]], RenameLiterals(ivs[..k], o.literals)) == RenameLiterals(ivs[..k + 1], o.literals);
  }

  lemma NoIntervalsRenameNothing(hasReadReg: bool, hasWriteReg: bool, o: Operands)
    ensures RenameOperands([], hasReadReg, hasWriteReg, o) == o
  {
    assert RenameRegs([], o.readRegs) == o.readRegs;
    assert RenameLiterals([], o.literals) == o.literals;
  }

  /** Rename one interval's register in one instruction. */
  method RenameInInstruction(ins: Ins, iv: RegLiveInterval)
    modifies ins`readRegs, ins`writeReg, ins`literals
    ensures OperandsOf(ins) == RenameOperands([iv], ins.hasReadReg, ins.hasWriteReg, old(OperandsOf(ins)))
  {
    SingleInterval(iv);
    if ins.hasReadReg {
      var i := 0;
      while i < |ins.readRegs|
        invariant 0 <= i <= |ins.readRegs| == |old(ins.readRegs)|
        invariant forall j :: 0 <= j < i ==> ins.readRegs[j] == RenameOne(iv, old(ins.readRegs)[j])
        invariant forall j :: i <= j < |ins.readRegs| ==> ins.readRegs[j] == old(ins.readRegs)[j]
        invariant ins.writeReg == old(ins.writeReg) && ins.literals == old(ins.literals)
      {
        if iv.oldReg == ins.readRegs[i] {
          ins.readRegs := ins.readRegs[i := iv.newReg];
        }
        i := i + 1;
      }
      i := 0;
      while i < |ins.literals|
        invariant 0 <= i <= |ins.literals| == |old(ins.literals)|
        invariant forall j :: 0 <= j < i ==>
          ins.literals[j] == old(ins.literals)[j].(index := RenameOne(iv, old(ins.literals)[j].index))
        invariant forall j :: i <= j < |ins.literals| ==> ins.literals[j] == old(ins.literals)[j]
        invariant ins.writeReg == old(ins.writeReg)
        invariant ins.readRegs == RenameRegs([iv], old(ins.readRegs))
      {
        if ins.literals[i].index == iv.oldReg {
          ins.literals := ins.literals[i := ins.literals[i].(index := iv.newReg)];
        }
        i := i + 1;
      }
      assert ins.literals == RenameLiterals([iv], old(ins.literals));
    }
    if ins.hasWriteReg && iv.oldReg == ins.writeReg {
      ins.writeReg := iv.newReg;
    }
  }

  /** Rename one interval's register in every instruction. */
  method RenameEverywhere(insns: seq<Ins>, iv: RegLiveInterval)
    requires Distinct(insns)
    modifies insns`readRegs, insns`writeReg, insns`literals
    ensures forall ins :: ins in insns ==>
      OperandsOf(ins) == RenameOperands([iv], ins.hasReadReg, ins.hasWriteReg, old(OperandsOf(ins)))
  {
    var n := 0;
    while n < |insns|
      invariant 0 <= n <= |insns|
      invariant forall m :: 0 <= m < n ==>
        OperandsOf(insns[m])
          == RenameOperands([iv], insns[m].hasReadReg, insns[m].hasWriteReg, old(OperandsOf(insns[m])))
      invariant forall m :: n <= m < |insns| ==> OperandsOf(insns[m]) == old(OperandsOf(insns[m]))
    {
      RenameInInstruction(insns[n], iv);
      n := n + 1;
    }
  }

  /** Move the literals of one instruction that lie at or above the register bound. */
  method ShiftInInstruction(ins: Ins, registerEnd: nat, offset: int)
    modifies ins`literals
    ensures ins.literals == ShiftLiterals(old(ins.literals), registerEnd, offset)
  {
    var i := 0;
    while i < |ins.literals|
      invariant 0 <= i <= |ins.literals| == |old(ins.literals)|
      invariant forall j :: 0 <= j < i ==> ins.literals[j] == ShiftLiterals(old(ins.literals), registerEnd, offset)[j]
      invariant forall j :: i <= j < |ins.literals| ==> ins.literals[j] == old(ins.literals)[j]
    {
      if ins.literals[i].index >= registerEnd {
        ins.literals := ins.literals[i := MoveIndex(ins.literals[i], offset)];
      }
      i := i + 1;
    }
  }

  method ShiftEverywhere(insns: seq<Ins>, registerEnd: nat, offset: int)
    requires Distinct(insns)
    modifies insns`literals
    ensures forall ins :: ins in insns ==> OperandsOf(ins) == ShiftOperands(old(OperandsOf(ins)), registerEnd, offset)
  {
    var n := 0;
    while n < |insns|
      invariant 0 <= n <= |insns|
      invariant forall m :: 0 <= m < n ==>
        OperandsOf(insns[m]) == ShiftOperands(old(OperandsOf(insns[m])), registerEnd, offset)
      invariant forall m :: n <= m < |insns| ==> OperandsOf(insns[m]) == old(OperandsOf(insns[m]))
    {
      ShiftInInstruction(insns[n], registerEnd, offset);
      n := n + 1;
    }
  }

  /** Rename every operand interval by interval, then close the gap below the other literals and
      lower the bounds; nothing happens when no register is saved. */
  method UpdateInstructions(intervals: seq<RegLiveInterval>, regsCount: nat, newRegsCount: nat,
                            insns: seq<Ins>, args: BytecodeArguments)
    requires Distinct(insns)
    modifies insns`readRegs, insns`writeReg, insns`literals, args
    ensures args.bounds == OutcomeBounds(regsCount, newRegsCount, old(args.bounds))
    ensures forall ins :: ins in insns ==>
      Operands(ins.readRegs, ins.writeReg, ins.literals)
        == Outcome(intervals, ins.hasReadReg, ins.hasWriteReg, old(args.bounds).registerEnd, regsCount, newRegsCount,
                   Operands(old(ins.readRegs), old(ins.writeReg), old(ins.literals)))
    ensures newRegsCount >= regsCount ==> args.bounds == old(args.bounds) && forall ins :: ins in insns ==>
      ins.readRegs == old(ins.readRegs) && ins.writeReg == old(ins.writeReg) && ins.literals == old(ins.literals)
  {
    if newRegsCount >= regsCount {
      return;
    }
    var offset := newRegsCount - regsCount;
    var k := 0;
    forall ins | ins in insns
      ensures OperandsOf(ins) == RenameOperands([], ins.hasReadReg, ins.hasWriteReg, OperandsOf(ins)) {
      NoIntervalsRenameNothing(ins.hasReadReg, ins.hasWriteReg, OperandsOf(ins));
    }
    assert intervals[..0] == [];
    while k < |intervals|
      invariant 0 <= k <= |intervals| && args.bounds == old(args.bounds)
      invariant forall ins :: ins in insns ==>
        OperandsOf(ins) == RenameOperands(intervals[..k], ins.hasReadReg, ins.hasWriteReg, old(OperandsOf(ins)))
    {
      RenameEverywhere(insns, intervals[k]);
      forall ins | ins in insns
        ensures OperandsOf(ins)
          == RenameOperands(intervals[..k + 1], ins.hasReadReg, ins.hasWriteReg, old(OperandsOf(ins)))
      {
        RenameOperandsStep(intervals, k, ins.hasReadReg, ins.hasWriteReg, old(OperandsOf(ins)));
      }
      k := k + 1;
    }
    assert intervals[..k] == intervals;
    ShiftEverywhere(insns, args.bounds.registerEnd, offset);
    args.MoveRegIndex(offset);
  }

  // ---------------------------------------------------------------- what the rewriting means

  /** The renaming the rewriter performs when registers are saved. */
  ghost predicate SavesRegisters(ivs: seq<RegLiveInterval>, regs: nat, used: nat) {
    && used < regs
    && Allocation(ivs, regs, |ivs|, used)
    && OneIntervalPerRegister(ivs)
    && ChainFree(ivs)
    && forall k :: 0 <= k < |ivs| ==> ivs[k].oldReg < regs
  }

  /** A register operand lies below the new bound exactly when its interval was allocated or its
      number was low enough to begin with: point intervals keep their old number. */
  lemma RenamedRegisterIsBelowIff(ivs: seq<RegLiveInterval>, regs: nat, used: nat, r: nat)
    requires SavesRegisters(ivs, regs, used)
    ensures RenameInSequence(ivs, r) < used <==> HasInterval(ivs, r) || r < used
  {
    ChainFreeSequence(ivs, r, |ivs|);
  }

  /** Register 2 has a point interval only, so that no register is needed at all. Its operands still
      say 2 after the bound has dropped to 0. */
  lemma PointIntervalEscapes()
    ensures var ivs := [RegLiveInterval(2, 2, 5, 5)];
      SavesRegisters(ivs, 3, 0) && RenameInSequence(ivs, 2) == 2 && !Covered(ivs, 0, 2)
  {
    var ivs := [RegLiveInterval(2, 2, 5, 5)];
    var none: seq<nat> := [];
    assert Clique(ivs, none) && |none| == 0;
    FewHaveRoom(ivs, 3);
    RenamedRegisterIsBelowIff(ivs, 3, 0, 2);
  }

  lemma OtherLiteralsAreNotRenamed(ivs: seq<RegLiveInterval>, regs: nat, used: nat, r: nat)
    requires SavesRegisters(ivs, regs, used) && r >= regs
    ensures RenameInSequence(ivs, r) == r
  {
    ChainFreeSequence(ivs, r, |ivs|);
  }

  lemma RenamedRegisterStaysRegister(ivs: seq<RegLiveInterval>, regs: nat, used: nat, r: nat)
    requires SavesRegisters(ivs, regs, used) && r < regs
    ensures RenameInSequence(ivs, r) < regs
  {
    ChainFreeSequence(ivs, r, |ivs|);
  }

  /** A register operand that the new bound still covers. */
  ghost predicate Covered(ivs: seq<RegLiveInterval>, used: nat, r: nat) {
    HasInterval(ivs, r) || r < used
  }

  /** The read flag is set if there are register literals, as the decoder has it. */
  ghost predicate Flagged(o: Operands, hasReadReg: bool, regs: nat) {
    hasReadReg || forall i :: 0 <= i < |o.literals| ==> o.literals[i].index >= regs
  }

  /** Rewriting one literal: a register literal is renamed, any other one moves with the bounds. */
  lemma RewrittenLiteral(ivs: seq<RegLiveInterval>, hasReadReg: bool, hasWriteReg: bool, regs: nat, used: nat,
                         b: Bounds,
                         o: Operands, i: nat)
    requires SavesRegisters(ivs, regs, used) && Ordered(b) && b.registerEnd == regs && Flagged(o, hasReadReg, regs)
    requires i < |o.literals| && o.literals[i].index < b.literalEnd
    ensures var lit' := Rewrite(ivs, hasReadReg, hasWriteReg, regs, used - regs, o).literals[i];
      if o.literals[i].index < regs
      then lit'.index == RenameInSequence(ivs, o.literals[i].index)
      else lit' == MoveIndex(o.literals[i], used - regs) && lit'.index >= used
  {
    var r := o.literals[i].index;
    if r < regs {
      RenamedRegisterStaysRegister(ivs, regs, used, r);
    } else {
      OtherLiteralsAreNotRenamed(ivs, regs, used, r);
    }
  }

  /** After rewriting, an instruction's literals are registers under the new bound exactly where
      they were under the old one, if and only if all its register literals are covered. */
  lemma RewriteKeepsRegisterLiteralsIff(ivs: seq<RegLiveInterval>, hasReadReg: bool, hasWriteReg: bool, regs: nat,
                                        used: nat,
                                        b: Bounds, o: Operands)
    requires SavesRegisters(ivs, regs, used) && Ordered(b) && b.registerEnd == regs && Flagged(o, hasReadReg, regs)
    requires forall i :: 0 <= i < |o.literals| ==> o.literals[i].index < b.literalEnd
    ensures var o' := Rewrite(ivs, hasReadReg, hasWriteReg, regs, used - regs, o);
      (forall i :: 0 <= i < |o.literals| ==> (o'.literals[i].index < used <==> o.literals[i].index < regs))
      <==> forall r :: r in RegisterLiterals(o.literals, regs) ==> Covered(ivs, used, r)
  {
    var o' := Rewrite(ivs, hasReadReg, hasWriteReg, regs, used - regs, o);
    forall i | 0 <= i < |o.literals|
      ensures (o'.literals[i].index < used <==> o.literals[i].index < regs) <==>
              (o.literals[i].index < regs ==> Covered(ivs, used, o.literals[i].index))
    {
      RewrittenLiteral(ivs, hasReadReg, hasWriteReg, regs, used, b, o, i);
      RenamedRegisterIsBelowIff(ivs, regs, used, o.literals[i].index);
    }
    forall i | 0 <= i < |o.literals| && o.literals[i].index < regs
      ensures o.literals[i].index in RegisterLiterals(o.literals, regs)
    {
      assert o.literals[i] in o.literals;
    }
  }

  /** With all registers covered, the registers listed as read are again exactly the register
      literals, this time under the new bound. */
  lemma RewriteKeepsReadsMatching(ivs: seq<RegLiveInterval>, hasReadReg: bool, hasWriteReg: bool, regs: nat, used: nat,
                                  b: Bounds, o: Operands)
    requires SavesRegisters(ivs, regs, used) && Ordered(b) && b.registerEnd == regs
    requires forall i :: 0 <= i < |o.literals| ==> o.literals[i].index < b.literalEnd
    requires ReadsMatch(o.readRegs, o.literals, hasReadReg, regs)
    requires forall r :: r in o.readRegs ==> Covered(ivs, used, r)
    ensures var o' := Rewrite(ivs, hasReadReg, hasWriteReg, regs, used - regs, o);
      ReadsMatch(o'.readRegs, o'.literals, hasReadReg, used)
  {
    var o' := Rewrite(ivs, hasReadReg, hasWriteReg, regs, used - regs, o);
    var was, now := RegisterLiterals(o.literals, regs), RegisterLiterals(o'.literals, used);
    assert forall r :: r in was <==> r in (set x | x in o.readRegs);
    FlaggedIfMatching(o, hasReadReg, regs);
    RewriteKeepsRegisterLiteralsIff(ivs, hasReadReg, hasWriteReg, regs, used, b, o);
    forall x | x in o'.readRegs ensures x in now {
      var i :| 0 <= i < |o'.readRegs| && o'.readRegs[i] == x;
      assert o.readRegs[i] in was;
      var l :| l in o.literals && l.index < regs && l.index == o.readRegs[i];
      var j :| 0 <= j < |o.literals| && o.literals[j] == l;
      RewrittenLiteral(ivs, hasReadReg, hasWriteReg, regs, used, b, o, j);
      assert o'.literals[j] in o'.literals;
    }
    forall x | x in now ensures x in o'.readRegs {
      var l' :| l' in o'.literals && l'.index < used && l'.index == x;
      var j :| 0 <= j < |o'.literals| && o'.literals[j] == l';
      RewrittenLiteral(ivs, hasReadReg, hasWriteReg, regs, used, b, o, j);
      assert o.literals[j] in o.literals && o.literals[j].index in was;
      var i :| 0 <= i < |o.readRegs| && o.readRegs[i] == o.literals[j].index;
      assert o'.readRegs[i] == x;
    }
  }

  lemma FlaggedIfMatching(o: Operands, hasReadReg: bool, regs: nat)
    requires ReadsMatch(o.readRegs, o.literals, hasReadReg, regs)
    ensures Flagged(o, hasReadReg, regs)
  {
    if i :| 0 <= i < |o.literals| && o.literals[i].index < regs {
      assert o.literals[i] in o.literals && o.literals[i].index in RegisterLiterals(o.literals, regs);
      assert o.literals[i].index in (set r | r in o.readRegs);
    }
  }
}

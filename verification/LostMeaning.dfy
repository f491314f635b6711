/** Functions of one block that lose their meaning between the interval builder and the rewriter. */
module LostMeaning {
  import opened AllocatedBlocks
  import opened IR
  import opened LinearScan
  import opened Literals
  import opened RegisterCompression
  import opened Renaming
  import opened Rewriter
  import opened Runs
  import opened Wrappers
  import L = LiveRanges

  /** The block, with the builder's intervals and the registers they were given. */
  ghost predicate Chain(block: seq<Decoded>, argumentEnd: nat, sorted: seq<RegLiveInterval>, ivs: seq<RegLiveInterval>,
                        regs: nat, used: nat) {
    && OneBlock(block) && BuiltOnce(block, argumentEnd, sorted, ivs) && Renames(ivs, regs, used)
    && WithinFile(CodeOf(block), regs) && KeepsBound(ivs, regs)
    && forall p :: 0 <= p < |block| ==> ReadsAsDecoded(block[p], regs)
  }

  /** The registers listed as read are those of the literals. */
  ghost predicate ReadsAsDecoded(d: Decoded, regs: nat) {
    ReadsMatch(d.operands.readRegs, d.operands.literals, d.hasReadReg, regs)
  }

  function Nothing(offset: nat): Decoded {
    Decoded(offset, false, false, Operands([], 0, []), [])
  }

  function Write(offset: nat, r: nat): Decoded {
    Decoded(offset, true, true, Operands([r], r, [Literal(Register, r)]), [])
  }

  function Read(offset: nat, r: nat, kind: LiteralType): Decoded {
    Decoded(offset, true, false, Operands([r], 0, [Literal(kind, r)]), [0])
  }

  /** It reads `a` and `b` and writes `r`. */
  function Combine(offset: nat, a: nat, b: nat, r: nat): Decoded {
    Decoded(offset, true, true,
            Operands([a, b, r], r, [Literal(Register, a), Literal(Register, b), Literal(Register, r)]), [0, 1])
  }

  lemma AccessesOfInstructions(offset: nat, a: nat, b: nat, r: nat, kind: LiteralType)
    ensures DataListed(Read(offset, r, kind)) && AccessOf(Read(offset, r, kind)) == Access(offset, [r], None)
    ensures AccessOf(Nothing(offset)) == Access(offset, [], None)
    ensures AccessOf(Write(offset, r)) == Access(offset, [], Some(r))
    ensures DataListed(Combine(offset, a, b, r))
    ensures AccessOf(Combine(offset, a, b, r)) == Access(offset, [a, b], Some(r))
  {
    assert AccessOf(Read(offset, r, kind)).uses == [r] && AccessOf(Combine(offset, a, b, r)).uses == [a, b];
  }

  lemma InstructionsAreDecoded(offset: nat, a: nat, b: nat, r: nat, kind: LiteralType, regs: nat)
    requires a < regs && b < regs && r < regs
    ensures ReadsAsDecoded(Nothing(offset), regs) && ReadsAsDecoded(Write(offset, r), regs)
    ensures ReadsAsDecoded(Read(offset, r, kind), regs) && ReadsAsDecoded(Combine(offset, a, b, r), regs)
  {
    var one, three := [Literal(kind, r)], [Literal(Register, a), Literal(Register, b), Literal(Register, r)];
    assert RegisterLiterals([Literal(Register, r)], regs) == {r} == (set x | x in [r]);
    assert one[0] in one && RegisterLiterals(one, regs) == {r};
    assert three[0] in three && three[1] in three && three[2] in three;
    assert RegisterLiterals(three, regs) == {a, b, r} == (set x | x in [a, b, r]);
  }

  /** Registers 0 and 1 are written at offsets 2 and 4, and both are read by the last instruction, which
      writes register 2. */
  function MissedReadBlock(): seq<Decoded> {
    [Nothing(0), Write(2, 0), Write(4, 1), Combine(6, 0, 1, 2)]
  }

  /** Their intervals look dead, and all three are given register 0. */
  function MissedReadIntervals(): seq<RegLiveInterval> {
    [RegLiveInterval(0, 0, 2, 0), RegLiveInterval(1, 0, 4, 0), RegLiveInterval(2, 0, 6, 0)]
  }

  lemma MissedReadIsAllocated()
    ensures Renames(MissedReadIntervals(), 3, 1)
    ensures RenameInSequence(MissedReadIntervals(), 0) == 0 == RenameInSequence(MissedReadIntervals(), 1)
  {
    DeadWritesAreAllocated(MissedReadIntervals());
  }

  lemma DeadWritesAreAllocated(ivs: seq<RegLiveInterval>)
    requires ivs == [RegLiveInterval(0, 0, 2, 0), RegLiveInterval(1, 0, 4, 0), RegLiveInterval(2, 0, 6, 0)]
    ensures Renames(ivs, 3, 1)
    ensures RenameInSequence(ivs, 0) == 0 == RenameInSequence(ivs, 1)
  {
    assert Holds(ivs, 3, 0, 0);
    assert Clique(ivs, [0]) && |[0]| == 1;
    assert TakesFrom(ivs, 0, 1) && TakesFrom(ivs, 1, 2);
    FewHaveRoom(ivs, 3);
    RenamesTo(ivs, 0);
    RenamesTo(ivs, 1);
  }

  lemma MissedReadIsBuilt(r: nat)
    ensures BuiltFor(MissedReadBlock(), 0, r) == if r <= 2 then [L.Interval(2 * r + 2, 0)] else []
  {
    var v := VisitsOf(MissedReadBlock());
    assert L.Ranges(v, 0, 0, r) == [] && L.Ranges(v, 1, 0, r) == [];
    assert L.Ranges(v, 2, 0, r) == if r == 0 then [L.Interval(2, 0)] else [];
    assert L.Ranges(v, 3, 0, r) == if r <= 1 then [L.Interval(2 * r + 2, 0)] else [];
  }

  lemma CountOfThree(a: RegLiveInterval, b: RegLiveInterval, c: RegLiveInterval, x: RegLiveInterval)
    requires a != b && b != c && a != c
    ensures multiset([a, b, c])[x] == if x == a || x == b || x == c then 1 else 0
  {
    assert [a, b, c] == [a, b] + [c] && [a, b] == [a] + [b];
  }

  lemma CountOfOne(iv: L.Interval, x: L.Interval)
    ensures multiset([iv])[x] == if x == iv then 1 else 0
  {
  }

  lemma MissedReadOccurs(sorted: seq<RegLiveInterval>, x: RegLiveInterval)
    requires sorted == [RegLiveInterval(0, 0, 2, 0), RegLiveInterval(1, 1, 4, 0), RegLiveInterval(2, 2, 6, 0)]
    ensures OccursAsBuilt(MissedReadBlock(), 0, sorted, x)
  {
    CountOfThree(sorted[0], sorted[1], sorted[2], x);
    MissedReadIsBuilt(x.oldReg);
    CountOfOne(L.Interval(2 * x.oldReg + 2, 0), L.Interval(x.start, x.end));
  }

  lemma MissedReadBuildsOne(r: nat)
    ensures BuiltAtMostOnce(MissedReadBlock(), 0, r)
  {
    MissedReadIsBuilt(r);
  }

  lemma MissedReadIsGathered(sorted: seq<RegLiveInterval>)
    requires sorted == [RegLiveInterval(0, 0, 2, 0), RegLiveInterval(1, 1, 4, 0), RegLiveInterval(2, 2, 6, 0)]
    ensures BuiltOnce(MissedReadBlock(), 0, sorted, MissedReadIntervals())
  {
    forall x ensures OccursAsBuilt(MissedReadBlock(), 0, sorted, x) {
      MissedReadOccurs(sorted, x);
    }
    forall r: nat ensures BuiltAtMostOnce(MissedReadBlock(), 0, r) {
      MissedReadBuildsOne(r);
    }
  }

  lemma MissedReadCode()
    ensures OneBlock(MissedReadBlock())
    ensures WithinFile(CodeOf(MissedReadBlock()), 3)
    ensures CodeOf(MissedReadBlock())
      == [Access(0, [], None), Access(2, [], Some(0)), Access(4, [], Some(1)), Access(6, [0, 1], Some(2))]
  {
    AccessesOfInstructions(0, 0, 0, 0, Register);
    AccessesOfInstructions(2, 0, 0, 0, Register);
    AccessesOfInstructions(4, 0, 0, 1, Register);
    AccessesOfInstructions(6, 0, 1, 2, Register);
  }

  lemma MissedReadIsDecoded()
    ensures OneBlock(MissedReadBlock()) && WithinFile(CodeOf(MissedReadBlock()), 3)
    ensures forall p :: 0 <= p < |MissedReadBlock()| ==> ReadsAsDecoded(MissedReadBlock()[p], 3)
  {
    MissedReadCode();
    InstructionsAreDecoded(0, 0, 1, 2, Register, 3);
    InstructionsAreDecoded(2, 0, 1, 0, Register, 3);
    InstructionsAreDecoded(4, 0, 1, 1, Register, 3);
    InstructionsAreDecoded(6, 0, 1, 2, Register, 3);
  }

  lemma MissedReadIsMissed()
    ensures OneBlock(MissedReadBlock()) && Unsafe(MissedReadBlock(), 3, 0, 2)
    ensures !NoneClobbered(MissedReadIntervals(), CodeOf(MissedReadBlock()), iset{})
  {
    var ivs, code := MissedReadIntervals(), CodeOf(MissedReadBlock());
    MissedReadCode();
    MissedReadIsAllocated();
    LastReadMisses(code);
    assert ClobberedBy(ivs, code, 3, 0, 2) && Demanded(code, iset{}, 3, 0);
    assert !ReadAhead(MissedReadBlock(), 2, 0);
  }

  lemma LastReadMisses(code: Code)
    requires code == [Access(0, [], None), Access(2, [], Some(0)), Access(4, [], Some(1)), Access(6, [0, 1], Some(2))]
    ensures Intervenes(code, 3, 0, 2) && 0 in code[3].uses
  {
    assert code[3].uses[0] == 0;
  }

  /** A read that the builder does not record, and the value it loses. */
  lemma MissedReadExample() returns (sorted: seq<RegLiveInterval>)
    ensures Chain(MissedReadBlock(), 0, sorted, MissedReadIntervals(), 3, 1) && Unsafe(MissedReadBlock(), 3, 0, 2)
    ensures !MeaningPreserved(MissedReadIntervals(), CodeOf(MissedReadBlock()), iset{}, 3)
  {
    sorted := [RegLiveInterval(0, 0, 2, 0), RegLiveInterval(1, 1, 4, 0), RegLiveInterval(2, 2, 6, 0)];
    MissedReadIsAllocated();
    MissedReadIsGathered(sorted);
    MissedReadIsDecoded();
    MissedReadIsMissed();
    LosesMeaningIffShared(MissedReadBlock(), 0, sorted, MissedReadIntervals(), 3, 1);
  }

  /** Register 0 is written at offset 0 and never read; register 1 is read at offset 2. */
  function LostEntryBlock(): seq<Decoded> {
    [Write(0, 0), Read(2, 1, Register)]
  }

  /** Two arguments, of which only the second is read. */
  function MovedArgumentBlock(): seq<Decoded> {
    [Nothing(0), Read(2, 1, Argument)]
  }

  /** For both: the interval of register 0 is a point, so that it keeps its number, and register 1 is
      given that number. */
  function PointAndRead(): seq<RegLiveInterval> {
    [RegLiveInterval(0, 0, 0, 0), RegLiveInterval(1, 0, 0, 2)]
  }

  lemma PointAndReadIsAllocated()
    ensures Renames(PointAndRead(), 2, 1)
    ensures RenameInSequence(PointAndRead(), 0) == 0 == RenameInSequence(PointAndRead(), 1)
  {
    PointIsSkipped(PointAndRead());
  }

  lemma PointIsSkipped(ivs: seq<RegLiveInterval>)
    requires ivs == [RegLiveInterval(0, 0, 0, 0), RegLiveInterval(1, 0, 0, 2)]
    ensures Renames(ivs, 2, 1)
    ensures RenameInSequence(ivs, 0) == 0 == RenameInSequence(ivs, 1)
  {
    assert Holds(ivs, 2, 1, 0);
    assert Clique(ivs, [1]) && |[1]| == 1;
    FewHaveRoom(ivs, 2);
    RenamesTo(ivs, 0);
    RenamesTo(ivs, 1);
  }

  ghost predicate BuiltAsPointAndRead(block: seq<Decoded>, argumentEnd: nat, r: nat) {
    BuiltFor(block, argumentEnd, r) == if r == 0 then [L.Interval(0, 0)] else if r == 1 then [L.Interval(0, 2)] else []
  }

  lemma PointAndReadIsGathered(block: seq<Decoded>, argumentEnd: nat, sorted: seq<RegLiveInterval>)
    requires sorted == [RegLiveInterval(0, 0, 0, 0), RegLiveInterval(1, 1, 0, 2)]
    requires forall r: nat :: BuiltAsPointAndRead(block, argumentEnd, r)
    ensures BuiltOnce(block, argumentEnd, sorted, PointAndRead())
  {
    forall x ensures OccursAsBuilt(block, argumentEnd, sorted, x) {
      assert BuiltAsPointAndRead(block, argumentEnd, x.oldReg);
    }
    forall r: nat ensures BuiltAtMostOnce(block, argumentEnd, r) {
      assert BuiltAsPointAndRead(block, argumentEnd, r);
    }
  }

  lemma LostEntryIsBuilt(r: nat)
    ensures BuiltAsPointAndRead(LostEntryBlock(), 0, r)
  {
    var v := VisitsOf(LostEntryBlock());
    assert L.Ranges(v, 0, 0, r) == [];
    assert L.Ranges(v, 1, 0, r) == if r == 0 then [L.Interval(0, 0)] else [];
  }

  lemma MovedArgumentIsBuilt(r: nat)
    ensures BuiltAsPointAndRead(MovedArgumentBlock(), 2, r)
  {
    var v := VisitsOf(MovedArgumentBlock());
    assert L.Ranges(v, 0, 2, r) == if r < 2 then [L.Interval(0, 0)] else [];
    assert L.Ranges(v, 1, 2, r) == if r < 2 then [L.Interval(0, 0)] else [];
  }

  lemma LostEntryIsDecoded()
    ensures OneBlock(LostEntryBlock()) && WithinFile(CodeOf(LostEntryBlock()), 2)
    ensures forall p :: 0 <= p < |LostEntryBlock()| ==> ReadsAsDecoded(LostEntryBlock()[p], 2)
  {
    InstructionsAreDecoded(0, 0, 0, 0, Register, 2);
    InstructionsAreDecoded(2, 0, 0, 1, Register, 2);
  }

  lemma LostEntryIsLost()
    ensures OneBlock(LostEntryBlock()) && Unsafe(LostEntryBlock(), 1, 1, 0)
    ensures !NoneClobbered(PointAndRead(), CodeOf(LostEntryBlock()), iset{})
  {
    var ivs, code := PointAndRead(), CodeOf(LostEntryBlock());
    PointAndReadIsAllocated();
    LostEntryIsDecoded();
    assert code[0].write == Some(0) && code[1].uses[0] == 1;
    assert ClobberedBy(ivs, code, 1, 1, 0) && Demanded(code, iset{}, 1, 1);
    assert !ReadAhead(LostEntryBlock(), 0, 0);
  }

  /** An unread first write, and the value that it destroys. */
  lemma LostEntryExample() returns (sorted: seq<RegLiveInterval>)
    ensures Chain(LostEntryBlock(), 0, sorted, PointAndRead(), 2, 1) && Unsafe(LostEntryBlock(), 1, 1, 0)
    ensures !MeaningPreserved(PointAndRead(), CodeOf(LostEntryBlock()), iset{}, 2)
  {
    sorted := [RegLiveInterval(0, 0, 0, 0), RegLiveInterval(1, 1, 0, 2)];
    forall r: nat ensures BuiltAsPointAndRead(LostEntryBlock(), 0, r) {
      LostEntryIsBuilt(r);
    }
    PointAndReadIsGathered(LostEntryBlock(), 0, sorted);
    PointAndReadIsAllocated();
    LostEntryIsDecoded();
    LostEntryIsLost();
    LosesMeaningIffShared(LostEntryBlock(), 0, sorted, PointAndRead(), 2, 1);
  }

  lemma MovedArgumentIsDecoded()
    ensures OneBlock(MovedArgumentBlock()) && WithinFile(CodeOf(MovedArgumentBlock()), 2)
    ensures forall p :: 0 <= p < |MovedArgumentBlock()| ==> ReadsAsDecoded(MovedArgumentBlock()[p], 2)
  {
    InstructionsAreDecoded(0, 0, 0, 0, Argument, 2);
    InstructionsAreDecoded(2, 0, 0, 1, Argument, 2);
  }

  lemma MovedArgumentIsMoved()
    ensures OneBlock(MovedArgumentBlock()) && NoneClobbered(PointAndRead(), CodeOf(MovedArgumentBlock()), iset{})
    ensures 1 in Incoming(CodeOf(MovedArgumentBlock()), iset{})
  {
    var code := CodeOf(MovedArgumentBlock());
    assert code[1].uses[0] == 1 && DemandedFromEntry(code, iset{}, 1, 1) && IsIncoming(code, iset{}, 1);
  }

  /** The second argument is given register 0, where the first one still arrives. With the register file
      rearranged on entry the block keeps its meaning; with the arguments where they arrive it does not. */
  lemma MovedArgumentExample() returns (sorted: seq<RegLiveInterval>)
    ensures Chain(MovedArgumentBlock(), 2, sorted, PointAndRead(), 2, 1)
    ensures MeaningPreserved(PointAndRead(), CodeOf(MovedArgumentBlock()), iset{}, 2)
    ensures !MeaningKeptInPlace(PointAndRead(), CodeOf(MovedArgumentBlock()), iset{}, 2)
  {
    sorted := [RegLiveInterval(0, 0, 0, 0), RegLiveInterval(1, 1, 0, 2)];
    forall r: nat ensures BuiltAsPointAndRead(MovedArgumentBlock(), 2, r) {
      MovedArgumentIsBuilt(r);
    }
    PointAndReadIsGathered(MovedArgumentBlock(), 2, sorted);
    PointAndReadIsAllocated();
    MovedArgumentIsDecoded();
    MovedArgumentIsMoved();
    LosesMeaningIffShared(MovedArgumentBlock(), 2, sorted, PointAndRead(), 2, 1);
  }

  // ---------------------------------------------------------------- a loop

  /** Register 0 is written before a loop that reads it; later in the loop register 1 is written and read. */
  function LoopEntry(): seq<Decoded> {
    [Nothing(0), Write(2, 0)]
  }

  function LoopBody(): seq<Decoded> {
    [Read(4, 0, Register), Write(6, 1), Read(8, 1, Register)]
  }

  /** The interval of register 0 ends at its read, and register 1 is given the same register. */
  function LoopIntervals(): seq<RegLiveInterval> {
    [RegLiveInterval(0, 0, 2, 4), RegLiveInterval(1, 0, 6, 8)]
  }

  ghost function LoopVisits(): L.Visits {
    VisitsOf(LoopEntry()) + VisitsOf(LoopBody())
  }

  lemma LoopIsVisited()
    ensures LoopVisits() == [L.Visit(0, 0, None, []), L.Visit(2, 0, Some(0), [0]), L.Visit(4, 4, None, [0]),
                             L.Visit(6, 4, Some(1), [1]), L.Visit(8, 4, None, [1])]
  {
    assert VisitsOf(LoopEntry()) == [L.Visit(0, 0, None, []), L.Visit(2, 0, Some(0), [0])];
    assert VisitsOf(LoopBody())
      == [L.Visit(4, 4, None, [0]), L.Visit(6, 4, Some(1), [1]), L.Visit(8, 4, None, [1])];
  }

  lemma VisitedRanges(v: L.Visits, r: nat)
    requires v == [L.Visit(0, 0, None, []), L.Visit(2, 0, Some(0), [0]), L.Visit(4, 4, None, [0]),
                   L.Visit(6, 4, Some(1), [1]), L.Visit(8, 4, None, [1])]
    ensures L.Ranges(v, 5, 0, r) ==
      if r == 0 then [L.Interval(2, 4)] else if r == 1 then [L.Interval(6, 8)] else []
  {
    assert L.Ranges(v, 1, 0, r) == [];
    assert L.Ranges(v, 2, 0, r) == if r == 0 then [L.Interval(2, 0)] else [];
    assert L.Ranges(v, 3, 0, r) == if r == 0 then [L.Interval(2, 4)] else [];
    assert L.Ranges(v, 4, 0, r) == if r == 0 then [L.Interval(2, 4)] else if r == 1 then [L.Interval(6, 0)] else [];
  }

  lemma LoopIsAllocated(ivs: seq<RegLiveInterval>)
    requires ivs == [RegLiveInterval(0, 0, 2, 4), RegLiveInterval(1, 0, 6, 8)]
    ensures Renames(ivs, 2, 1) && KeepsBound(ivs, 2)
    ensures RenameInSequence(ivs, 0) == 0 == RenameInSequence(ivs, 1)
  {
    assert LinearScan.Holds(ivs, 2, 0, 0);
    assert Clique(ivs, [0]) && |[0]| == 1;
    assert TakesFrom(ivs, 0, 1);
    FewHaveRoom(ivs, 2);
    RenamesTo(ivs, 0);
    RenamesTo(ivs, 1);
    RenamingKeepsBound(ivs, 2, 1);
  }

  /** The blocks as code. */
  ghost function LoopCodes(): seq<Code> {
    [[Access(0, [], None), Access(2, [], Some(0))],
     [Access(4, [0], None), Access(6, [], Some(1)), Access(8, [1], None)]]
  }

  lemma LoopCode()
    ensures OneBlock(LoopEntry()) && OneBlock(LoopBody())
    ensures LoopCodes() == [CodeOf(LoopEntry()), CodeOf(LoopBody())]
  {
    AccessesOfInstructions(0, 0, 0, 0, Register);
    AccessesOfInstructions(2, 0, 0, 0, Register);
    AccessesOfInstructions(4, 0, 0, 0, Register);
    AccessesOfInstructions(6, 0, 0, 1, Register);
    AccessesOfInstructions(8, 0, 0, 1, Register);
    assert CodeOf(LoopEntry()) == LoopCodes()[0];
    assert CodeOf(LoopBody()) == LoopCodes()[1];
  }

  /** Once around: the second time the loop reads register 0, it finds what was written to register 1. */
  lemma TwiceThroughLoop()
    ensures var run := Trace(Along(LoopCodes(), [0, 1, 1]));
      WithinFile(run, 2) && !NoneClobbered(LoopIntervals(), run, iset{})
  {
    var codes, blocks := LoopCodes(), Along(LoopCodes(), [0, 1, 1]);
    assert blocks[1..][1..][1..] == [] && blocks[1..][1..][0] == codes[1] && blocks[1..][0] == codes[1];
    assert Trace(blocks[1..][1..]) == codes[1] + [];
    assert Trace(blocks[1..]) == codes[1] + (codes[1] + []);
    ReadAgainIsClobbered(Trace(blocks));
  }

  lemma ReadAgainIsClobbered(run: Code)
    requires run == [Access(0, [], None), Access(2, [], Some(0))]
      + ([Access(4, [0], None), Access(6, [], Some(1)), Access(8, [1], None)]
         + ([Access(4, [0], None), Access(6, [], Some(1)), Access(8, [1], None)] + []))
    ensures WithinFile(run, 2) && !NoneClobbered(LoopIntervals(), run, iset{})
  {
    LoopIsAllocated(LoopIntervals());
    assert run[5].uses[0] == 0 && run[3].write == Some(1) && run[4].write == None;
    assert ClobberedBy(LoopIntervals(), run, 5, 0, 3) && Demanded(run, iset{}, 5, 0);
  }

  lemma ClobberedLoses(ivs: seq<RegLiveInterval>, codes: seq<Code>, q: seq<nat>, regs: nat)
    requires (forall i :: 0 <= i < |q| ==> q[i] < |codes|) && WithinFile(Trace(Along(codes, q)), regs)
    requires KeepsBound(ivs, regs) && !NoneClobbered(ivs, Trace(Along(codes, q)), iset{})
    ensures !KeepsRun(ivs, codes, q, regs)
  {
    RenamingPreservesMeaningIff(ivs, Trace(Along(codes, q)), iset{}, regs);
  }

  lemma LoopIsRun(codes: seq<Code>, q: seq<nat>)
    requires |codes| == 2 && q == [0, 1, 1]
    ensures IsRun({(0, 1), (1, 1)}, codes, 0, q)
  {
  }

  /** What the builder makes of the two blocks. */
  ghost predicate LoopIsBuilt(r: nat) {
    L.Ranges(LoopVisits(), |LoopVisits()|, 0, r) ==
      if r == 0 then [L.Interval(2, 4)] else if r == 1 then [L.Interval(6, 8)] else []
  }

  lemma LoopIsBuiltForAll()
    ensures forall r: nat :: LoopIsBuilt(r)
  {
    LoopIsVisited();
    forall r: nat ensures LoopIsBuilt(r) {
      VisitedRanges(LoopVisits(), r);
    }
  }

  lemma LoopRunLoses()
    ensures IsRun({(0, 1), (1, 1)}, LoopCodes(), 0, [0, 1, 1]) && !KeepsRun(LoopIntervals(), LoopCodes(), [0, 1, 1], 2)
  {
    LoopIsAllocated(LoopIntervals());
    TwiceThroughLoop();
    LoopIsRun(LoopCodes(), [0, 1, 1]);
    ClobberedLoses(LoopIntervals(), LoopCodes(), [0, 1, 1], 2);
  }

  /** The builder passes over the instructions once, in order, and does not see that the loop leads back:
      a run that goes through it twice loses its meaning. */
  lemma LoopExample()
    ensures OneBlock(LoopEntry()) && OneBlock(LoopBody()) && LoopCodes() == [CodeOf(LoopEntry()), CodeOf(LoopBody())]
    ensures forall r: nat :: LoopIsBuilt(r)
    ensures Renames(LoopIntervals(), 2, 1)
    ensures IsRun({(0, 1), (1, 1)}, LoopCodes(), 0, [0, 1, 1]) && !KeepsRun(LoopIntervals(), LoopCodes(), [0, 1, 1], 2)
  {
    LoopCode();
    LoopIsBuiltForAll();
    LoopIsAllocated(LoopIntervals());
    LoopRunLoses();
  }
}

/** The control-flow pass: collecting leaders, cutting blocks, marking dead code, drawing edges. */
module ControlFlowAnalysis {
  import opened ControlFlow
  import opened IR
  import opened Paths

  /** The map from offsets to instructions. */
  type OffsetMap = map<int, Ins>

  ghost predicate Indexes(m: OffsetMap, p: Program) {
    forall i :: 0 <= i < |p| ==> IndexesIns(m, p, i)
  }

  ghost predicate IndexesIns(m: OffsetMap, p: Program, i: nat)
    requires i < |p|
  {
    p[i].offset in m && m[p[i].offset] == p[i]
  }

  lemma InsAtTarget(m: OffsetMap, p: Program, i: nat)
    requires WellFormed(p) && Indexes(m, p) && i < |p| && p[i].jump
    ensures p[i].JumpTarget() in m && m[p[i].JumpTarget()] == p[Target(p, i)]
  {
    assert IndexesIns(m, p, Target(p, i));
  }

  lemma NextIns(m: OffsetMap, p: Program, i: nat)
    requires WellFormed(p) && Indexes(m, p) && i + 1 < |p|
    ensures p[i].offset + p[i].size in m && m[p[i].offset + p[i].size] == p[i + 1]
  {
    assert Plain(p, i) && IndexesIns(m, p, i + 1);
  }

  lemma SamePositions(p: Program, i: nat, j: nat)
    requires WellFormed(p) && i < |p| && j < |p|
    ensures p[i] == p[j] <==> i == j
    ensures p[i].offset <= p[j].offset <==> i <= j
  {
    assert (i < j ==> Before(p, i, j)) && (j < i ==> Before(p, j, i));
  }

  // ---------------------------------------------------------------- leaders

  /** The positions of the leaders in ascending order. */
  ghost predicate Cuts(p: Program, cuts: seq<nat>)
    requires WellFormed(p)
  {
    && (forall a, b :: 0 <= a < b < |cuts| ==> Ascends(cuts, a, b))
    && forall j: nat :: j in cuts <==> IsLeader(p, j)
  }

  ghost predicate Ascends(cuts: seq<nat>, a: nat, b: nat)
    requires a < |cuts| && b < |cuts|
  {
    cuts[a] < cuts[b]
  }

  /** `leaders` are the instructions at the positions `cuts`. */
  ghost predicate AtCuts(p: Program, leaders: seq<Ins>, cuts: seq<nat>) {
    |leaders| == |cuts| && forall b :: 0 <= b < |cuts| ==> cuts[b] < |p| && leaders[b] == p[cuts[b]]
  }

  /** What the first `k` instructions show to be leaders. */
  ghost predicate LeaderSoFar(p: Program, k: nat, j: nat)
    requires WellFormed(p)
  {
    j < |p| && (j == 0 || exists i: nat :: i < k && LedToBy(p, i, j))
  }

  ghost predicate InOffsetOrder(s: seq<Ins>) {
    forall a, b :: 0 <= a < b < |s| ==> Lower(s, a, b)
  }

  ghost predicate Lower(s: seq<Ins>, a: nat, b: nat)
    requires a < |s| && b < |s|
  {
    s[a].offset < s[b].offset
  }

  lemma InsertKeepsOrder(s: seq<Ins>, i: nat, x: Ins)
    requires InOffsetOrder(s) && i <= |s|
    requires forall a :: 0 <= a < i ==> s[a].offset < x.offset
    requires i < |s| ==> x.offset < s[i].offset
    ensures InOffsetOrder(s[..i] + [x] + s[i..])
  {
    var r := s[..i] + [x] + s[i..];
    forall a, b | 0 <= a < b < |r| ensures Lower(r, a, b) {
      var a', b' := if a < i then a else a - 1, if b < i then b else b - 1;
      assert a != i && b != i ==> r[a] == s[a'] && r[b] == s[b'] && Lower(s, a', b');
      assert a == i && i < b' ==> Lower(s, i, b');
    }
  }

  /** Insert into a list in offset order. */
  method InsertByOffset(s: seq<Ins>, x: Ins) returns (r: seq<Ins>)
    requires InOffsetOrder(s) && forall y :: y in s ==> y.offset != x.offset
    ensures InOffsetOrder(r) && forall y :: y in r <==> y in s || y == x
  {
    var i := 0;
    while i < |s| && s[i].offset < x.offset
      invariant 0 <= i <= |s| && forall a :: 0 <= a < i ==> s[a].offset < x.offset
    {
      i := i + 1;
    }
    InsertKeepsOrder(s, i, x);
    r := s[..i] + [x] + s[i..];
    assert s == s[..i] + s[i..];
  }

  /** The library sort, applied to a set of instructions at different offsets. */
  method SortByOffset(s: set<Ins>) returns (r: seq<Ins>)
    requires forall x, y :: x in s && y in s && x.offset == y.offset ==> x == y
    ensures InOffsetOrder(r) && forall y :: y in r <==> y in s
  {
    r := [];
    var todo := s;
    while todo != {}
      invariant todo <= s
      invariant InOffsetOrder(r) && forall y :: y in r <==> y in s - todo
      decreases todo
    {
      var x :| x in todo;
      r := InsertByOffset(r, x);
      todo := todo - {x};
    }
  }

  /** Collect the leaders: the first instruction, the targets of the jumps after it, and the
      instructions that follow conditional ones. */
  method FindLeaders(p: Program, m: OffsetMap) returns (leaders: seq<Ins>, ghost cuts: seq<nat>)
    requires WellFormed(p) && Indexes(m, p)
    ensures InOffsetOrder(leaders) && forall x :: x in leaders <==> exists j: nat :: IsLeader(p, j) && x == p[j]
    ensures Cuts(p, cuts) && AtCuts(p, leaders, cuts)
    ensures forall x :: x in leaders <==> x == p[0] || exists i: nat :: LeadsTo(p, i, x)
  {
    var leaderSet := {p[0]};
    var k := 1;
    while k < |p|
      invariant 1 <= k <= |p|
      invariant leaderSet == LeaderSet(p, k)
    {
      var ins := p[k];
      if ins.jump {
        InsAtTarget(m, p, k);
        assert Plain(p, k);
        var targetIns := m[ins.JumpTarget()];
        if ins.conditionalJump {
          leaderSet := leaderSet + {p[k + 1]};
        }
        leaderSet := leaderSet + {targetIns};
      }
      OneMoreJump(p, k);
      k := k + 1;
    }
    OffsetsTellApart(p, k);
    leaders := SortByOffset(leaderSet);
    cuts := PositionsOf(p, leaders);
    AllLeadersFound(p, leaders, cuts);
    LeadersOnFields(p, leaders);
  }

  /** By its fields, instruction `i` makes `x` a leader: it is a jump other than the first instruction, and `x`
      stands where it jumps to or, if it is conditional, comes next. */
  ghost predicate LeadsTo(p: Program, i: nat, x: Ins) {
    && 0 < i < |p| && p[i].jump && x in p
    && (x.offset == p[i].offset + p[i].branchOffset || (p[i].conditionalJump && i + 1 < |p| && x == p[i + 1]))
  }

  lemma LeadsToMeaning(p: Program, i: nat, j: nat)
    requires WellFormed(p) && j < |p|
    ensures LeadsTo(p, i, p[j]) <==> LedToBy(p, i, j)
  {
    if 0 < i < |p| && p[i].jump {
      var t := Target(p, i);
      assert Plain(p, i) && IsTarget(p, i, t);
      SamePositions(p, j, t);
      SamePositions(p, t, j);
      assert i + 1 < |p| ==> (p[j] == p[i + 1] <==> j == i + 1) by {
        if i + 1 < |p| {
          SamePositions(p, j, i + 1);
        }
      }
    }
  }

  lemma LeadersOnFields(p: Program, leaders: seq<Ins>)
    requires WellFormed(p) && forall x :: x in leaders <==> exists j: nat :: IsLeader(p, j) && x == p[j]
    ensures forall x :: x in leaders <==> x == p[0] || exists i: nat :: LeadsTo(p, i, x)
  {
    forall x ensures x in leaders <==> x == p[0] || exists i: nat :: LeadsTo(p, i, x) {
      if x in leaders && x != p[0] {
        var j: nat :| IsLeader(p, j) && x == p[j];
        var i :| LedToBy(p, i, j);
        LeadsToMeaning(p, i, j);
      }
      if x == p[0] {
        assert IsLeader(p, 0);
      }
      if i: nat :| LeadsTo(p, i, x) {
        var j: nat :| j < |p| && p[j] == x;
        LeadsToMeaning(p, i, j);
        assert IsLeader(p, j);
      }
    }
  }

  ghost function LeaderSet(p: Program, k: nat): set<Ins>
    requires WellFormed(p)
  {
    set j: nat | j < |p| && LeaderSoFar(p, k, j) :: p[j]
  }

  lemma OneMoreJump(p: Program, k: nat)
    requires WellFormed(p) && 0 < k < |p|
    ensures LeaderSet(p, k + 1) == LeaderSet(p, k) + LedToSet(p, k)
    ensures p[k].jump ==>
      LedToSet(p, k) == (if p[k].conditionalJump && k + 1 < |p| then {p[k + 1]} else {}) + {p[Target(p, k)]}
    ensures !p[k].jump ==> LedToSet(p, k) == {}
  {
    assert Plain(p, k);
    forall j: nat | j < |p| ensures LeaderSoFar(p, k + 1, j) <==> LeaderSoFar(p, k, j) || LedToBy(p, k, j) {
      if LedToBy(p, k, j) {
        assert k < k + 1;
      }
    }
  }

  ghost function LedToSet(p: Program, k: nat): set<Ins>
    requires WellFormed(p)
  {
    set j: nat | j < |p| && LedToBy(p, k, j) :: p[j]
  }

  lemma OffsetsTellApart(p: Program, k: nat)
    requires WellFormed(p)
    ensures forall x, y :: x in LeaderSet(p, k) && y in LeaderSet(p, k) && x.offset == y.offset ==> x == y
  {
    forall x, y | x in LeaderSet(p, k) && y in LeaderSet(p, k) && x.offset == y.offset ensures x == y {
      var i: nat :| i < |p| && LeaderSoFar(p, k, i) && x == p[i];
      var j: nat :| j < |p| && LeaderSoFar(p, k, j) && y == p[j];
      SamePositions(p, i, j);
      SamePositions(p, j, i);
    }
  }

  /** Where the instructions of a list stand in the program. */
  lemma {:induction false} PositionsOf(p: Program, s: seq<Ins>) returns (cuts: seq<nat>)
    requires forall x :: x in s ==> x in p
    ensures |cuts| == |s| && forall b :: 0 <= b < |s| ==> cuts[b] < |p| && s[b] == p[cuts[b]]
  {
    if s == [] {
      cuts := [];
    } else {
      assert s[0] in s && forall x :: x in s[1..] ==> x in s;
      var j: nat :| j < |p| && p[j] == s[0];
      cuts := PositionsOf(p, s[1..]);
      cuts := [j] + cuts;
    }
  }

  lemma AllLeadersFound(p: Program, leaders: seq<Ins>, cuts: seq<nat>)
    requires WellFormed(p) && AtCuts(p, leaders, cuts)
    requires InOffsetOrder(leaders)
    requires forall x :: x in leaders <==> x in LeaderSet(p, |p|)
    ensures Cuts(p, cuts) && forall x :: x in leaders <==> exists j: nat :: IsLeader(p, j) && x == p[j]
  {
    forall a, b | 0 <= a < b < |cuts| ensures Ascends(cuts, a, b) {
      assert Lower(leaders, a, b);
      SamePositions(p, cuts[b], cuts[a]);
    }
    forall j: nat ensures j in cuts <==> IsLeader(p, j) {
      if j in cuts {
        var b :| 0 <= b < |cuts| && cuts[b] == j;
        assert leaders[b] in LeaderSet(p, |p|);
        var i: nat :| i < |p| && LeaderSoFar(p, |p|, i) && p[j] == p[i];
        SamePositions(p, j, i);
      }
      if IsLeader(p, j) {
        assert LeaderSoFar(p, |p|, j) && p[j] in LeaderSet(p, |p|);
        var b :| 0 <= b < |leaders| && leaders[b] == p[j];
        SamePositions(p, j, cuts[b]);
      }
    }
  }

  // ---------------------------------------------------------------- blocks

  /** Where the block led by `cuts[b]` ends. */
  function EndOf(p: Program, cuts: seq<nat>, b: nat): nat
    requires b < |cuts|
  {
    if b + 1 < |cuts| then cuts[b + 1] else |p|
  }

  ghost predicate InBlock(p: Program, cuts: seq<nat>, b: nat, i: nat) {
    b < |cuts| && cuts[b] <= i < EndOf(p, cuts, b)
  }

  lemma NotBetween(cuts: seq<nat>, b: nat, c: nat)
    requires forall a, d :: 0 <= a < d < |cuts| ==> Ascends(cuts, a, d)
    requires b < |cuts| && c < |cuts|
    ensures cuts[c] <= cuts[b] || (b + 1 < |cuts| && cuts[b + 1] <= cuts[c])
  {
    if c < b {
      assert Ascends(cuts, c, b);
    } else if b + 1 < c {
      assert Ascends(cuts, b + 1, c);
    }
  }

  lemma BlockOfLeader(p: Program, cuts: seq<nat>, b: nat, i: nat)
    requires WellFormed(p) && Cuts(p, cuts) && InBlock(p, cuts, b, i) && i < |p|
    ensures LeaderOf(p, i) == cuts[b]
  {
    assert cuts[b] in cuts;
    forall m | cuts[b] < m <= i ensures !IsLeader(p, m) {
      if m in cuts {
        var c: nat :| c < |cuts| && cuts[c] == m;
        NotBetween(cuts, b, c);
      }
    }
    LeaderOfIsUnique(p, i, cuts[b]);
  }

  lemma FirstCut(p: Program, cuts: seq<nat>)
    requires WellFormed(p) && Cuts(p, cuts)
    ensures cuts != [] && cuts[0] == 0
    ensures forall b :: 0 <= b < |cuts| ==> cuts[b] < |p|
  {
    assert IsLeader(p, 0) && 0 in cuts;
    var c :| 0 <= c < |cuts| && cuts[c] == 0;
    assert 0 < c ==> Ascends(cuts, 0, c);
    forall b | 0 <= b < |cuts| ensures cuts[b] < |p| {
      assert cuts[b] in cuts && IsLeader(p, cuts[b]);
    }
  }

  lemma BlockIsNotEmpty(p: Program, cuts: seq<nat>, b: nat)
    requires WellFormed(p) && Cuts(p, cuts) && b < |cuts|
    ensures cuts[b] < EndOf(p, cuts, b) <= |p|
  {
    FirstCut(p, cuts);
    assert b + 1 < |cuts| ==> Ascends(cuts, b, b + 1);
  }

  lemma CutsDiffer(p: Program, cuts: seq<nat>, b: nat, c: nat)
    requires WellFormed(p) && Cuts(p, cuts) && b < |cuts| && c < |cuts| && cuts[b] == cuts[c]
    ensures b == c
  {
    assert (b < c ==> Ascends(cuts, b, c)) && (c < b ==> Ascends(cuts, c, b));
  }

  /** The blocks built so far: a start block without instructions, then blocks 0 to `cur`, of which
      the last one is filled up to instruction `k`. */
  ghost predicate Building(p: Program, cuts: seq<nat>, bbs: seq<BasicBlock>, cur: nat, k: nat)
    reads bbs, p
    requires WellFormed(p)
  {
    && cur < |cuts| && |bbs| == cur + 2 && k <= |p|
    && cuts[cur] <= k <= EndOf(p, cuts, cur)
    && bbs[0].insns == []
    && (forall b :: 0 <= b < |bbs| ==> Fresh(bbs, b))
    && (forall b :: 0 <= b < |bbs| ==> (bbs[b].valid <==> 0 < b))
    && (forall b :: 0 <= b <= cur ==> Filled(p, cuts, bbs, b, if b == cur then k else EndOf(p, cuts, b)))
    && (forall i :: 0 <= i < |p| ==> Marked(p, i, k))
  }

  /** Among the first `k` instructions exactly the dead ones are marked, and no later one is. */
  ghost predicate Marked(p: Program, i: nat, k: nat)
    requires WellFormed(p) && i < |p|
    reads p`dead
  {
    p[i].dead <==> i < k && Dead(p, i)
  }

  /** Numbered by position, and connected only from the start block to the first one. */
  ghost predicate Fresh(bbs: seq<BasicBlock>, b: nat)
    reads bbs
    requires 1 < |bbs| && b < |bbs|
  {
    && bbs[b].id == b
    && bbs[b].successors == (if b == 0 then [bbs[1]] else [])
    && bbs[b].predecessors == (if b == 1 then [bbs[0]] else [])
    && NotAnalysed(bbs[b])
  }

  /** What the later passes compute is still empty. */
  ghost predicate NotAnalysed(b: BasicBlock)
    reads b`idom, b`dominators, b`ue, b`kill, b`liveOut
  {
    b.idom == null && b.dominators == [] && b.ue == {} && b.kill == {} && b.liveOut == {}
  }

  ghost predicate AllNotAnalysed(bbs: seq<BasicBlock>)
    reads bbs`idom, bbs`dominators, bbs`ue, bbs`kill, bbs`liveOut
  {
    forall b :: b in bbs ==> NotAnalysed(b)
  }

  /** Block `b + 1` holds the instructions from its leader up to `end`, and they know it. */
  ghost predicate Filled(p: Program, cuts: seq<nat>, bbs: seq<BasicBlock>, b: nat, end: nat)
    reads bbs`insns, p`bb
    requires b < |cuts| && b + 1 < |bbs|
  {
    && cuts[b] <= end <= |p|
    && bbs[b + 1].insns == p[cuts[b]..end]
    && forall i :: cuts[b] <= i < end ==> p[i].bb == bbs[b + 1]
  }

  /** A jump lies between the start of the current block and instruction `k`. */
  ghost predicate JumpFound(p: Program, from: nat, k: nat) {
    exists j :: from <= j < k && j < |p| && p[j].jump
  }

  lemma DeadIffJumpFound(p: Program, cuts: seq<nat>, b: nat, k: nat)
    requires WellFormed(p) && Cuts(p, cuts) && InBlock(p, cuts, b, k) && k < |p|
    ensures Dead(p, k) <==> JumpFound(p, cuts[b], k)
  {
    BlockOfLeader(p, cuts, b, k);
    if JumpFound(p, cuts[b], k) {
      var j :| cuts[b] <= j < k && p[j].jump;
      assert JumpsEarlier(p, j, k);
    }
    if Dead(p, k) {
      var j :| JumpsEarlier(p, j, k);
    }
  }

  /** Instruction `k` goes into the current block, marked dead after a jump. */
  method AddInstruction(p: Program, ghost cuts: seq<nat>, ghost bbs: seq<BasicBlock>, ghost cur: nat, ghost k: nat,
                        bb: BasicBlock, ins: Ins, foundJump: bool)
    requires WellFormed(p) && Cuts(p, cuts) && Building(p, cuts, bbs, cur, k) && InBlock(p, cuts, cur, k) && k < |p|
    requires bb == bbs[cur + 1] && ins == p[k]
    requires foundJump <==> JumpFound(p, cuts[cur], k)
    modifies bb`insns, ins`bb, ins`dead
    ensures Building(p, cuts, bbs, cur, k + 1)
  {
    DeadIffJumpFound(p, cuts, cur, k);
    assert Fresh(bbs, 0) && Fresh(bbs, cur + 1);
    forall i | 0 <= i < |p| ensures p[i] == p[k] ==> i == k {
      SamePositions(p, i, k);
    }
    bb.AddIns(ins);
    if foundJump {
      ins.dead := true;
    }
    var next := k + 1;
    forall i | 0 <= i < |p| ensures Marked(p, i, next) {
      assert old(Marked(p, i, k));
    }
    forall b | 0 <= b < |bbs| ensures Fresh(bbs, b) {
      assert old(Fresh(bbs, b));
    }
    forall b | 0 <= b <= cur ensures Filled(p, cuts, bbs, b, if b == cur then k + 1 else EndOf(p, cuts, b)) {
      assert old(Filled(p, cuts, bbs, b, if b == cur then k else EndOf(p, cuts, b)));
      assert b < cur ==> Ascends(cuts, b, cur) && (b + 1 < cur ==> Ascends(cuts, b + 1, cur));
      assert Fresh(bbs, b + 1) && Fresh(bbs, cur + 1);
    }
  }

  /** At the next leader the current block is complete, and a new one begins. */
  method BeginBlock(p: Program, ghost cuts: seq<nat>, bbs: seq<BasicBlock>, cur: nat, ghost k: nat)
    returns (bbs': seq<BasicBlock>)
    requires WellFormed(p) && Cuts(p, cuts) && Building(p, cuts, bbs, cur, k)
    requires cur + 1 < |cuts| && k == cuts[cur + 1]
    ensures Building(p, cuts, bbs', cur + 1, k)
    ensures forall b :: 0 <= b < |bbs'| ==> if b < |bbs| then bbs'[b] == bbs[b] else fresh(bbs'[b])
  {
    var bb := new BasicBlock(cur + 2, true);
    bbs' := bbs + [bb];
    BlockIsNotEmpty(p, cuts, cur + 1);
    forall b | 0 <= b < |bbs'| ensures Fresh(bbs', b) {
      assert b < |bbs| ==> old(Fresh(bbs, b));
    }
    forall b | 0 <= b <= cur + 1 ensures Filled(p, cuts, bbs', b, if b == cur + 1 then k else EndOf(p, cuts, b)) {
      assert b <= cur ==> old(Filled(p, cuts, bbs, b, if b == cur then k else EndOf(p, cuts, b)));
    }
    forall i | 0 <= i < |p| ensures Marked(p, i, k) {
      assert old(Marked(p, i, k));
    }
  }

  /** The start block, leading to a first block. */
  method StartAndFirst() returns (bbs: seq<BasicBlock>)
    ensures |bbs| == 2 && Fresh(bbs, 0) && Fresh(bbs, 1) && !bbs[0].valid && bbs[1].valid
    ensures bbs[0].insns == [] == bbs[1].insns && fresh(bbs[0]) && fresh(bbs[1])
  {
    var bbStart := new BasicBlock(0, false);
    var bb := new BasicBlock(1, true);
    assert Mirror({bbStart, bb});
    bbStart.AddSuccessor(bb, {bbStart, bb});
    bbs := [bbStart, bb];
  }

  method BeginBlocks(p: Program, ghost cuts: seq<nat>) returns (bbs: seq<BasicBlock>)
    requires WellFormed(p) && Cuts(p, cuts) && forall ins :: ins in p ==> !ins.dead
    ensures Building(p, cuts, bbs, 0, 0) && forall b :: 0 <= b < |bbs| ==> fresh(bbs[b])
  {
    bbs := StartAndFirst();
    FirstCut(p, cuts);
  }

  /** The state of the loop before instruction `k`. */
  ghost predicate Cutting(p: Program, cuts: seq<nat>, bbs: seq<BasicBlock>, cur: nat, k: nat, foundJump: bool)
    reads bbs, p
    requires WellFormed(p)
  {
    Building(p, cuts, bbs, cur, k) && (foundJump <==> JumpFound(p, cuts[cur], k))
  }

  /** One instruction: begin a block if it is the next leader, and put it into the current block. */
  method VisitInstruction(p: Program, leaders: seq<Ins>, ghost cuts: seq<nat>, bbs: seq<BasicBlock>, cur: nat, k: nat,
                          bb: BasicBlock, jumpBefore: bool, ins: Ins)
    returns (bbs': seq<BasicBlock>, cur': nat, bb': BasicBlock, foundJump: bool)
    requires WellFormed(p) && Cuts(p, cuts) && AtCuts(p, leaders, cuts) && k < |p| && ins == p[k]
    requires Cutting(p, cuts, bbs, cur, k, jumpBefore) && bb == bbs[cur + 1]
    modifies bb`insns, ins`bb, ins`dead
    ensures Cutting(p, cuts, bbs', cur', k + 1, foundJump) && bb' == bbs'[cur' + 1]
    ensures forall b :: 0 <= b < |bbs'| ==> if b < |bbs| then bbs'[b] == bbs[b] else fresh(bbs'[b])
  {
    bbs', cur', foundJump, bb' := bbs, cur, jumpBefore, bb;
    FirstCut(p, cuts);
    if cur + 1 < |leaders| {
      SamePositions(p, k, cuts[cur + 1]);
      if ins == leaders[cur + 1] {
        bbs' := BeginBlock(p, cuts, bbs, cur, k);
        cur', foundJump, bb' := cur + 1, false, bbs'[cur + 2];
      }
    }
    BlockIsNotEmpty(p, cuts, cur');
    AddInstruction(p, cuts, bbs', cur', k, bb', ins, foundJump);
    assert Plain(p, k);
    if ins.jump && !ins.tryContext {
      foundJump := true;
    }
  }

  /** Visit all instructions. */
  method VisitInstructions(p: Program, leaders: seq<Ins>, ghost cuts: seq<nat>, first: seq<BasicBlock>)
    returns (bbs: seq<BasicBlock>, ghost cur: nat)
    requires WellFormed(p) && Cuts(p, cuts) && AtCuts(p, leaders, cuts) && Cutting(p, cuts, first, 0, 0, false)
    modifies first`insns, p`bb, p`dead
    ensures Building(p, cuts, bbs, cur, |p|)
    ensures forall b :: 0 <= b < |bbs| ==> bbs[b] in first || fresh(bbs[b])
  {
    bbs := first;
    var n: nat, bb, foundJump := 0, first[1], false;
    for k := 0 to |p|
      invariant Cutting(p, cuts, bbs, n, k, foundJump)
      invariant bb == bbs[n + 1]
      invariant forall b :: 0 <= b < |bbs| ==> bbs[b] in first || fresh(bbs[b])
    {
      bbs, n, bb, foundJump := VisitInstruction(p, leaders, cuts, bbs, n, k, bb, foundJump, p[k]);
    }
    cur := n;
  }

  /** Cut the instructions into blocks at the leaders, and mark those after a block's first jump. */
  method CutBlocks(p: Program, leaders: seq<Ins>, ghost cuts: seq<nat>) returns (bbs: seq<BasicBlock>)
    requires WellFormed(p) && Cuts(p, cuts) && AtCuts(p, leaders, cuts) && forall ins :: ins in p ==> !ins.dead
    modifies p`bb, p`dead
    ensures cuts != [] && Building(p, cuts, bbs, |cuts| - 1, |p|)
    ensures forall b :: 0 <= b < |bbs| ==> fresh(bbs[b])
  {
    bbs := BeginBlocks(p, cuts);
    ghost var cur;
    bbs, cur := VisitInstructions(p, leaders, cuts, bbs);
    AllCutsUsed(p, cuts, bbs, cur, |p|);
  }

  lemma AllCutsUsed(p: Program, cuts: seq<nat>, bbs: seq<BasicBlock>, cur: nat, k: nat)
    requires WellFormed(p) && Cuts(p, cuts) && Building(p, cuts, bbs, cur, k) && k == |p|
    ensures cuts != [] && Building(p, cuts, bbs, |cuts| - 1, |p|)
  {
    BlockIsNotEmpty(p, cuts, |cuts| - 1);
    if cur + 1 < |cuts| {
      BlockIsNotEmpty(p, cuts, cur + 1);
    }
  }

  // ---------------------------------------------------------------- edges

  /** All blocks: the start block, the blocks of the leaders in order, the end block. */
  ghost predicate Built(p: Program, cuts: seq<nat>, bbs: seq<BasicBlock>)
    reads bbs`insns, p`bb, p`dead
    requires WellFormed(p)
  {
    && |bbs| == |cuts| + 2 && Numbered(bbs)
    && (forall b :: 0 <= b < |bbs| ==> (bbs[b].valid <==> 0 < b <= |cuts|))
    && bbs[0].insns == [] && bbs[|cuts| + 1].insns == []
    && (forall b :: 0 <= b < |cuts| ==> Filled(p, cuts, bbs, b, EndOf(p, cuts, b)))
    && forall i :: 0 <= i < |p| ==> Marked(p, i, |p|)
  }

  ghost function SetOf(bbs: seq<BasicBlock>): set<BasicBlock> {
    set b | b in bbs
  }

  /** The blocks that control goes to from an instruction that leaves its block: for a conditional jump that
      of the next instruction and that of the target, for any other jump that of the target, and without a
      jump that of the next instruction, if there is one. */
  ghost function Ways(p: Program, x: nat): seq<BasicBlock?>
    reads p`bb
    requires WellFormed(p) && x < |p|
  {
    assert Plain(p, x);
    if p[x].jump then (if p[x].conditionalJump then [p[x + 1].bb] else []) + [p[Target(p, x)].bb]
    else if x + 1 < |p| then [p[x + 1].bb] else []
  }

  /** The edges from the start block and to the end block, before any others. */
  function FrameSuccessors(bbs: seq<BasicBlock>, b: nat): seq<BasicBlock>
    requires b < |bbs| && 1 < |bbs|
  {
    if b + 2 == |bbs| then [bbs[b + 1]] else if b == 0 then [bbs[1]] else []
  }

  ghost predicate FrameDrawn(bbs: seq<BasicBlock>, b: nat)
    requires b < |bbs| && 1 < |bbs|
    reads {bbs[b]}`successors
  {
    bbs[b].successors == FrameSuccessors(bbs, b)
  }

  /** Block `b + 1` leads where its exit does, once to each, and the last one before that to the end block. */
  ghost predicate LeadsOut(p: Program, cuts: seq<nat>, bbs: seq<BasicBlock>, b: nat)
    requires WellFormed(p) && b < |cuts| && |bbs| == |cuts| + 2
    reads {bbs[b + 1]}`successors, p`bb
  {
    exists x: nat :: IsExit(p, cuts[b], x) &&
      bbs[b + 1].successors == (if b + 1 == |cuts| then [bbs[|cuts| + 1]] else []) + Ways(p, x)
  }

  /** The blocks that block `b + 1` leads to, and the edges there. */
  ghost function Entered(p: Program, cuts: seq<nat>, b: nat): set<nat>
    requires WellFormed(p) && b < |cuts|
  {
    set c: nat | c < |cuts| && BlockEdge(p, cuts[b], cuts[c])
  }

  ghost function EdgesTo(b: nat, cs: set<nat>): Edges {
    set c | c in cs :: (b + 1, c + 1)
  }

  /** The edges to and from the blocks without instructions. */
  ghost function FrameEdges(n: nat): Edges {
    {(0, 1), (n, n + 1)}
  }

  /** For each block with instructions the blocks it leads to. */
  type Rows = seq<set<nat>>

  ghost function RowsOf(p: Program, cuts: seq<nat>): (rows: Rows)
    requires WellFormed(p)
    ensures |rows| == |cuts| && forall b :: 0 <= b < |cuts| ==> rows[b] == Entered(p, cuts, b)
  {
    seq(|cuts|, (b: nat) requires b < |cuts| => Entered(p, cuts, b))
  }

  /** The edges from the first `k` blocks with instructions. */
  ghost function EdgesUpTo(rows: Rows, k: nat): Edges
    requires k <= |rows|
  {
    if k == 0 then {} else EdgesUpTo(rows, k - 1) + EdgesTo(k - 1, rows[k - 1])
  }

  /** All edges, with those of the start and the end block. */
  ghost function Graph(rows: Rows): Edges {
    FrameEdges(|rows|) + EdgesUpTo(rows, |rows|)
  }

  /** The block graph by block number. */
  ghost function CfgEdges(p: Program, cuts: seq<nat>): Edges
    requires WellFormed(p)
  {
    Graph(RowsOf(p, cuts))
  }

  /** The edges drawn once the first `k` blocks are connected, the start block being the first. */
  ghost function DrawnUpTo(rows: Rows, k: nat): Edges {
    FrameEdges(|rows|) + EdgesUpTo(rows, if k == 0 then 0 else if k <= |rows| then k - 1 else |rows|)
  }

  lemma OneMoreBlock(rows: Rows, k: nat)
    ensures if 0 < k <= |rows|
      then DrawnUpTo(rows, k) + EdgesTo(k - 1, rows[k - 1]) == DrawnUpTo(rows, k + 1)
      else DrawnUpTo(rows, k + 1) == DrawnUpTo(rows, k)
  {
  }

  lemma NothingDrawn(rows: Rows)
    ensures DrawnUpTo(rows, 0) == FrameEdges(|rows|)
  {
  }

  lemma FreshBlocksDrawOneEdge(bbs: seq<BasicBlock>)
    requires 1 < |bbs| && forall b :: 0 <= b < |bbs| ==> Fresh(bbs, b)
    ensures Mirror(SetOf(bbs)) && Draws(SetOf(bbs), {(0, 1)}) && Numbered(bbs)
  {
    var u := SetOf(bbs);
    assert Fresh(bbs, 0) && Fresh(bbs, 1);
    forall a, b | a in u && b in u
      ensures (SameNumber(a, b) ==> a == b) && Mirrored(a, b) && ((a.id, b.id) in {(0, 1)} <==> b in a.successors)
    {
      var i :| 0 <= i < |bbs| && bbs[i] == a;
      var j :| 0 <= j < |bbs| && bbs[j] == b;
      assert Fresh(bbs, i) && Fresh(bbs, j);
    }
    forall a, b | a in u && b in a.successors ensures b in u {
      var i :| 0 <= i < |bbs| && bbs[i] == a;
      assert Fresh(bbs, i);
    }
    forall a, b | a in u && b in a.predecessors ensures b in u {
      var i :| 0 <= i < |bbs| && bbs[i] == a;
      assert Fresh(bbs, i);
    }
    assert (0, 1) == (bbs[0].id, bbs[1].id);
    forall i | 0 <= i < |bbs| ensures bbs[i].id == i {
      assert Fresh(bbs, i);
    }
  }

  lemma EndBlockCompletes(p: Program, cuts: seq<nat>, built: seq<BasicBlock>, bbEnd: BasicBlock)
    requires WellFormed(p) && cuts != [] && Building(p, cuts, built, |cuts| - 1, |p|)
    requires bbEnd.id == |built| && !bbEnd.valid && NotAnalysed(bbEnd)
    requires bbEnd.successors == [] && bbEnd.predecessors == [] && bbEnd.insns == []
    ensures Built(p, cuts, built + [bbEnd])
    ensures forall b :: 0 <= b < |built| + 1 ==> Fresh(built + [bbEnd], b)
    ensures AllNotAnalysed(built + [bbEnd])
    ensures {(0, 1)} + {(built[|cuts|].id, bbEnd.id)} == FrameEdges(|cuts|)
  {
    var bbs := built + [bbEnd];
    forall b | 0 <= b < |bbs| ensures Fresh(bbs, b) {
      assert b < |built| ==> Fresh(built, b);
    }
    assert Fresh(bbs, |cuts|);
    forall b | b in bbs ensures NotAnalysed(b) {
      var i :| 0 <= i < |bbs| && bbs[i] == b;
      assert Fresh(bbs, i);
    }
    forall b | 0 <= b < |bbs| ensures bbs[b].id == b {
      assert Fresh(bbs, b);
    }
    forall b | 0 <= b < |cuts| ensures Filled(p, cuts, bbs, b, EndOf(p, cuts, b)) {
      assert Filled(p, cuts, built, b, EndOf(p, cuts, b));
    }
  }

  /** Append the end block, which the last block leads to. */
  method AppendEnd(p: Program, ghost cuts: seq<nat>, built: seq<BasicBlock>, bb: BasicBlock, bbEnd: BasicBlock)
    requires WellFormed(p) && cuts != [] && Building(p, cuts, built, |cuts| - 1, |p|) && bb == built[|cuts|]
    requires bbEnd.id == |built| && !bbEnd.valid && NotAnalysed(bbEnd)
    requires bbEnd.successors == [] && bbEnd.predecessors == [] && bbEnd.insns == []
    modifies bb`successors, bbEnd`predecessors
    ensures Built(p, cuts, built + [bbEnd]) && AllNotAnalysed(built + [bbEnd])
    ensures Mirror(SetOf(built + [bbEnd])) && Draws(SetOf(built + [bbEnd]), FrameEdges(|cuts|))
    ensures forall b :: 0 <= b < |built| + 1 ==> FrameDrawn(built + [bbEnd], b)
  {
    EndBlockCompletes(p, cuts, built, bbEnd);
    FreshBlocksDrawOneEdge(built + [bbEnd]);
    assert bbEnd == (built + [bbEnd])[|built|] && bb == (built + [bbEnd])[|cuts|];
    AddEdge(bb, bbEnd, SetOf(built + [bbEnd]), {(0, 1)});
    forall b | 0 <= b < |built| + 1 ensures FrameDrawn(built + [bbEnd], b) {
      assert old(Fresh(built + [bbEnd], b)) && old(Fresh(built + [bbEnd], |cuts|));
    }
  }

  /** The blocks with their instructions, between a start and an end block. */
  method BuildBlocks(p: Program, leaders: seq<Ins>, ghost cuts: seq<nat>) returns (bbs: seq<BasicBlock>)
    requires WellFormed(p) && Cuts(p, cuts) && AtCuts(p, leaders, cuts) && forall ins :: ins in p ==> !ins.dead
    modifies p`bb, p`dead
    ensures Built(p, cuts, bbs) && AllNotAnalysed(bbs)
    ensures Mirror(SetOf(bbs)) && Draws(SetOf(bbs), FrameEdges(|cuts|))
    ensures 1 < |bbs| && forall b :: 0 <= b < |bbs| ==> FrameDrawn(bbs, b)
    ensures forall b :: 0 <= b < |bbs| ==> fresh(bbs[b])
  {
    bbs := CutBlocks(p, leaders, cuts);
    var bbEnd := new BasicBlock(|bbs|, false);
    AppendEnd(p, cuts, bbs, bbs[|bbs| - 1], bbEnd);
    bbs := bbs + [bbEnd];
  }

  lemma NoJumpBefore(p: Program, from: nat, to: nat, insns: seq<Ins>, x: nat)
    requires from <= to <= |p| && insns == p[from..to] && x <= |insns|
    requires forall i :: 0 <= i < x ==> !insns[i].jump
    ensures forall i :: from <= i < from + x ==> !p[i].jump
    ensures x < |insns| ==> p[from + x] == insns[x]
  {
    forall i | from <= i < from + x ensures !p[i].jump {
      assert p[i] == insns[i - from];
    }
  }

  /** The position of a block's first jump, if it has one. */
  method FirstJump(p: Program, ghost cuts: seq<nat>, ghost b: nat, insns: seq<Ins>) returns (x: nat)
    requires WellFormed(p) && Cuts(p, cuts) && b < |cuts| && cuts[b] < EndOf(p, cuts, b) <= |p|
    requires insns == p[cuts[b]..EndOf(p, cuts, b)]
    ensures x <= |insns| && forall i :: 0 <= i < x ==> !insns[i].jump
    ensures x < |insns| ==> insns[x].jump && IsExit(p, cuts[b], cuts[b] + x)
    ensures x == |insns| ==> IsExit(p, cuts[b], EndOf(p, cuts, b) - 1)
    ensures x < |insns| ==> p[cuts[b] + x] == insns[x]
    ensures p[EndOf(p, cuts, b) - 1] == insns[|insns| - 1]
  {
    x := 0;
    while x < |insns| && !insns[x].jump
      invariant 0 <= x <= |insns| && forall i :: 0 <= i < x ==> !insns[i].jump
    {
      x := x + 1;
    }
    NoJumpBefore(p, cuts[b], EndOf(p, cuts, b), insns, x);
    ExitAt(p, cuts, b, if x < |insns| then cuts[b] + x else EndOf(p, cuts, b) - 1);
  }

  /** A block's first jump is its exit; if it has none, its last instruction is. */
  lemma ExitAt(p: Program, cuts: seq<nat>, b: nat, x: nat)
    requires WellFormed(p) && Cuts(p, cuts) && InBlock(p, cuts, b, x) && x < |p|
    requires forall i :: cuts[b] <= i < x ==> !p[i].jump
    requires p[x].jump || x + 1 == EndOf(p, cuts, b)
    ensures IsExit(p, cuts[b], x)
  {
    BlockOfLeader(p, cuts, b, x);
    DeadIffJumpFound(p, cuts, b, x);
    if x + 1 < |p| && x + 1 == EndOf(p, cuts, b) {
      assert cuts[b + 1] in cuts;
    }
  }

  /** What follows a block's exit in the block is dead. */
  lemma DeadAfterExit(p: Program, l: nat, x: nat, y: nat)
    requires WellFormed(p) && IsExit(p, l, x) && x < y < |p| && LeaderOf(p, y) == l
    ensures Dead(p, y)
  {
    assert JumpsEarlier(p, x, y);
  }

  lemma ExitIsUnique(p: Program, l: nat, x: nat, y: nat)
    requires WellFormed(p) && IsExit(p, l, x) && IsExit(p, l, y)
    ensures x == y
  {
    if x < y {
      DeadAfterExit(p, l, x, y);
    } else if y < x {
      DeadAfterExit(p, l, y, x);
    }
  }

  /** The block an instruction lies in, by the position of its leader among the leaders. */
  lemma {:induction false} BlockAt(p: Program, cuts: seq<nat>, bbs: seq<BasicBlock>, i: nat, n: nat) returns (c: nat)
    requires WellFormed(p) && Cuts(p, cuts) && Built(p, cuts, bbs) && i < |p|
    requires 0 < n <= |cuts| && (n < |cuts| ==> i < cuts[n])
    ensures InBlock(p, cuts, c, i) && p[i].bb == bbs[c + 1] && LeaderOf(p, i) == cuts[c]
  {
    c := n - 1;
    FirstCut(p, cuts);
    if cuts[c] <= i {
      assert Filled(p, cuts, bbs, c, EndOf(p, cuts, c));
      BlockOfLeader(p, cuts, c, i);
    } else {
      c := BlockAt(p, cuts, bbs, i, c);
    }
  }

  /** Block `c + 1` is entered by stepping from instruction `x`. */
  ghost predicate EnteredFrom(p: Program, cuts: seq<nat>, x: nat, c: nat)
    requires WellFormed(p) && x < |p| && c < |cuts|
  {
    exists j :: Steps(p, x, j) && LandsIn(p, j, cuts[c])
  }

  lemma EdgeFromExit(p: Program, cuts: seq<nat>, b: nat, x: nat, c: nat)
    requires WellFormed(p) && b < |cuts| && c < |cuts| && IsExit(p, cuts[b], x)
    ensures BlockEdge(p, cuts[b], cuts[c]) <==> EnteredFrom(p, cuts, x, c)
  {
    if BlockEdge(p, cuts[b], cuts[c]) {
      var y, j :| IsExit(p, cuts[b], y) && Steps(p, y, j) && LandsIn(p, j, cuts[c]);
      ExitIsUnique(p, cuts[b], x, y);
    }
  }

  lemma EnteredFromEither(p: Program, cuts: seq<nat>, x: nat, j: nat, c: nat, j': nat, c': nat, d: nat)
    requires WellFormed(p) && Cuts(p, cuts) && x < |p| && c < |cuts| && c' < |cuts| && d < |cuts|
    requires LandsIn(p, j, cuts[c]) && LandsIn(p, j', cuts[c'])
    requires forall i: nat :: Steps(p, x, i) <==> i == j || i == j'
    ensures EnteredFrom(p, cuts, x, d) <==> d == c || d == c'
  {
    assert Steps(p, x, j) && Steps(p, x, j');
    if EnteredFrom(p, cuts, x, d) {
      var i: nat :| Steps(p, x, i) && LandsIn(p, i, cuts[d]);
      CutsDiffer(p, cuts, d, if i == j then c else c');
    }
  }

  /** A block that is left by one step, or by two. */
  lemma EdgesOfExit(p: Program, cuts: seq<nat>, b: nat, x: nat, j: nat, c: nat, j': nat, c': nat)
    requires WellFormed(p) && Cuts(p, cuts) && b < |cuts| && c < |cuts| && c' < |cuts|
    requires IsExit(p, cuts[b], x) && LandsIn(p, j, cuts[c]) && LandsIn(p, j', cuts[c'])
    requires forall i: nat :: Steps(p, x, i) <==> i == j || i == j'
    ensures Entered(p, cuts, b) == {c, c'}
  {
    forall d: nat | d < |cuts| ensures BlockEdge(p, cuts[b], cuts[d]) <==> d == c || d == c' {
      EdgeFromExit(p, cuts, b, x, d);
      EnteredFromEither(p, cuts, x, j, c, j', c', d);
    }
  }

  lemma NothingAfterLast(p: Program, cuts: seq<nat>, b: nat, x: nat)
    requires WellFormed(p) && b < |cuts| && IsExit(p, cuts[b], x) && forall i: nat :: !Steps(p, x, i)
    ensures Entered(p, cuts, b) == {}
  {
    forall d: nat | d < |cuts| ensures !BlockEdge(p, cuts[b], cuts[d]) {
      EdgeFromExit(p, cuts, b, x, d);
    }
  }

  lemma EdgesToPair(bbs: seq<BasicBlock>, b: nat, c: nat, c': nat, e: Edges)
    requires Numbered(bbs) && b + 1 < |bbs| && c + 1 < |bbs| && c' + 1 < |bbs|
    ensures e + EdgesTo(b, {c, c'}) == WithEdge(WithEdge(e, bbs[b + 1], bbs[c + 1]), bbs[b + 1], bbs[c' + 1])
    ensures c == c' ==> e + EdgesTo(b, {c, c'}) == WithEdge(e, bbs[b + 1], bbs[c + 1])
  {
    assert EdgesTo(b, {c, c'}) == {(b + 1, c + 1), (b + 1, c' + 1)};
  }

  /** `e` with an edge to `next`, unless that is null. */
  ghost function WithEdge(e: Edges, bb: BasicBlock, next: BasicBlock?): Edges {
    if next == null then e else e + {(bb.id, next.id)}
  }

  /** The edges of a block that is left by one step, or by two. */
  lemma ExitEdges(p: Program, cuts: seq<nat>, bbs: seq<BasicBlock>, b: nat, x: nat, j: nat, c: nat, j': nat, c': nat,
                  e: Edges)
    requires WellFormed(p) && Cuts(p, cuts) && b < |cuts| && c < |cuts| && c' < |cuts|
    requires |bbs| == |cuts| + 2 && Numbered(bbs)
    requires IsExit(p, cuts[b], x) && LandsIn(p, j, cuts[c]) && LandsIn(p, j', cuts[c'])
    requires forall i: nat :: Steps(p, x, i) <==> i == j || i == j'
    ensures WithEdge(WithEdge(e, bbs[b + 1], bbs[c + 1]), bbs[b + 1], bbs[c' + 1])
      == e + EdgesTo(b, Entered(p, cuts, b))
    ensures c == c' ==> WithEdge(e, bbs[b + 1], bbs[c + 1]) == e + EdgesTo(b, Entered(p, cuts, b))
  {
    EdgesOfExit(p, cuts, b, x, j, c, j', c');
    EdgesToPair(bbs, b, c, c', e);
  }

  /** A jump leads to its target's block and, if conditional, to the next instruction's. */
  method JumpNeighbours(p: Program, m: OffsetMap, ghost cuts: seq<nat>, ghost bbs: seq<BasicBlock>, ghost b: nat,
                        ghost x: nat, ins: Ins, ghost e: Edges)
    returns (next: BasicBlock?, target: BasicBlock)
    requires WellFormed(p) && Indexes(m, p) && Cuts(p, cuts) && Built(p, cuts, bbs) && b < |cuts|
    requires IsExit(p, cuts[b], x) && ins == p[x] && ins.jump
    ensures target in bbs && (next != null ==> next in bbs)
    ensures (if next == null then [] else [next]) + [target] == Ways(p, x)
    ensures WithEdge(WithEdge(e, bbs[b + 1], next), bbs[b + 1], target) == e + EdgesTo(b, Entered(p, cuts, b))
  {
    ghost var t := Target(p, x);
    ghost var c := BlockAt(p, cuts, bbs, t, |cuts|);
    InsAtTarget(m, p, x);
    var jumpTarget := m[ins.JumpTarget()];
    next, target := null, jumpTarget.bb;
    if ins.conditionalJump {
      next := BlockOfNext(p, m, x, ins);
      ghost var d := BlockAt(p, cuts, bbs, x + 1, |cuts|);
      ExitEdges(p, cuts, bbs, b, x, x + 1, d, t, c, e);
    } else {
      ExitEdges(p, cuts, bbs, b, x, t, c, t, c, e);
    }
  }

  /** The block of the instruction after a conditional jump. */
  method BlockOfNext(p: Program, m: OffsetMap, ghost x: nat, ins: Ins) returns (bb: BasicBlock?)
    requires WellFormed(p) && Indexes(m, p) && x < |p| && ins == p[x] && ins.jump && ins.conditionalJump
    ensures x + 1 < |p| && bb == p[x + 1].bb
  {
    assert Plain(p, x);
    NextIns(m, p, x);
    var nextInst := m[ins.offset + ins.size];
    bb := nextInst.bb;
  }

  /** The block of the instruction that control falls through to, if there is one. */
  method NextBlock(p: Program, m: OffsetMap, ghost x: nat, ins: Ins) returns (bb: BasicBlock?)
    requires WellFormed(p) && Indexes(m, p) && x < |p| && ins == p[x]
    ensures bb == if x + 1 < |p| then p[x + 1].bb else null
  {
    bb := null;
    assert Plain(p, x);
    SamePositions(p, if x + 1 < |p| then x + 1 else x, |p| - 1);
    if ins.offset + ins.size <= p[|p| - 1].offset {
      NextIns(m, p, x);
      var nextInst := m[ins.offset + ins.size];
      bb := nextInst.bb;
    }
  }

  /** Without a jump a block leads to the block of the next instruction, if there is one. */
  lemma NextNeighbour(p: Program, cuts: seq<nat>, bbs: seq<BasicBlock>, b: nat, x: nat, next: BasicBlock?, e: Edges)
    requires WellFormed(p) && Cuts(p, cuts) && Built(p, cuts, bbs) && b < |cuts|
    requires IsExit(p, cuts[b], x) && !p[x].jump && next == if x + 1 < |p| then p[x + 1].bb else null
    ensures next != null ==> next in bbs
    ensures Ways(p, x) == if next == null then [] else [next]
    ensures WithEdge(e, bbs[b + 1], next) == e + EdgesTo(b, Entered(p, cuts, b))
  {
    if x + 1 < |p| {
      var d := BlockAt(p, cuts, bbs, x + 1, |cuts|);
      ExitEdges(p, cuts, bbs, b, x, x + 1, d, x + 1, d, e);
    } else {
      NothingAfterLast(p, cuts, b, x);
      assert e + EdgesTo(b, {}) == e;
    }
  }

  method Link(bb: BasicBlock, next: BasicBlock?, target: BasicBlock, ghost u: set<BasicBlock>, ghost e: Edges)
    requires Mirror(u) && Draws(u, e) && bb in u && target in u && (next != null ==> next in u)
    modifies bb`successors, u`predecessors
    ensures bb.successors == old(bb.successors) + (if next == null then [] else [next]) + [target]
    ensures Mirror(u) && Draws(u, WithEdge(WithEdge(e, bb, next), bb, target))
  {
    if next != null {
      AddEdge(bb, next, u, e);
    }
    AddEdge(bb, target, u, WithEdge(e, bb, next));
  }

  method ConnectByJump(p: Program, m: OffsetMap, ghost cuts: seq<nat>, ghost bbs: seq<BasicBlock>, ghost b: nat,
                       ghost x: nat, bb: BasicBlock, ins: Ins, ghost u: set<BasicBlock>, ghost e: Edges)
    requires WellFormed(p) && Indexes(m, p) && Cuts(p, cuts) && Built(p, cuts, bbs) && b < |cuts| && bb == bbs[b + 1]
    requires u == SetOf(bbs) && Mirror(u) && Draws(u, e) && IsExit(p, cuts[b], x) && ins == p[x] && ins.jump
    modifies bb`successors, u`predecessors
    ensures bb.successors == old(bb.successors) + Ways(p, x)
    ensures Mirror(u) && Draws(u, e + EdgesTo(b, Entered(p, cuts, b)))
  {
    var next, target := JumpNeighbours(p, m, cuts, bbs, b, x, ins, e);
    Link(bb, next, target, u, e);
  }

  method ConnectToNext(p: Program, m: OffsetMap, ghost cuts: seq<nat>, ghost bbs: seq<BasicBlock>, ghost b: nat,
                       ghost x: nat, bb: BasicBlock, ins: Ins, ghost u: set<BasicBlock>, ghost e: Edges)
    requires WellFormed(p) && Indexes(m, p) && Cuts(p, cuts) && Built(p, cuts, bbs) && b < |cuts| && bb == bbs[b + 1]
    requires u == SetOf(bbs) && Mirror(u) && Draws(u, e) && IsExit(p, cuts[b], x) && ins == p[x] && !ins.jump
    modifies bb`successors, u`predecessors
    ensures bb.successors == old(bb.successors) + Ways(p, x)
    ensures Mirror(u) && Draws(u, e + EdgesTo(b, Entered(p, cuts, b)))
  {
    var next := NextBlock(p, m, x, ins);
    NextNeighbour(p, cuts, bbs, b, x, next, e);
    assert bb.successors + [] == bb.successors;
    if next != null {
      AddEdge(bb, next, u, e);
    }
  }

  /** Connect a block by its first jump or, without one, to the next block. */
  method ConnectBlock(p: Program, m: OffsetMap, ghost cuts: seq<nat>, ghost bbs: seq<BasicBlock>, ghost b: nat,
                      bb: BasicBlock, ghost u: set<BasicBlock>, ghost e: Edges)
    returns (ghost x: nat)
    requires WellFormed(p) && Indexes(m, p) && Cuts(p, cuts) && Built(p, cuts, bbs) && b < |cuts| && bb == bbs[b + 1]
    requires u == SetOf(bbs) && Mirror(u) && Draws(u, e)
    modifies bb`successors, u`predecessors
    ensures IsExit(p, cuts[b], x) && bb.successors == old(bb.successors) + Ways(p, x)
    ensures Mirror(u) && Draws(u, e + EdgesTo(b, Entered(p, cuts, b)))
  {
    var insns := bb.insns;
    BlockIsNotEmpty(p, cuts, b);
    assert Filled(p, cuts, bbs, b, EndOf(p, cuts, b));
    var k := FirstJump(p, cuts, b, insns);
    if k < |insns| {
      x := cuts[b] + k;
      ConnectByJump(p, m, cuts, bbs, b, x, bb, insns[k], u, e);
    } else {
      x := EndOf(p, cuts, b) - 1;
      ConnectToNext(p, m, cuts, bbs, b, x, bb, insns[|insns| - 1], u, e);
    }
  }

  /** The successors of block `b`, once the blocks before `k` are connected. */
  ghost predicate Listed(p: Program, cuts: seq<nat>, bbs: seq<BasicBlock>, b: nat, k: nat)
    requires WellFormed(p) && b < |bbs| == |cuts| + 2
    reads {bbs[b]}`successors, p`bb
  {
    if 0 < b <= |cuts| && b < k then LeadsOut(p, cuts, bbs, b - 1) else FrameDrawn(bbs, b)
  }

  /** The first `k` blocks are connected. */
  ghost predicate Connecting(rows: Rows, u: set<BasicBlock>, k: nat)
    reads u`successors, u`predecessors
  {
    Mirror(u) && Draws(u, DrawnUpTo(rows, k))
  }

  lemma LeadsWhereExitDoes(p: Program, cuts: seq<nat>, bbs: seq<BasicBlock>, b: nat, x: nat)
    requires WellFormed(p) && b < |cuts| && |bbs| == |cuts| + 2 && IsExit(p, cuts[b], x)
    requires bbs[b + 1].successors == FrameSuccessors(bbs, b + 1) + Ways(p, x)
    ensures LeadsOut(p, cuts, bbs, b)
  {
  }

  /** Connect a block, unless it is the start or the end block. */
  method ConnectIfValid(p: Program, m: OffsetMap, ghost cuts: seq<nat>, ghost bbs: seq<BasicBlock>, ghost k: nat,
                        bb: BasicBlock, ghost u: set<BasicBlock>, ghost rows: Rows)
    requires WellFormed(p) && Indexes(m, p) && Cuts(p, cuts) && Built(p, cuts, bbs) && k < |bbs| && bb == bbs[k]
    requires u == SetOf(bbs) && rows == RowsOf(p, cuts) && Connecting(rows, u, k)
    requires FrameDrawn(bbs, k)
    modifies bb`successors, u`predecessors
    ensures Connecting(rows, u, k + 1)
    ensures if 0 < k <= |cuts| then LeadsOut(p, cuts, bbs, k - 1) else FrameDrawn(bbs, k)
  {
    OneMoreBlock(rows, k);
    if bb.valid {
      ghost var x := ConnectBlock(p, m, cuts, bbs, k - 1, bb, u, DrawnUpTo(rows, k));
      LeadsWhereExitDoes(p, cuts, bbs, k - 1, x);
    }
  }

  method ConnectNth(p: Program, m: OffsetMap, ghost cuts: seq<nat>, ghost bbs: seq<BasicBlock>, ghost k: nat,
                    bb: BasicBlock, ghost u: set<BasicBlock>, ghost rows: Rows)
    returns (ghost next: nat)
    requires WellFormed(p) && Indexes(m, p) && Cuts(p, cuts) && Built(p, cuts, bbs) && k < |bbs| && bb == bbs[k]
    requires u == SetOf(bbs) && rows == RowsOf(p, cuts) && Connecting(rows, u, k)
    requires forall b :: 0 <= b < |bbs| ==> Listed(p, cuts, bbs, b, k)
    modifies bb`successors, u`predecessors
    ensures next == k + 1 && Connecting(rows, u, next)
    ensures forall b :: 0 <= b < |bbs| ==> Listed(p, cuts, bbs, b, next)
  {
    next := k + 1;
    assert Listed(p, cuts, bbs, k, k);
    ConnectIfValid(p, m, cuts, bbs, k, bb, u, rows);
    forall b | 0 <= b < |bbs| && b != k ensures Listed(p, cuts, bbs, b, next) {
      assert old(Listed(p, cuts, bbs, b, k)) && bbs[b].id != bb.id;
    }
  }

  /** Draw the edges of all valid blocks. */
  method ConnectBlocks(p: Program, m: OffsetMap, ghost cuts: seq<nat>, bbs: seq<BasicBlock>, ghost u: set<BasicBlock>)
    requires WellFormed(p) && Indexes(m, p) && Cuts(p, cuts) && Built(p, cuts, bbs)
    requires u == SetOf(bbs) && Mirror(u) && Draws(u, FrameEdges(|cuts|))
    requires forall b :: 0 <= b < |bbs| ==> FrameDrawn(bbs, b)
    modifies u`successors, u`predecessors
    ensures Mirror(u) && Draws(u, CfgEdges(p, cuts))
    ensures bbs[0].successors == [bbs[1]] && bbs[|cuts| + 1].successors == []
    ensures forall b :: 0 <= b < |cuts| ==> LeadsOut(p, cuts, bbs, b)
  {
    ghost var rows := RowsOf(p, cuts);
    NothingDrawn(rows);
    for k := 0 to |bbs|
      invariant Connecting(rows, u, k)
      invariant forall b :: 0 <= b < |bbs| ==> Listed(p, cuts, bbs, b, k)
    {
      ghost var next := ConnectNth(p, m, cuts, bbs, k, bbs[k], u, rows);
    }
    AllDrawn(rows, |bbs|);
    assert Listed(p, cuts, bbs, 0, |bbs|) && Listed(p, cuts, bbs, |cuts| + 1, |bbs|);
    forall b | 0 <= b < |cuts| ensures LeadsOut(p, cuts, bbs, b) {
      assert Listed(p, cuts, bbs, b + 1, |bbs|);
    }
  }

  lemma AllDrawn(rows: Rows, k: nat)
    requires k > |rows|
    ensures DrawnUpTo(rows, k) == Graph(rows)
  {
  }

  /** The whole pass: the blocks hold the instructions between the leaders, exactly the dead ones are
      marked, and the edges, mirrored in both lists, are those of the block graph. */
  method Run(p: Program, m: OffsetMap) returns (bbs: seq<BasicBlock>, ghost cuts: seq<nat>)
    requires WellFormed(p) && Indexes(m, p) && forall ins :: ins in p ==> !ins.dead
    modifies p`bb, p`dead
    ensures Cuts(p, cuts) && Built(p, cuts, bbs) && AllNotAnalysed(bbs)
    ensures Mirror(SetOf(bbs)) && Draws(SetOf(bbs), CfgEdges(p, cuts))
    ensures bbs[0].successors == [bbs[1]] && bbs[|cuts| + 1].successors == []
    ensures forall b :: 0 <= b < |cuts| ==> LeadsOut(p, cuts, bbs, b)
    ensures forall b :: 0 <= b < |bbs| ==> fresh(bbs[b])
  {
    var leaders;
    leaders, cuts := FindLeaders(p, m);
    bbs := BuildBlocks(p, leaders, cuts);
    ConnectBlocks(p, m, cuts, bbs, SetOf(bbs));
  }
}

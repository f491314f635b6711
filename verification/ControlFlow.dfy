/** Control-flow construction: which instructions start blocks, which are dead, and how the blocks
    are connected, against instruction-level stepping. */
module ControlFlow {
  import opened IR
  import opened Paths

  type Program = seq<Ins>

  // ---------------------------------------------------------------- instruction level

  /** A decoded instruction stream: each instruction ends where the next one starts, jumps go to
      instructions, a conditional jump is a jump and never comes last. There are no try contexts. */
  ghost predicate WellFormed(p: Program) {
    && p != []
    && (forall i :: 0 <= i < |p| ==> Plain(p, i))
    && forall i, j :: 0 <= i < j < |p| ==> Before(p, i, j)
  }

  ghost predicate Plain(p: Program, i: nat)
    requires i < |p|
  {
    && 0 < p[i].size && (i + 1 < |p| ==> p[i].offset + p[i].size == p[i + 1].offset)
    && !p[i].tryContext
    && (p[i].conditionalJump ==> p[i].jump && i + 1 < |p|)
    && (p[i].jump ==> exists t :: IsTarget(p, i, t))
  }

  ghost predicate Before(p: Program, i: nat, j: nat)
    requires i < |p| && j < |p|
  {
    p[i].offset < p[j].offset
  }

  ghost predicate IsTarget(p: Program, i: nat, t: nat)
    requires i < |p|
  {
    t < |p| && p[t].offset == p[i].offset + p[i].branchOffset
  }

  ghost function Target(p: Program, i: nat): (t: nat)
    requires WellFormed(p) && i < |p| && p[i].jump
    ensures IsTarget(p, i, t)
  {
    assert Plain(p, i);
    var t: nat :| IsTarget(p, i, t); t
  }

  lemma TargetIsUnique(p: Program, i: nat, t: nat)
    requires WellFormed(p) && i < |p| && p[i].jump && IsTarget(p, i, t)
    ensures t == Target(p, i)
  {
    var t' := Target(p, i);
    assert (t < t' ==> Before(p, t, t')) && (t' < t ==> Before(p, t', t));
  }

  /** Instruction `i` can pass control to instruction `j`. */
  ghost predicate Steps(p: Program, i: nat, j: nat)
    requires WellFormed(p) && i < |p|
  {
    if p[i].jump then j == Target(p, i) || (p[i].conditionalJump && j == i + 1) else j == i + 1 < |p|
  }

  lemma StepsWithin(p: Program, i: nat, j: nat)
    requires WellFormed(p) && i < |p| && Steps(p, i, j)
    ensures j < |p|
  {
    assert Plain(p, i);
  }

  ghost function StepEdges(p: Program): Edges
    requires WellFormed(p)
  {
    set i: nat, j: nat | i < |p| && j < |p| && Steps(p, i, j) :: (i, j)
  }

  lemma StepIsEdge(p: Program, i: nat, j: nat)
    requires WellFormed(p) && i < |p|
    ensures (i, j) in StepEdges(p) <==> Steps(p, i, j)
  {
    if Steps(p, i, j) {
      StepsWithin(p, i, j);
    }
  }

  // ---------------------------------------------------------------- leaders, blocks, dead code

  /** As the pass collects them: the first instruction, and what the jumps other than the first
      instruction lead to. */
  ghost predicate IsLeader(p: Program, j: nat)
    requires WellFormed(p)
  {
    j < |p| && (j == 0 || exists i :: LedToBy(p, i, j))
  }

  ghost predicate LedToBy(p: Program, i: nat, j: nat)
    requires WellFormed(p)
  {
    0 < i < |p| && p[i].jump && Steps(p, i, j)
  }

  /** The leader of the block that instruction `i` belongs to. */
  ghost function LeaderOf(p: Program, i: nat): (l: nat)
    requires WellFormed(p) && i < |p|
    ensures l <= i && IsLeader(p, l)
    ensures forall m :: l < m <= i ==> !IsLeader(p, m)
  {
    if i == 0 || IsLeader(p, i) then i else LeaderOf(p, i - 1)
  }

  lemma LeaderOfIsUnique(p: Program, i: nat, l: nat)
    requires WellFormed(p) && l <= i < |p| && IsLeader(p, l)
    requires forall m :: l < m <= i ==> !IsLeader(p, m)
    ensures LeaderOf(p, i) == l
  {
  }

  /** An earlier instruction of the same block is a jump. */
  ghost predicate Dead(p: Program, i: nat)
    requires WellFormed(p) && i < |p|
  {
    exists j :: JumpsEarlier(p, j, i)
  }

  ghost predicate JumpsEarlier(p: Program, j: nat, i: nat)
    requires WellFormed(p) && i < |p|
  {
    LeaderOf(p, i) <= j < i && p[j].jump
  }

  /** `x` is the last live instruction of the block led by `l`: its first jump, or its end. */
  ghost predicate IsExit(p: Program, l: nat, x: nat)
    requires WellFormed(p)
  {
    && x < |p| && LeaderOf(p, x) == l && !Dead(p, x)
    && (p[x].jump || x + 1 == |p| || IsLeader(p, x + 1))
  }

  /** The edge the pass draws from the block led by `l` to the block led by `m`: the first jump of
      the block leads to the blocks its target and, if conditional, its successor lie in; without a
      jump the block falls through to the next one. */
  ghost predicate BlockEdge(p: Program, l: nat, m: nat)
    requires WellFormed(p)
  {
    exists x, j :: IsExit(p, l, x) && Steps(p, x, j) && LandsIn(p, j, m)
  }

  ghost predicate LandsIn(p: Program, j: nat, m: nat)
    requires WellFormed(p)
  {
    j < |p| && LeaderOf(p, j) == m
  }

  ghost predicate LandsInOne(p: Program, j: nat, q: seq<nat>)
    requires WellFormed(p)
  {
    j < |p| && LeaderOf(p, j) in q
  }

  // ---------------------------------------------------------------- exactness

  /** Control moves on within a block, or from the last live instruction of a block to the first
      instruction of a block. */
  ghost predicate EntersAtLeaders(p: Program)
    requires WellFormed(p)
  {
    forall i: nat, j: nat {:trigger Regular(p, i, j)} :: i < |p| && !Dead(p, i) && Steps(p, i, j) ==> Regular(p, i, j)
  }

  ghost predicate Regular(p: Program, i: nat, j: nat)
    requires WellFormed(p) && i < |p|
  {
    || (!p[i].jump && j == i + 1 < |p| && !IsLeader(p, j))
    || (IsExit(p, LeaderOf(p, i), i) && IsLeader(p, j))
  }

  /** The edges are those of the last live instructions. */
  ghost predicate EdgesAreSteps(p: Program)
    requires WellFormed(p)
  {
    forall l: nat, m: nat :: IsLeader(p, l) && IsLeader(p, m) ==> (BlockEdge(p, l, m) <==> ExitSteps(p, l, m))
  }

  ghost predicate ExitSteps(p: Program, l: nat, m: nat)
    requires WellFormed(p)
  {
    exists x :: IsExit(p, l, x) && Steps(p, x, m)
  }

  ghost function BlockEdges(p: Program): Edges
    requires WellFormed(p)
  {
    set l: nat, m: nat | l < |p| && m < |p| && IsLeader(p, l) && IsLeader(p, m) && BlockEdge(p, l, m) :: (l, m)
  }

  /** What executes is what is not dead and lies in a block that can be reached. */
  ghost predicate ReachabilityAgrees(p: Program)
    requires WellFormed(p)
  {
    forall i: nat :: i < |p| ==>
      (Reaches(StepEdges(p), 0, i) <==> !Dead(p, i) && Reaches(BlockEdges(p), 0, LeaderOf(p, i)))
  }

  ghost predicate Exact(p: Program)
    requires WellFormed(p)
  {
    EntersAtLeaders(p) && EdgesAreSteps(p) && ReachabilityAgrees(p)
  }

  /** If the first instruction is a jump, what it leads to must be a leader for another reason:
      the collection of leaders passes over it. */
  ghost predicate FirstJumpCovered(p: Program)
    requires WellFormed(p)
  {
    p[0].jump ==> forall j: nat :: Steps(p, 0, j) ==> IsLeader(p, j)
  }

  lemma LeaderIsLive(p: Program, l: nat)
    requires WellFormed(p) && IsLeader(p, l)
    ensures LeaderOf(p, l) == l && !Dead(p, l)
  {
  }

  lemma CoveredEntersAtLeaders(p: Program)
    requires WellFormed(p) && FirstJumpCovered(p)
    ensures EntersAtLeaders(p)
  {
    forall i: nat, j: nat | i < |p| && !Dead(p, i) && Steps(p, i, j) ensures Regular(p, i, j) {
      StepsWithin(p, i, j);
      if p[i].jump {
        assert 0 < i ==> LedToBy(p, i, j);
      }
    }
  }

  lemma ExitEntersLeader(p: Program, l: nat, x: nat, j: nat)
    requires WellFormed(p) && EntersAtLeaders(p) && IsExit(p, l, x) && Steps(p, x, j)
    ensures IsLeader(p, j) && LeaderOf(p, j) == j
  {
    assert Regular(p, x, j);
    LeaderIsLive(p, j);
  }

  lemma EdgesFollowSteps(p: Program)
    requires WellFormed(p) && EntersAtLeaders(p)
    ensures EdgesAreSteps(p)
  {
    forall l: nat, m: nat | IsLeader(p, l) && IsLeader(p, m) ensures BlockEdge(p, l, m) <==> ExitSteps(p, l, m) {
      if BlockEdge(p, l, m) {
        var x, j :| IsExit(p, l, x) && Steps(p, x, j) && LandsIn(p, j, m);
        ExitEntersLeader(p, l, x, j);
      }
      if ExitSteps(p, l, m) {
        var x :| IsExit(p, l, x) && Steps(p, x, m);
        LeaderIsLive(p, m);
        assert LandsIn(p, m, m);
      }
    }
  }

  /** Within a block, an instruction is dead if its predecessor is dead or a jump. */
  lemma DeadFromPrevious(p: Program, i: nat)
    requires WellFormed(p) && 0 < i < |p| && !IsLeader(p, i)
    ensures LeaderOf(p, i) == LeaderOf(p, i - 1)
    ensures Dead(p, i) <==> Dead(p, i - 1) || p[i - 1].jump
  {
    var h := i - 1;
    if Dead(p, i) {
      var j :| JumpsEarlier(p, j, i);
      assert j != h ==> JumpsEarlier(p, j, h);
    }
    if Dead(p, h) {
      var j :| JumpsEarlier(p, j, h);
      assert JumpsEarlier(p, j, i);
    }
    if p[h].jump {
      assert JumpsEarlier(p, h, i);
    }
  }

  /** From a block's first instruction control can reach all its live instructions. */
  lemma {:induction false} LiveWithinBlock(p: Program, l: nat, i: nat) returns (t: seq<nat>)
    requires WellFormed(p) && i < |p| && LeaderOf(p, i) == l && !Dead(p, i)
    ensures PathFromTo(StepEdges(p), l, i, t)
    ensures forall j :: j in t ==> LandsIn(p, j, l)
    decreases i
  {
    if i == l {
      t := [l];
    } else {
      DeadFromPrevious(p, i);
      t := LiveWithinBlock(p, l, i - 1);
      assert (i - 1, i) in StepEdges(p);
      EdgeExtendsPath(StepEdges(p), t, i);
      t := t + [i];
    }
  }

  /** A path of blocks can be executed, without leaving these blocks. */
  lemma {:induction false} BlockPathExecutes(p: Program, q: seq<nat>) returns (t: seq<nat>)
    requires WellFormed(p) && EdgesAreSteps(p) && IsPath(BlockEdges(p), q) && q[0] == 0
    ensures PathFromTo(StepEdges(p), 0, q[|q| - 1], t) && IsLeader(p, q[|q| - 1])
    ensures forall i :: i in t ==> LandsInOne(p, i, q)
    decreases |q|
  {
    if |q| == 1 {
      t := [0];
    } else {
      var k := |q| - 2;
      PrefixIsPath(BlockEdges(p), q, k);
      t := BlockPathExecutes(p, q[..k + 1]);
      assert (q[k], q[k + 1]) in BlockEdges(p);
      t := BlockEdgeExecutes(p, q[k], q[k + 1], t);
    }
  }

  /** Extend an execution from the first instruction of one block to that of the next. */
  lemma BlockEdgeExecutes(p: Program, l: nat, m: nat, t: seq<nat>) returns (t': seq<nat>)
    requires WellFormed(p) && EdgesAreSteps(p) && (l, m) in BlockEdges(p)
    requires PathFromTo(StepEdges(p), 0, l, t)
    ensures PathFromTo(StepEdges(p), 0, m, t') && IsLeader(p, m) && LeaderOf(p, m) == m
    ensures forall i :: i in t' ==> i in t || LandsIn(p, i, l) || i == m
  {
    assert BlockEdge(p, l, m) && ExitSteps(p, l, m);
    var x: nat :| IsExit(p, l, x) && Steps(p, x, m);
    LeaderIsLive(p, m);
    StepIsEdge(p, x, m);
    var within := LiveWithinBlock(p, l, x);
    t' := JoinAndExtend(StepEdges(p), t, within, m);
  }

  lemma ExitDrawsEdge(p: Program, i: nat, j: nat)
    requires WellFormed(p) && i < |p| && IsExit(p, LeaderOf(p, i), i) && Steps(p, i, j) && IsLeader(p, j)
    ensures (LeaderOf(p, i), j) in BlockEdges(p)
  {
    LeaderIsLive(p, j);
    assert LandsIn(p, j, j) && BlockEdge(p, LeaderOf(p, i), j);
  }

  /** A step of execution stays within a block or follows an edge to the first instruction of one. */
  lemma StepFollowsBlocks(p: Program, i: nat, j: nat)
    requires WellFormed(p) && EntersAtLeaders(p) && i < |p| && !Dead(p, i) && Steps(p, i, j)
    ensures j < |p| && !Dead(p, j)
    ensures LeaderOf(p, j) == LeaderOf(p, i) || (LeaderOf(p, j) == j && (LeaderOf(p, i), j) in BlockEdges(p))
  {
    assert Regular(p, i, j);
    if IsLeader(p, j) && IsExit(p, LeaderOf(p, i), i) {
      LeaderIsLive(p, j);
      ExitDrawsEdge(p, i, j);
    } else {
      DeadFromPrevious(p, j);
    }
  }

  /** An execution follows a path of blocks whose first instructions it executes. */
  lemma {:induction false} ExecutionFollowsBlocks(p: Program, t: seq<nat>) returns (q: seq<nat>)
    requires WellFormed(p) && EntersAtLeaders(p) && IsPath(StepEdges(p), t) && t[0] == 0
    ensures t[|t| - 1] < |p| && !Dead(p, t[|t| - 1])
    ensures PathFromTo(BlockEdges(p), 0, LeaderOf(p, t[|t| - 1]), q)
    ensures forall l :: l in q ==> l in t
    decreases |t|
  {
    if |t| == 1 {
      q := [0];
    } else {
      var k := |t| - 2;
      PrefixIsPath(StepEdges(p), t, k);
      q := ExecutionFollowsBlocks(p, t[..k + 1]);
      var i, j := t[k], t[k + 1];
      assert (i, j) in StepEdges(p);
      StepFollowsBlocks(p, i, j);
      if LeaderOf(p, j) != LeaderOf(p, i) {
        EdgeExtendsPath(BlockEdges(p), q, j);
        q := q + [j];
      }
    }
  }

  lemma ReachabilityFollows(p: Program)
    requires WellFormed(p) && EntersAtLeaders(p) && EdgesAreSteps(p)
    ensures ReachabilityAgrees(p)
  {
    forall i: nat | i < |p|
      ensures Reaches(StepEdges(p), 0, i) <==> !Dead(p, i) && Reaches(BlockEdges(p), 0, LeaderOf(p, i))
    {
      if Reaches(StepEdges(p), 0, i) {
        var t :| PathFromTo(StepEdges(p), 0, i, t);
        var q := ExecutionFollowsBlocks(p, t);
      }
      if !Dead(p, i) && Reaches(BlockEdges(p), 0, LeaderOf(p, i)) {
        var q :| PathFromTo(BlockEdges(p), 0, LeaderOf(p, i), q);
        var t := BlockPathExecutes(p, q);
        var within := LiveWithinBlock(p, LeaderOf(p, i), i);
        JoinPaths(StepEdges(p), t, within);
      }
    }
  }

  /** The block graph is exact if and only if a jump in first position leads to leaders. */
  lemma ExactIffFirstJumpCovered(p: Program)
    requires WellFormed(p)
    ensures Exact(p) <==> FirstJumpCovered(p)
  {
    if FirstJumpCovered(p) {
      CoveredEntersAtLeaders(p);
      EdgesFollowSteps(p);
      ReachabilityFollows(p);
    }
    if Exact(p) && p[0].jump {
      forall j: nat | Steps(p, 0, j) ensures IsLeader(p, j) {
        LeaderIsLive(p, 0);
        assert Regular(p, 0, j);
      }
    }
  }

  // ---------------------------------------------------------------- edges and reachability alone

  /** A conditional first jump leads into the middle of the block of the second instruction, to where
      control comes from there as well. */
  ghost predicate FirstJumpRejoins(p: Program)
    requires WellFormed(p)
  {
    p[0].conditionalJump && p[0].jump && IsLeader(p, 1)
    && LeaderOf(p, Target(p, 0)) == 1 && !Dead(p, Target(p, 0))
  }

  /** Execution moves on within a block or along an edge, and meets nothing that is dead. */
  ghost predicate StaysOnEdges(p: Program, i: nat, j: nat)
    requires WellFormed(p) && i < |p|
  {
    j < |p| && !Dead(p, j) && (LeaderOf(p, j) == LeaderOf(p, i) || (LeaderOf(p, i), LeaderOf(p, j)) in BlockEdges(p))
  }

  lemma LaterJumpEnters(p: Program, i: nat, j: nat)
    requires WellFormed(p) && 0 < i < |p| && !Dead(p, i) && Steps(p, i, j)
    ensures StaysOnEdges(p, i, j)
  {
    StepsWithin(p, i, j);
    if p[i].jump {
      assert LedToBy(p, i, j);
    }
    if IsLeader(p, j) {
      LeaderIsLive(p, j);
      ExitDrawsEdge(p, i, j);
    } else {
      DeadFromPrevious(p, j);
    }
  }

  lemma RejoiningJumpEnters(p: Program, j: nat)
    requires WellFormed(p) && FirstJumpRejoins(p) && Steps(p, 0, j)
    ensures StaysOnEdges(p, 0, j)
  {
    StepsWithin(p, 0, j);
    LeaderIsLive(p, 0);
    LeaderIsLive(p, 1);
    assert Steps(p, 0, 1);
    ExitDrawsEdge(p, 0, 1);
  }

  lemma {:induction false} ExecutionStaysOnEdges(p: Program, t: seq<nat>) returns (q: seq<nat>)
    requires WellFormed(p) && FirstJumpRejoins(p) && IsPath(StepEdges(p), t) && t[0] == 0
    ensures t[|t| - 1] < |p| && !Dead(p, t[|t| - 1]) && PathFromTo(BlockEdges(p), 0, LeaderOf(p, t[|t| - 1]), q)
    decreases |t|
  {
    if |t| == 1 {
      q := [0];
    } else {
      var k := |t| - 2;
      PrefixIsPath(StepEdges(p), t, k);
      q := ExecutionStaysOnEdges(p, t[..k + 1]);
      var i, j := t[k], t[k + 1];
      assert (i, j) in StepEdges(p);
      if i == 0 {
        RejoiningJumpEnters(p, j);
      } else {
        LaterJumpEnters(p, i, j);
      }
      if LeaderOf(p, j) != LeaderOf(p, i) {
        EdgeExtendsPath(BlockEdges(p), q, LeaderOf(p, j));
        q := q + [LeaderOf(p, j)];
      }
    }
  }

  lemma RejoiningKeepsEdges(p: Program)
    requires WellFormed(p) && FirstJumpRejoins(p)
    ensures EdgesAreSteps(p)
  {
    forall l: nat, m: nat | IsLeader(p, l) && IsLeader(p, m) ensures BlockEdge(p, l, m) <==> ExitSteps(p, l, m) {
      LeaderIsLive(p, m);
      if BlockEdge(p, l, m) {
        var x, j :| IsExit(p, l, x) && Steps(p, x, j) && LandsIn(p, j, m);
        ExitLandsAtLeader(p, l, x, j, m);
      }
      if x :| IsExit(p, l, x) && Steps(p, x, m) {
        assert LandsIn(p, m, m);
      }
    }
  }

  lemma ExitLandsAtLeader(p: Program, l: nat, x: nat, j: nat, m: nat)
    requires WellFormed(p) && FirstJumpRejoins(p) && IsExit(p, l, x) && Steps(p, x, j) && LandsIn(p, j, m)
    ensures ExitSteps(p, l, m)
  {
    if x == 0 {
      assert Steps(p, 0, 1);
      LeaderIsLive(p, 1);
      assert m == 1 && Steps(p, 0, m);
    } else {
      assert p[x].jump ==> LedToBy(p, x, j);
      LeaderIsLive(p, j);
    }
  }

  lemma RejoiningKeepsReachability(p: Program)
    requires WellFormed(p) && FirstJumpRejoins(p) && EdgesAreSteps(p)
    ensures ReachabilityAgrees(p)
  {
    forall i: nat | i < |p|
      ensures Reaches(StepEdges(p), 0, i) <==> !Dead(p, i) && Reaches(BlockEdges(p), 0, LeaderOf(p, i))
    {
      if t :| PathFromTo(StepEdges(p), 0, i, t) {
        var q := ExecutionStaysOnEdges(p, t);
      }
      if !Dead(p, i) && Reaches(BlockEdges(p), 0, LeaderOf(p, i)) {
        var q :| PathFromTo(BlockEdges(p), 0, LeaderOf(p, i), q);
        var t := BlockPathExecutes(p, q);
        var within := LiveWithinBlock(p, LeaderOf(p, i), i);
        JoinPaths(StepEdges(p), t, within);
      }
    }
  }

  lemma FirstStepIsLive(p: Program, j: nat)
    requires WellFormed(p) && ReachabilityAgrees(p) && Steps(p, 0, j)
    ensures j < |p| && !Dead(p, j)
  {
    StepsWithin(p, 0, j);
    StepIsEdge(p, 0, j);
    assert PathFromTo(StepEdges(p), 0, j, [0, j]);
  }

  /** If the edges are right, an uncovered first jump must lead to the leader of its other target. */
  lemma UncoveredRejoins(p: Program, j: nat)
    requires WellFormed(p) && EdgesAreSteps(p) && ReachabilityAgrees(p) && p[0].jump
    requires Steps(p, 0, j) && !IsLeader(p, j)
    ensures FirstJumpRejoins(p)
  {
    FirstStepIsLive(p, j);
    LeaderIsLive(p, 0);
    var m := LeaderOf(p, j);
    assert IsExit(p, 0, 0) && LandsIn(p, j, m) && BlockEdge(p, 0, m) && ExitSteps(p, 0, m);
    var x :| IsExit(p, 0, x) && Steps(p, x, m);
    assert !JumpsEarlier(p, 0, x);
    assert !JumpsEarlier(p, 0, j);
    assert m != j && Steps(p, 0, m);
  }

  /** Edges and reachability are right if and only if the first jump is covered, or rejoins the block that
      it branches off to. */
  lemma EdgesAndReachabilityIff(p: Program)
    requires WellFormed(p)
    ensures EdgesAreSteps(p) && ReachabilityAgrees(p) <==> FirstJumpCovered(p) || FirstJumpRejoins(p)
  {
    if FirstJumpCovered(p) {
      ExactIffFirstJumpCovered(p);
    } else if FirstJumpRejoins(p) {
      RejoiningKeepsEdges(p);
      RejoiningKeepsReachability(p);
    } else if EdgesAreSteps(p) && ReachabilityAgrees(p) {
      var j: nat :| Steps(p, 0, j) && !IsLeader(p, j);
      UncoveredRejoins(p, j);
    }
  }

  /** The first of four instructions jumps conditionally to the third, and the last one back to the
      second: control enters the second block in the middle, yet edges and reachability are right. */
  lemma RejoiningExample(p: Program)
    requires |p| == 4 && forall i :: 0 <= i < 4 ==> p[i].offset == 2 * i && p[i].size == 2 && !p[i].tryContext
    requires forall i :: 0 <= i < 4 ==> (p[i].jump <==> i == 0 || i == 3) && (p[i].conditionalJump <==> i == 0)
    requires p[0].branchOffset == 4 && p[3].branchOffset == -4
    ensures WellFormed(p) && !FirstJumpCovered(p) && EdgesAreSteps(p) && ReachabilityAgrees(p) && !Exact(p)
  {
    assert IsTarget(p, 0, 2) && IsTarget(p, 3, 1);
    assert forall i :: 0 <= i < 4 ==> Plain(p, i);
    assert forall i, j :: 0 <= i < j < 4 ==> Before(p, i, j);
    TargetIsUnique(p, 0, 2);
    TargetIsUnique(p, 3, 1);
    assert LedToBy(p, 3, 1) && IsLeader(p, 1);
    assert Steps(p, 0, 2) && !IsLeader(p, 2) by {
      assert forall i :: !LedToBy(p, i, 2);
    }
    ExactIffFirstJumpCovered(p);
    EdgesAndReachabilityIff(p);
  }

  /** A program of the failing family: its first instruction jumps over the second one, to an
      instruction that nothing else leads to. All three end up in one block, whose only edge leads back
      to itself. */
  lemma FirstJumpExample(p: Program)
    requires |p| == 3 && forall i :: 0 <= i < 3 ==> p[i].offset == 2 * i && p[i].size == 2 && !p[i].tryContext
    requires forall i :: 0 <= i < 3 ==> !p[i].conditionalJump && (p[i].jump <==> i == 0)
    requires p[0].branchOffset == 4
    ensures WellFormed(p) && !FirstJumpCovered(p) && !Exact(p)
  {
    assert IsTarget(p, 0, 2);
    assert forall i :: 0 <= i < 3 ==> Plain(p, i);
    assert forall i, j :: 0 <= i < j < 3 ==> Before(p, i, j);
    TargetIsUnique(p, 0, 2);
    assert Steps(p, 0, 2) && !IsLeader(p, 2) by {
      assert forall i :: !LedToBy(p, i, 2);
    }
    ExactIffFirstJumpCovered(p);
  }

  /** Every execution that arrives at the first instruction of a block has executed the first
      instruction of another block exactly when that block dominates it in the block graph. */
  lemma DominanceIsExecutionDominance(p: Program, d: nat, n: nat)
    requires WellFormed(p) && FirstJumpCovered(p) && IsLeader(p, d) && IsLeader(p, n)
    ensures Dominates(BlockEdges(p), 0, d, n) <==> Dominates(StepEdges(p), 0, d, n)
  {
    ExactIffFirstJumpCovered(p);
    LeaderIsLive(p, n);
    if Dominates(BlockEdges(p), 0, d, n) {
      forall t | PathFromTo(StepEdges(p), 0, n, t) ensures d in t {
        var q := ExecutionFollowsBlocks(p, t);
        assert d in q;
      }
    }
    if Dominates(StepEdges(p), 0, d, n) {
      forall q | PathFromTo(BlockEdges(p), 0, n, q) ensures d in q {
        var t := BlockPathExecutes(p, q);
        LeaderIsLive(p, d);
        assert LandsInOne(p, d, q);
      }
    }
  }
}

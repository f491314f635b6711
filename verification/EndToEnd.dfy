/** The passes together: what the computed dominators say about the executions of a program. */
module EndToEnd {
  import opened ControlFlow
  import opened ControlFlowAnalysis
  import opened Dominators
  import opened IR
  import opened Paths
  import opened Wrappers
  import ImmediateDominators
  import Liveness
  import Renaming
  import Runs

  // ---------------------------------------------------------------- one graph for all passes

  /** Mirrored edge lists draw the same graph for the passes that follow predecessors and for those
      that follow successors. */
  lemma DrawnOnBothSides(bbs: seq<BasicBlock>, e: Edges)
    requires Numbered(bbs) && Mirror(SetOf(bbs)) && Draws(SetOf(bbs), e)
    ensures HasEdges(bbs, e) && PredecessorsListed(bbs)
    ensures Liveness.HasSuccEdges(bbs, e) && Liveness.SuccessorsListed(bbs)
  {
    var u := SetOf(bbs);
    forall m: nat, n: nat
      ensures (m, n) in e <==> m < |bbs| && n < |bbs| && bbs[m] in bbs[n].predecessors
      ensures (m, n) in e <==> m < |bbs| && n < |bbs| && bbs[n] in bbs[m].successors
    {
      if m < |bbs| && n < |bbs| {
        assert Mirrored(bbs[m], bbs[n]) && Drawn(bbs[m], bbs[n], e);
      }
      if (m, n) in e {
        assert Joins(u, (m, n));
      }
    }
    forall b, c | b in bbs && (c in b.predecessors || c in b.successors) ensures c in bbs {
      assert b in u && c in u;
    }
  }

  // ---------------------------------------------------------------- leaders and block numbers

  /** `g` is the graph `e` on the nodes `cuts`, renumbered from 1 on, with a node 0 leading to 1. */
  ghost predicate Renumbers(cuts: seq<nat>, e: Edges, g: Edges) {
    && cuts != [] && cuts[0] == 0
    && (forall a, b :: 0 <= a < |cuts| && 0 <= b < |cuts| ==> Differ(cuts, a, b))
    && (forall k: nat, c: nat :: c < |cuts| ==> EdgeInto(cuts, e, g, k, c))
    && (forall x :: x in e ==> x.0 in cuts && x.1 in cuts)
    && forall x :: x in g ==> x.1 != 0
  }

  ghost predicate Differ(cuts: seq<nat>, a: nat, b: nat)
    requires a < |cuts| && b < |cuts|
  {
    cuts[a] == cuts[b] ==> a == b
  }

  ghost predicate EdgeInto(cuts: seq<nat>, e: Edges, g: Edges, k: nat, c: nat)
    requires c < |cuts|
  {
    (k, c + 1) in g <==> (k == 0 == c) || (0 < k <= |cuts| && (cuts[k - 1], cuts[c]) in e)
  }

  /** A path and its renumbered form visit the same nodes. */
  ghost predicate SameVisits(cuts: seq<nat>, q: seq<nat>, r: seq<nat>) {
    forall a :: 0 <= a < |cuts| ==> SameVisit(cuts, q, r, a)
  }

  ghost predicate SameVisit(cuts: seq<nat>, q: seq<nat>, r: seq<nat>, a: nat)
    requires a < |cuts|
  {
    cuts[a] in q <==> a + 1 in r
  }

  lemma OneMoreVisit(cuts: seq<nat>, e: Edges, g: Edges, q: seq<nat>, r: seq<nat>, b: nat)
    requires Renumbers(cuts, e, g) && b < |cuts| && SameVisits(cuts, q, r)
    ensures SameVisits(cuts, q + [cuts[b]], r + [b + 1])
  {
    var q', r' := q + [cuts[b]], r + [b + 1];
    forall a | 0 <= a < |cuts| ensures SameVisit(cuts, q', r', a) {
      assert SameVisit(cuts, q, r, a) && Differ(cuts, a, b);
    }
  }

  lemma OneMoreEdge(cuts: seq<nat>, e: Edges, g: Edges, q: seq<nat>, r: seq<nat>, a: nat, b: nat)
    requires Renumbers(cuts, e, g) && a < |cuts| && b < |cuts| && SameVisits(cuts, q, r)
    requires PathFromTo(g, 0, a + 1, r) && PathFromTo(e, 0, cuts[a], q)
    requires (cuts[a], cuts[b]) in e
    ensures PathFromTo(g, 0, b + 1, r + [b + 1]) && PathFromTo(e, 0, cuts[b], q + [cuts[b]])
    ensures SameVisits(cuts, q + [cuts[b]], r + [b + 1])
  {
    assert EdgeInto(cuts, e, g, a + 1, b);
    EdgeExtendsPath(g, r, b + 1);
    EdgeExtendsPath(e, q, cuts[b]);
    OneMoreVisit(cuts, e, g, q, r, b);
  }

  lemma FirstVisit(cuts: seq<nat>, e: Edges, g: Edges)
    requires Renumbers(cuts, e, g)
    ensures SameVisits(cuts, [0], [0, 1]) && PathFromTo(g, 0, 1, [0, 1]) && PathFromTo(e, 0, 0, [0])
  {
    assert EdgeInto(cuts, e, g, 0, 0);
    OneMoreVisit(cuts, e, g, [], [0], 0);
    assert [] + [cuts[0]] == [0] && [0] + [0 + 1] == [0, 1];
  }

  lemma {:induction false} NumberPath(cuts: seq<nat>, e: Edges, g: Edges, q: seq<nat>, b: nat) returns (r: seq<nat>)
    requires Renumbers(cuts, e, g) && b < |cuts| && PathFromTo(e, 0, cuts[b], q)
    ensures PathFromTo(g, 0, b + 1, r) && SameVisits(cuts, q, r)
    decreases |q|
  {
    if |q| == 1 {
      assert q == [0] && Differ(cuts, 0, b);
      FirstVisit(cuts, e, g);
      r := [0, 1];
    } else {
      var k := |q| - 2;
      PrefixIsPath(e, q, k);
      assert (q[k], q[k + 1]) in e;
      var a: nat :| a < |cuts| && cuts[a] == q[k];
      r := NumberPath(cuts, e, g, q[..k + 1], a);
      OneMoreEdge(cuts, e, g, q[..k + 1], r, a, b);
      assert q == q[..k + 1] + [cuts[b]];
      r := r + [b + 1];
    }
  }

  lemma {:induction false} UnnumberPath(cuts: seq<nat>, e: Edges, g: Edges, r: seq<nat>, b: nat) returns (q: seq<nat>)
    requires Renumbers(cuts, e, g) && b < |cuts| && PathFromTo(g, 0, b + 1, r)
    ensures PathFromTo(e, 0, cuts[b], q) && SameVisits(cuts, q, r)
    decreases |r|
  {
    var k := |r| - 2;
    PrefixIsPath(g, r, k);
    assert k > 0 ==> (r[k - 1], r[k]) in g;
    assert (r[k], b + 1) in g && EdgeInto(cuts, e, g, r[k], b);
    if r[k] == 0 {
      assert r == [0, 1];
      FirstVisit(cuts, e, g);
      q := [0];
    } else {
      q := UnnumberPath(cuts, e, g, r[..k + 1], r[k] - 1);
      OneMoreEdge(cuts, e, g, q, r[..k + 1], r[k] - 1, b);
      assert r == r[..k + 1] + [b + 1];
      q := q + [cuts[b]];
    }
  }

  /** Renumbering keeps dominance. */
  lemma RenumberingKeepsDominance(cuts: seq<nat>, e: Edges, g: Edges, a: nat, b: nat)
    requires Renumbers(cuts, e, g) && a < |cuts| && b < |cuts|
    ensures Dominates(g, 0, a + 1, b + 1) <==> Dominates(e, 0, cuts[a], cuts[b])
  {
    var d, n := a + 1, b + 1;
    if Dominates(g, 0, d, n) {
      forall q | PathFromTo(e, 0, cuts[b], q) ensures cuts[a] in q {
        var r := NumberPath(cuts, e, g, q, b);
        assert SameVisit(cuts, q, r, a);
      }
    }
    if Dominates(e, 0, cuts[a], cuts[b]) {
      forall r | PathFromTo(g, 0, n, r) ensures d in r {
        var q := UnnumberPath(cuts, e, g, r, b);
        assert SameVisit(cuts, q, r, a);
      }
    }
  }

  lemma {:induction false} EdgeMembers(rows: Rows, k: nat, x: nat, y: nat)
    requires k <= |rows|
    ensures (x, y) in EdgesUpTo(rows, k) <==> 0 < x <= k && 0 < y && y - 1 in rows[x - 1]
  {
    if k > 0 {
      EdgeMembers(rows, k - 1, x, y);
      EdgeToMembers(k - 1, rows[k - 1], x, y);
    }
  }

  lemma EdgeToMembers(b: nat, cs: set<nat>, x: nat, y: nat)
    ensures (x, y) in EdgesTo(b, cs) <==> x == b + 1 && 0 < y && y - 1 in cs
  {
    if 0 < y && y - 1 in cs {
      var c := y - 1;
      assert (b + 1, c + 1) in EdgesTo(b, cs);
    }
  }

  lemma EnteredByBlockEdge(p: Program, cuts: seq<nat>, b: nat, c: nat)
    requires WellFormed(p) && Cuts(p, cuts) && b < |cuts| && c < |cuts|
    ensures c in Entered(p, cuts, b) <==> (cuts[b], cuts[c]) in BlockEdges(p)
  {
    FirstCut(p, cuts);
    assert cuts[b] in cuts && cuts[c] in cuts;
  }

  /** Into a block with instructions lead, if it is the first, the start block and, in any case, the
      blocks it is entered from. */
  lemma GraphMembers(rows: Rows, x: nat, y: nat)
    ensures (x, y) in Graph(rows) ==> y > 0
    ensures 0 < y <= |rows| ==>
      ((x, y) in Graph(rows) <==> (x == 0 && y == 1) || (0 < x <= |rows| && y - 1 in rows[x - 1]))
  {
    EdgeMembers(rows, |rows|, x, y);
  }

  lemma EndIsEntered(rows: Rows)
    ensures (|rows|, |rows| + 1) in Graph(rows)
  {
  }

  lemma LeadersDiffer(p: Program, cuts: seq<nat>)
    requires WellFormed(p) && Cuts(p, cuts)
    ensures forall a, b :: 0 <= a < |cuts| && 0 <= b < |cuts| ==> Differ(cuts, a, b)
  {
    forall a, b | 0 <= a < |cuts| && 0 <= b < |cuts| ensures Differ(cuts, a, b) {
      if cuts[a] == cuts[b] {
        CutsDiffer(p, cuts, a, b);
      }
    }
  }

  ghost predicate RowAgrees(cuts: seq<nat>, e: Edges, rows: Rows, b: nat, c: nat)
    requires b < |cuts| == |rows| && c < |cuts|
  {
    c in rows[b] <==> (cuts[b], cuts[c]) in e
  }

  lemma RowsRenumber(cuts: seq<nat>, e: Edges, rows: Rows)
    requires |rows| == |cuts| && cuts != [] && cuts[0] == 0
    requires forall a, b :: 0 <= a < |cuts| && 0 <= b < |cuts| ==> Differ(cuts, a, b)
    requires forall x :: x in e ==> x.0 in cuts && x.1 in cuts
    requires forall b, c :: 0 <= b < |cuts| && 0 <= c < |cuts| ==> RowAgrees(cuts, e, rows, b, c)
    ensures Renumbers(cuts, e, Graph(rows))
  {
    forall k: nat, c: nat | c < |cuts| ensures EdgeInto(cuts, e, Graph(rows), k, c) {
      GraphMembers(rows, k, c + 1);
      assert 0 < k <= |cuts| ==> RowAgrees(cuts, e, rows, k - 1, c);
    }
    forall x | x in Graph(rows) ensures x.1 != 0 {
      GraphMembers(rows, x.0, x.1);
    }
  }

  lemma RenumberingKeepsReach(cuts: seq<nat>, e: Edges, g: Edges, b: nat)
    requires Renumbers(cuts, e, g) && b < |cuts|
    ensures Reaches(g, 0, b + 1) <==> Reaches(e, 0, cuts[b])
  {
    if Reaches(e, 0, cuts[b]) {
      var q :| PathFromTo(e, 0, cuts[b], q);
      var r := NumberPath(cuts, e, g, q, b);
    }
    if Reaches(g, 0, b + 1) {
      var r :| PathFromTo(g, 0, b + 1, r);
      var q := UnnumberPath(cuts, e, g, r, b);
    }
  }

  /** The blocks are the leaders, numbered by position. */
  lemma BlocksRenumberLeaders(p: Program, cuts: seq<nat>)
    requires WellFormed(p) && Cuts(p, cuts)
    ensures Renumbers(cuts, BlockEdges(p), CfgEdges(p, cuts))
  {
    FirstCut(p, cuts);
    LeadersDiffer(p, cuts);
    forall b, c | 0 <= b < |cuts| && 0 <= c < |cuts| ensures RowAgrees(cuts, BlockEdges(p), RowsOf(p, cuts), b, c) {
      EnteredByBlockEdge(p, cuts, b, c);
    }
    forall x | x in BlockEdges(p) ensures x.0 in cuts && x.1 in cuts {
      assert IsLeader(p, x.0) && IsLeader(p, x.1);
    }
    RowsRenumber(cuts, BlockEdges(p), RowsOf(p, cuts));
  }

  // ---------------------------------------------------------------- exactness of the built graph

  /** A successor edge is a step from the last live instruction of one block to the first of another. */
  lemma EdgesAreExact(p: Program, cuts: seq<nat>, bbs: seq<BasicBlock>, a: nat, b: nat)
    requires WellFormed(p) && FirstJumpCovered(p) && Cuts(p, cuts) && Built(p, cuts, bbs)
    requires Mirror(SetOf(bbs)) && Draws(SetOf(bbs), CfgEdges(p, cuts))
    requires a < |cuts| && b < |cuts|
    ensures bbs[b + 1] in bbs[a + 1].successors <==> ExitSteps(p, cuts[a], cuts[b])
  {
    DrawnOnBothSides(bbs, CfgEdges(p, cuts));
    BlocksRenumberLeaders(p, cuts);
    assert EdgeInto(cuts, BlockEdges(p), CfgEdges(p, cuts), a + 1, b);
    ExactIffFirstJumpCovered(p);
    assert cuts[a] in cuts && cuts[b] in cuts;
  }

  /** What can execute is what is not marked dead and lies in a block that can be reached. */
  lemma ReachabilityIsExact(p: Program, cuts: seq<nat>, bbs: seq<BasicBlock>, i: nat, b: nat)
    requires WellFormed(p) && FirstJumpCovered(p) && Cuts(p, cuts) && Built(p, cuts, bbs)
    requires i < |p| && b < |cuts| && p[i] in bbs[b + 1].insns
    ensures Reaches(StepEdges(p), 0, i) <==> !p[i].dead && Reaches(CfgEdges(p, cuts), 0, b + 1)
  {
    assert Filled(p, cuts, bbs, b, EndOf(p, cuts, b)) && Marked(p, i, |p|);
    var t :| cuts[b] <= t < EndOf(p, cuts, b) && p[t] == p[i];
    SamePositions(p, t, i);
    BlockOfLeader(p, cuts, b, i);
    ExactIffFirstJumpCovered(p);
    BlocksRenumberLeaders(p, cuts);
    RenumberingKeepsReach(cuts, BlockEdges(p), CfgEdges(p, cuts), b);
  }

  // ---------------------------------------------------------------- the passes in a row

  /** Every leader but the first is led to from a block. */
  ghost predicate NoOrphans(p: Program)
    requires WellFormed(p)
  {
    forall m :: IsLeader(p, m) && 0 < m ==> IsEntered(BlockEdges(p), m)
  }

  ghost predicate IsEntered(e: Edges, m: nat) {
    exists l :: (l, m) in e
  }

  lemma EnteredByNumberIff(cuts: seq<nat>, e: Edges, g: Edges, c: nat)
    requires Renumbers(cuts, e, g) && 0 < c < |cuts|
    ensures IsEntered(g, c + 1) <==> IsEntered(e, cuts[c])
  {
    if l: nat :| (l, cuts[c]) in e {
      var a: nat :| a < |cuts| && cuts[a] == l;
      assert EdgeInto(cuts, e, g, a + 1, c);
      assert (a + 1, c + 1) in g;
    }
    var m := c + 1;
    if k: nat :| (k, m) in g {
      assert EdgeInto(cuts, e, g, k, c);
      assert (cuts[k - 1], cuts[c]) in e;
    }
  }

  lemma FirstIsEntered(cuts: seq<nat>, e: Edges, g: Edges)
    requires Renumbers(cuts, e, g)
    ensures IsEntered(g, 1)
  {
    assert EdgeInto(cuts, e, g, 0, 0);
    assert (0, 0 + 1) in g;
  }

  lemma NumbersEnteredIff(cuts: seq<nat>, e: Edges, g: Edges)
    requires Renumbers(cuts, e, g) && IsEntered(g, |cuts| + 1)
    ensures (forall i :: 0 < i < |cuts| + 2 ==> IsEntered(g, i)) <==>
      forall c :: 0 < c < |cuts| ==> IsEntered(e, cuts[c])
  {
    FirstIsEntered(cuts, e, g);
    forall c | 0 < c < |cuts| ensures IsEntered(g, c + 1) <==> IsEntered(e, cuts[c]) {
      EnteredByNumberIff(cuts, e, g, c);
    }
    if forall c :: 0 < c < |cuts| ==> IsEntered(e, cuts[c]) {
      forall i | 0 < i < |cuts| + 2 ensures IsEntered(g, i) {
        var c := i - 1;
        assert 0 < c < |cuts| ==> IsEntered(e, cuts[c]);
      }
    }
  }

  lemma LaterLeader(p: Program, cuts: seq<nat>, c: nat)
    requires WellFormed(p) && Cuts(p, cuts) && 0 < c < |cuts|
    ensures IsLeader(p, cuts[c]) && 0 < cuts[c]
  {
    assert cuts[c] in cuts && Ascends(cuts, 0, c);
  }

  lemma LeadersEnteredIff(p: Program, cuts: seq<nat>)
    requires WellFormed(p) && Cuts(p, cuts)
    ensures NoOrphans(p) <==> forall c :: 0 < c < |cuts| ==> IsEntered(BlockEdges(p), cuts[c])
  {
    forall c | 0 < c < |cuts| ensures IsLeader(p, cuts[c]) && 0 < cuts[c] {
      LaterLeader(p, cuts, c);
    }
    FirstCut(p, cuts);
    forall m | IsLeader(p, m) && 0 < m ensures exists c :: 0 < c < |cuts| && cuts[c] == m {
      assert m in cuts;
    }
  }

  lemma EndNumberIsEntered(p: Program, cuts: seq<nat>)
    requires WellFormed(p)
    ensures IsEntered(CfgEdges(p, cuts), |cuts| + 1)
  {
    GraphEndIsEntered(RowsOf(p, cuts), |cuts| + 1);
  }

  lemma GraphEndIsEntered(rows: Rows, n: nat)
    requires n == |rows| + 1
    ensures IsEntered(Graph(rows), n)
  {
    assert (|rows|, n) in Graph(rows);
  }

  lemma BlocksEnteredIff(p: Program, cuts: seq<nat>)
    requires WellFormed(p) && Cuts(p, cuts)
    ensures (forall i :: 0 < i < |cuts| + 2 ==> IsEntered(CfgEdges(p, cuts), i)) <==> NoOrphans(p)
  {
    BlocksRenumberLeaders(p, cuts);
    EndNumberIsEntered(p, cuts);
    NumbersEnteredIff(cuts, BlockEdges(p), CfgEdges(p, cuts));
    LeadersEnteredIff(p, cuts);
  }

  lemma PredecessorsIff(bbs: seq<BasicBlock>, e: Edges, i: nat)
    requires HasEdges(bbs, e) && PredecessorsListed(bbs) && i < |bbs|
    ensures bbs[i].predecessors != [] <==> IsEntered(e, i)
  {
    if bbs[i].predecessors != [] {
      var b := bbs[i].predecessors[0];
      assert bbs[i] in bbs && b in bbs;
      var k: nat :| k < |bbs| && bbs[k] == b;
      assert (k, i) in e;
    }
  }

  /** The built blocks are fit for dominator analysis, which dereferences the first predecessor of each
      block but the first, if and only if there are no orphans. */
  lemma FlowGraphIffNoOrphans(p: Program, cuts: seq<nat>, bbs: seq<BasicBlock>)
    requires WellFormed(p) && Cuts(p, cuts) && Built(p, cuts, bbs)
    requires Mirror(SetOf(bbs)) && Draws(SetOf(bbs), CfgEdges(p, cuts))
    ensures HasEdges(bbs, CfgEdges(p, cuts)) && (FlowGraph(bbs) <==> NoOrphans(p))
  {
    DrawnOnBothSides(bbs, CfgEdges(p, cuts));
    BlocksEnteredIff(p, cuts);
    forall i | 0 < i < |bbs| ensures bbs[i].predecessors != [] <==> IsEntered(CfgEdges(p, cuts), i) {
      PredecessorsIff(bbs, CfgEdges(p, cuts), i);
    }
  }

  /** Some instruction that is not dead steps to `m`. */
  ghost predicate SteppedTo(p: Program, m: nat)
    requires WellFormed(p)
  {
    exists i: nat :: i < |p| && !Dead(p, i) && Steps(p, i, m)
  }

  lemma EnteredIffSteppedTo(p: Program, m: nat)
    requires WellFormed(p) && FirstJumpCovered(p) && IsLeader(p, m)
    ensures IsEntered(BlockEdges(p), m) <==> SteppedTo(p, m)
  {
    ExactIffFirstJumpCovered(p);
    if l: nat :| (l, m) in BlockEdges(p) {
      assert BlockEdge(p, l, m) && ExitSteps(p, l, m);
      var x: nat :| IsExit(p, l, x) && Steps(p, x, m);
    }
    if i: nat :| i < |p| && !Dead(p, i) && Steps(p, i, m) {
      assert Regular(p, i, m);
      ExitDrawsEdge(p, i, m);
    }
  }

  /** On instructions: there are no orphans if and only if every leader but the first is stepped to by an
      instruction that is not dead. A target that only dead jumps lead to is an orphan. */
  lemma NoOrphansIff(p: Program)
    requires WellFormed(p) && FirstJumpCovered(p)
    ensures NoOrphans(p) <==> forall m :: IsLeader(p, m) && 0 < m ==> SteppedTo(p, m)
  {
    forall m | IsLeader(p, m) ensures IsEntered(BlockEdges(p), m) <==> SteppedTo(p, m) {
      EnteredIffSteppedTo(p, m);
    }
  }

  /** The second of four instructions jumps back to the first, so that the third is dead. It jumps to
      the fourth, which nothing else leads to. */
  lemma OrphanExample(p: Program)
    requires |p| == 4 && forall i :: 0 <= i < 4 ==> p[i].offset == 2 * i && p[i].size == 2 && !p[i].tryContext
    requires forall i :: 0 <= i < 4 ==> !p[i].conditionalJump && (p[i].jump <==> i == 1 || i == 2)
    requires p[1].branchOffset == -2 && p[2].branchOffset == 2
    ensures WellFormed(p) && FirstJumpCovered(p) && !NoOrphans(p)
  {
    assert IsTarget(p, 1, 0) && IsTarget(p, 2, 3);
    assert forall i :: 0 <= i < 4 ==> Plain(p, i);
    assert forall i, j :: 0 <= i < j < 4 ==> Before(p, i, j);
    TargetIsUnique(p, 1, 0);
    TargetIsUnique(p, 2, 3);
    assert LedToBy(p, 2, 3) && IsLeader(p, 3);
    OrphanIsDeadTarget(p);
    NoOrphansIff(p);
  }

  lemma OrphanIsDeadTarget(p: Program)
    requires WellFormed(p) && |p| == 4 && !p[0].jump && p[1].jump && !p[1].conditionalJump && p[2].jump && !p[3].jump
    requires !p[2].conditionalJump && Target(p, 1) == 0 && Target(p, 2) == 3
    ensures !SteppedTo(p, 3)
  {
    assert !IsLeader(p, 1) && !IsLeader(p, 2) by {
      assert forall i :: !LedToBy(p, i, 1) && !LedToBy(p, i, 2);
    }
    assert JumpsEarlier(p, 1, 2);
  }

  /** The dominators by number are the leaders that every execution has to pass. */
  lemma DominatorsAreExecuted(p: Program, cuts: seq<nat>, a: nat, b: nat)
    requires WellFormed(p) && Cuts(p, cuts) && FirstJumpCovered(p) && a < |cuts| && b < |cuts|
    ensures Dominates(CfgEdges(p, cuts), 0, a + 1, b + 1) <==> Dominates(StepEdges(p), 0, cuts[a], cuts[b])
  {
    assert cuts[a] in cuts && cuts[b] in cuts;
    BlocksRenumberLeaders(p, cuts);
    RenumberingKeepsDominance(cuts, BlockEdges(p), CfgEdges(p, cuts), a, b);
    DominanceIsExecutionDominance(p, cuts[a], cuts[b]);
  }

  /** The dominator lists hold the dominators in the block graph. */
  ghost predicate DominatorsByNumber(p: Program, cuts: seq<nat>, bbs: seq<BasicBlock>)
    requires WellFormed(p)
    reads bbs`predecessors, bbs`dominators
  {
    && Numbered(bbs) && HasEdges(bbs, CfgEdges(p, cuts)) && DominatorsListed(bbs)
    && forall n, d :: 0 <= n < |bbs| && 0 <= d < |bbs| ==> DominatesByNumber(p, cuts, bbs, n, d)
  }

  ghost predicate DominatesByNumber(p: Program, cuts: seq<nat>, bbs: seq<BasicBlock>, n: nat, d: nat)
    requires WellFormed(p) && n < |bbs| && d < |bbs|
    reads bbs`dominators
  {
    bbs[d] in bbs[n].dominators <==> Dominates(CfgEdges(p, cuts), 0, d, n)
  }

  /** Every execution that arrives at the first instruction of block `b + 1` has executed the first
      instruction of the blocks among its dominators, and of no others. */
  ghost predicate DominatesByExecution(p: Program, cuts: seq<nat>, bbs: seq<BasicBlock>, a: nat, b: nat)
    requires WellFormed(p) && a < |cuts| && b < |cuts| < |bbs|
    reads bbs`dominators
  {
    bbs[a + 1] in bbs[b + 1].dominators <==> Dominates(StepEdges(p), 0, cuts[a], cuts[b])
  }

  lemma DominatorsByExecution(p: Program, cuts: seq<nat>, bbs: seq<BasicBlock>)
    requires WellFormed(p) && FirstJumpCovered(p) && Cuts(p, cuts) && |bbs| == |cuts| + 2
    requires DominatorsByNumber(p, cuts, bbs)
    ensures forall a, b :: 0 <= a < |cuts| && 0 <= b < |cuts| ==> DominatesByExecution(p, cuts, bbs, a, b)
  {
    forall a, b | 0 <= a < |cuts| && 0 <= b < |cuts| ensures DominatesByExecution(p, cuts, bbs, a, b) {
      DominatorsAreExecuted(p, cuts, a, b);
      assert DominatesByNumber(p, cuts, bbs, b + 1, a + 1);
    }
  }

  /** Dominator analysis on the graph that control-flow analysis built. */
  method RunDominators(p: Program, ghost cuts: seq<nat>, bbs: seq<BasicBlock>)
    requires WellFormed(p) && NoOrphans(p) && Cuts(p, cuts) && Built(p, cuts, bbs) && AllNotAnalysed(bbs)
    requires Mirror(SetOf(bbs)) && Draws(SetOf(bbs), CfgEdges(p, cuts))
    modifies bbs`dominators
    ensures DominatorsByNumber(p, cuts, bbs)
  {
    FlowGraphIffNoOrphans(p, cuts, bbs);
    ComputeDominators(bbs, CfgEdges(p, cuts));
  }

  /** Control-flow analysis followed by dominator analysis: the block of one leader is listed among
      the dominators of another's exactly when every execution that arrives at the second leader has
      executed the first one. */
  method FindDominators(p: Program, m: OffsetMap) returns (bbs: seq<BasicBlock>, ghost cuts: seq<nat>)
    requires WellFormed(p) && Indexes(m, p) && NoOrphans(p) && forall ins :: ins in p ==> !ins.dead
    modifies p`bb, p`dead
    ensures Cuts(p, cuts) && Built(p, cuts, bbs)
    ensures FirstJumpCovered(p) ==>
      forall a, b :: 0 <= a < |cuts| && 0 <= b < |cuts| ==> DominatesByExecution(p, cuts, bbs, a, b)
  {
    bbs, cuts := ControlFlowAnalysis.Run(p, m);
    RunDominators(p, cuts, bbs);
    if FirstJumpCovered(p) {
      DominatorsByExecution(p, cuts, bbs);
    }
  }

  // ---------------------------------------------------------------- immediate dominators

  /** Every block can be reached. */
  ghost predicate AllReachable(p: Program)
    requires WellFormed(p)
  {
    forall l :: IsLeader(p, l) ==> Reaches(BlockEdges(p), 0, l)
  }

  lemma ReachableMeansEntered(p: Program)
    requires WellFormed(p) && AllReachable(p)
    ensures NoOrphans(p)
  {
    forall m | IsLeader(p, m) && 0 < m ensures IsEntered(BlockEdges(p), m) {
      var q :| PathFromTo(BlockEdges(p), 0, m, q);
      assert (q[|q| - 2], m) in BlockEdges(p);
    }
  }

  lemma AllNumbersReachable(p: Program, cuts: seq<nat>, n: nat)
    requires WellFormed(p) && AllReachable(p) && Cuts(p, cuts) && n < |cuts| + 2
    ensures Reaches(CfgEdges(p, cuts), 0, n)
  {
    var g := CfgEdges(p, cuts);
    if n == 0 {
      assert PathFromTo(g, 0, 0, [0]);
    } else {
      BlocksRenumberLeaders(p, cuts);
      var b := if n <= |cuts| then n - 1 else |cuts| - 1;
      assert cuts[b] in cuts;
      RenumberingKeepsReach(cuts, BlockEdges(p), g, b);
      if n == |cuts| + 1 {
        var r :| PathFromTo(g, 0, |cuts|, r);
        EndIsEntered(RowsOf(p, cuts));
        EdgeExtendsPath(g, r, n);
      }
    }
  }

  /** The search for immediate dominators comes to an end for every block. */
  ghost predicate EliminationEnds(p: Program)
    requires WellFormed(p)
  {
    forall cuts :: Cuts(p, cuts) ==> ImmediateDominators.NearestExist(CfgEdges(p, cuts), |cuts| + 2)
  }

  /** If every block can be reached, it does. */
  lemma ReachableMeansEnds(p: Program)
    requires WellFormed(p) && AllReachable(p)
    ensures NoOrphans(p) && EliminationEnds(p)
  {
    ReachableMeansEntered(p);
    forall cuts | Cuts(p, cuts) ensures ImmediateDominators.NearestExist(CfgEdges(p, cuts), |cuts| + 2) {
      ReachableHaveNearest(p, cuts);
    }
  }

  lemma ReachableHaveNearest(p: Program, cuts: seq<nat>)
    requires WellFormed(p) && AllReachable(p) && Cuts(p, cuts)
    ensures ImmediateDominators.NearestExist(CfgEdges(p, cuts), |cuts| + 2)
  {
    var g, size := CfgEdges(p, cuts), |cuts| + 2;
    forall n | 0 < n < size ensures ImmediateDominators.HasNearest(g, size, n) {
      AllNumbersReachable(p, cuts, n);
      ImmediateDominators.ReachableHasNearest(g, size, n);
    }
  }

  /** A program without orphans on which the search never ends: the fifth of six instructions jumps to
      itself and cannot be reached, while the second and third blocks are incomparable. */
  lemma EndlessEliminationExample(p: Program)
    requires |p| == 6 && forall i :: 0 <= i < 6 ==> p[i].offset == 2 * i && p[i].size == 2 && !p[i].tryContext
    requires forall i :: 0 <= i < 6 ==> (p[i].jump <==> i in {1, 3, 4}) && (p[i].conditionalJump <==> i == 1)
    requires p[1].branchOffset == 4 && p[3].branchOffset == 4 && p[4].branchOffset == 0
    ensures WellFormed(p) && FirstJumpCovered(p) && NoOrphans(p) && !EliminationEnds(p)
  {
    EndlessIsWellFormed(p);
    EndlessLeaders(p);
    EndlessEdges(p);
    NoOrphansIff(p);
    var cuts: seq<nat> := [0, 2, 3, 4, 5];
    BlocksRenumberLeaders(p, cuts);
    EndIsEntered(RowsOf(p, cuts));
    EndlessHasNoNearest(cuts, BlockEdges(p), CfgEdges(p, cuts));
  }

  lemma EndlessIsWellFormed(p: Program)
    requires |p| == 6 && forall i :: 0 <= i < 6 ==> p[i].offset == 2 * i && p[i].size == 2 && !p[i].tryContext
    requires forall i :: 0 <= i < 6 ==> (p[i].jump <==> i in {1, 3, 4}) && (p[i].conditionalJump <==> i == 1)
    requires p[1].branchOffset == 4 && p[3].branchOffset == 4 && p[4].branchOffset == 0
    ensures WellFormed(p) && FirstJumpCovered(p) && EndlessSteps(p)
  {
    assert IsTarget(p, 1, 3) && IsTarget(p, 3, 5) && IsTarget(p, 4, 4);
    assert forall i :: 0 <= i < 6 ==> Plain(p, i);
    assert forall i, j :: 0 <= i < j < 6 ==> Before(p, i, j);
    TargetIsUnique(p, 1, 3);
    TargetIsUnique(p, 3, 5);
    TargetIsUnique(p, 4, 4);
  }

  /** Where control goes in that program. */
  ghost predicate EndlessSteps(p: Program)
    requires WellFormed(p)
  {
    && |p| == 6 && (forall i :: 0 <= i < 6 ==> (p[i].jump <==> i == 1 || i == 3 || i == 4))
    && forall i: nat, j: nat :: i < 6 ==>
         (Steps(p, i, j) <==> (i, j) in {(0, 1), (1, 2), (1, 3), (2, 3), (3, 5), (4, 4)})
  }

  lemma EndlessLeaders(p: Program)
    requires WellFormed(p) && EndlessSteps(p)
    ensures forall j: nat :: IsLeader(p, j) <==> j in {0, 2, 3, 4, 5}
    ensures Cuts(p, [0, 2, 3, 4, 5])
  {
    assert LedToBy(p, 1, 2) && LedToBy(p, 1, 3) && LedToBy(p, 4, 4) && LedToBy(p, 3, 5);
    assert forall i :: !LedToBy(p, i, 1);
    assert forall a, b :: 0 <= a < b < 5 ==> Ascends([0, 2, 3, 4, 5], a, b);
  }

  lemma EndlessEdges(p: Program)
    requires WellFormed(p) && FirstJumpCovered(p) && EndlessSteps(p)
    requires forall j: nat :: IsLeader(p, j) <==> j in {0, 2, 3, 4, 5}
    ensures {(0, 2), (0, 3), (3, 5)} <= BlockEdges(p) && forall x :: (x, 4) in BlockEdges(p) ==> x == 4
    ensures forall m :: IsLeader(p, m) && 0 < m ==> SteppedTo(p, m)
  {
    forall l | l in {2, 3, 4, 5} ensures LeaderOf(p, l) == l && !Dead(p, l) {
      LeaderIsLive(p, l);
    }
    assert LeaderOf(p, 1) == 0 && !Dead(p, 1);
    ExitDrawsEdge(p, 1, 2);
    ExitDrawsEdge(p, 1, 3);
    ExitDrawsEdge(p, 3, 5);
    ExactIffFirstJumpCovered(p);
    forall x | (x, 4) in BlockEdges(p) ensures x == 4 {
      assert ExitSteps(p, x, 4);
    }
    assert Steps(p, 1, 2) && Steps(p, 1, 3) && Steps(p, 4, 4) && Steps(p, 3, 5);
  }

  lemma EndlessHasNoNearest(cuts: seq<nat>, e: Edges, g: Edges)
    requires cuts == [0, 2, 3, 4, 5] && Renumbers(cuts, e, g) && (5, 6) in g
    requires {(0, 2), (0, 3), (3, 5)} <= e && forall x :: (x, 4) in e ==> x == 4
    ensures !ImmediateDominators.NearestExist(g, 7)
  {
    assert EdgeInto(cuts, e, g, 0, 0) && EdgeInto(cuts, e, g, 1, 1) && EdgeInto(cuts, e, g, 1, 2);
    assert EdgeInto(cuts, e, g, 3, 4);
    forall k: nat | (k, 4) in g ensures k == 4 {
      assert EdgeInto(cuts, e, g, k, 3);
    }
    forall p ensures !PathFromTo(g, 0, 4, p) {
      ImmediateDominators.SelfLoopIsUnreachable(g, 4, p);
    }
    assert IsPath(g, [0, 1, 2]) && IsPath(g, [0, 1, 3, 5, 6]);
    ImmediateDominators.BranchesLeaveNoNearest(g, 7, 4, [0, 1, 2], [0, 1, 3, 5, 6], 3, 2);
  }

  /** Among the nodes that strictly dominate node `b`, node `c` is the nearest: the others dominate it. */
  ghost predicate IsNearest(s: Edges, cuts: seq<nat>, c: nat, b: nat)
    requires c < |cuts| && b < |cuts|
  {
    && StrictlyDominates(s, 0, cuts[c], cuts[b])
    && forall a :: 0 <= a < |cuts| ==> ComesBefore(s, cuts, a, c, b)
  }

  ghost predicate ComesBefore(s: Edges, cuts: seq<nat>, a: nat, c: nat, b: nat)
    requires a < |cuts| && c < |cuts| && b < |cuts|
  {
    StrictlyDominates(s, 0, cuts[a], cuts[b]) ==> Dominates(s, 0, cuts[a], cuts[c])
  }

  /** Dominance among numbers is dominance among nodes. */
  ghost predicate SameDominance(cuts: seq<nat>, g: Edges, s: Edges, a: nat, b: nat)
    requires a < |cuts| && b < |cuts|
  {
    Dominates(g, 0, a + 1, b + 1) <==> Dominates(s, 0, cuts[a], cuts[b])
  }

  lemma ImmediateIsNearest(cuts: seq<nat>, g: Edges, s: Edges, c: nat, b: nat)
    requires forall a, d :: 0 <= a < |cuts| && 0 <= d < |cuts| ==> Differ(cuts, a, d)
    requires forall a, d :: 0 <= a < |cuts| && 0 <= d < |cuts| ==> SameDominance(cuts, g, s, a, d)
    requires c < |cuts| && b < |cuts| && IsImmediateDominator(g, 0, c + 1, b + 1)
    ensures IsNearest(s, cuts, c, b)
  {
    assert SameDominance(cuts, g, s, c, b) && Differ(cuts, c, b);
    forall a | 0 <= a < |cuts| ensures ComesBefore(s, cuts, a, c, b) {
      assert SameDominance(cuts, g, s, a, b) && SameDominance(cuts, g, s, a, c);
      assert a != b && Dominates(g, 0, a + 1, b + 1) ==> StrictlyDominates(g, 0, a + 1, b + 1);
    }
  }

  /** The first block strictly dominates every later one, so the start block is not immediate. */
  lemma StartIsNotImmediate(cuts: seq<nat>, e: Edges, g: Edges, i: nat, b: nat)
    requires Renumbers(cuts, e, g) && 0 < b < |cuts| && IsImmediateDominator(g, 0, i, b + 1)
    ensures i != 0
  {
    EntryAndSelfDominate(e, 0, cuts[b]);
    RenumberingKeepsDominance(cuts, e, g, 0, b);
    assert StrictlyDominates(g, 0, 1, b + 1);
    assert PathFromTo(g, 0, 0, [0]);
  }

  lemma NoEdgeFromEnd(rows: Rows, x: nat, y: nat)
    requires (x, y) in Graph(rows)
    ensures x <= |rows|
  {
    EdgeMembers(rows, |rows|, x, y);
  }

  /** The end block strictly dominates no block that can be reached. */
  lemma EndIsNotImmediate(rows: Rows, i: nat, n: nat)
    requires Reaches(Graph(rows), 0, n) && StrictlyDominates(Graph(rows), 0, i, n)
    ensures i <= |rows|
  {
    var r :| PathFromTo(Graph(rows), 0, n, r);
    var k :| 0 <= k < |r| && r[k] == i;
    assert (r[k], r[k + 1]) in Graph(rows);
    NoEdgeFromEnd(rows, r[k], r[k + 1]);
  }

  lemma ImmediateByExecution(p: Program, cuts: seq<nat>, i: nat, b: nat) returns (c: nat)
    requires WellFormed(p) && FirstJumpCovered(p) && Cuts(p, cuts) && 0 < b < |cuts|
    requires Reaches(CfgEdges(p, cuts), 0, b + 1) && IsImmediateDominator(CfgEdges(p, cuts), 0, i, b + 1)
    ensures i == c + 1 && c < |cuts| && IsNearest(StepEdges(p), cuts, c, b)
  {
    BlocksRenumberLeaders(p, cuts);
    StartIsNotImmediate(cuts, BlockEdges(p), CfgEdges(p, cuts), i, b);
    EndIsNotImmediate(RowsOf(p, cuts), i, b + 1);
    c := i - 1;
    LeadersDiffer(p, cuts);
    forall a, d | 0 <= a < |cuts| && 0 <= d < |cuts|
      ensures SameDominance(cuts, CfgEdges(p, cuts), StepEdges(p), a, d)
    {
      DominatorsAreExecuted(p, cuts, a, d);
    }
    ImmediateIsNearest(cuts, CfgEdges(p, cuts), StepEdges(p), c, b);
  }

  /** If an execution arrives at the first instruction of block `b + 1`, the block's immediate dominator
      is, of those whose first instruction every such execution has passed before, the nearest: its
      first instruction comes after those of all others. */
  ghost predicate IdomIsNearest(p: Program, cuts: seq<nat>, bbs: seq<BasicBlock>, b: nat)
    requires WellFormed(p) && b < |cuts| < |bbs|
    reads bbs`idom
  {
    b > 0 && Reaches(StepEdges(p), 0, cuts[b]) ==>
      exists c :: 0 <= c < |cuts| && LinksToNearest(p, cuts, bbs, b, c)
  }

  ghost predicate LinksToNearest(p: Program, cuts: seq<nat>, bbs: seq<BasicBlock>, b: nat, c: nat)
    requires WellFormed(p) && b < |cuts| < |bbs| && c < |cuts|
    reads bbs`idom
  {
    bbs[b + 1].idom == bbs[c + 1] && IsNearest(StepEdges(p), cuts, c, b)
  }

  lemma ReachedByNumber(p: Program, cuts: seq<nat>, b: nat)
    requires WellFormed(p) && FirstJumpCovered(p) && Cuts(p, cuts) && b < |cuts|
    ensures Reaches(StepEdges(p), 0, cuts[b]) <==> Reaches(CfgEdges(p, cuts), 0, b + 1)
  {
    assert cuts[b] in cuts;
    LeaderIsLive(p, cuts[b]);
    ExactIffFirstJumpCovered(p);
    BlocksRenumberLeaders(p, cuts);
    RenumberingKeepsReach(cuts, BlockEdges(p), CfgEdges(p, cuts), b);
  }

  lemma NearestByExecution(p: Program, cuts: seq<nat>, i: nat, b: nat) returns (c: nat)
    requires WellFormed(p) && FirstJumpCovered(p) && Cuts(p, cuts) && 0 < b < |cuts|
    requires EdgesWithin(CfgEdges(p, cuts), |cuts| + 2) && Reaches(CfgEdges(p, cuts), 0, b + 1)
    requires ImmediateDominators.IsNearest(CfgEdges(p, cuts), |cuts| + 2, i, b + 1)
    ensures i == c + 1 && c < |cuts| && IsNearest(StepEdges(p), cuts, c, b)
  {
    ImmediateDominators.NearestIsImmediate(CfgEdges(p, cuts), |cuts| + 2, i, b + 1);
    c := ImmediateByExecution(p, cuts, i, b);
  }

  lemma IdomByExecution(p: Program, cuts: seq<nat>, bbs: seq<BasicBlock>, b: nat)
    requires WellFormed(p) && FirstJumpCovered(p) && Cuts(p, cuts) && |bbs| == |cuts| + 2 && b < |cuts|
    requires Numbered(bbs) && EdgesWithin(CfgEdges(p, cuts), |bbs|)
    requires b > 0 ==> ImmediateDominators.HasItsNearest(bbs, CfgEdges(p, cuts), b + 1)
    ensures IdomIsNearest(p, cuts, bbs, b)
  {
    if b > 0 && Reaches(StepEdges(p), 0, cuts[b]) {
      ReachedByNumber(p, cuts, b);
      var idom := bbs[b + 1].idom;
      var c := NearestByExecution(p, cuts, idom.id, b);
      assert idom == bbs[idom.id] == bbs[c + 1];
      assert LinksToNearest(p, cuts, bbs, b, c);
    }
  }

  /** The search for immediate dominators, after dominator analysis. */
  method RunImmediateDominators(p: Program, ghost cuts: seq<nat>, bbs: seq<BasicBlock>)
    requires WellFormed(p) && EliminationEnds(p) && Cuts(p, cuts) && |bbs| == |cuts| + 2
    requires DominatorsByNumber(p, cuts, bbs) && bbs[0].idom == null
    modifies bbs`idom
    ensures forall n :: 0 < n < |bbs| ==> ImmediateDominators.HasItsNearest(bbs, CfgEdges(p, cuts), n)
    ensures FirstJumpCovered(p) ==> forall b :: 0 <= b < |cuts| ==> IdomIsNearest(p, cuts, bbs, b)
  {
    forall n, d | 0 <= n < |bbs| && 0 <= d < |bbs|
      ensures bbs[d] in bbs[n].dominators <==> Dominates(CfgEdges(p, cuts), 0, d, n)
    {
      assert DominatesByNumber(p, cuts, bbs, n, d);
    }
    ImmediateDominators.ComputeImmDominator(bbs, CfgEdges(p, cuts));
    if FirstJumpCovered(p) {
      forall b | 0 <= b < |cuts| ensures IdomIsNearest(p, cuts, bbs, b) {
        IdomByExecution(p, cuts, bbs, b);
      }
    }
  }

  /** Both parts of dominator analysis on the graph that control-flow analysis built. */
  method RunDominatorAnalysis(p: Program, ghost cuts: seq<nat>, bbs: seq<BasicBlock>)
    requires WellFormed(p) && NoOrphans(p) && EliminationEnds(p)
    requires Cuts(p, cuts) && Built(p, cuts, bbs) && AllNotAnalysed(bbs)
    requires Mirror(SetOf(bbs)) && Draws(SetOf(bbs), CfgEdges(p, cuts))
    modifies bbs`dominators, bbs`idom
    ensures HasEdges(bbs, CfgEdges(p, cuts))
    ensures forall n :: 0 < n < |bbs| ==> ImmediateDominators.HasItsNearest(bbs, CfgEdges(p, cuts), n)
    ensures FirstJumpCovered(p) ==> forall b :: 0 <= b < |cuts| ==> IdomIsNearest(p, cuts, bbs, b)
  {
    assert bbs[0] in bbs;
    DrawnOnBothSides(bbs, CfgEdges(p, cuts));
    RunDominators(p, cuts, bbs);
    RunImmediateDominators(p, cuts, bbs);
  }

  /** All three passes: the immediate dominator of a block that is executed, other than the first, is the
      nearest of the blocks that every execution has entered before. */
  method FindImmediateDominators(p: Program, m: OffsetMap) returns (bbs: seq<BasicBlock>, ghost cuts: seq<nat>)
    requires WellFormed(p) && Indexes(m, p) && NoOrphans(p) && EliminationEnds(p)
    requires forall ins :: ins in p ==> !ins.dead
    modifies p`bb, p`dead
    ensures Cuts(p, cuts) && Built(p, cuts, bbs) && HasEdges(bbs, CfgEdges(p, cuts))
    ensures forall n :: 0 < n < |bbs| ==> ImmediateDominators.HasItsNearest(bbs, CfgEdges(p, cuts), n)
    ensures FirstJumpCovered(p) ==> forall b :: 0 <= b < |cuts| ==> IdomIsNearest(p, cuts, bbs, b)
  {
    bbs, cuts := ControlFlowAnalysis.Run(p, m);
    RunDominatorAnalysis(p, cuts, bbs);
  }

  /** If every block can be reached, the links they get form the dominator tree of the block graph. */
  lemma IdomsFormTree(p: Program, cuts: seq<nat>, bbs: seq<BasicBlock>, idom: seq<nat>)
    requires WellFormed(p) && AllReachable(p) && Cuts(p, cuts) && Built(p, cuts, bbs)
    requires HasEdges(bbs, CfgEdges(p, cuts)) && ImmediateDominators.HoldsIdoms(bbs, idom)
    requires forall n :: 0 < n < |bbs| ==> ImmediateDominators.HasItsNearest(bbs, CfgEdges(p, cuts), n)
    ensures ImmediateDominators.IdomTree(CfgEdges(p, cuts), idom)
  {
    forall n | 0 <= n < |bbs| ensures Reaches(CfgEdges(p, cuts), 0, n) {
      AllNumbersReachable(p, cuts, n);
    }
    ImmediateDominators.FieldsFormTree(bbs, CfgEdges(p, cuts), idom);
  }

  /** All three passes on a program whose blocks can all be reached: none of the searches runs forever, and
      the links are the dominator tree. */
  method FindDominatorTree(p: Program, m: OffsetMap)
    returns (bbs: seq<BasicBlock>, ghost cuts: seq<nat>, ghost idom: seq<nat>)
    requires WellFormed(p) && Indexes(m, p) && AllReachable(p) && forall ins :: ins in p ==> !ins.dead
    modifies p`bb, p`dead
    ensures Cuts(p, cuts) && Built(p, cuts, bbs) && ImmediateDominators.HoldsIdoms(bbs, idom)
    ensures ImmediateDominators.IdomTree(CfgEdges(p, cuts), idom)
  {
    ReachableMeansEnds(p);
    bbs, cuts := FindImmediateDominators(p, m);
    idom := HeldIdoms(p, cuts, bbs);
    IdomsFormTree(p, cuts, bbs, idom);
  }

  lemma HeldIdoms(p: Program, cuts: seq<nat>, bbs: seq<BasicBlock>) returns (idom: seq<nat>)
    requires WellFormed(p)
    requires forall n :: 0 < n < |bbs| ==> ImmediateDominators.HasItsNearest(bbs, CfgEdges(p, cuts), n)
    ensures ImmediateDominators.HoldsIdoms(bbs, idom)
  {
    var id := (b: BasicBlock?) => if b == null then 0 else b.id;
    idom := seq(|bbs|, n requires 0 <= n < |bbs| reads bbs`idom => id(bbs[n].idom));
    forall n | 0 < n < |bbs| ensures bbs[n].idom != null && idom[n] == bbs[n].idom.id {
      assert ImmediateDominators.HasItsNearest(bbs, CfgEdges(p, cuts), n);
    }
  }

  // ---------------------------------------------------------------- liveness on the built blocks

  lemma EveryInsInBlocks(p: Program, cuts: seq<nat>, bbs: seq<BasicBlock>)
    requires WellFormed(p) && Cuts(p, cuts) && Built(p, cuts, bbs)
    ensures forall i :: 0 <= i < |p| ==> p[i].bb != null && p[i].bb in bbs
  {
    FirstCut(p, cuts);
    forall i | 0 <= i < |p| ensures p[i].bb != null && p[i].bb in bbs {
      var c := BlockAt(p, cuts, bbs, i, |cuts|);
      assert bbs[c + 1] in bbs;
    }
  }

  /** `ue` and `kill` are what block `b` exposes and writes. */
  ghost predicate HoldsKillUe(p: Program, bbs: seq<BasicBlock>, ue: Liveness.RegSets, kill: Liveness.RegSets, b: nat)
    requires b < |bbs| == |ue| == |kill|
    reads p
  {
    forall r: nat ::
      && (r in ue[b] <==> Liveness.Exposed(p, |p|, bbs[b], r))
      && (r in kill[b] <==> Liveness.Killed(p, |p|, bbs[b], r))
  }

  // ---------------------------------------------------------------- the collected sets and the code

  /** The code of a block: what its instructions read, all of it, and what they write. */
  ghost predicate IsCodeOf(code: Renaming.Code, bb: BasicBlock)
    reads bb`insns, bb.insns
  {
    |code| == |bb.insns| && forall k :: 0 <= k < |code| ==> IsAccess(code[k], bb.insns[k])
  }

  ghost predicate IsAccess(a: Renaming.Access, ins: Ins)
    reads ins
  {
    && a.offset == ins.offset && a.uses == (if ins.hasReadReg then ins.readRegs else [])
    && a.write == if ins.hasWriteReg then Some(ins.writeReg) else None
  }

  ghost function CodeIn(insns: seq<Ins>): (code: Renaming.Code)
    reads insns
    ensures |code| == |insns| && forall k :: 0 <= k < |code| ==> IsAccess(code[k], insns[k])
  {
    if insns == [] then []
    else
      var n, ins := |insns| - 1, insns[|insns| - 1];
      CodeIn(insns[..n]) + [Renaming.Access(ins.offset, if ins.hasReadReg then ins.readRegs else [],
                                            if ins.hasWriteReg then Some(ins.writeReg) else None)]
  }

  /** The instructions of a block are those at the positions `lo` to `hi` - 1. */
  ghost predicate Occupies(p: Program, lo: nat, hi: nat, bb: BasicBlock)
    reads p`bb, bb`insns
  {
    && lo <= hi <= |p| && bb.insns == p[lo..hi]
    && forall i :: 0 <= i < |p| ==> (p[i].bb == bb <==> lo <= i < hi)
  }

  lemma KilledIsWritten(p: Program, lo: nat, hi: nat, bb: BasicBlock, code: Renaming.Code, k: nat, r: nat)
    requires Occupies(p, lo, hi, bb) && IsCodeOf(code, bb) && k <= |code|
    ensures Liveness.Killed(p, lo + k, bb, r) <==> Renaming.WrittenWithin(code, 0, k, r)
  {
    if i :| 0 <= i < lo + k && Liveness.Writes(p[i], bb, r) {
      assert IsAccess(code[i - lo], bb.insns[i - lo]);
    }
    if q :| 0 <= q < k && code[q].write == Some(r) {
      assert IsAccess(code[q], bb.insns[q]);
      assert Liveness.Writes(p[lo + q], bb, r);
    }
  }

  lemma ExposedIsIncoming(p: Program, lo: nat, hi: nat, bb: BasicBlock, code: Renaming.Code, r: nat)
    requires Occupies(p, lo, hi, bb) && IsCodeOf(code, bb)
    ensures Liveness.Exposed(p, |p|, bb, r) <==> Renaming.IsIncoming(code, iset{}, r)
  {
    if i :| 0 <= i < |p| && Liveness.Reads(p[i], bb, r) && !Liveness.Killed(p, i, bb, r) {
      assert IsAccess(code[i - lo], bb.insns[i - lo]);
      KilledIsWritten(p, lo, hi, bb, code, i - lo, r);
      assert Renaming.DemandedFromEntry(code, iset{}, i - lo, r);
    }
    if q: nat :| Renaming.DemandedFromEntry(code, iset{}, q, r) {
      assert IsAccess(code[q], bb.insns[q]);
      KilledIsWritten(p, lo, hi, bb, code, q, r);
      assert Liveness.Reads(p[lo + q], bb, r);
    }
  }

  lemma NothingKilledAfter(p: Program, lo: nat, hi: nat, bb: BasicBlock, r: nat)
    requires Occupies(p, lo, hi, bb)
    ensures Liveness.Killed(p, |p|, bb, r) <==> Liveness.Killed(p, hi, bb, r)
  {
  }

  /** What is collected for a block is what its code asks for on entry, and what it writes. */
  lemma CollectedIsSummary(p: Program, lo: nat, hi: nat, bb: BasicBlock, code: Renaming.Code, ue: set<nat>,
                           kill: set<nat>)
    requires Occupies(p, lo, hi, bb) && IsCodeOf(code, bb)
    requires forall r: nat ::
      (r in ue <==> Liveness.Exposed(p, |p|, bb, r)) && (r in kill <==> Liveness.Killed(p, |p|, bb, r))
    ensures Runs.Summary(code, ue, kill)
  {
    forall r: nat
      ensures r in ue <==> Renaming.IsIncoming(code, iset{}, r)
      ensures r in kill <==> Renaming.WrittenWithin(code, 0, |code|, r)
    {
      ExposedIsIncoming(p, lo, hi, bb, code, r);
      KilledIsWritten(p, lo, hi, bb, code, |code|, r);
      NothingKilledAfter(p, lo, hi, bb, r);
    }
  }

  lemma BlockOccupies(p: Program, cuts: seq<nat>, bbs: seq<BasicBlock>, b: nat) returns (lo: nat, hi: nat)
    requires WellFormed(p) && Cuts(p, cuts) && Built(p, cuts, bbs) && b < |bbs|
    ensures Occupies(p, lo, hi, bbs[b])
  {
    FirstCut(p, cuts);
    lo, hi := 0, 0;
    if 0 < b <= |cuts| {
      BlockIsNotEmpty(p, cuts, b - 1);
      lo, hi := cuts[b - 1], EndOf(p, cuts, b - 1);
      assert Filled(p, cuts, bbs, b - 1, hi);
    }
    forall i | 0 <= i < |p| ensures p[i].bb == bbs[b] <==> lo <= i < hi {
      var c := BlockAt(p, cuts, bbs, i, |cuts|);
      assert p[i].bb == bbs[b] ==> bbs[b].id == bbs[c + 1].id;
    }
  }

  /** The codes of the blocks. */
  ghost predicate AreCodesOf(codes: seq<Renaming.Code>, bbs: seq<BasicBlock>)
    reads bbs`insns, set b, k | 0 <= b < |bbs| && 0 <= k < |bbs[b].insns| :: bbs[b].insns[k]
  {
    |codes| == |bbs| && forall b :: 0 <= b < |bbs| ==> IsCodeOf(codes[b], bbs[b])
  }

  lemma CodesExist(bbs: seq<BasicBlock>) returns (codes: seq<Renaming.Code>)
    ensures AreCodesOf(codes, bbs)
  {
    codes := [];
    for b := 0 to |bbs|
      invariant |codes| == b && forall c :: 0 <= c < b ==> IsCodeOf(codes[c], bbs[c])
    {
      codes := codes + [CodeIn(bbs[b].insns)];
    }
  }

  /** On built blocks the collected sets are those of the blocks as code. */
  lemma CollectedSummarise(p: Program, cuts: seq<nat>, bbs: seq<BasicBlock>, codes: seq<Renaming.Code>,
                           ue: Liveness.RegSets, kill: Liveness.RegSets)
    requires WellFormed(p) && Cuts(p, cuts) && Built(p, cuts, bbs) && AreCodesOf(codes, bbs)
    requires |ue| == |kill| == |bbs| && forall b :: 0 <= b < |bbs| ==> HoldsKillUe(p, bbs, ue, kill, b)
    ensures Runs.Summarise(codes, ue, kill)
  {
    forall b | 0 <= b < |bbs| ensures Runs.Summary(codes[b], ue[b], kill[b]) {
      var lo, hi := BlockOccupies(p, cuts, bbs, b);
      assert HoldsKillUe(p, bbs, ue, kill, b);
      CollectedIsSummary(p, lo, hi, bbs[b], codes[b], ue[b], kill[b]);
    }
  }

  ghost predicate HoldsLiveOut(bbs: seq<BasicBlock>, e: Edges, ue: Liveness.RegSets, kill: Liveness.RegSets, b: nat)
    requires b < |bbs|
    reads bbs`liveOut
  {
    forall r: nat :: r in bbs[b].liveOut <==> Liveness.PassPath(e, ue, kill, b, r)
  }

  /** Collect what the blocks write and expose. */
  method CollectKillUe(p: Program, bbs: seq<BasicBlock>)
    returns (ghost ue: Liveness.RegSets, ghost kill: Liveness.RegSets)
    requires forall i :: 0 <= i < |p| ==> p[i].bb != null && p[i].bb in bbs
    requires forall b :: b in bbs ==> b.kill == {} && b.ue == {}
    modifies bbs`ue, bbs`kill
    ensures |ue| == |kill| == |bbs| && forall b :: 0 <= b < |bbs| ==> bbs[b].ue == ue[b] && bbs[b].kill == kill[b]
    ensures forall b :: 0 <= b < |bbs| ==> HoldsKillUe(p, bbs, ue, kill, b)
  {
    Liveness.ComputeKillUe(bbs, p);
    ue := seq(|bbs|, b reads bbs requires 0 <= b < |bbs| => bbs[b].ue);
    kill := seq(|bbs|, b reads bbs requires 0 <= b < |bbs| => bbs[b].kill);
    forall b | 0 <= b < |bbs| ensures HoldsKillUe(p, bbs, ue, kill, b) {
      assert bbs[b] in bbs && Liveness.KillUeUpTo(p, |p|, bbs[b]);
    }
  }

  lemma LiveOutsFollowPaths(bbs: seq<BasicBlock>, e: Edges, ue: Liveness.RegSets, kill: Liveness.RegSets, b: nat)
    requires b < |bbs| && IsSolution(bbs, e, ue, kill, b)
    ensures HoldsLiveOut(bbs, e, ue, kill, b)
  {
    forall r: nat ensures r in bbs[b].liveOut <==> Liveness.PassPath(e, ue, kill, b, r) {
      Liveness.OwnGenMeaning(e, ue, Liveness.OwnGen(e, ue), kill, b, r);
    }
  }

  ghost predicate IsSolution(bbs: seq<BasicBlock>, e: Edges, ue: Liveness.RegSets, kill: Liveness.RegSets, b: nat)
    requires b < |bbs|
    reads bbs`liveOut
  {
    forall r: nat :: r in bbs[b].liveOut <==> Liveness.Live(e, Liveness.OwnGen(e, ue), kill, b, r)
  }

  /** The sweeps, from collected sets. */
  method SolveLiveness(bbs: seq<BasicBlock>, ghost e: Edges, ghost ue: Liveness.RegSets, ghost kill: Liveness.RegSets)
    requires Numbered(bbs) && Liveness.HasSuccEdges(bbs, e) && Liveness.SuccessorsListed(bbs)
    requires |ue| == |kill| == |bbs|
    requires forall b :: 0 <= b < |bbs| ==> bbs[b].ue == ue[b] && bbs[b].kill == kill[b] && bbs[b].liveOut == {}
    modifies bbs`liveOut
    ensures forall b :: 0 <= b < |bbs| ==> HoldsLiveOut(bbs, e, ue, kill, b)
  {
    Liveness.ComputeLiveOuts(bbs, e, ue, kill, Liveness.OwnGen(e, ue));
    forall b | 0 <= b < |bbs| ensures HoldsLiveOut(bbs, e, ue, kill, b) {
      assert IsSolution(bbs, e, ue, kill, b);
      LiveOutsFollowPaths(bbs, e, ue, kill, b);
    }
  }

  /** Collect what the built blocks write and expose: it is what their code does. */
  method SummariseBlocks(p: Program, ghost cuts: seq<nat>, bbs: seq<BasicBlock>)
    returns (ghost ue: Liveness.RegSets, ghost kill: Liveness.RegSets, ghost codes: seq<Renaming.Code>)
    requires WellFormed(p) && Cuts(p, cuts) && Built(p, cuts, bbs)
    requires forall b :: b in bbs ==> b.kill == {} && b.ue == {}
    modifies bbs`ue, bbs`kill
    ensures |ue| == |kill| == |bbs| && forall b :: 0 <= b < |bbs| ==> bbs[b].ue == ue[b] && bbs[b].kill == kill[b]
    ensures forall b :: 0 <= b < |bbs| ==> HoldsKillUe(p, bbs, ue, kill, b)
    ensures AreCodesOf(codes, bbs) && Runs.Summarise(codes, ue, kill)
  {
    EveryInsInBlocks(p, cuts, bbs);
    ue, kill := CollectKillUe(p, bbs);
    codes := CodesExist(bbs);
    CollectedSummarise(p, cuts, bbs, codes, ue, kill);
  }

  /** Liveness analysis on the graph that control-flow analysis built. */
  method RunLiveness(p: Program, ghost cuts: seq<nat>, bbs: seq<BasicBlock>)
    returns (ghost ue: Liveness.RegSets, ghost kill: Liveness.RegSets, ghost codes: seq<Renaming.Code>)
    requires WellFormed(p) && Cuts(p, cuts) && Built(p, cuts, bbs) && AllNotAnalysed(bbs)
    requires Mirror(SetOf(bbs)) && Draws(SetOf(bbs), CfgEdges(p, cuts))
    modifies bbs`ue, bbs`kill, bbs`liveOut
    ensures |ue| == |kill| == |bbs|
    ensures forall b :: 0 <= b < |bbs| ==> HoldsKillUe(p, bbs, ue, kill, b)
    ensures forall b :: 0 <= b < |bbs| ==> HoldsLiveOut(bbs, CfgEdges(p, cuts), ue, kill, b)
    ensures AreCodesOf(codes, bbs) && Runs.Summarise(codes, ue, kill)
  {
    DrawnOnBothSides(bbs, CfgEdges(p, cuts));
    assert forall b :: 0 <= b < |bbs| ==> bbs[b] in bbs;
    ue, kill, codes := SummariseBlocks(p, cuts, bbs);
    SolveLiveness(bbs, CfgEdges(p, cuts), ue, kill);
  }

  // ---------------------------------------------------------------- the pass against the textbook, on built blocks

  /** The exit of a block: its first jump, or else the instruction `i` up to which it has none. */
  lemma {:induction false} FirstJumpOrLast(p: Program, l: nat, i: nat) returns (x: nat)
    requires WellFormed(p) && i < |p| && LeaderOf(p, i) == l
    ensures x <= i && LeaderOf(p, x) == l && !Dead(p, x) && (p[x].jump || x == i)
    decreases i
  {
    if i == l {
      x := i;
    } else {
      DeadFromPrevious(p, i);
      x := FirstJumpOrLast(p, l, i - 1);
      if !p[x].jump {
        x := i;
      }
    }
  }

  lemma LaterBlockIsEntered(p: Program, cuts: seq<nat>, b: nat) returns (j: nat)
    requires WellFormed(p) && Cuts(p, cuts) && b + 1 < |cuts|
    ensures (cuts[b], j) in BlockEdges(p)
  {
    assert cuts[b] in cuts && cuts[b + 1] in cuts && Ascends(cuts, b, b + 1);
    var last := cuts[b + 1] - 1;
    BlockOfLeader(p, cuts, b, last);
    var x := FirstJumpOrLast(p, cuts[b], last);
    assert IsExit(p, cuts[b], x);
    var y := if p[x].jump then Target(p, x) else x + 1;
    j := LeaderOf(p, y);
    assert Steps(p, x, y) && LandsIn(p, y, j) && BlockEdge(p, cuts[b], j);
  }

  lemma NumberHasSuccessor(cuts: seq<nat>, e: Edges, g: Edges, b: nat, j: nat)
    requires Renumbers(cuts, e, g) && 0 < b <= |cuts| && (cuts[b - 1], j) in e
    ensures Liveness.HasSuccessor(g, b)
  {
    assert j in cuts;
    var c: nat :| c < |cuts| && cuts[c] == j;
    assert EdgeInto(cuts, e, g, b, c);
    assert (b, c + 1) in g;
  }

  lemma LeadsOnHasSuccessor(p: Program, cuts: seq<nat>, b: nat)
    requires WellFormed(p) && Cuts(p, cuts) && 0 < b < |cuts|
    ensures Liveness.HasSuccessor(CfgEdges(p, cuts), b)
  {
    var j := LaterBlockIsEntered(p, cuts, b - 1);
    BlocksRenumberLeaders(p, cuts);
    NumberHasSuccessor(cuts, BlockEdges(p), CfgEdges(p, cuts), b, j);
  }

  lemma FrameHasSuccessors(rows: Rows, b: nat)
    requires b == 0 || b == |rows|
    ensures Liveness.HasSuccessor(Graph(rows), b)
  {
    assert (0, 1) in Graph(rows) && (|rows|, |rows| + 1) in Graph(rows);
  }

  lemma FrameLeadsOn(p: Program, cuts: seq<nat>, b: nat)
    requires WellFormed(p) && (b == 0 || b == |cuts|)
    ensures Liveness.HasSuccessor(CfgEdges(p, cuts), b)
  {
    FrameHasSuccessors(RowsOf(p, cuts), b);
  }

  /** Every block but the end block leads somewhere. */
  lemma EveryBlockHasSuccessor(p: Program, cuts: seq<nat>, b: nat)
    requires WellFormed(p) && Cuts(p, cuts) && b <= |cuts|
    ensures Liveness.HasSuccessor(CfgEdges(p, cuts), b)
  {
    if 0 < b < |cuts| {
      LeadsOnHasSuccessor(p, cuts, b);
    } else {
      FrameLeadsOn(p, cuts, b);
    }
  }

  /** The end block has no instructions, so it exposes nothing. */
  lemma EndExposesNothing(p: Program, cuts: seq<nat>, bbs: seq<BasicBlock>, ue: Liveness.RegSets,
                          kill: Liveness.RegSets)
    requires WellFormed(p) && Cuts(p, cuts) && Built(p, cuts, bbs) && |bbs| == |ue| == |kill|
    requires HoldsKillUe(p, bbs, ue, kill, |cuts| + 1)
    ensures ue[|cuts| + 1] == {}
  {
    var n := |cuts| + 1;
    FirstCut(p, cuts);
    forall i | 0 <= i < |p| ensures p[i].bb != bbs[n] {
      var c := BlockAt(p, cuts, bbs, i, |cuts|);
    }
    forall r: nat ensures r !in ue[n] {
      assert !Liveness.Exposed(p, |p|, bbs[n], r);
    }
  }

  /** On the blocks that control-flow analysis builds, the pass finds the textbook's live registers if and
      only if every register that a block exposes is exposed again further on, and every register that a
      block exposes and kills is seen, from the blocks before it, without passing through the kill. */
  lemma LivenessIsTextbookIff(p: Program, cuts: seq<nat>, bbs: seq<BasicBlock>, ue: Liveness.RegSets,
                              kill: Liveness.RegSets)
    requires WellFormed(p) && Cuts(p, cuts) && Built(p, cuts, bbs) && |bbs| == |ue| == |kill|
    requires HasEdges(bbs, CfgEdges(p, cuts))
    requires forall b :: 0 <= b < |bbs| ==> HoldsKillUe(p, bbs, ue, kill, b)
    ensures var e := CfgEdges(p, cuts);
      (forall b: nat, r: nat :: Liveness.PassPath(e, ue, kill, b, r) <==> Liveness.TextbookPath(e, ue, kill, b, r))
      <==>
      && (forall b: nat, r: nat :: b < |ue| && r in ue[b] ==> Liveness.TextbookPath(e, ue, kill, b, r))
      && (forall b: nat, s: nat, r: nat :: Liveness.ExposesNext(e, ue, b, s, r) && r in kill[s] ==>
            Liveness.PassPath(e, ue, kill, b, r))
  {
    EndExposesNothing(p, cuts, bbs, ue, kill);
    ExposingLeadsOn(p, cuts, ue);
    Liveness.PassIsTextbookWithSuccessorsIff(CfgEdges(p, cuts), ue, kill);
  }

  lemma PathStartsInside(e: Edges, n: nat, q: seq<nat>)
    requires EdgesWithin(e, n) && IsPath(e, q) && |q| > 1
    ensures q[0] < n
  {
    assert (q[0], q[1]) in e;
  }

  lemma NothingOutside(e: Edges, ue: Liveness.RegSets, kill: Liveness.RegSets, b: nat, r: nat)
    requires EdgesWithin(e, |ue|) && b >= |ue|
    ensures !Liveness.PassPath(e, ue, kill, b, r) && !Liveness.TextbookPath(e, ue, kill, b, r)
  {
    forall q | IsPath(e, q) && q[0] == b ensures !Liveness.ExposingPath(e, ue, b, r, q) {
      if |q| > 1 {
        PathStartsInside(e, |ue|, q);
      }
    }
  }

  /** On the blocks that control-flow analysis builds, the live-out sets hold exactly the registers that some
      run through the block still asks for, under the same condition, and under no other. */
  lemma LiveOutIsAskedForIff(p: Program, cuts: seq<nat>, bbs: seq<BasicBlock>, codes: seq<Renaming.Code>,
                             ue: Liveness.RegSets, kill: Liveness.RegSets)
    requires WellFormed(p) && Cuts(p, cuts) && Built(p, cuts, bbs) && |bbs| == |ue| == |kill|
    requires HasEdges(bbs, CfgEdges(p, cuts)) && AreCodesOf(codes, bbs)
    requires forall b :: 0 <= b < |bbs| ==> HoldsKillUe(p, bbs, ue, kill, b)
    ensures var e := CfgEdges(p, cuts);
      (forall b: nat, r: nat :: b < |bbs| ==>
         (Liveness.PassPath(e, ue, kill, b, r) <==> Runs.AskedForAfter(e, codes, b, r)))
      <==>
      && (forall b: nat, r: nat :: b < |bbs| && r in ue[b] ==> Runs.AskedForAfter(e, codes, b, r))
      && (forall b: nat, s: nat, r: nat :: Liveness.ExposesNext(e, ue, b, s, r) && r in kill[s] ==>
            Liveness.PassPath(e, ue, kill, b, r))
  {
    var e := CfgEdges(p, cuts);
    CollectedSummarise(p, cuts, bbs, codes, ue, kill);
    LivenessIsTextbookIff(p, cuts, bbs, ue, kill);
    assert EdgesWithin(e, |bbs|);
    forall b: nat, r: nat
      ensures b < |bbs| ==> (Liveness.TextbookPath(e, ue, kill, b, r) <==> Runs.AskedForAfter(e, codes, b, r))
      ensures b >= |bbs| ==> !Liveness.PassPath(e, ue, kill, b, r) && !Liveness.TextbookPath(e, ue, kill, b, r)
    {
      if b < |bbs| {
        Runs.LiveOutMeaning(e, codes, ue, kill, b, r);
      } else {
        NothingOutside(e, ue, kill, b, r);
      }
    }
  }

  lemma ExposingLeadsOn(p: Program, cuts: seq<nat>, ue: Liveness.RegSets)
    requires WellFormed(p) && Cuts(p, cuts) && |ue| == |cuts| + 2 && ue[|cuts| + 1] == {}
    ensures forall b: nat, r: nat :: b < |ue| && r in ue[b] ==> Liveness.HasSuccessor(CfgEdges(p, cuts), b)
  {
    forall b: nat, r: nat | b < |ue| && r in ue[b] ensures Liveness.HasSuccessor(CfgEdges(p, cuts), b) {
      EveryBlockHasSuccessor(p, cuts, b);
    }
  }

  /** On decoded instructions every block exposes all it kills. */
  lemma DecodedKillIsExposed(p: Program, bbs: seq<BasicBlock>, ue: Liveness.RegSets, kill: Liveness.RegSets, b: nat)
    requires b < |bbs| == |ue| == |kill| && HoldsKillUe(p, bbs, ue, kill, b)
    requires forall i :: 0 <= i < |p| ==> WriteListed(p[i])
    ensures kill[b] <= ue[b]
  {
    forall r | r in kill[b] ensures r in ue[b] {
      Liveness.KilledIsExposed(p, |p|, bbs[b], r);
    }
  }

  /** A program of one instruction draws the graph of `Liveness.UsedThenKilledIsMissed`. */
  lemma OneInstructionDraws(p: Program)
    requires |p| == 1 && p[0].size > 0 && !p[0].tryContext && !p[0].jump && !p[0].conditionalJump
    ensures WellFormed(p) && Cuts(p, [0]) && CfgEdges(p, [0]) == {(0, 1), (1, 2)}
  {
    assert Plain(p, 0) && forall j :: !Steps(p, 0, j);
    var rows := RowsOf(p, [0]);
    assert rows[0] == {};
    assert EdgesUpTo(rows, 0) == {} && EdgesTo(0, rows[0]) == {} && EdgesUpTo(rows, 1) == {};
  }
}

/** Dominator sets by iteration to a greatest fixpoint, and immediate dominators by elimination. */
module Dominators {
  import opened Counting
  import opened IR
  import opened Paths

  // ---------------------------------------------------------------- the fixpoint, on values

  /** The dominator sets of all blocks, by block number. */
  type DomSets = seq<set<nat>>

  /** What one update of block `n` keeps: `n` itself and whatever all its predecessors hold. */
  ghost predicate InMeet(e: Edges, doms: DomSets, n: nat, d: nat) {
    d == n || forall p :: (p, n) in e && p < |doms| ==> d in doms[p]
  }

  /** No true dominator has been dropped. */
  ghost predicate Sound(e: Edges, doms: DomSets) {
    forall n, d {:trigger Dominates(e, 0, d, n)} ::
      0 <= n < |doms| && 0 <= d < |doms| && Dominates(e, 0, d, n) ==> d in doms[n]
  }

  /** Each set still holds everything the next update would put into it, so sets only shrink. */
  ghost predicate Shrinking(e: Edges, doms: DomSets) {
    forall n, d :: 0 < n < |doms| && 0 <= d < |doms| && InMeet(e, doms, n, d) ==> d in doms[n]
  }

  /** The one-sided change test has found nothing to remove. */
  ghost predicate Stable(e: Edges, doms: DomSets, n: nat)
    requires n < |doms|
  {
    forall d :: d in doms[n] ==> InMeet(e, doms, n, d)
  }

  /** Blocks 1 to `count` - 1 are stable. */
  ghost predicate AllStable(e: Edges, doms: DomSets, count: nat)
    requires count <= |doms|
  {
    forall n :: 0 < n < count ==> Stable(e, doms, n)
  }

  lemma AllStableExtends(e: Edges, doms: DomSets, n: nat)
    requires n < |doms| && AllStable(e, doms, n) && Stable(e, doms, n)
    ensures AllStable(e, doms, n + 1)
  {
  }

  lemma TrueDominatorsAreInMeet(e: Edges, doms: DomSets, n: nat, d: nat)
    requires Sound(e, doms) && EdgesWithin(e, |doms|)
    requires d < |doms| && n < |doms| && Dominates(e, 0, d, n)
    ensures InMeet(e, doms, n, d)
  {
    if d != n {
      forall p | (p, n) in e ensures d in doms[p] {
        forall q | PathFromTo(e, 0, p, q) ensures d in q {
          EdgeExtendsPath(e, q, n);
          assert d in q + [n];
        }
        assert Dominates(e, 0, d, p);
      }
    }
  }

  // ---------------------------------------------------------------- the termination measure

  ghost function TotalSize(doms: DomSets): nat {
    if doms == [] then 0 else |doms[0]| + TotalSize(doms[1..])
  }

  lemma {:induction false} ShrinkingLowersTotal(doms: DomSets, n: nat, next: set<nat>)
    requires n < |doms| && next < doms[n]
    ensures TotalSize(doms[n := next]) < TotalSize(doms)
  {
    var doms' := doms[n := next];
    if n == 0 {
      assert doms'[1..] == doms[1..];
      SubsetIsNoLarger(next, doms[n]);
    } else {
      assert doms'[1..] == doms[1..][n - 1 := next];
      ShrinkingLowersTotal(doms[1..], n - 1, next);
    }
  }

  /** Everything the sweeps keep. */
  ghost predicate Progress(e: Edges, doms: DomSets) {
    && doms != []
    && doms[0] == {0}
    && EdgesWithin(e, |doms|)
    && Sound(e, doms)
    && Shrinking(e, doms)
  }

  /** Updating one block keeps the invariants; the one-sided test detects every change, and a
      change makes the sets smaller. */
  lemma UpdateMakesProgress(e: Edges, doms: DomSets, n: nat, next: set<nat>)
    requires Progress(e, doms)
    requires 0 < n < |doms| && forall d: nat :: d in next <==> d < |doms| && InMeet(e, doms, n, d)
    ensures Progress(e, doms[n := next])
    ensures next <= doms[n]
    ensures if exists d :: d in doms[n] && d !in next
      then TotalSize(doms[n := next]) < TotalSize(doms)
      else next == doms[n] && Stable(e, doms, n)
  {
    var doms' := doms[n := next];
    forall m, d | 0 <= m < |doms| && 0 <= d < |doms| && Dominates(e, 0, d, m) ensures d in doms'[m] {
      TrueDominatorsAreInMeet(e, doms, m, d);
    }
    forall m, d | 0 < m < |doms| && 0 <= d < |doms| && InMeet(e, doms', m, d) ensures d in doms'[m] {
      assert InMeet(e, doms, m, d);
    }
    if exists d :: d in doms[n] && d !in next {
      ShrinkingLowersTotal(doms, n, next);
    }
  }

  /** At a fixpoint, an element of a node's set lies on every path to that node. */
  lemma {:induction false} FixpointMembersAreOnPaths(e: Edges, doms: DomSets, n: nat, d: nat, p: seq<nat>)
    requires EdgesWithin(e, |doms|) && n < |doms| && doms[0] == {0}
    requires AllStable(e, doms, |doms|)
    requires d in doms[n] && PathFromTo(e, 0, n, p)
    ensures d in p
    decreases |p|
  {
    if n == 0 {
      assert p[0] == d;
    } else if d != n {
      var k := |p| - 2;
      assert Stable(e, doms, n) && InMeet(e, doms, n, d) && (p[k], p[k + 1]) in e;
      PrefixIsPath(e, p, k);
      FixpointMembersAreOnPaths(e, doms, p[k], d, p[..k + 1]);
    } else {
      assert p[|p| - 1] == d;
    }
  }

  /** A stable, sound family of sets is exactly the dominance relation. */
  lemma FixpointIsDominance(e: Edges, doms: DomSets, n: nat, d: nat)
    requires EdgesWithin(e, |doms|) && Sound(e, doms) && n < |doms| && d < |doms| && doms[0] == {0}
    requires AllStable(e, doms, |doms|)
    ensures d in doms[n] <==> Dominates(e, 0, d, n)
  {
    if d in doms[n] {
      forall p | PathFromTo(e, 0, n, p) ensures d in p {
        FixpointMembersAreOnPaths(e, doms, n, d, p);
      }
    }
  }

  // ---------------------------------------------------------------- computeDominators

  ghost function NumbersOfSet(s: set<BasicBlock>): set<nat> {
    set b | b in s :: b.id
  }

  ghost function NumbersOf(s: seq<BasicBlock>): set<nat> {
    NumbersOfSet(set b | b in s)
  }

  /** The sets held by the blocks' dominator lists. */
  ghost predicate Holds(bbs: seq<BasicBlock>, doms: DomSets)
    reads bbs`dominators
  {
    |doms| == |bbs| && forall i :: 0 <= i < |bbs| ==> doms[i] == NumbersOf(bbs[i].dominators)
  }

  lemma AppendKeepsDistinct<T>(s: seq<T>, x: T)
    requires Distinct(s) && x !in s
    ensures Distinct(s + [x])
  {
  }

  /** A flow graph as the pass expects it: numbered blocks, each but the first with a predecessor. */
  ghost predicate FlowGraph(bbs: seq<BasicBlock>)
    reads bbs`predecessors
  {
    && bbs != []
    && Numbered(bbs)
    && PredecessorsListed(bbs)
    && forall i :: 0 < i < |bbs| ==> bbs[i].predecessors != []
  }

  ghost predicate DominatorsListed(bbs: seq<BasicBlock>)
    reads bbs`dominators
  {
    forall b :: b in bbs ==> Distinct(b.dominators) && forall d :: d in b.dominators ==> d in bbs
  }

  /** The sets kept by the predecessors of `bb`, intersected, together with `bb`. */
  method IntersectPredecessors(bb: BasicBlock) returns (intersect: set<BasicBlock>)
    requires bb.predecessors != []
    ensures forall d :: d in intersect <==> d == bb || forall p :: p in bb.predecessors ==> d in p.dominators
  {
    var preds := bb.predecessors;
    intersect := set d | d in preds[0].dominators;
    var k := 1;
    while k < |preds|
      invariant 1 <= k <= |preds|
      invariant forall d :: d in intersect <==> forall i :: 0 <= i < k ==> d in preds[i].dominators
    {
      var pred := preds[k];
      intersect := set d | d in intersect && d in pred.dominators;
      k := k + 1;
    }
    intersect := intersect + {bb};
  }

  /** Refill a block's dominator list if some old element is missing from the intersection. */
  method UpdateDominators(bb: BasicBlock, intersect: set<BasicBlock>) returns (changed: bool)
    requires Distinct(bb.dominators)
    modifies bb`dominators
    ensures changed <==> exists d :: d in old(bb.dominators) && d !in intersect
    ensures !changed ==> bb.dominators == old(bb.dominators)
    ensures changed ==> forall d :: d in bb.dominators <==> d in intersect
    ensures Distinct(bb.dominators)
  {
    var current := bb.dominators;
    changed := false;
    var k := 0;
    while k < |current| && !changed
      invariant 0 <= k <= |current|
      invariant !changed ==> forall i :: 0 <= i < k ==> current[i] in intersect
      invariant changed ==> exists d :: d in current && d !in intersect
    {
      if current[k] !in intersect {
        changed := true;
      }
      k := k + 1;
    }
    if changed {
      bb.dominators := [];
      var todo := intersect;
      while todo != {}
        invariant todo <= intersect
        invariant forall d :: d in bb.dominators <==> d in intersect - todo
        invariant Distinct(bb.dominators)
        decreases todo
      {
        var d :| d in todo;
        AppendKeepsDistinct(bb.dominators, d);
        todo := todo - {d};
        bb.dominators := bb.dominators + [d];
      }
    }
  }

  /** The heap holds exactly these edges and these sets. */
  ghost predicate Represents(bbs: seq<BasicBlock>, e: Edges, doms: DomSets)
    reads bbs`predecessors, bbs`dominators
  {
    FlowGraph(bbs) && DominatorsListed(bbs) && HasEdges(bbs, e) && Holds(bbs, doms)
  }

  method InitDominators(bbs: seq<BasicBlock>, ghost e: Edges) returns (ghost doms: DomSets)
    requires FlowGraph(bbs) && HasEdges(bbs, e)
    requires forall b :: b in bbs ==> b.dominators == []
    modifies bbs`dominators
    ensures Represents(bbs, e, doms) && Progress(e, doms)
  {
    bbs[0].dominators := [bbs[0]];
    var k := 1;
    while k < |bbs|
      invariant 1 <= k <= |bbs|
      invariant bbs[0].dominators == [bbs[0]]
      invariant forall i :: 0 < i < k ==> bbs[i].dominators == bbs
    {
      bbs[k].dominators := bbs;
      k := k + 1;
    }
    doms := InitialSets(bbs);
    InitialSetsMakeProgress(bbs, e, doms);
  }

  ghost function InitialSets(bbs: seq<BasicBlock>): (doms: DomSets) {
    seq(|bbs|, (i: nat) requires i < |bbs| => if i == 0 then {bbs[0].id} else NumbersOf(bbs))
  }

  lemma InitialSetsMakeProgress(bbs: seq<BasicBlock>, e: Edges, doms: DomSets)
    requires FlowGraph(bbs) && HasEdges(bbs, e) && doms == InitialSets(bbs)
    requires bbs[0].dominators == [bbs[0]] && forall i :: 0 < i < |bbs| ==> bbs[i].dominators == bbs
    ensures Represents(bbs, e, doms) && Progress(e, doms)
  {
    forall n: nat, d: nat | 0 < n < |bbs| && d < |bbs| ensures d in doms[n] {
      assert doms[n] == NumbersOf(bbs) && bbs[d] in (set b | b in bbs) && bbs[d].id == d;
    }
    assert (set b | b in [bbs[0]]) == {bbs[0]};
    assert PathFromTo(e, 0, 0, [0]);
  }

  lemma MembersByNumber(bbs: seq<BasicBlock>, doms: DomSets, n: nat, d: nat)
    requires Numbered(bbs) && DominatorsListed(bbs) && Holds(bbs, doms) && n < |bbs|
    ensures d in doms[n] <==> d < |bbs| && bbs[d] in bbs[n].dominators
  {
    if d in doms[n] {
      var b :| b in bbs[n].dominators && b.id == d;
      assert bbs[n] in bbs;
      var k :| 0 <= k < |bbs| && bbs[k] == b;
    }
  }

  lemma MeetByNumber(bbs: seq<BasicBlock>, e: Edges, doms: DomSets, n: nat, d: nat)
    requires Represents(bbs, e, doms) && n < |bbs| && d < |bbs|
    ensures InMeet(e, doms, n, d) <==>
      d == n || forall p :: p in bbs[n].predecessors ==> bbs[d] in p.dominators
  {
    forall p: nat | p < |bbs|
      ensures (d in doms[p] <==> bbs[d] in bbs[p].dominators) && ((p, n) in e <==> bbs[p] in bbs[n].predecessors)
    {
      MembersByNumber(bbs, doms, p, d);
    }
    forall p | p in bbs[n].predecessors ensures exists k :: 0 <= k < |bbs| && bbs[k] == p {
      assert bbs[n] in bbs && p in bbs;
    }
  }

  lemma IntersectionIsMeet(bbs: seq<BasicBlock>, e: Edges, doms: DomSets, n: nat, intersect: set<BasicBlock>)
    requires Represents(bbs, e, doms) && 0 < n < |bbs|
    requires forall d :: d in intersect <==> d == bbs[n] || forall p :: p in bbs[n].predecessors ==> d in p.dominators
    ensures intersect <= (set b | b in bbs)
    ensures forall d: nat :: d in NumbersOfSet(intersect) <==> d < |bbs| && InMeet(e, doms, n, d)
  {
    forall b | b in intersect ensures b in bbs && b.id < |bbs| {
      var p := bbs[n].predecessors[0];
      assert bbs[n] in bbs && p in bbs;
    }
    forall d: nat ensures d in NumbersOfSet(intersect) <==> d < |bbs| && InMeet(e, doms, n, d) {
      if d < |bbs| {
        MeetByNumber(bbs, e, doms, n, d);
        assert bbs[d] in intersect <==> d in NumbersOfSet(intersect);
      }
    }
  }

  /** One block's update: its set becomes the meet of its predecessors' sets, or stays put. */
  method UpdateBlock(bbs: seq<BasicBlock>, n: nat, bb: BasicBlock, ghost e: Edges, ghost doms: DomSets)
    returns (changed: bool, ghost next: set<nat>)
    requires Represents(bbs, e, doms) && 0 < n < |bbs| && bbs[n] == bb
    modifies bb`dominators
    ensures Represents(bbs, e, if changed then doms[n := next] else doms)
    ensures forall d: nat :: d in next <==> d < |bbs| && InMeet(e, doms, n, d)
    ensures changed <==> exists d :: d in doms[n] && d !in next
  {
    var intersect := IntersectPredecessors(bb);
    next := NumbersOfSet(intersect);
    IntersectionIsMeet(bbs, e, doms, n, intersect);
    changed := UpdateDominators(bb, intersect);
    if changed {
      assert (set b | b in bb.dominators) == intersect;
      ghost var d :| d in old(bb.dominators) && d !in intersect;
      assert bb in bbs && d in bbs && d.id in doms[n] && d.id !in next;
    } else {
      assert forall d :: d in bb.dominators ==> d.id in next;
    }
  }

  /** One pass over all blocks but the first. */
  method Sweep(bbs: seq<BasicBlock>, ghost e: Edges, ghost doms: DomSets)
    returns (changed: bool, ghost after: DomSets)
    requires Represents(bbs, e, doms) && Progress(e, doms)
    modifies bbs`dominators
    ensures Represents(bbs, e, after) && Progress(e, after)
    ensures if changed then TotalSize(after) < TotalSize(doms) else after == doms && AllStable(e, doms, |doms|)
  {
    changed, after := false, doms;
    var n := 1;
    while n < |bbs|
      invariant 1 <= n <= |bbs| == |doms|
      invariant Represents(bbs, e, after) && Progress(e, after)
      invariant if changed then TotalSize(after) < TotalSize(doms) else after == doms && AllStable(e, doms, n)
    {
      var updated, next := UpdateBlock(bbs, n, bbs[n], e, after);
      UpdateMakesProgress(e, after, n, next);
      if updated {
        changed, after := true, after[n := next];
      } else if !changed {
        AllStableExtends(e, doms, n);
      }
      n := n + 1;
    }
  }

  /** The dominator lists end up holding exactly the dominators of each block. */
  method ComputeDominators(bbs: seq<BasicBlock>, ghost e: Edges)
    requires FlowGraph(bbs) && HasEdges(bbs, e)
    requires forall b :: b in bbs ==> b.dominators == []
    modifies bbs`dominators
    ensures DominatorsListed(bbs)
    ensures forall n, d :: 0 <= n < |bbs| && 0 <= d < |bbs| ==>
      (bbs[d] in bbs[n].dominators <==> Dominates(e, 0, d, n))
  {
    ghost var doms := InitDominators(bbs, e);
    while true
      invariant Represents(bbs, e, doms) && Progress(e, doms)
      decreases TotalSize(doms)
    {
      var changed, after := Sweep(bbs, e, doms);
      if !changed {
        break;
      }
      doms := after;
    }
    forall n, d | 0 <= n < |bbs| && 0 <= d < |bbs|
      ensures bbs[d] in bbs[n].dominators <==> Dominates(e, 0, d, n)
    {
      FixpointIsDominance(e, doms, n, d);
      MembersByNumber(bbs, doms, n, d);
    }
  }
}

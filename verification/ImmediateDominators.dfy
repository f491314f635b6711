/** Immediate dominators: the elimination loop over a block's strict dominators, and the tree its
    results form. */
module ImmediateDominators {
  import opened Counting
  import opened Dominators
  import opened IR
  import opened Paths

  // ---------------------------------------------------------------- the dominator tree, on values

  /** `idom` gives every block but the entry its immediate dominator. */
  ghost predicate IdomTree(e: Edges, idom: seq<nat>) {
    forall n: nat :: n < |idom| ==>
      Reaches(e, 0, n) && (n > 0 ==> idom[n] < |idom| && IsImmediateDominator(e, 0, idom[n], n))
  }

  ghost function ParentEdges(idom: seq<nat>): Edges {
    set n: nat | 0 < n < |idom| :: (n, idom[n])
  }

  ghost function DominatorsWithin(e: Edges, size: nat, n: nat): set<nat> {
    set d: nat | d < size && Dominates(e, 0, d, n)
  }

  /** A block has exactly one dominator more than its immediate dominator. */
  lemma DominatorCount(e: Edges, idom: seq<nat>, n: nat)
    requires IdomTree(e, idom) && 0 < n < |idom|
    ensures DominatorsWithin(e, |idom|, n) == DominatorsWithin(e, |idom|, idom[n]) + {n}
    ensures n !in DominatorsWithin(e, |idom|, idom[n])
    ensures |DominatorsWithin(e, |idom|, idom[n])| < |DominatorsWithin(e, |idom|, n)|
  {
    forall d ensures Dominates(e, 0, d, n) <==> d == n || Dominates(e, 0, d, idom[n]) {
      DominatorsThroughImmediate(e, 0, idom[n], n, d);
    }
    if Dominates(e, 0, n, idom[n]) {
      DominanceIsAntisymmetric(e, 0, n, idom[n]);
    }
  }

  /** Following immediate-dominator links from `n` meets exactly the dominators of `n`; the entry
      is one of them, so the links form a tree rooted at the entry. */
  lemma IdomLinksMeetExactlyTheDominators(e: Edges, idom: seq<nat>, n: nat, d: nat)
    requires IdomTree(e, idom) && n < |idom|
    ensures Reaches(ParentEdges(idom), n, d) <==> Dominates(e, 0, d, n)
    ensures Reaches(ParentEdges(idom), n, 0)
  {
    if Reaches(ParentEdges(idom), n, d) {
      var p :| PathFromTo(ParentEdges(idom), n, d, p);
      AncestorDominates(e, idom, n, d, p);
    }
    if Dominates(e, 0, d, n) {
      DominatorIsAncestor(e, idom, n, d);
    }
    EntryAndSelfDominate(e, 0, n);
    DominatorIsAncestor(e, idom, n, 0);
  }

  lemma {:induction false} AncestorDominates(e: Edges, idom: seq<nat>, n: nat, d: nat, p: seq<nat>)
    requires IdomTree(e, idom) && n < |idom| && PathFromTo(ParentEdges(idom), n, d, p)
    ensures Dominates(e, 0, d, n)
    decreases |p|
  {
    EntryAndSelfDominate(e, 0, n);
    if |p| > 1 {
      assert (p[0], p[1]) in ParentEdges(idom);
      SuffixIsPath(ParentEdges(idom), p, 1);
      AncestorDominates(e, idom, p[1], d, p[1..]);
      DominanceIsTransitive(e, 0, d, p[1], n);
    }
  }

  lemma OnlyEntryDominatesEntry(e: Edges, n: nat, d: nat)
    requires Dominates(e, 0, d, n) && d != n
    ensures n != 0
  {
    assert PathFromTo(e, 0, 0, [0]);
  }

  lemma {:induction false} DominatorIsAncestor(e: Edges, idom: seq<nat>, n: nat, d: nat)
    requires IdomTree(e, idom) && n < |idom| && Dominates(e, 0, d, n)
    ensures Reaches(ParentEdges(idom), n, d)
    decreases |DominatorsWithin(e, |idom|, n)|
  {
    var t := ParentEdges(idom);
    if n == d {
      assert PathFromTo(t, n, n, [n]);
    } else {
      OnlyEntryDominatesEntry(e, n, d);
      DominatorsThroughImmediate(e, 0, idom[n], n, d);
      DominatorCount(e, idom, n);
      DominatorIsAncestor(e, idom, idom[n], d);
      var p :| PathFromTo(t, idom[n], d, p);
      assert PathFromTo(t, n, idom[n], [n, idom[n]]);
      JoinPaths(t, [n, idom[n]], p);
    }
  }

  // ---------------------------------------------------------------- computeImmDominator

  predicate DominatedBy(who: BasicBlock, whom: BasicBlock)
    reads who`dominators
  {
    whom in who.dominators
  }

  function Erase<T(==)>(s: seq<T>, x: T): (r: seq<T>)
    ensures forall i :: 0 <= i < |r| ==> r[i] in s && r[i] != x
    ensures forall i :: 0 <= i < |s| && s[i] != x ==> s[i] in r
    ensures Distinct(s) ==> Distinct(r)
    ensures |r| <= |s| && (x in s ==> |r| < |s|)
  {
    if s == [] then []
    else if s[0] == x then Erase(s[1..], x)
    else [s[0]] + Erase(s[1..], x)
  }

  /** Among the blocks numbered below `size`, `c` is the nearest strict dominator of `n`. */
  ghost predicate IsNearest(e: Edges, size: nat, c: nat, n: nat) {
    && c < size && StrictlyDominates(e, 0, c, n)
    && forall s :: 0 <= s < size && StrictlyDominates(e, 0, s, n) ==> Dominates(e, 0, s, c)
  }

  ghost predicate HasNearest(e: Edges, size: nat, n: nat) {
    exists c :: IsNearest(e, size, c, n)
  }

  ghost predicate NearestExist(e: Edges, size: nat) {
    forall n :: 0 < n < size ==> HasNearest(e, size, n)
  }

  /** The dominator lists are exact. */
  ghost predicate DominatorsKnown(bbs: seq<BasicBlock>, e: Edges)
    reads bbs`predecessors, bbs`dominators
  {
    && bbs != []
    && Numbered(bbs)
    && HasEdges(bbs, e)
    && DominatorsListed(bbs)
    && forall n, d :: 0 <= n < |bbs| && 0 <= d < |bbs| ==>
         (bbs[d] in bbs[n].dominators <==> Dominates(e, 0, d, n))
  }

  lemma DominatorIsWithin(e: Edges, size: nat, n: nat, s: nat)
    requires EdgesWithin(e, size) && n < size && Reaches(e, 0, n) && Dominates(e, 0, s, n)
    ensures s < size
  {
    var p :| PathFromTo(e, 0, n, p);
    var k :| 0 <= k < |p| && p[k] == s;
    if 0 < k {
      assert (p[k - 1], p[k]) in e;
    }
  }

  /** For a block that can be reached the nearest strict dominator is the immediate dominator. */
  lemma NearestIsImmediate(e: Edges, size: nat, c: nat, n: nat)
    requires EdgesWithin(e, size) && n < size && Reaches(e, 0, n) && IsNearest(e, size, c, n)
    ensures IsImmediateDominator(e, 0, c, n)
  {
    forall s | StrictlyDominates(e, 0, s, n) ensures Dominates(e, 0, s, c) {
      DominatorIsWithin(e, size, n, s);
    }
  }

  /** A block that can be reached has a nearest strict dominator, since these form a chain. */
  lemma ReachableHasNearest(e: Edges, size: nat, n: nat)
    requires 0 < n < size && Reaches(e, 0, n)
    ensures HasNearest(e, size, n)
  {
    var c := NearestBelow(e, size, n, size);
    assert IsNearest(e, size, c, n);
  }

  lemma {:induction false} NearestBelow(e: Edges, size: nat, n: nat, k: nat) returns (c: nat)
    requires 0 < n < size && Reaches(e, 0, n) && 0 < k <= size
    ensures c < size && StrictlyDominates(e, 0, c, n)
    ensures forall s :: 0 <= s < k && StrictlyDominates(e, 0, s, n) ==> Dominates(e, 0, s, c)
  {
    if k == 1 {
      c := 0;
      EntryAndSelfDominate(e, 0, n);
      EntryAndSelfDominate(e, 0, 0);
    } else {
      c := NearestBelow(e, size, n, k - 1);
      var s := k - 1;
      if StrictlyDominates(e, 0, s, n) && !Dominates(e, 0, s, c) {
        DominatorsFormChain(e, 0, c, s, n);
        forall t | 0 <= t < k && StrictlyDominates(e, 0, t, n) ensures Dominates(e, 0, t, s) {
          if t == s {
            EntryAndSelfDominate(e, 0, s);
          } else {
            DominanceIsTransitive(e, 0, t, c, s);
          }
        }
        c := s;
      }
    }
  }

  // ---------------------------------------------------------------- the elimination

  /** What remains during the elimination: strict dominators of `n`, among them one dominated by
      each strict dominator of `n`. */
  ghost predicate Candidates(bbs: seq<BasicBlock>, e: Edges, n: nat, doms: seq<BasicBlock>) {
    && doms != [] && Distinct(doms)
    && (forall d :: d in doms ==> d in bbs && StrictlyDominates(e, 0, d.id, n))
    && forall s :: 0 <= s < |bbs| && StrictlyDominates(e, 0, s, n) ==> Below(e, doms, s)
  }

  ghost predicate Below(e: Edges, doms: seq<BasicBlock>, s: nat) {
    exists d :: d in doms && Dominates(e, 0, s, d.id)
  }

  lemma StrictDominatorsAreCandidates(bbs: seq<BasicBlock>, e: Edges, n: nat)
    requires DominatorsKnown(bbs, e) && 0 < n < |bbs|
    ensures Candidates(bbs, e, n, Erase(bbs[n].dominators, bbs[n]))
  {
    var doms := Erase(bbs[n].dominators, bbs[n]);
    assert bbs[n] in bbs;
    EntryAndSelfDominate(e, 0, n);
    assert bbs[0] in doms;
    forall d | d in doms ensures d in bbs && StrictlyDominates(e, 0, d.id, n) {
      assert bbs[d.id] == d;
    }
    forall s | 0 <= s < |bbs| && StrictlyDominates(e, 0, s, n) ensures Below(e, doms, s) {
      EntryAndSelfDominate(e, 0, s);
      assert bbs[s] in doms;
    }
  }

  /** One elimination: of two candidates, the one that dominates the other goes. */
  lemma EliminationKeepsCandidates(bbs: seq<BasicBlock>, e: Edges, n: nat, doms: seq<BasicBlock>,
                                   a: BasicBlock, b: BasicBlock)
    requires Candidates(bbs, e, n, doms) && a in doms && b in doms && a != b
    requires Dominates(e, 0, b.id, a.id)
    ensures Candidates(bbs, e, n, Erase(doms, b))
  {
    var rest := Erase(doms, b);
    assert a in rest;
    forall s | 0 <= s < |bbs| && StrictlyDominates(e, 0, s, n) ensures Below(e, rest, s) {
      assert Below(e, doms, s);
      var d :| d in doms && Dominates(e, 0, s, d.id);
      if d == b {
        DominanceIsTransitive(e, 0, s, b.id, a.id);
      } else {
        assert d in rest;
      }
    }
  }

  /** The query on the lists decides dominance. */
  lemma QueryDecidesDominance(bbs: seq<BasicBlock>, e: Edges, a: BasicBlock, b: BasicBlock)
    requires DominatorsKnown(bbs, e) && a in bbs && b in bbs
    ensures DominatedBy(a, b) <==> Dominates(e, 0, b.id, a.id)
  {
    assert bbs[a.id] == a && bbs[b.id] == b;
  }

  /** With a nearest strict dominator, one of several candidates is dominated by all others, so the
      scan always finds something to eliminate. */
  lemma SomeCandidateGoes(bbs: seq<BasicBlock>, e: Edges, n: nat, doms: seq<BasicBlock>) returns (i: nat, j: nat)
    requires DominatorsKnown(bbs, e) && HasNearest(e, |bbs|, n) && Candidates(bbs, e, n, doms) && |doms| > 1
    ensures i < |doms| && j < |doms| && i != j && DominatedBy(doms[i], doms[j])
  {
    var c :| IsNearest(e, |bbs|, c, n);
    assert Below(e, doms, c);
    var d :| d in doms && Dominates(e, 0, c, d.id);
    i :| i < |doms| && doms[i] == d;
    j := if i == 0 then 1 else 0;
    var b := doms[j];
    assert b in doms && bbs[b.id] == b;
    DominanceIsTransitive(e, 0, b.id, c, d.id);
    QueryDecidesDominance(bbs, e, d, b);
  }

  /** The loop can only end at a nearest strict dominator. */
  lemma SingleCandidateIsNearest(bbs: seq<BasicBlock>, e: Edges, n: nat, doms: seq<BasicBlock>)
    requires Numbered(bbs) && Candidates(bbs, e, n, doms) && |doms| == 1
    ensures doms[0] in bbs && IsNearest(e, |bbs|, doms[0].id, n)
  {
    assert doms[0] in doms;
    forall s | 0 <= s < |bbs| && StrictlyDominates(e, 0, s, n) ensures Dominates(e, 0, s, doms[0].id) {
      assert Below(e, doms, s);
    }
  }

  /** The lists that the loop goes through for block `n`: each loses one candidate that dominates
      another one of the list. */
  ghost predicate Elimination(bbs: seq<BasicBlock>, e: Edges, n: nat, run: seq<seq<BasicBlock>>)
    requires n < |bbs|
    reads bbs`dominators
  {
    && run != [] && run[0] == Erase(bbs[n].dominators, bbs[n])
    && forall t :: 0 < t < |run| ==> Eliminates(e, run[t - 1], run[t])
  }

  ghost predicate Eliminates(e: Edges, doms: seq<BasicBlock>, rest: seq<BasicBlock>) {
    exists a, b :: a in doms && b in doms && a != b && Dominates(e, 0, b.id, a.id) && rest == Erase(doms, b)
  }

  lemma EliminatesToCandidates(bbs: seq<BasicBlock>, e: Edges, n: nat, doms: seq<BasicBlock>, rest: seq<BasicBlock>)
    requires Candidates(bbs, e, n, doms) && Eliminates(e, doms, rest)
    ensures Candidates(bbs, e, n, rest)
  {
    var a, b :| a in doms && b in doms && a != b && Dominates(e, 0, b.id, a.id) && rest == Erase(doms, b);
    EliminationKeepsCandidates(bbs, e, n, doms, a, b);
  }

  lemma {:induction false} EliminationStaysAtCandidates(bbs: seq<BasicBlock>, e: Edges, n: nat,
                                                        run: seq<seq<BasicBlock>>, t: nat)
    requires t < |run| && Candidates(bbs, e, n, run[0])
    requires forall u :: 0 < u < |run| ==> Eliminates(e, run[u - 1], run[u])
    ensures Candidates(bbs, e, n, run[t])
  {
    if t > 0 {
      EliminationStaysAtCandidates(bbs, e, n, run, t - 1);
      EliminatesToCandidates(bbs, e, n, run[t - 1], run[t]);
    }
  }

  /** The loop ends if and only if there is a nearest strict dominator: with one, a list of more than one
      candidate always loses another; without one, no list it goes through has just one candidate. */
  lemma EliminationEndsIff(bbs: seq<BasicBlock>, e: Edges, n: nat, run: seq<seq<BasicBlock>>)
    requires DominatorsKnown(bbs, e) && 0 < n < |bbs| && Elimination(bbs, e, n, run)
    ensures HasNearest(e, |bbs|, n) && |run[|run| - 1]| != 1 ==>
      exists rest :: Eliminates(e, run[|run| - 1], rest) && |rest| < |run[|run| - 1]|
    ensures !HasNearest(e, |bbs|, n) ==> |run[|run| - 1]| != 1
  {
    var doms := run[|run| - 1];
    StrictDominatorsAreCandidates(bbs, e, n);
    EliminationStaysAtCandidates(bbs, e, n, run, |run| - 1);
    if |doms| == 1 {
      SingleCandidateIsNearest(bbs, e, n, doms);
    } else if HasNearest(e, |bbs|, n) {
      var i, j := SomeCandidateGoes(bbs, e, n, doms);
      assert doms[i] in bbs && doms[j] in bbs;
      QueryDecidesDominance(bbs, e, doms[i], doms[j]);
      assert Eliminates(e, doms, Erase(doms, doms[j]));
    }
  }

  /** A block that cannot be reached is dominated by all blocks. It has a nearest strict dominator if and
      only if another block cannot be reached either, or some other block is dominated by all the rest. */
  lemma UnreachableHasNearestIff(e: Edges, size: nat, n: nat)
    requires n < size && !Reaches(e, 0, n)
    ensures HasNearest(e, size, n) <==>
      exists c: nat :: c < size && c != n && (!Reaches(e, 0, c) || DominatedByOthers(e, size, c, n))
  {
    if c: nat :| c < size && c != n && (!Reaches(e, 0, c) || DominatedByOthers(e, size, c, n)) {
      forall s | 0 <= s < size && StrictlyDominates(e, 0, s, n) ensures Dominates(e, 0, s, c) {
        EntryAndSelfDominate(e, 0, c);
      }
      assert IsNearest(e, size, c, n);
    }
    if c :| IsNearest(e, size, c, n) {
      assert forall s: nat :: s < size && s != n ==> StrictlyDominates(e, 0, s, n);
      assert DominatedByOthers(e, size, c, n);
    }
  }

  /** All blocks but `c` and `n` dominate `c`. */
  ghost predicate DominatedByOthers(e: Edges, size: nat, c: nat, n: nat) {
    forall s: nat :: s < size && s != n && s != c ==> Dominates(e, 0, s, c)
  }

  /** A block that only itself leads to cannot be reached. */
  lemma {:induction false} SelfLoopIsUnreachable(e: Edges, n: nat, p: seq<nat>)
    requires n != 0 && forall x :: (x, n) in e ==> x == n
    ensures !PathFromTo(e, 0, n, p)
    decreases |p|
  {
    if PathFromTo(e, 0, n, p) {
      var k := |p| - 2;
      assert (p[k], p[k + 1]) in e;
      PrefixIsPath(e, p, k);
      SelfLoopIsUnreachable(e, n, p[..k + 1]);
    }
  }

  lemma PathAvoidsDominator(e: Edges, p: seq<nat>, c: nat, s: nat)
    requires IsPath(e, p) && p[0] == 0 && c in p && s !in p
    ensures Reaches(e, 0, c) && !Dominates(e, 0, s, c)
  {
    var k :| 0 <= k < |p| && p[k] == c;
    PrefixIsPath(e, p, k);
    assert PathFromTo(e, 0, c, p[..k + 1]) && s !in p[..k + 1];
  }

  /** Two paths that cover everything but an unreachable block, each avoiding a block of the other one,
      leave that block without a nearest strict dominator. */
  lemma BranchesLeaveNoNearest(e: Edges, size: nat, n: nat, a: seq<nat>, b: seq<nat>, s: nat, t: nat)
    requires n < size && !Reaches(e, 0, n) && IsPath(e, a) && IsPath(e, b) && a[0] == 0 == b[0]
    requires forall c: nat :: c < size && c != n ==> c in a || c in b
    requires s < size && t < size && s in b && s !in a && t in a && t !in b
    ensures !HasNearest(e, size, n)
  {
    PathAvoidsDominator(e, b, s, t);
    PathAvoidsDominator(e, a, t, s);
    forall c: nat | c < size && c != n ensures Reaches(e, 0, c) && !DominatedByOthers(e, size, c, n) {
      if c in a {
        PathAvoidsDominator(e, a, c, s);
      } else {
        PathAvoidsDominator(e, b, c, t);
      }
    }
    UnreachableHasNearestIff(e, size, n);
  }

  /** Scan all pairs for a candidate that dominates another one. */
  method FindDominating(doms: seq<BasicBlock>) returns (found: bool, i: nat, j: nat)
    ensures found ==> i < |doms| && j < |doms| && i != j && DominatedBy(doms[i], doms[j])
    ensures !found ==> forall a, b :: 0 <= a < b < |doms| ==>
      !DominatedBy(doms[a], doms[b]) && !DominatedBy(doms[b], doms[a])
  {
    found, i, j := false, 0, 0;
    while i < |doms|
      invariant forall a, b :: 0 <= a < i && a < b < |doms| ==>
        !DominatedBy(doms[a], doms[b]) && !DominatedBy(doms[b], doms[a])
    {
      j := i + 1;
      while j < |doms|
        invariant forall b :: i < b < j && b < |doms| ==>
          !DominatedBy(doms[i], doms[b]) && !DominatedBy(doms[b], doms[i])
      {
        if DominatedBy(doms[i], doms[j]) {
          return true, i, j;
        }
        if DominatedBy(doms[j], doms[i]) {
          return true, j, i;
        }
        j := j + 1;
      }
      i := i + 1;
    }
  }

  /** Strike out one candidate that dominates another one. */
  method Eliminate(bbs: seq<BasicBlock>, ghost e: Edges, ghost n: nat, doms: seq<BasicBlock>)
    returns (rest: seq<BasicBlock>)
    requires DominatorsKnown(bbs, e) && HasNearest(e, |bbs|, n) && Candidates(bbs, e, n, doms) && |doms| > 1
    ensures Candidates(bbs, e, n, rest) && |rest| < |doms|
  {
    var found, i, j := FindDominating(doms);
    ghost var a, b := SomeCandidateGoes(bbs, e, n, doms);
    assert doms[i] in doms && doms[j] in doms;
    QueryDecidesDominance(bbs, e, doms[i], doms[j]);
    EliminationKeepsCandidates(bbs, e, n, doms, doms[i], doms[j]);
    rest := Erase(doms, doms[j]);
  }

  /** Strike out candidates until one is left. */
  method NearestDominator(bbs: seq<BasicBlock>, ghost e: Edges, bb: BasicBlock) returns (idom: BasicBlock)
    requires DominatorsKnown(bbs, e) && bb in bbs && bb != bbs[0] && HasNearest(e, |bbs|, bb.id)
    ensures idom in bbs && IsNearest(e, |bbs|, idom.id, bb.id)
  {
    var doms := Erase(bb.dominators, bb);
    StrictDominatorsAreCandidates(bbs, e, bb.id);
    while |doms| != 1
      invariant Candidates(bbs, e, bb.id, doms)
      decreases |doms|
    {
      doms := Eliminate(bbs, e, bb.id, doms);
    }
    SingleCandidateIsNearest(bbs, e, bb.id, doms);
    idom := doms[|doms| - 1];
  }

  /** Every block but the first gets its nearest strict dominator, and none of the loops runs forever,
      if each of these blocks has one. */
  method ComputeImmDominator(bbs: seq<BasicBlock>, ghost e: Edges)
    requires DominatorsKnown(bbs, e) && bbs[0].idom == null && NearestExist(e, |bbs|)
    modifies bbs`idom
    ensures bbs[0].idom == null && forall n :: 0 < n < |bbs| ==> HasItsNearest(bbs, e, n)
  {
    var k := 1;
    while k < |bbs|
      invariant 1 <= k <= |bbs| && bbs[0].idom == null
      invariant forall n :: 0 < n < k ==> HasItsNearest(bbs, e, n)
    {
      bbs[k].idom := NearestDominator(bbs, e, bbs[k]);
      k := k + 1;
    }
  }

  ghost predicate HasItsNearest(bbs: seq<BasicBlock>, e: Edges, n: nat)
    requires n < |bbs|
    reads bbs`idom
  {
    bbs[n].idom != null && bbs[n].idom in bbs && IsNearest(e, |bbs|, bbs[n].idom.id, n)
  }

  // ---------------------------------------------------------------- the tree in the blocks

  /** `idom` lists the numbers in the `idom` fields. */
  ghost predicate HoldsIdoms(bbs: seq<BasicBlock>, idom: seq<nat>)
    reads bbs`idom
  {
    |idom| == |bbs| && forall n :: 0 < n < |bbs| ==> bbs[n].idom != null && idom[n] == bbs[n].idom.id
  }

  /** If every block can be reached, the fields hold the immediate dominators, and so form a tree. */
  lemma FieldsFormTree(bbs: seq<BasicBlock>, e: Edges, idom: seq<nat>)
    requires bbs != [] && Numbered(bbs) && EdgesWithin(e, |bbs|) && forall n :: 0 <= n < |bbs| ==> Reaches(e, 0, n)
    requires HoldsIdoms(bbs, idom) && forall n :: 0 < n < |bbs| ==> HasItsNearest(bbs, e, n)
    ensures IdomTree(e, idom)
  {
    forall n: nat | 0 < n < |bbs| ensures idom[n] < |bbs| && IsImmediateDominator(e, 0, idom[n], n) {
      assert HasItsNearest(bbs, e, n);
      NearestIsImmediate(e, |bbs|, idom[n], n);
    }
  }
}

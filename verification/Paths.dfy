/** Directed graphs over block numbers, given by their set of edges: paths, reachability,
    dominance and the bypassing of a node. */
module Paths {
  type Edges = set<(nat, nat)>

  ghost predicate IsPath(e: Edges, p: seq<nat>) {
    && p != []
    && forall i :: 0 < i < |p| ==> (p[i - 1], p[i]) in e
  }

  ghost predicate PathFromTo(e: Edges, a: nat, b: nat, p: seq<nat>) {
    IsPath(e, p) && p[0] == a && p[|p| - 1] == b
  }

  /** All nodes with edges are numbered below `size`. */
  ghost predicate EdgesWithin(e: Edges, size: nat) {
    forall a, b :: (a, b) in e ==> a < size && b < size
  }

  ghost predicate Reaches(e: Edges, a: nat, b: nat) {
    exists p :: PathFromTo(e, a, b, p)
  }

  /** `d` dominates `n`: every path from the entry to `n` passes through `d`. */
  ghost predicate Dominates(e: Edges, entry: nat, d: nat, n: nat) {
    forall p :: PathFromTo(e, entry, n, p) ==> d in p
  }

  ghost predicate StrictlyDominates(e: Edges, entry: nat, d: nat, n: nat) {
    d != n && Dominates(e, entry, d, n)
  }

  // ---------------------------------------------------------------- path surgery

  lemma PrefixIsPath(e: Edges, p: seq<nat>, k: nat)
    requires IsPath(e, p) && k < |p|
    ensures PathFromTo(e, p[0], p[k], p[..k + 1])
  {
    var q := p[..k + 1];
    forall i | 0 < i < |q| ensures (q[i - 1], q[i]) in e {
      assert q[i - 1] == p[i - 1] && q[i] == p[i];
    }
  }

  lemma SuffixIsPath(e: Edges, p: seq<nat>, k: nat)
    requires IsPath(e, p) && k < |p|
    ensures PathFromTo(e, p[k], p[|p| - 1], p[k..])
  {
    var q := p[k..];
    forall i | 0 < i < |q| ensures (q[i - 1], q[i]) in e {
      assert q[i - 1] == p[k + i - 1] && q[i] == p[k + i];
    }
  }

  /** Two paths that share an end point, joined there. */
  lemma JoinPaths(e: Edges, p: seq<nat>, q: seq<nat>)
    requires IsPath(e, p) && IsPath(e, q) && p[|p| - 1] == q[0]
    ensures PathFromTo(e, p[0], q[|q| - 1], p + q[1..])
  {
    var r := p + q[1..];
    forall i | 0 < i < |r| ensures (r[i - 1], r[i]) in e {
      if i < |p| {
        assert r[i - 1] == p[i - 1] && r[i] == p[i];
      } else {
        assert r[i] == q[i - |p| + 1];
        assert r[i - 1] == q[i - |p|];
      }
    }
  }

  lemma EdgeExtendsPath(e: Edges, p: seq<nat>, b: nat)
    requires IsPath(e, p) && (p[|p| - 1], b) in e
    ensures PathFromTo(e, p[0], b, p + [b])
  {
    var q := [p[|p| - 1], b];
    assert IsPath(e, q);
    JoinPaths(e, p, q);
    assert q[1..] == [b];
  }

  /** Two joined paths and one more edge. */
  lemma JoinAndExtend(e: Edges, p: seq<nat>, q: seq<nat>, b: nat) returns (r: seq<nat>)
    requires IsPath(e, p) && IsPath(e, q) && p[|p| - 1] == q[0] && (q[|q| - 1], b) in e
    ensures PathFromTo(e, p[0], b, r)
    ensures forall x :: x in r ==> x in p || x in q || x == b
  {
    JoinPaths(e, p, q);
    EdgeExtendsPath(e, p + q[1..], b);
    r := p + q[1..] + [b];
  }

  // ---------------------------------------------------------------- dominance

  lemma DominanceIsTransitive(e: Edges, entry: nat, a: nat, b: nat, c: nat)
    requires Dominates(e, entry, a, b) && Dominates(e, entry, b, c)
    ensures Dominates(e, entry, a, c)
  {
    forall p | PathFromTo(e, entry, c, p) ensures a in p {
      var k :| 0 <= k < |p| && p[k] == b;
      PrefixIsPath(e, p, k);
      assert a in p[..k + 1];
    }
  }

  /** No path to `a` exists when `a` and `b` dominate each other and differ: each path to one
      contains a shorter path to the other. */
  lemma {:induction false} NoPathToMutualDominators(e: Edges, entry: nat, a: nat, b: nat, p: seq<nat>)
    requires a != b && Dominates(e, entry, a, b) && Dominates(e, entry, b, a)
    ensures !PathFromTo(e, entry, a, p)
    decreases |p|
  {
    if PathFromTo(e, entry, a, p) {
      var k :| 0 <= k < |p| && p[k] == b;
      PrefixIsPath(e, p, k);
      NoPathToMutualDominators(e, entry, b, a, p[..k + 1]);
    }
  }

  lemma DominanceIsAntisymmetric(e: Edges, entry: nat, a: nat, b: nat)
    requires Dominates(e, entry, a, b) && Dominates(e, entry, b, a)
    requires Reaches(e, entry, a)
    ensures a == b
  {
    var p :| PathFromTo(e, entry, a, p);
    if a != b {
      NoPathToMutualDominators(e, entry, a, b, p);
    }
  }

  /** The last position at which a sequence meets one of two given nodes. */
  lemma {:induction false} LastMeeting(p: seq<nat>, a: nat, b: nat) returns (k: nat)
    requires a in p
    ensures k < |p| && (p[k] == a || p[k] == b)
    ensures a !in p[k + 1..] && b !in p[k + 1..]
  {
    var m := |p| - 1;
    if p[m] == a || p[m] == b {
      k := m;
    } else {
      var q := p[..m];
      assert a in q;
      k := LastMeeting(q, a, b);
      assert p[k + 1..] == q[k + 1..] + [p[m]];
    }
  }

  /** A detour: reach `x` while avoiding `y`, then follow a tail that avoids `y`. */
  lemma DetourAvoids(e: Edges, entry: nat, x: nat, y: nat, n: nat, p: seq<nat>, k: nat)
    requires PathFromTo(e, entry, n, p) && k < |p| && p[k] == x && y !in p[k + 1..]
    requires Dominates(e, entry, y, n)
    ensures Dominates(e, entry, y, x)
  {
    forall r | PathFromTo(e, entry, x, r) ensures y in r {
      SuffixIsPath(e, p, k);
      JoinPaths(e, r, p[k..]);
      assert p[k..][1..] == p[k + 1..];
      assert y in r + p[k + 1..];
    }
  }

  /** Two dominators of a reachable node are comparable: the dominators of a node form a chain. */
  lemma DominatorsFormChain(e: Edges, entry: nat, a: nat, b: nat, n: nat)
    requires Dominates(e, entry, a, n) && Dominates(e, entry, b, n)
    requires Reaches(e, entry, n)
    ensures Dominates(e, entry, a, b) || Dominates(e, entry, b, a)
  {
    var p :| PathFromTo(e, entry, n, p);
    var k := LastMeeting(p, a, b);
    if p[k] == a {
      DetourAvoids(e, entry, a, b, n, p, k);
    } else {
      DetourAvoids(e, entry, b, a, n, p, k);
    }
  }

  /** A dominator of a reachable node is itself reachable. */
  lemma DominatorIsReachable(e: Edges, entry: nat, d: nat, n: nat)
    requires Dominates(e, entry, d, n) && Reaches(e, entry, n)
    ensures Reaches(e, entry, d)
  {
    var p :| PathFromTo(e, entry, n, p);
    var k :| 0 <= k < |p| && p[k] == d;
    PrefixIsPath(e, p, k);
  }

  lemma EntryAndSelfDominate(e: Edges, entry: nat, n: nat)
    ensures Dominates(e, entry, entry, n) && Dominates(e, entry, n, n)
  {
    forall p | PathFromTo(e, entry, n, p) ensures entry in p && n in p {
      assert p[0] == entry && p[|p| - 1] == n;
    }
  }

  // ---------------------------------------------------------------- immediate dominators

  /** `i` is the nearest strict dominator of `n`: every other one dominates it. */
  ghost predicate IsImmediateDominator(e: Edges, entry: nat, i: nat, n: nat) {
    && StrictlyDominates(e, entry, i, n)
    && forall s :: StrictlyDominates(e, entry, s, n) ==> Dominates(e, entry, s, i)
  }

  lemma ImmediateDominatorIsUnique(e: Edges, entry: nat, i: nat, j: nat, n: nat)
    requires Reaches(e, entry, n)
    requires IsImmediateDominator(e, entry, i, n) && IsImmediateDominator(e, entry, j, n)
    ensures i == j
  {
    DominatorIsReachable(e, entry, i, n);
    DominanceIsAntisymmetric(e, entry, i, j);
  }

  /** The dominators of `n` are `n` itself and the dominators of its immediate dominator. */
  lemma DominatorsThroughImmediate(e: Edges, entry: nat, i: nat, n: nat, d: nat)
    requires IsImmediateDominator(e, entry, i, n)
    ensures Dominates(e, entry, d, n) <==> d == n || Dominates(e, entry, d, i)
  {
    EntryAndSelfDominate(e, entry, n);
    if Dominates(e, entry, d, i) {
      DominanceIsTransitive(e, entry, d, i, n);
    }
  }

  // ---------------------------------------------------------------- bypassing a node

  /** The graph without the edges at `x`. */
  ghost function Cut(e: Edges, x: nat): Edges {
    set p | p in e && p.0 != x && p.1 != x
  }

  /** The graph without `x`, each path of two edges through it replaced by one edge. */
  ghost function Bypass(e: Edges, x: nat): Edges {
    Cut(e, x) +
    (set p, q | p in e && q in e && p.1 == x == q.0 && p.0 != x && q.1 != x :: (p.0, q.1))
  }

  lemma BypassEdge(e: Edges, x: nat, a: nat, b: nat)
    ensures (a, b) in Bypass(e, x) <==> a != x && b != x && ((a, b) in e || ((a, x) in e && (x, b) in e))
  {
    if (a, x) in e && (x, b) in e && a != x && b != x {
      var p, q := (a, x), (x, b);
      assert p in e && q in e && (p.0, q.1) == (a, b);
    }
  }

  lemma {:induction false} PathAvoids(e: Edges, x: nat, a: nat, b: nat, p: seq<nat>)
    requires a != x && b != x && PathFromTo(e, a, b, p)
    ensures Reaches(Bypass(e, x), a, b)
    decreases |p|
  {
    var g := Bypass(e, x);
    if |p| == 1 {
      assert PathFromTo(g, a, b, p);
    } else {
      assert (p[0], p[1]) in e;
      var next := if p[1] != x then 1 else 2;
      if p[1] == x {
        assert (p[1], p[2]) in e;
      }
      SuffixIsPath(e, p, next);
      if p[next] == x {
        // A self-loop: leave out one visit.
        var q := [a] + p[2..];
        JoinPaths(e, [a, x], p[2..]);
        assert [a, x] + p[2..][1..] == q;
        PathAvoids(e, x, a, b, q);
      } else {
        PathAvoids(e, x, p[next], b, p[next..]);
        var r :| PathFromTo(g, p[next], b, r);
        BypassEdge(e, x, a, p[next]);
        assert PathFromTo(g, a, p[next], [a, p[next]]);
        JoinPaths(g, [a, p[next]], r);
      }
    }
  }

  lemma {:induction false} PathRestored(e: Edges, x: nat, a: nat, b: nat, p: seq<nat>)
    requires PathFromTo(Bypass(e, x), a, b, p)
    ensures Reaches(e, a, b)
    decreases |p|
  {
    if |p| == 1 {
      assert PathFromTo(e, a, b, p);
    } else {
      assert (p[0], p[1]) in Bypass(e, x);
      SuffixIsPath(Bypass(e, x), p, 1);
      PathRestored(e, x, p[1], b, p[1..]);
      var r :| PathFromTo(e, p[1], b, r);
      BypassEdge(e, x, a, p[1]);
      var first := if (a, p[1]) in e then [a, p[1]] else [a, x, p[1]];
      assert PathFromTo(e, a, p[1], first);
      JoinPaths(e, first, r);
    }
  }

  /** Bypassing a node changes nothing about which of the other nodes reach each other. */
  lemma BypassKeepsReachability(e: Edges, x: nat, a: nat, b: nat)
    requires a != x && b != x
    ensures Reaches(Bypass(e, x), a, b) <==> Reaches(e, a, b)
  {
    if Reaches(e, a, b) {
      var p :| PathFromTo(e, a, b, p);
      PathAvoids(e, x, a, b, p);
    }
    if Reaches(Bypass(e, x), a, b) {
      var p :| PathFromTo(Bypass(e, x), a, b, p);
      PathRestored(e, x, a, b, p);
    }
  }

  ghost function Product(a: set<nat>, b: set<nat>): Edges {
    set m, n | m in a && n in b :: (m, n)
  }

  /** Connecting the neighbours of `x` with each other and then cutting it off bypasses it. */
  lemma ConnectThenCutBypasses(e: Edges, x: nat, preds: set<nat>, succs: set<nat>)
    requires forall m: nat :: m in preds <==> (m, x) in e
    requires forall n: nat :: n in succs <==> (x, n) in e
    ensures Cut(e + Product(preds, succs), x) == Bypass(e, x)
  {
    forall a: nat, b: nat ensures (a, b) in Cut(e + Product(preds, succs), x) <==> (a, b) in Bypass(e, x) {
      BypassEdge(e, x, a, b);
    }
  }

  /** The edges after node `f` has been split in two: its second half `t` takes over its successors. */
  ghost function SplitEdges(e: Edges, f: nat, t: nat): Edges {
    (set p | p in e && p.0 != f) + (set p | p in e && p.0 == f :: (t, p.1)) + {(f, t)}
  }

  lemma HandOverThenLink(e: Edges, f: nat, t: nat, succs: set<nat>)
    requires f != t && forall n: nat :: n in succs <==> (f, n) in e
    ensures (set p | p in e + Product({t}, succs) && p.0 != f) + {(f, t)} == SplitEdges(e, f, t)
  {
    forall a: nat, b: nat
      ensures (a, b) in (set p | p in e + Product({t}, succs) && p.0 != f) + {(f, t)} <==> (a, b) in SplitEdges(e, f, t)
    {
      if (a, b) in Product({t}, succs) {
        assert (f, b) in e;
      }
    }
  }

  lemma SplitEdge(e: Edges, f: nat, t: nat, a: nat, b: nat)
    ensures (a, b) in SplitEdges(e, f, t) <==>
      (a, b) == (f, t) || (a != f && (a, b) in e) || (a == t && (f, b) in e)
  {
    if a == t && (f, b) in e {
      var p := (f, b);
      assert p in e && (t, p.1) == (a, b);
    }
  }

  ghost predicate Isolated(e: Edges, t: nat) {
    forall m: nat :: (m, t) !in e && (t, m) !in e
  }

  lemma {:induction false} PathSplit(e: Edges, f: nat, t: nat, a: nat, b: nat, p: seq<nat>)
    requires f != t && PathFromTo(e, a, b, p)
    ensures Reaches(SplitEdges(e, f, t), a, b)
    decreases |p|
  {
    var g := SplitEdges(e, f, t);
    if |p| == 1 {
      assert PathFromTo(g, a, b, p);
    } else {
      assert (p[0], p[1]) in e;
      SuffixIsPath(e, p, 1);
      PathSplit(e, f, t, p[1], b, p[1..]);
      var r :| PathFromTo(g, p[1], b, r);
      SplitEdge(e, f, t, a, p[1]);
      SplitEdge(e, f, t, a, t);
      SplitEdge(e, f, t, t, p[1]);
      var first := if a == f then [a, t, p[1]] else [a, p[1]];
      assert PathFromTo(g, a, p[1], first);
      JoinPaths(g, first, r);
    }
  }

  lemma {:induction false} PathUnsplit(e: Edges, f: nat, t: nat, a: nat, b: nat, p: seq<nat>)
    requires f != t && Isolated(e, t) && a != t && b != t && PathFromTo(SplitEdges(e, f, t), a, b, p)
    ensures Reaches(e, a, b)
    decreases |p|
  {
    var g := SplitEdges(e, f, t);
    if |p| == 1 {
      assert PathFromTo(e, a, b, p);
    } else {
      assert (p[0], p[1]) in g;
      SplitEdge(e, f, t, a, p[1]);
      var next := if p[1] == t then 2 else 1;
      if p[1] == t {
        assert (p[1], p[2]) in g;
        SplitEdge(e, f, t, t, p[2]);
      }
      SuffixIsPath(g, p, next);
      PathUnsplit(e, f, t, p[next], b, p[next..]);
      var r :| PathFromTo(e, p[next], b, r);
      assert PathFromTo(e, a, p[next], [a, p[next]]);
      JoinPaths(e, [a, p[next]], r);
    }
  }

  /** Splitting a node, when its second half is new, changes nothing about which nodes reach each other. */
  lemma SplitKeepsReachability(e: Edges, f: nat, t: nat, a: nat, b: nat)
    requires f != t && Isolated(e, t) && a != t && b != t
    ensures Reaches(SplitEdges(e, f, t), a, b) <==> Reaches(e, a, b)
    ensures Reaches(SplitEdges(e, f, t), a, t) <==> Reaches(e, a, f)
  {
    var g := SplitEdges(e, f, t);
    if p :| PathFromTo(e, a, b, p) {
      PathSplit(e, f, t, a, b, p);
    }
    if p :| PathFromTo(g, a, b, p) {
      PathUnsplit(e, f, t, a, b, p);
    }
    if p :| PathFromTo(e, a, f, p) {
      PathSplit(e, f, t, a, f, p);
      var q :| PathFromTo(g, a, f, q);
      SplitEdge(e, f, t, f, t);
      assert PathFromTo(g, f, t, [f, t]);
      JoinPaths(g, q, [f, t]);
    }
    if p :| PathFromTo(g, a, t, p) {
      var n := |p| - 1;
      assert (p[n - 1], p[n]) in g;
      SplitEdge(e, f, t, p[n - 1], t);
      PrefixIsPath(g, p, n - 1);
      PathUnsplit(e, f, t, a, f, p[..n]);
    }
  }
}

/** Live-out sets by iteration to a least fixpoint. */
module Liveness {
  import opened Counting
  import opened IR
  import opened Paths

  // ---------------------------------------------------------------- the equations, on values

  /** One register set per block, by block number. */
  type RegSets = seq<set<nat>>

  /** What the equation of block `b` puts into its set: `gen`, and what is in a successor's set and
      not killed there. */
  ghost predicate Yields(e: Edges, gen: RegSets, kill: RegSets, out: RegSets, b: nat, r: nat) {
    || (b < |gen| && r in gen[b])
    || exists s :: FlowsBack(e, kill, out, b, s, r)
  }

  ghost predicate FlowsBack(e: Edges, kill: RegSets, out: RegSets, b: nat, s: nat, r: nat) {
    (b, s) in e && s < |out| && s < |kill| && r in out[s] && r !in kill[s]
  }

  /** A path from `b` to a block that generates `r`, on which no later block kills `r`. */
  ghost predicate LivePath(e: Edges, gen: RegSets, kill: RegSets, b: nat, r: nat, p: seq<nat>) {
    && IsPath(e, p) && p[0] == b
    && p[|p| - 1] < |gen| && r in gen[p[|p| - 1]]
    && forall i :: 0 < i < |p| ==> Spared(kill, p[i], r)
  }

  ghost predicate Spared(kill: RegSets, b: nat, r: nat) {
    b < |kill| && r !in kill[b]
  }

  ghost predicate Live(e: Edges, gen: RegSets, kill: RegSets, b: nat, r: nat) {
    exists p :: LivePath(e, gen, kill, b, r, p)
  }

  lemma {:induction false} StepExtendsLivePath(e: Edges, gen: RegSets, kill: RegSets, b: nat, s: nat, r: nat)
    requires (b, s) in e && Spared(kill, s, r) && Live(e, gen, kill, s, r)
    ensures Live(e, gen, kill, b, r)
  {
    var p :| LivePath(e, gen, kill, s, r, p);
    assert IsPath(e, [b, s]);
    JoinPaths(e, [b, s], p);
    var q := [b, s] + p[1..];
    assert q == [b] + p;
    assert LivePath(e, gen, kill, b, r, q);
  }

  /** A family of sets closed under the equations holds everything that is live. */
  lemma {:induction false} ClosedSetsHoldLive(e: Edges, gen: RegSets, kill: RegSets, out: RegSets, b: nat, r: nat,
                                              p: seq<nat>)
    requires |gen| == |kill| == |out| && EdgesWithin(e, |out|) && b < |out|
    requires forall c: nat, x: nat :: c < |out| && Yields(e, gen, kill, out, c, x) ==> x in out[c]
    requires LivePath(e, gen, kill, b, r, p)
    ensures r in out[b]
    decreases |p|
  {
    if |p| == 1 {
      assert Yields(e, gen, kill, out, b, r);
    } else {
      assert (p[0], p[1]) in e && Spared(kill, p[1], r);
      SuffixIsPath(e, p, 1);
      assert forall i :: 0 < i < |p[1..]| ==> p[1..][i] == p[i + 1];
      assert LivePath(e, gen, kill, p[1], r, p[1..]);
      ClosedSetsHoldLive(e, gen, kill, out, p[1], r, p[1..]);
      assert FlowsBack(e, kill, out, b, p[1], r);
      assert Yields(e, gen, kill, out, b, r);
    }
  }

  /** Everything the equations put into sets of live registers is live. */
  lemma YieldedIsLive(e: Edges, gen: RegSets, kill: RegSets, out: RegSets, b: nat, r: nat)
    requires |gen| == |kill| == |out| && b < |out| && AllLive(e, gen, kill, out)
    requires Yields(e, gen, kill, out, b, r)
    ensures Live(e, gen, kill, b, r)
  {
    if r in gen[b] {
      assert LivePath(e, gen, kill, b, r, [b]);
    } else {
      var s: nat :| FlowsBack(e, kill, out, b, s, r);
      StepExtendsLivePath(e, gen, kill, b, s, r);
    }
  }

  ghost predicate AllLive(e: Edges, gen: RegSets, kill: RegSets, out: RegSets) {
    forall b: nat, r: nat :: b < |out| && r in out[b] ==> Live(e, gen, kill, b, r)
  }

  /** The sets of live registers are a solution of the equations, and the least one: whatever `gen`
      is, a family that is closed under the equations and holds only live registers is it. */
  lemma LeastSolution(e: Edges, gen: RegSets, kill: RegSets, out: RegSets, b: nat, r: nat)
    requires |gen| == |kill| == |out| && EdgesWithin(e, |out|) && b < |out|
    requires AllLive(e, gen, kill, out)
    requires forall c: nat, x: nat :: c < |out| && Yields(e, gen, kill, out, c, x) ==> x in out[c]
    ensures r in out[b] <==> Live(e, gen, kill, b, r)
    ensures r in out[b] <==> Yields(e, gen, kill, out, b, r)
  {
    if Live(e, gen, kill, b, r) {
      var p :| LivePath(e, gen, kill, b, r, p);
      ClosedSetsHoldLive(e, gen, kill, out, b, r, p);
      if |p| > 1 {
        assert (p[0], p[1]) in e && Spared(kill, p[1], r);
        SuffixIsPath(e, p, 1);
        assert forall i :: 0 < i < |p[1..]| ==> p[1..][i] == p[i + 1];
        assert LivePath(e, gen, kill, p[1], r, p[1..]);
        ClosedSetsHoldLive(e, gen, kill, out, p[1], r, p[1..]);
        assert FlowsBack(e, kill, out, b, p[1], r);
      }
    }
  }

  // ---------------------------------------------------------------- the two gen sets

  ghost predicate HasSuccessor(e: Edges, b: nat) {
    exists s :: (b, s) in e
  }

  /** As the pass computes it: a block with a successor generates its own upward-exposed registers. */
  ghost predicate IsOwnGen(e: Edges, ue: RegSets, gen: RegSets) {
    && |gen| == |ue|
    && forall b, r: nat :: 0 <= b < |ue| ==> (r in gen[b] <==> HasSuccessor(e, b) && r in ue[b])
  }

  ghost predicate SuccessorExposes(e: Edges, ue: RegSets, b: nat, r: nat) {
    exists s: nat :: (b, s) in e && s < |ue| && r in ue[s]
  }

  /** As textbooks have it: a block generates the upward-exposed registers of its successors. */
  ghost predicate IsSuccessorGen(e: Edges, ue: RegSets, gen: RegSets) {
    && |gen| == |ue|
    && forall b: nat, r: nat :: b < |ue| ==> (r in gen[b] <==> SuccessorExposes(e, ue, b, r))
  }

  /** A path from `b` that ends in a block exposing `r`. */
  ghost predicate ExposingPath(e: Edges, ue: RegSets, b: nat, r: nat, p: seq<nat>) {
    IsPath(e, p) && p[0] == b && p[|p| - 1] < |ue| && r in ue[p[|p| - 1]]
  }

  /** No block from the second to the one before position `to` kills `r`. */
  ghost predicate SparedBetween(kill: RegSets, r: nat, p: seq<nat>, to: nat) {
    forall i :: 0 < i < to && i < |p| ==> Spared(kill, p[i], r)
  }

  /** A path to a block that has a successor and exposes `r`, on which no later block kills `r`. */
  ghost predicate PassPath(e: Edges, ue: RegSets, kill: RegSets, b: nat, r: nat) {
    exists p: seq<nat> :: ExposingPath(e, ue, b, r, p) && HasSuccessor(e, p[|p| - 1]) && SparedBetween(kill, r, p, |p|)
  }

  /** A path of at least one edge to a block that exposes `r`, on which no block strictly inside kills `r`. */
  ghost predicate TextbookPath(e: Edges, ue: RegSets, kill: RegSets, b: nat, r: nat) {
    exists q: seq<nat> :: ExposingPath(e, ue, b, r, q) && |q| > 1 && SparedBetween(kill, r, q, |q| - 1)
  }

  /** With the pass's equation: some path from `b` ends in a block that has a successor and exposes
      `r`, and no block after `b` on it kills `r`. */
  lemma OwnGenMeaning(e: Edges, ue: RegSets, gen: RegSets, kill: RegSets, b: nat, r: nat)
    requires IsOwnGen(e, ue, gen)
    ensures Live(e, gen, kill, b, r) <==> PassPath(e, ue, kill, b, r)
  {
    if Live(e, gen, kill, b, r) {
      var p: seq<nat> :| LivePath(e, gen, kill, b, r, p);
      assert ExposingPath(e, ue, b, r, p);
    }
    if p: seq<nat> :| ExposingPath(e, ue, b, r, p) && HasSuccessor(e, p[|p| - 1]) && SparedBetween(kill, r, p, |p|) {
      assert LivePath(e, gen, kill, b, r, p);
    }
  }

  /** The textbook equation on the same graph: some path of at least one edge ends in a block that
      exposes `r`, and no block strictly inside it kills `r`. */
  lemma SuccessorGenMeaning(e: Edges, ue: RegSets, gen: RegSets, kill: RegSets, b: nat, r: nat)
    requires IsSuccessorGen(e, ue, gen) && EdgesWithin(e, |ue|)
    ensures Live(e, gen, kill, b, r) <==> TextbookPath(e, ue, kill, b, r)
  {
    if Live(e, gen, kill, b, r) {
      var p: seq<nat> :| LivePath(e, gen, kill, b, r, p);
      assert SuccessorExposes(e, ue, p[|p| - 1], r);
      var s: nat :| (p[|p| - 1], s) in e && s < |ue| && r in ue[s];
      EdgeExtendsPath(e, p, s);
      assert ExposingPath(e, ue, b, r, p + [s]);
      assert SparedBetween(kill, r, p + [s], |p|);
    }
    if q: seq<nat> :| ExposingPath(e, ue, b, r, q) && |q| > 1 && SparedBetween(kill, r, q, |q| - 1) {
      var k := |q| - 2;
      PrefixIsPath(e, q, k);
      assert (q[k], q[k + 1]) in e;
      assert SuccessorExposes(e, ue, q[k], r);
      var p := q[..k + 1];
      assert forall i :: 0 <= i < |p| ==> p[i] == q[i];
      assert LivePath(e, gen, kill, b, r, p);
    }
  }

  /** The two equations have the same solution exactly when each one's gen sets are live in the
      other one's. */
  lemma SameLivenessIff(e: Edges, gen: RegSets, gen': RegSets, kill: RegSets)
    requires |gen| == |gen'|
    ensures (forall b: nat, r: nat :: Live(e, gen, kill, b, r) ==> Live(e, gen', kill, b, r))
      <==> forall b: nat, r: nat :: b < |gen| && r in gen[b] ==> Live(e, gen', kill, b, r)
  {
    if forall b: nat, r: nat :: b < |gen| && r in gen[b] ==> Live(e, gen', kill, b, r) {
      forall b: nat, r: nat | Live(e, gen, kill, b, r) ensures Live(e, gen', kill, b, r) {
        var p :| LivePath(e, gen, kill, b, r, p);
        LiveAtEndIsLiveAtStart(e, gen', kill, r, p);
      }
    } else {
      var b: nat, r: nat :| b < |gen| && r in gen[b] && !Live(e, gen', kill, b, r);
      assert LivePath(e, gen, kill, b, r, [b]);
    }
  }

  lemma {:induction false} LiveAtEndIsLiveAtStart(e: Edges, gen: RegSets, kill: RegSets, r: nat, p: seq<nat>)
    requires IsPath(e, p) && Live(e, gen, kill, p[|p| - 1], r)
    requires forall i :: 0 < i < |p| ==> Spared(kill, p[i], r)
    ensures Live(e, gen, kill, p[0], r)
    decreases |p|
  {
    if |p| > 1 {
      assert (p[0], p[1]) in e && Spared(kill, p[1], r);
      SuffixIsPath(e, p, 1);
      assert forall i :: 0 < i < |p[1..]| ==> p[1..][i] == p[i + 1];
      LiveAtEndIsLiveAtStart(e, gen, kill, r, p[1..]);
      StepExtendsLivePath(e, gen, kill, p[0], p[1], r);
    }
  }

  lemma PassWithinTextbookIff(e: Edges, ue: RegSets, own: RegSets, textbook: RegSets, kill: RegSets)
    requires IsOwnGen(e, ue, own) && IsSuccessorGen(e, ue, textbook) && EdgesWithin(e, |ue|)
    ensures (forall b: nat, r: nat :: Live(e, own, kill, b, r) ==> Live(e, textbook, kill, b, r)) <==>
      forall b: nat, r: nat :: ExposesOwn(e, ue, b, r) ==> TextbookPath(e, ue, kill, b, r)
  {
    SameLivenessIff(e, own, textbook, kill);
    forall b: nat, r: nat ensures Live(e, textbook, kill, b, r) <==> TextbookPath(e, ue, kill, b, r) {
      SuccessorGenMeaning(e, ue, textbook, kill, b, r);
    }
  }

  lemma TextbookWithinPassIff(e: Edges, ue: RegSets, own: RegSets, textbook: RegSets, kill: RegSets)
    requires IsOwnGen(e, ue, own) && IsSuccessorGen(e, ue, textbook) && EdgesWithin(e, |ue|)
    ensures (forall b: nat, r: nat :: Live(e, textbook, kill, b, r) ==> Live(e, own, kill, b, r)) <==>
      forall b: nat, s: nat, r: nat :: ExposesNext(e, ue, b, s, r) ==> PassPath(e, ue, kill, b, r)
  {
    SameLivenessIff(e, textbook, own, kill);
    forall b: nat, r: nat ensures Live(e, own, kill, b, r) <==> PassPath(e, ue, kill, b, r) {
      OwnGenMeaning(e, ue, own, kill, b, r);
    }
    forall b: nat, r: nat | b < |ue| ensures r in textbook[b] <==> exists s: nat :: ExposesNext(e, ue, b, s, r) {
      if SuccessorExposes(e, ue, b, r) {
        var s: nat :| (b, s) in e && s < |ue| && r in ue[s];
        assert ExposesNext(e, ue, b, s, r);
      }
    }
  }

  /** The pass finds exactly the textbook's live registers if and only if, on the flow graph and its kill
      and exposed sets, every register that a block with a successor exposes is exposed again further on,
      and every register exposed by a block is seen, from its predecessors, in a block with a successor. */
  lemma PassIsTextbookIff(e: Edges, ue: RegSets, own: RegSets, textbook: RegSets, kill: RegSets)
    requires IsOwnGen(e, ue, own) && IsSuccessorGen(e, ue, textbook) && EdgesWithin(e, |ue|)
    ensures (forall b: nat, r: nat :: Live(e, own, kill, b, r) <==> Live(e, textbook, kill, b, r)) <==>
      && (forall b: nat, r: nat :: ExposesOwn(e, ue, b, r) ==> TextbookPath(e, ue, kill, b, r))
      && (forall b: nat, s: nat, r: nat :: ExposesNext(e, ue, b, s, r) ==> PassPath(e, ue, kill, b, r))
  {
    PassWithinTextbookIff(e, ue, own, textbook, kill);
    TextbookWithinPassIff(e, ue, own, textbook, kill);
  }

  ghost predicate ExposesOwn(e: Edges, ue: RegSets, b: nat, r: nat) {
    b < |ue| && HasSuccessor(e, b) && r in ue[b]
  }

  ghost predicate ExposesNext(e: Edges, ue: RegSets, b: nat, s: nat, r: nat) {
    (b, s) in e && s < |ue| && r in ue[s]
  }

  /** Where every block that exposes something has a successor, as in a function, only registers that a
      block both exposes and kills can be missed from its predecessors. */
  lemma PassIsTextbookWithSuccessorsIff(e: Edges, ue: RegSets, kill: RegSets)
    requires |ue| == |kill| && EdgesWithin(e, |ue|)
    requires forall b: nat, r: nat :: b < |ue| && r in ue[b] ==> HasSuccessor(e, b)
    ensures (forall b: nat, r: nat :: PassPath(e, ue, kill, b, r) <==> TextbookPath(e, ue, kill, b, r)) <==>
      && (forall b: nat, r: nat :: b < |ue| && r in ue[b] ==> TextbookPath(e, ue, kill, b, r))
      && (forall b: nat, s: nat, r: nat :: ExposesNext(e, ue, b, s, r) && r in kill[s] ==> PassPath(e, ue, kill, b, r))
  {
    var own, textbook := OwnGen(e, ue), SuccessorGen(e, ue);
    PassIsTextbookIff(e, ue, own, textbook, kill);
    assert forall b: nat, r: nat :: ExposesOwn(e, ue, b, r) <==> b < |ue| && r in ue[b];
    forall b: nat, r: nat
      ensures Live(e, own, kill, b, r) <==> PassPath(e, ue, kill, b, r)
      ensures Live(e, textbook, kill, b, r) <==> TextbookPath(e, ue, kill, b, r)
    {
      OwnGenMeaning(e, ue, own, kill, b, r);
      SuccessorGenMeaning(e, ue, textbook, kill, b, r);
    }
    forall b: nat, s: nat, r: nat | ExposesNext(e, ue, b, s, r) && r !in kill[s] ensures PassPath(e, ue, kill, b, r) {
      assert ExposingPath(e, ue, b, r, [b, s]) && SparedBetween(kill, r, [b, s], 2) && HasSuccessor(e, [b, s][1]);
    }
  }

  /** Each block that leads anywhere generates what it exposes. */
  ghost function OwnGen(e: Edges, ue: RegSets): (gen: RegSets)
    ensures IsOwnGen(e, ue, gen)
  {
    seq(|ue|, b requires 0 <= b < |ue| => if HasSuccessor(e, b) then ue[b] else {})
  }

  /** Each block generates what its successors expose. */
  ghost function SuccessorGen(e: Edges, ue: RegSets): (gen: RegSets)
    requires EdgesWithin(e, |ue|)
    ensures IsSuccessorGen(e, ue, gen)
  {
    seq(|ue|, b requires 0 <= b < |ue| => set s: nat, r | s < |ue| && (b, s) in e && r in ue[s] :: r)
  }

  /** The pass's equation is not the textbook one: a register that a block reads and then writes is live
      out of the block before it, but not in the pass's solution. */
  lemma UsedThenKilledIsMissed()
    ensures var e: Edges, ue: RegSets, kill: RegSets := {(0, 1), (1, 2)}, [{}, {7}, {}], [{}, {7}, {}];
      TextbookPath(e, ue, kill, 0, 7) && !PassPath(e, ue, kill, 0, 7)
  {
    var e: Edges, ue: RegSets, kill: RegSets := {(0, 1), (1, 2)}, [{}, {7}, {}], [{}, {7}, {}];
    assert ExposingPath(e, ue, 0, 7, [0, 1]) && SparedBetween(kill, 7, [0, 1], 1);
    forall p: seq<nat> | ExposingPath(e, ue, 0, 7, p) ensures !SparedBetween(kill, 7, p, |p|) {
      assert p[|p| - 1] == 1 && !Spared(kill, p[|p| - 1], 7);
    }
  }

  /** Where each block exposes all it kills, a register is live out by the textbook's paths exactly when a
      block further on mentions it. */
  lemma LiveMeansMentionedAhead(e: Edges, ue: RegSets, kill: RegSets, b: nat, r: nat)
    requires |ue| == |kill| && EdgesWithin(e, |ue|) && forall s :: 0 <= s < |ue| ==> kill[s] <= ue[s]
    ensures TextbookPath(e, ue, kill, b, r) <==> exists q: seq<nat> :: ExposingPath(e, ue, b, r, q) && |q| > 1
  {
    if q: seq<nat> :| ExposingPath(e, ue, b, r, q) && |q| > 1 {
      FirstMentionIsReached(e, ue, kill, b, r, q);
    }
  }

  lemma {:induction false} FirstMentionIsReached(e: Edges, ue: RegSets, kill: RegSets, b: nat, r: nat, q: seq<nat>)
    requires |ue| == |kill| && EdgesWithin(e, |ue|) && forall s :: 0 <= s < |ue| ==> kill[s] <= ue[s]
    requires ExposingPath(e, ue, b, r, q) && |q| > 1
    ensures TextbookPath(e, ue, kill, b, r)
    decreases |q|
  {
    if i :| 0 < i < |q| - 1 && !Spared(kill, q[i], r) {
      assert (q[i - 1], q[i]) in e;
      PrefixIsPath(e, q, i);
      FirstMentionIsReached(e, ue, kill, b, r, q[..i + 1]);
    } else {
      assert SparedBetween(kill, r, q, |q| - 1);
    }
  }

  // ---------------------------------------------------------------- the sweeps, on values

  /** What the sweeps keep: every register in a set is live, is what the equation would put there
      again (so sets only grow), and is exposed by some block. */
  ghost predicate Growing(e: Edges, gen: RegSets, kill: RegSets, out: RegSets, universe: set<nat>) {
    && |gen| == |kill| == |out|
    && EdgesWithin(e, |out|)
    && (forall b :: 0 <= b < |gen| ==> gen[b] <= universe)
    && (forall b :: 0 <= b < |out| ==> out[b] <= universe)
    && AllLive(e, gen, kill, out)
    && forall b: nat, r: nat :: b < |out| && r in out[b] ==> Yields(e, gen, kill, out, b, r)
  }

  ghost predicate Closed(e: Edges, gen: RegSets, kill: RegSets, out: RegSets, count: nat) {
    forall b: nat, r: nat :: b < count && b < |out| && Yields(e, gen, kill, out, b, r) ==> r in out[b]
  }

  /** How many registers can still be added. */
  ghost function Room(out: RegSets, universe: set<nat>): nat {
    if out == [] then 0 else |universe - out[0]| + Room(out[1..], universe)
  }

  lemma {:induction false} GrowthTakesRoom(out: RegSets, universe: set<nat>, b: nat, next: set<nat>)
    requires b < |out| && out[b] < next <= universe
    ensures Room(out[b := next], universe) < Room(out, universe)
  {
    var out' := out[b := next];
    if b == 0 {
      assert out'[1..] == out[1..];
      var r :| r in next && r !in out[b];
      assert r in universe - out[b] && r !in universe - next;
      SubsetIsNoLarger(universe - next, universe - out[b]);
    } else {
      assert out'[1..] == out[1..][b - 1 := next];
      GrowthTakesRoom(out[1..], universe, b - 1, next);
    }
  }

  /** Recomputing one block's set keeps the invariants and can only add to it. */
  lemma UpdateGrows(e: Edges, gen: RegSets, kill: RegSets, out: RegSets, universe: set<nat>, b: nat, next: set<nat>)
    requires Growing(e, gen, kill, out, universe) && b < |out|
    requires forall r: nat :: r in next <==> Yields(e, gen, kill, out, b, r)
    ensures Growing(e, gen, kill, out[b := next], universe)
    ensures out[b] <= next
    ensures next == out[b] || Room(out[b := next], universe) < Room(out, universe)
  {
    var out' := out[b := next];
    forall r | r in next ensures r in universe && Live(e, gen, kill, b, r) {
      YieldedIsLive(e, gen, kill, out, b, r);
      YieldedIsInUniverse(e, gen, kill, out, universe, b, r);
    }
    forall c: nat, r: nat | c < |out'| && r in out'[c] ensures Yields(e, gen, kill, out', c, r) {
      YieldsIsMonotone(e, gen, kill, out, out', c, r);
    }
    if next != out[b] {
      GrowthTakesRoom(out, universe, b, next);
    }
  }

  lemma YieldedIsInUniverse(e: Edges, gen: RegSets, kill: RegSets, out: RegSets, universe: set<nat>, b: nat, r: nat)
    requires Growing(e, gen, kill, out, universe) && b < |out| && Yields(e, gen, kill, out, b, r)
    ensures r in universe
  {
    if r !in gen[b] {
      var s: nat :| FlowsBack(e, kill, out, b, s, r);
    }
  }

  lemma YieldsIsMonotone(e: Edges, gen: RegSets, kill: RegSets, out: RegSets, out': RegSets, b: nat, r: nat)
    requires |out| == |out'| && forall c :: 0 <= c < |out| ==> out[c] <= out'[c]
    requires Yields(e, gen, kill, out, b, r)
    ensures Yields(e, gen, kill, out', b, r)
  {
    if s: nat :| FlowsBack(e, kill, out, b, s, r) {
      assert FlowsBack(e, kill, out', b, s, r);
    }
  }

  lemma ClosedExtends(e: Edges, gen: RegSets, kill: RegSets, out: RegSets, b: nat)
    requires b < |out| && Closed(e, gen, kill, out, b)
    requires forall r: nat :: r in out[b] <==> Yields(e, gen, kill, out, b, r)
    ensures Closed(e, gen, kill, out, b + 1)
  {
  }

  // ---------------------------------------------------------------- kill and upward-exposed sets

  ghost predicate Writes(ins: Ins, bb: BasicBlock, r: nat)
    reads ins
  {
    ins.bb == bb && ins.hasWriteReg && ins.writeReg == r
  }

  ghost predicate Reads(ins: Ins, bb: BasicBlock, r: nat)
    reads ins
  {
    ins.bb == bb && ins.hasReadReg && r in ins.readRegs
  }

  /** One of the first `n` instructions writes `r` in `bb`. */
  ghost predicate Killed(insns: seq<Ins>, n: nat, bb: BasicBlock, r: nat)
    reads insns
    requires n <= |insns|
  {
    exists i :: 0 <= i < n && Writes(insns[i], bb, r)
  }

  /** One of the first `n` instructions reads `r` in `bb` before any instruction of `bb` writes it. */
  ghost predicate Exposed(insns: seq<Ins>, n: nat, bb: BasicBlock, r: nat)
    reads insns
    requires n <= |insns|
  {
    exists i :: 0 <= i < n && Reads(insns[i], bb, r) && !Killed(insns, i, bb, r)
  }

  ghost predicate KillUeUpTo(insns: seq<Ins>, n: nat, bb: BasicBlock)
    reads insns, bb`kill, bb`ue
    requires n <= |insns|
  {
    forall r: nat :: (r in bb.kill <==> Killed(insns, n, bb, r)) && (r in bb.ue <==> Exposed(insns, n, bb, r))
  }

  /** If every instruction lists the register it writes among those it reads, as the decoder leaves it, a
      block exposes all it kills: the reads of an instruction are taken before its write. */
  lemma {:induction false} KilledIsExposed(insns: seq<Ins>, n: nat, bb: BasicBlock, r: nat)
    requires n <= |insns| && Killed(insns, n, bb, r) && forall i :: 0 <= i < n ==> WriteListed(insns[i])
    ensures Exposed(insns, n, bb, r)
  {
    var m := n - 1;
    if Killed(insns, m, bb, r) {
      KilledIsExposed(insns, m, bb, r);
    } else {
      assert WriteListed(insns[m]) && Reads(insns[m], bb, r);
    }
  }

  /** Account for one instruction in its block: first its reads, then its write. */
  method AccountFor(ins: Ins, bb: BasicBlock)
    requires ins.bb == bb
    modifies bb`ue, bb`kill
    ensures forall r: nat :: r in bb.kill <==> r in old(bb.kill) || Writes(ins, bb, r)
    ensures forall r: nat :: r in bb.ue <==> r in old(bb.ue) || (Reads(ins, bb, r) && r !in old(bb.kill))
  {
    if ins.hasReadReg {
      var k := 0;
      while k < |ins.readRegs|
        invariant 0 <= k <= |ins.readRegs| && bb.kill == old(bb.kill)
        invariant forall r: nat :: r in bb.ue <==> r in old(bb.ue) || (r in ins.readRegs[..k] && r !in bb.kill)
      {
        var reg := ins.readRegs[k];
        if reg !in bb.kill {
          bb.ue := bb.ue + {reg};
        }
        assert ins.readRegs[..k + 1] == ins.readRegs[..k] + [reg];
        k := k + 1;
      }
      assert ins.readRegs[..k] == ins.readRegs;
    }
    if ins.hasWriteReg {
      bb.kill := bb.kill + {ins.writeReg};
    }
  }

  /** A block kills what it writes, and exposes what it reads before writing it. */
  method ComputeKillUe(bbs: seq<BasicBlock>, insns: seq<Ins>)
    requires forall i :: 0 <= i < |insns| ==> insns[i].bb != null && insns[i].bb in bbs
    requires forall b :: b in bbs ==> b.kill == {} && b.ue == {}
    modifies bbs`ue, bbs`kill
    ensures forall b :: b in bbs ==> KillUeUpTo(insns, |insns|, b)
  {
    var n := 0;
    while n < |insns|
      invariant 0 <= n <= |insns|
      invariant forall b :: b in bbs ==> KillUeUpTo(insns, n, b)
    {
      AccountForNth(bbs, insns, n, insns[n], insns[n].bb);
      n := n + 1;
    }
  }

  method AccountForNth(bbs: seq<BasicBlock>, ghost insns: seq<Ins>, ghost n: nat, ins: Ins, bb: BasicBlock)
    requires n < |insns| && ins == insns[n] && ins.bb == bb && bb in bbs
    requires forall b :: b in bbs ==> KillUeUpTo(insns, n, b)
    modifies bb`ue, bb`kill
    ensures forall b :: b in bbs ==> KillUeUpTo(insns, n + 1, b)
  {
    AccountFor(ins, bb);
    forall b | b in bbs ensures KillUeUpTo(insns, n + 1, b) {
      assert old(KillUeUpTo(insns, n, b));
      forall r: nat
        ensures Killed(insns, n + 1, b, r) <==> Killed(insns, n, b, r) || Writes(ins, b, r)
        ensures Exposed(insns, n + 1, b, r) <==>
          Exposed(insns, n, b, r) || (Reads(ins, b, r) && !Killed(insns, n, b, r))
      {
        OneMoreIns(insns, n, b, r);
      }
    }
  }

  lemma OneMoreIns(insns: seq<Ins>, n: nat, b: BasicBlock, r: nat)
    requires n < |insns|
    ensures Killed(insns, n + 1, b, r) <==> Killed(insns, n, b, r) || Writes(insns[n], b, r)
    ensures Exposed(insns, n + 1, b, r) <==>
      Exposed(insns, n, b, r) || (Reads(insns[n], b, r) && !Killed(insns, n, b, r))
  {
  }

  // ---------------------------------------------------------------- the sweeps, on blocks

  /** Equal size and inclusion decide equality. */
  method SetsEqual(a: set<nat>, b: set<nat>) returns (equal: bool)
    ensures equal <==> a == b
  {
    if |a| != |b| {
      return false;
    }
    var todo := a;
    while todo != {}
      invariant todo <= a && a - todo <= b
      decreases todo
    {
      var elem :| elem in todo;
      if elem !in b {
        return false;
      }
      todo := todo - {elem};
    }
    SubsetIsNoLarger(a, b);
    return true;
  }

  /** `r` flows out of `bb`, as far as its first `count` successors tell. */
  ghost predicate FlowsOut(bb: BasicBlock, count: nat, r: nat)
    reads bb, bb.successors
    requires count <= |bb.successors|
  {
    (0 < count && r in bb.ue) ||
    exists i :: 0 <= i < count && r in bb.successors[i].liveOut && r !in bb.successors[i].kill
  }

  /** Recompute a block's live-out set from its successors and its own upward-exposed registers. */
  method ComputeLiveOut(bb: BasicBlock)
    modifies bb`liveOut
    ensures forall r: nat :: r in bb.liveOut <==> old(FlowsOut(bb, |bb.successors|, r))
  {
    var newLiveOut: set<nat> := {};
    var k := 0;
    while k < |bb.successors|
      invariant 0 <= k <= |bb.successors| && bb.liveOut == old(bb.liveOut)
      invariant forall r: nat :: r in newLiveOut <==> FlowsOut(bb, k, r)
    {
      var succ := bb.successors[k];
      var difference := Difference(succ.liveOut, succ.kill);
      newLiveOut := newLiveOut + difference;
      newLiveOut := newLiveOut + bb.ue;
      k := k + 1;
    }
    bb.liveOut := newLiveOut;
  }

  method Difference(a: set<nat>, b: set<nat>) returns (difference: set<nat>)
    ensures difference == a - b
  {
    difference := {};
    var todo := a;
    while todo != {}
      invariant todo <= a && difference == (a - todo) - b
      decreases todo
    {
      var reg :| reg in todo;
      if reg !in b {
        difference := difference + {reg};
      }
      todo := todo - {reg};
    }
  }

  ghost predicate SuccessorsListed(bbs: seq<BasicBlock>)
    reads bbs`successors
  {
    forall b, s :: 0 <= b < |bbs| && s in bbs[b].successors ==> s in bbs
  }

  /** `e` is the flow graph drawn by the successor lists. */
  ghost predicate HasSuccEdges(bbs: seq<BasicBlock>, e: Edges)
    reads bbs`successors
  {
    forall b: nat, s: nat :: (b, s) in e <==> b < |bbs| && s < |bbs| && bbs[s] in bbs[b].successors
  }

  /** The blocks hold these sets. */
  ghost predicate Represents(bbs: seq<BasicBlock>, e: Edges, ue: RegSets, kill: RegSets, out: RegSets)
    reads bbs`successors, bbs`ue, bbs`kill, bbs`liveOut
  {
    && Numbered(bbs) && SuccessorsListed(bbs) && HasSuccEdges(bbs, e)
    && |ue| == |kill| == |out| == |bbs|
    && forall b :: 0 <= b < |bbs| ==> HoldsSets(bbs[b], ue[b], kill[b], out[b])
  }

  ghost predicate HoldsSets(bb: BasicBlock, ue: set<nat>, kill: set<nat>, out: set<nat>)
    reads bb`ue, bb`kill, bb`liveOut
  {
    bb.ue == ue && bb.kill == kill && bb.liveOut == out
  }

  /** What a block computes is what its equation yields. */
  lemma FlowsOutIsYields(bbs: seq<BasicBlock>, e: Edges, ue: RegSets, kill: RegSets, out: RegSets, gen: RegSets,
                         b: nat, r: nat)
    requires Represents(bbs, e, ue, kill, out) && IsOwnGen(e, ue, gen) && b < |bbs|
    ensures FlowsOut(bbs[b], |bbs[b].successors|, r) <==> Yields(e, gen, kill, out, b, r)
  {
    var succs := bbs[b].successors;
    assert HoldsSets(bbs[b], ue[b], kill[b], out[b]);
    if succs != [] {
      assert succs[0] in bbs[b].successors && succs[0] in bbs;
      var s: nat :| s < |bbs| && bbs[s] == succs[0];
      assert (b, s) in e;
    }
    if i :| 0 <= i < |succs| && r in succs[i].liveOut && r !in succs[i].kill {
      assert succs[i] in bbs[b].successors && succs[i] in bbs;
      var s: nat :| s < |bbs| && bbs[s] == succs[i];
      assert HoldsSets(bbs[s], ue[s], kill[s], out[s]) && (b, s) in e;
      assert FlowsBack(e, kill, out, b, s, r);
    }
    if s: nat :| FlowsBack(e, kill, out, b, s, r) {
      assert HoldsSets(bbs[s], ue[s], kill[s], out[s]);
      var i :| 0 <= i < |succs| && succs[i] == bbs[s];
    }
    assert HasSuccessor(e, b) ==> succs != [];
  }

  /** Recompute one block and report whether its set has changed. */
  method UpdateBlock(bbs: seq<BasicBlock>, b: nat, bb: BasicBlock, ghost e: Edges, ghost ue: RegSets,
                     ghost kill: RegSets,
                     ghost out: RegSets, ghost gen: RegSets)
    returns (changed: bool, ghost next: set<nat>)
    requires Represents(bbs, e, ue, kill, out) && IsOwnGen(e, ue, gen) && b < |bbs| && bbs[b] == bb
    modifies bb`liveOut
    ensures Represents(bbs, e, ue, kill, out[b := next])
    ensures forall r: nat :: r in next <==> Yields(e, gen, kill, out, b, r)
    ensures changed <==> next != out[b]
  {
    assert HoldsSets(bb, ue[b], kill[b], out[b]);
    var currentOut := bb.liveOut;
    forall r: nat ensures FlowsOut(bb, |bb.successors|, r) <==> Yields(e, gen, kill, out, b, r) {
      FlowsOutIsYields(bbs, e, ue, kill, out, gen, b, r);
    }
    ComputeLiveOut(bb);
    next := bb.liveOut;
    var equal := SetsEqual(currentOut, bb.liveOut);
    changed := !equal;
    forall c | 0 <= c < |bbs| ensures HoldsSets(bbs[c], ue[c], kill[c], out[b := next][c]) {
      assert old(HoldsSets(bbs[c], ue[c], kill[c], out[c]));
      assert c != b ==> bbs[c].id != bb.id;
    }
  }

  /** One pass over all blocks. */
  method Sweep(bbs: seq<BasicBlock>, ghost e: Edges, ghost ue: RegSets, ghost kill: RegSets, ghost out: RegSets,
               ghost gen: RegSets, ghost universe: set<nat>)
    returns (changed: bool, ghost after: RegSets)
    requires Represents(bbs, e, ue, kill, out) && IsOwnGen(e, ue, gen) && Growing(e, gen, kill, out, universe)
    modifies bbs`liveOut
    ensures Represents(bbs, e, ue, kill, after) && Growing(e, gen, kill, after, universe)
    ensures if changed then Room(after, universe) < Room(out, universe)
      else after == out && Closed(e, gen, kill, out, |out|)
  {
    changed, after := false, out;
    var b := 0;
    while b < |bbs|
      invariant 0 <= b <= |bbs|
      invariant Represents(bbs, e, ue, kill, after) && Growing(e, gen, kill, after, universe)
      invariant if changed then Room(after, universe) < Room(out, universe)
        else after == out && Closed(e, gen, kill, out, b)
    {
      var updated, next := UpdateBlock(bbs, b, bbs[b], e, ue, kill, after, gen);
      UpdateGrows(e, gen, kill, after, universe, b, next);
      if updated {
        changed, after := true, after[b := next];
      } else {
        assert after[b := next] == after;
        if !changed {
          ClosedExtends(e, gen, kill, out, b);
        }
      }
      b := b + 1;
    }
  }

  /** The live-out sets end up as the least solution of the equations the pass uses. */
  method ComputeLiveOuts(bbs: seq<BasicBlock>, ghost e: Edges, ghost ue: RegSets, ghost kill: RegSets,
                         ghost gen: RegSets)
    requires Represents(bbs, e, ue, kill, NoRegs(|bbs|)) && IsOwnGen(e, ue, gen)
    modifies bbs`liveOut
    ensures forall b, r: nat :: 0 <= b < |bbs| ==> (r in bbs[b].liveOut <==> Live(e, gen, kill, b, r))
  {
    ghost var out, universe := NoRegs(|bbs|), AllRegs(ue);
    StartsGrowing(bbs, e, ue, kill, gen);
    while true
      invariant Represents(bbs, e, ue, kill, out) && Growing(e, gen, kill, out, universe)
      decreases Room(out, universe)
    {
      var changed, after := Sweep(bbs, e, ue, kill, out, gen, universe);
      if !changed {
        break;
      }
      out := after;
    }
    forall b: nat, r: nat | b < |bbs| ensures r in bbs[b].liveOut <==> Live(e, gen, kill, b, r) {
      assert HoldsSets(bbs[b], ue[b], kill[b], out[b]);
      LeastSolution(e, gen, kill, out, b, r);
    }
  }

  ghost function NoRegs(n: nat): (none: RegSets)
    ensures |none| == n && forall b :: 0 <= b < n ==> none[b] == {}
  {
    seq(n, b => {})
  }

  ghost function AllRegs(sets: RegSets): (all: set<nat>)
    ensures forall b :: 0 <= b < |sets| ==> sets[b] <= all
  {
    if sets == [] then {} else sets[0] + AllRegs(sets[1..])
  }

  lemma StartsGrowing(bbs: seq<BasicBlock>, e: Edges, ue: RegSets, kill: RegSets, gen: RegSets)
    requires Represents(bbs, e, ue, kill, NoRegs(|bbs|)) && IsOwnGen(e, ue, gen)
    ensures Growing(e, gen, kill, NoRegs(|bbs|), AllRegs(ue))
  {
    forall b | 0 <= b < |gen| ensures gen[b] <= AllRegs(ue) {
      assert forall r :: r in gen[b] ==> r in ue[b];
    }
  }
}

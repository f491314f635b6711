/** Which register the scan gives to an interval, told from the starts and ends of the intervals alone. */
module RegisterByLifetime {
  import opened LinearScan

  /** No two live intervals start and end together, so that the order of release is settled. */
  predicate LifetimesDiffer(ivs: seq<RegLiveInterval>) {
    forall l, m :: 0 <= l < m < |ivs| ==> SettledOrder(ivs, l, m)
  }

  predicate SettledOrder(ivs: seq<RegLiveInterval>, l: nat, m: nat)
    requires l < |ivs| && m < |ivs|
  {
    ivs[l].start < ivs[l].end ==> ivs[l].start != ivs[m].start || ivs[l].end != ivs[m].end
  }

  /** When `k` starts, `l` has ended and no interval has taken its register over. */
  ghost predicate Free(ivs: seq<RegLiveInterval>, l: nat, k: nat)
    requires l < |ivs| && k < |ivs|
    decreases k, 0
  {
    l < k && !Point(ivs[l]) && ivs[l].end <= ivs[k].start && forall j :: l < j < k ==> !Takes(ivs, l, j)
  }

  /** Of the registers that are free when `k` starts, that of `l` was released last. */
  ghost predicate Takes(ivs: seq<RegLiveInterval>, l: nat, k: nat)
    requires l < |ivs| && k < |ivs|
    decreases k, 1
  {
    && !Point(ivs[k]) && Free(ivs, l, k)
    && forall m :: 0 <= m < k && m != l && Free(ivs, m, k) ==> ReleasedBefore(ivs, m, l)
  }

  ghost predicate TakesOver(ivs: seq<RegLiveInterval>, k: nat)
    requires k < |ivs|
  {
    exists l :: 0 <= l < k && Takes(ivs, l, k)
  }

  /** How many registers have come into use before `k`. */
  ghost function InUse(ivs: seq<RegLiveInterval>, k: nat): nat
    requires k <= |ivs|
  {
    if k == 0 then 0
    else InUse(ivs, k - 1) + if !Point(ivs[k - 1]) && !TakesOver(ivs, k - 1) then 1 else 0
  }

  /** The register of `k`: the one it takes over, or else the next one never used. */
  ghost function RegisterOf(ivs: seq<RegLiveInterval>, k: nat): nat
    requires k < |ivs|
  {
    if TakesOver(ivs, k) then var l :| 0 <= l < k && Takes(ivs, l, k); RegisterOf(ivs, l) else InUse(ivs, k)
  }

  /** What the scan leaves behind, as far as it has come. */
  ghost predicate Scanned(ivs: seq<RegLiveInterval>, count: nat) {
    count <= |ivs| && NonInterfering(ivs, count) && LastReleasedFirst(ivs, count) && LifetimesDiffer(ivs)
  }

  lemma IdleAgain(ivs: seq<RegLiveInterval>, count: nat, l: nat, j: nat)
    requires Scanned(ivs, count) && j < count && !Point(ivs[j]) && LastHolder(ivs, j, l, ivs[j].newReg)
    ensures TakesFrom(ivs, l, j)
  {
    assert !Overlaps(ivs, l, j) && Idle(ivs, l, j) && TakesLatest(ivs, j);
    var t: nat :| TakesFrom(ivs, t, j);
    assert LastHolder(ivs, j, t, ivs[j].newReg);
  }

  /** The first of the intervals after `l` that has the register of `l`. */
  lemma {:induction false} NextHolder(ivs: seq<RegLiveInterval>, l: nat, k: nat) returns (j: nat)
    requires l < k <= |ivs| && Holds(ivs, k, l, ivs[l].newReg) && !LastHolder(ivs, k, l, ivs[l].newReg)
    ensures l < j < k && Holds(ivs, k, j, ivs[l].newReg) && LastHolder(ivs, j, l, ivs[l].newReg)
    decreases k
  {
    var r, m := ivs[l].newReg, k - 1;
    if l < m && !LastHolder(ivs, m, l, r) {
      j := NextHolder(ivs, l, m);
    } else {
      j :| l < j < k && Holds(ivs, k, j, r);
      assert j < m ==> Holds(ivs, m, j, r);
    }
  }

  lemma {:induction false} FreeIsIdle(ivs: seq<RegLiveInterval>, count: nat, l: nat, k: nat)
    requires Scanned(ivs, count) && l < k < count
    ensures Free(ivs, l, k) <==> Idle(ivs, l, k)
    decreases k, 0
  {
    if Free(ivs, l, k) && !LastHolder(ivs, k, l, ivs[l].newReg) {
      var j := NextHolder(ivs, l, k);
      IdleAgain(ivs, count, l, j);
      TakesIsTakesFrom(ivs, count, l, j);
    }
    if Idle(ivs, l, k) {
      forall j | l < j < k ensures !Takes(ivs, l, j) {
        if !Point(ivs[j]) {
          TakesIsTakesFrom(ivs, count, l, j);
          assert !Holds(ivs, k, j, ivs[l].newReg);
        }
      }
    }
  }

  /** Taking over, told from starts and ends, is what the scan does. */
  lemma {:induction false} TakesIsTakesFrom(ivs: seq<RegLiveInterval>, count: nat, l: nat, k: nat)
    requires Scanned(ivs, count) && l < k < count && !Point(ivs[k])
    ensures Takes(ivs, l, k) <==> TakesFrom(ivs, l, k)
    decreases k, 1
  {
    forall m: nat | m < k ensures Free(ivs, m, k) <==> Idle(ivs, m, k) {
      FreeIsIdle(ivs, count, m, k);
    }
    if Takes(ivs, l, k) {
      assert Idle(ivs, l, k) && TakesLatest(ivs, k);
      var t: nat :| TakesFrom(ivs, t, k);
      assert Free(ivs, t, k) && !ReleasedBefore(ivs, t, l);
    }
    if TakesFrom(ivs, l, k) {
      forall m: nat | m < k && m != l && Free(ivs, m, k) ensures ReleasedBefore(ivs, m, l) {
        assert Idle(ivs, m, k) && !ReleasedBefore(ivs, l, m);
        ReleaseIsSettled(ivs, l, m);
      }
    }
  }

  lemma ReleaseIsSettled(ivs: seq<RegLiveInterval>, l: nat, m: nat)
    requires LifetimesDiffer(ivs) && l < |ivs| && m < |ivs| && l != m && !Point(ivs[l]) && !Point(ivs[m])
    ensures ReleasedBefore(ivs, l, m) || ReleasedBefore(ivs, m, l)
  {
    assert if l < m then SettledOrder(ivs, l, m) else SettledOrder(ivs, m, l);
  }

  lemma ReleaseIsStrict(ivs: seq<RegLiveInterval>, l: nat, m: nat)
    requires l < |ivs| && m < |ivs|
    ensures !ReleasedBefore(ivs, l, m) || !ReleasedBefore(ivs, m, l)
  {
  }

  lemma TakesOneOnly(ivs: seq<RegLiveInterval>, l: nat, m: nat, k: nat)
    requires l < k < |ivs| && m < k && Takes(ivs, l, k) && Takes(ivs, m, k)
    ensures l == m
  {
    ReleaseIsStrict(ivs, l, m);
  }

  lemma FreshIsUnused(ivs: seq<RegLiveInterval>, count: nat, k: nat)
    requires Scanned(ivs, count) && k < count && !Point(ivs[k])
    ensures TakesOver(ivs, k) <==> Used(ivs, k, ivs[k].newReg)
  {
    if Used(ivs, k, ivs[k].newReg) {
      var l := HeldMeansHeldLast(ivs, k, ivs[k].newReg);
      IdleAgain(ivs, count, l, k);
      TakesIsTakesFrom(ivs, count, l, k);
    }
    if l :| 0 <= l < k && Takes(ivs, l, k) {
      TakesIsTakesFrom(ivs, count, l, k);
      assert Holds(ivs, k, l, ivs[k].newReg);
    }
  }

  lemma UsedGrows(ivs: seq<RegLiveInterval>, k: nat, r: nat)
    requires k < |ivs|
    ensures Used(ivs, k + 1, r) <==> Used(ivs, k, r) || (!Point(ivs[k]) && ivs[k].newReg == r)
  {
    var n := k + 1;
    if i: nat :| Holds(ivs, n, i, r) {
      assert i < k ==> Holds(ivs, k, i, r);
    }
    if i: nat :| Holds(ivs, k, i, r) {
      assert Holds(ivs, n, i, r);
    }
    assert !Point(ivs[k]) && ivs[k].newReg == r ==> Holds(ivs, n, k, r);
  }

  /** The registers in use before `k` are the first `InUse(ivs, k)` ones. */
  lemma {:induction false} UsedAreFirst(ivs: seq<RegLiveInterval>, count: nat, used: nat, k: nat, r: nat)
    requires Scanned(ivs, count) && Dense(ivs, count, used) && k <= count
    ensures Used(ivs, k, r) <==> r < InUse(ivs, k)
    decreases k
  {
    if k > 0 {
      var m := k - 1;
      UsedAreFirst(ivs, count, used, m, r);
      UsedGrows(ivs, m, r);
      if !Point(ivs[m]) {
        FreshIsUnused(ivs, count, m);
        UsedAreFirst(ivs, count, used, m, ivs[m].newReg);
        assert r < ivs[m].newReg ==> Used(ivs, m, r);
        if InUse(ivs, m) < ivs[m].newReg {
          UsedAreFirst(ivs, count, used, m, InUse(ivs, m));
        }
      }
    }
  }

  /** The scan gives every interval the register that starts and ends determine. */
  lemma {:induction false} ScanGivesRegister(ivs: seq<RegLiveInterval>, count: nat, used: nat, k: nat)
    requires Scanned(ivs, count) && Dense(ivs, count, used) && k < count && !Point(ivs[k])
    ensures ivs[k].newReg == RegisterOf(ivs, k)
    decreases k
  {
    if TakesOver(ivs, k) {
      var l :| 0 <= l < k && Takes(ivs, l, k) && RegisterOf(ivs, k) == RegisterOf(ivs, l);
      TakesIsTakesFrom(ivs, count, l, k);
      ScanGivesRegister(ivs, count, used, l);
    } else {
      FreshIsUnused(ivs, count, k);
      UsedAreFirst(ivs, count, used, k, ivs[k].newReg);
      if InUse(ivs, k) < ivs[k].newReg {
        UsedAreFirst(ivs, count, used, k, InUse(ivs, k));
      }
    }
  }

  // ---------------------------------------------------------------- the mapping plays no part

  lemma {:induction false} TakesIgnoresMapping(a: seq<RegLiveInterval>, b: seq<RegLiveInterval>, l: nat, k: nat)
    requires SameLifetimes(a, b) && l < |a| && k < |a|
    ensures Free(a, l, k) == Free(b, l, k) && Takes(a, l, k) == Takes(b, l, k)
    decreases k
  {
    forall m, j | 0 <= m < |a| && 0 <= j < k ensures Takes(a, m, j) == Takes(b, m, j) {
      TakesIgnoresMapping(a, b, m, j);
    }
    forall m | 0 <= m < |a|
      ensures a[m].start == b[m].start && a[m].end == b[m].end && Free(a, m, k) == Free(b, m, k)
    {
    }
  }

  lemma {:induction false} RegisterIgnoresMapping(a: seq<RegLiveInterval>, b: seq<RegLiveInterval>, k: nat)
    requires SameLifetimes(a, b) && k < |a|
    ensures InUse(a, k) == InUse(b, k) && TakesOver(a, k) == TakesOver(b, k) && RegisterOf(a, k) == RegisterOf(b, k)
    decreases k
  {
    forall l | 0 <= l < k ensures Takes(a, l, k) == Takes(b, l, k) {
      TakesIgnoresMapping(a, b, l, k);
    }
    if k > 0 {
      RegisterIgnoresMapping(a, b, k - 1);
    }
    if TakesOver(a, k) {
      var l :| 0 <= l < k && Takes(a, l, k) && RegisterOf(a, k) == RegisterOf(a, l);
      var m :| 0 <= m < k && Takes(b, m, k) && RegisterOf(b, k) == RegisterOf(b, m);
      TakesOneOnly(a, l, m, k);
      RegisterIgnoresMapping(a, b, l);
    }
  }

  /** The mapping is a function of the starts and ends: the scan gives each interval the register that
      the sorted intervals determine before any of them is mapped. */
  lemma MappingFollowsLifetimes(sorted: seq<RegLiveInterval>, ivs: seq<RegLiveInterval>, regs: nat, count: nat,
                                used: nat, k: nat)
    requires Allocation(ivs, regs, count, used) && SameLifetimes(ivs, sorted) && LifetimesDiffer(sorted)
    requires k < count && !Point(ivs[k])
    ensures ivs[k].newReg == RegisterOf(sorted, k)
  {
    forall l, m | 0 <= l < m < |ivs| ensures SettledOrder(ivs, l, m) {
      assert SettledOrder(sorted, l, m);
    }
    ScanGivesRegister(ivs, count, used, k);
    RegisterIgnoresMapping(ivs, sorted, k);
  }

  /** The intervals with the registers that their starts and ends determine; points keep their number. */
  ghost function MappingOf(sorted: seq<RegLiveInterval>): (ivs: seq<RegLiveInterval>)
    ensures SameLifetimes(ivs, sorted)
  {
    seq(|sorted|, k requires 0 <= k < |sorted| =>
      sorted[k].(newReg := if Point(sorted[k]) then sorted[k].oldReg else RegisterOf(sorted, k)))
  }

  /** If the scan visits all intervals, its result is this mapping. So whatever is told of the result, such
      as whether the chain of substitutions is free, can be told of the sorted intervals. */
  lemma ScanIsMapping(sorted: seq<RegLiveInterval>, ivs: seq<RegLiveInterval>, regs: nat, used: nat)
    requires Allocation(ivs, regs, |ivs|, used) && SameLifetimes(ivs, sorted) && LifetimesDiffer(sorted)
    ensures ivs == MappingOf(sorted)
  {
    forall k | 0 <= k < |ivs| ensures ivs[k] == MappingOf(sorted)[k] {
      if !Point(ivs[k]) {
        MappingFollowsLifetimes(sorted, ivs, regs, |ivs|, used, k);
      }
    }
  }
}

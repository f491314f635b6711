/** Linear-scan register allocation over live intervals, with a last-in-first-out register pool. */
module LinearScan {
  import opened Counting
  import L = LiveRanges

  /** A register's live interval and the register it is mapped to. */
  datatype RegLiveInterval = RegLiveInterval(oldReg: nat, newReg: nat, start: nat, end: nat)

  /** Intervals that start and end at the same offset are never allocated. */
  predicate Point(iv: RegLiveInterval) {
    iv.start == iv.end
  }

  // ---------------------------------------------------------------- sorting

  datatype Order = ByStart | ByEnd

  predicate InOrder(o: Order, a: RegLiveInterval, b: RegLiveInterval) {
    match o
    case ByStart => a.start < b.start || (a.start == b.start && a.end <= b.end)
    case ByEnd => a.end < b.end || (a.end == b.end && a.start <= b.start)
  }

  ghost predicate Sorted(o: Order, s: seq<RegLiveInterval>) {
    forall i, j :: 0 <= i < j < |s| ==> InOrder(o, s[i], s[j])
  }

  /** The library sort, known only by its contract: ties may come out in any order. */
  method Sort(o: Order, s: seq<RegLiveInterval>) returns (r: seq<RegLiveInterval>)
    ensures Sorted(o, r)
    ensures multiset(r) == multiset(s)
    ensures |r| == |s|
  {
    r := [];
    var k := 0;
    while k < |s|
      invariant 0 <= k <= |s|
      invariant Sorted(o, r)
      invariant multiset(r) == multiset(s[..k])
    {
      r := Insert(o, r, s[k]);
      assert s[..k + 1] == s[..k] + [s[k]];
      k := k + 1;
    }
    assert s[..k] == s;
    assert |multiset(r)| == |multiset(s)|;
  }

  method Insert(o: Order, s: seq<RegLiveInterval>, x: RegLiveInterval) returns (r: seq<RegLiveInterval>)
    requires Sorted(o, s)
    ensures Sorted(o, r)
    ensures multiset(r) == multiset(s) + multiset{x}
  {
    var i := 0;
    while i < |s| && InOrder(o, s[i], x)
      invariant 0 <= i <= |s|
      invariant forall j :: 0 <= j < i ==> InOrder(o, s[j], x)
    {
      i := i + 1;
    }
    r := s[..i] + [x] + s[i..];
    InsertKeepsSorted(o, s, x, i);
    InsertAdds(s, x, i);
  }

  lemma InsertKeepsSorted(o: Order, s: seq<RegLiveInterval>, x: RegLiveInterval, i: nat)
    requires Sorted(o, s) && i <= |s| && forall j :: 0 <= j < i ==> InOrder(o, s[j], x)
    requires i < |s| ==> !InOrder(o, s[i], x)
    ensures Sorted(o, s[..i] + [x] + s[i..])
  {
    var r := s[..i] + [x] + s[i..];
    forall a, b | 0 <= a < b < |r| ensures InOrder(o, r[a], r[b]) {
      assert a == i < |s| && i < b - 1 ==> InOrder(o, s[i], s[b - 1]);
    }
  }

  lemma InsertAdds(s: seq<RegLiveInterval>, x: RegLiveInterval, i: nat)
    requires i <= |s|
    ensures multiset(s[..i] + [x] + s[i..]) == multiset(s) + multiset{x}
  {
    assert s == s[..i] + s[i..];
  }

  /** The entry for one live interval, not yet mapped. */
  function EntryOf(r: nat, iv: L.Interval): RegLiveInterval {
    RegLiveInterval(r, r, iv.start, iv.end)
  }

  /** How often an interval occurs among the live intervals of its register. */
  ghost function Occurrences(list: seq<L.Interval>, x: RegLiveInterval): nat {
    if x.newReg == x.oldReg then multiset(list)[L.Interval(x.start, x.end)] else 0
  }

  /** Append the entries of one register. */
  method CollectRegister(s: seq<RegLiveInterval>, liveRanges: L.LiveRangeMap, r: nat) returns (t: seq<RegLiveInterval>)
    requires liveRanges.Valid() && r in liveRanges.ranges
    ensures forall x :: multiset(t)[x] == multiset(s)[x] + if x.oldReg == r then Occurrences(liveRanges.Of(r), x) else 0
  {
    t := s;
    var list := liveRanges.ranges[r];
    ghost var contents := liveRanges.Of(r);
    var k := 0;
    while k < |list|
      invariant 0 <= k <= |list| == |contents|
      invariant forall x ::
        multiset(t)[x] == multiset(s)[x] + if x.oldReg == r then Occurrences(contents[..k], x) else 0
    {
      assert liveRanges.Entry(list[k], r, k);
      assert contents[..k + 1] == contents[..k] + [contents[k]];
      t := t + [EntryOf(r, L.Interval(list[k].start, list[k].end))];
      k := k + 1;
    }
    assert contents[..k] == contents;
  }

  /** The entries of all registers, in whatever order the map is traversed. */
  method Collect(liveRanges: L.LiveRangeMap) returns (s: seq<RegLiveInterval>)
    requires liveRanges.Valid()
    ensures forall x :: multiset(s)[x] == Occurrences(liveRanges.Of(x.oldReg), x)
  {
    s := [];
    var todo := liveRanges.ranges.Keys;
    while todo != {}
      invariant todo <= liveRanges.ranges.Keys
      invariant forall x :: multiset(s)[x] == if x.oldReg in todo then 0 else Occurrences(liveRanges.Of(x.oldReg), x)
      decreases todo
    {
      var r :| r in todo;
      s := CollectRegister(s, liveRanges, r);
      todo := todo - {r};
    }
  }

  /** If every register has at most one live interval, no two entries are for the same register. */
  lemma EntriesOfDistinctRegisters(s: seq<RegLiveInterval>, of: nat -> seq<L.Interval>, i: nat, j: nat)
    requires forall x :: multiset(s)[x] == Occurrences(of(x.oldReg), x)
    requires forall r: nat :: |of(r)| <= 1
    requires i < j < |s|
    ensures s[i].oldReg != s[j].oldReg
  {
    var list := of(s[i].oldReg);
    assert s[i] in multiset(s) && s[j] in multiset(s);
    if s[i].oldReg == s[j].oldReg {
      assert list == [L.Interval(s[i].start, s[i].end)];
      CountOfRepeated(s, i, j);
    }
  }

  // ---------------------------------------------------------------- what an allocation is

  /** Interval `i`, earlier in the order than `k`, is still live when `k` starts. */
  predicate Overlaps(ivs: seq<RegLiveInterval>, i: nat, k: nat)
    requires i < |ivs| && k < |ivs|
  {
    i < k && !Point(ivs[i]) && !Point(ivs[k]) && ivs[i].end > ivs[k].start
  }

  predicate Conflict(ivs: seq<RegLiveInterval>, i: nat, k: nat)
    requires i < |ivs| && k < |ivs|
  {
    Overlaps(ivs, i, k) || Overlaps(ivs, k, i)
  }

  /** Pairwise conflicting intervals, given by position. */
  ghost predicate Clique(ivs: seq<RegLiveInterval>, c: seq<nat>) {
    && Distinct(c)
    && (forall p :: 0 <= p < |c| ==> c[p] < |ivs| && !Point(ivs[c[p]]))
    && forall p, q :: 0 <= p < q < |c| ==> Conflict(ivs, c[p], c[q])
  }

  ghost predicate Holds(ivs: seq<RegLiveInterval>, count: nat, i: nat, r: nat) {
    i < count <= |ivs| && !Point(ivs[i]) && ivs[i].newReg == r
  }

  ghost predicate Used(ivs: seq<RegLiveInterval>, count: nat, r: nat) {
    exists i :: Holds(ivs, count, i, r)
  }

  /** No two conflicting intervals among the first `count` share a register. */
  ghost predicate NonInterfering(ivs: seq<RegLiveInterval>, count: nat)
    requires count <= |ivs|
  {
    forall i, k :: 0 <= i < k < count && Overlaps(ivs, i, k) ==> ivs[i].newReg != ivs[k].newReg
  }

  /** Registers come into use in ascending order without gaps, and `used` of them are in use. */
  ghost predicate Dense(ivs: seq<RegLiveInterval>, count: nat, used: nat)
    requires count <= |ivs|
  {
    && (forall k :: 0 <= k < count && !Point(ivs[k]) ==> ivs[k].newReg < used)
    && (forall k, r: nat :: 0 <= k < count && !Point(ivs[k]) && r < ivs[k].newReg ==> Used(ivs, k, r))
    && (forall r: nat :: r < used ==> Used(ivs, count, r))
  }

  /** Skipped and unvisited intervals keep their number. */
  ghost predicate RestKept(ivs: seq<RegLiveInterval>, count: nat) {
    forall k :: 0 <= k < |ivs| && (k >= count || Point(ivs[k])) ==> ivs[k].newReg == ivs[k].oldReg
  }

  ghost predicate SameLifetimes(a: seq<RegLiveInterval>, b: seq<RegLiveInterval>) {
    && |a| == |b|
    && forall k :: 0 <= k < |a| ==> a[k] == b[k].(newReg := a[k].newReg)
  }

  /** The offset from which an interval's register is free again: its end or, for a dead write (an
      interval that ends before it starts), its start. */
  function FreeFrom(iv: RegLiveInterval): nat {
    if iv.end < iv.start then iv.start else iv.end
  }

  /** `l` gives its register back before `m` does. Live intervals of the same lifetime come in either order. */
  predicate ReleasedBefore(ivs: seq<RegLiveInterval>, l: nat, m: nat)
    requires l < |ivs| && m < |ivs|
  {
    || FreeFrom(ivs[l]) < FreeFrom(ivs[m])
    || (FreeFrom(ivs[l]) == FreeFrom(ivs[m]) && ivs[l].start < ivs[m].start)
    || (FreeFrom(ivs[l]) == FreeFrom(ivs[m]) && ivs[l].end < ivs[l].start == ivs[m].start && l < m)
  }

  /** Interval `l` is the last of the first `count` to hold `r`. */
  ghost predicate LastHolder(ivs: seq<RegLiveInterval>, count: nat, l: nat, r: nat) {
    Holds(ivs, count, l, r) && forall j :: l < j < count ==> !Holds(ivs, count, j, r)
  }

  /** When `k` starts, `l` has ended and no interval has taken its register since. */
  ghost predicate Idle(ivs: seq<RegLiveInterval>, l: nat, k: nat) {
    l < k < |ivs| && LastHolder(ivs, k, l, ivs[l].newReg) && ivs[l].end <= ivs[k].start
  }

  /** `k` takes over the register of `l`, and no idle register was released later than that. */
  ghost predicate TakesFrom(ivs: seq<RegLiveInterval>, l: nat, k: nat) {
    && Idle(ivs, l, k) && ivs[k].newReg == ivs[l].newReg
    && forall m: nat :: Idle(ivs, m, k) ==> !ReleasedBefore(ivs, l, m)
  }

  ghost predicate TakesLatest(ivs: seq<RegLiveInterval>, k: nat) {
    (exists l: nat :: Idle(ivs, l, k)) ==> exists l: nat :: TakesFrom(ivs, l, k)
  }

  /** Last in, first out: an interval gets the idle register that was released last, if there is one. */
  ghost predicate LastReleasedFirst(ivs: seq<RegLiveInterval>, count: nat)
    requires count <= |ivs|
  {
    forall k {:trigger TakesLatest(ivs, k)} :: 0 <= k < count && !Point(ivs[k]) ==> TakesLatest(ivs, k)
  }

  /** When `k` starts, `regs` of the intervals before it are still open. */
  ghost predicate FullAt(ivs: seq<RegLiveInterval>, k: nat, regs: nat) {
    exists c :: AllOpenAt(ivs, c, k) && |c| == regs
  }

  /** Different intervals before `k`, given by position, that are open when `k` starts. */
  ghost predicate AllOpenAt(ivs: seq<RegLiveInterval>, c: seq<nat>, k: nat) {
    k < |ivs| && Distinct(c) && forall p :: 0 <= p < |c| ==> OpenAt(ivs, c[p], k)
  }

  ghost predicate OpenAt(ivs: seq<RegLiveInterval>, i: nat, k: nat)
    requires k < |ivs|
  {
    i < k && ivs[i].start != ivs[i].end && ivs[i].end > ivs[k].start
  }

  /** At no earlier interval are that many open. */
  ghost predicate RoomBefore(ivs: seq<RegLiveInterval>, count: nat, regs: nat) {
    forall k: nat, c: seq<nat> {:trigger AllOpenAt(ivs, c, k)} :: k < count && AllOpenAt(ivs, c, k) ==> |c| != regs
  }

  /** The outcome of the register mapping: the first `count` intervals are coloured with `used`
      registers, as many as some clique needs; the scan stops at the first interval at whose start all
      are taken. */
  ghost predicate Allocation(ivs: seq<RegLiveInterval>, regs: nat, count: nat, used: nat) {
    && Sorted(ByStart, ivs)
    && count <= |ivs|
    && used <= regs
    && (count < |ivs| ==> used == regs && FullAt(ivs, count, regs))
    && RoomBefore(ivs, count, regs)
    && NonInterfering(ivs, count)
    && Dense(ivs, count, used)
    && RestKept(ivs, count)
    && LastReleasedFirst(ivs, count)
    && exists c :: Clique(ivs, c) && |c| == used
  }

  /** There is room for as many intervals as there are registers. */
  lemma FewHaveRoom(ivs: seq<RegLiveInterval>, regs: nat)
    requires |ivs| <= regs
    ensures RoomBefore(ivs, |ivs|, regs)
  {
    forall k: nat, c: seq<nat> | k < |ivs| && AllOpenAt(ivs, c, k) ensures |c| != regs {
      Pigeonhole(c, k);
    }
  }

  // ---------------------------------------------------------------- consequences

  /** When `j` starts, interval `l`, visited before, has ended. */
  ghost predicate EndedBy(ivs: seq<RegLiveInterval>, l: nat, j: nat) {
    l < j < |ivs| && ivs[l].end <= ivs[j].start
  }

  /** `j` is the first visit that finds `l` ended, and so the one that releases its register. */
  ghost predicate ReleasedAt(ivs: seq<RegLiveInterval>, l: nat, j: nat) {
    EndedBy(ivs, l, j) && forall i: nat :: i < j ==> !EndedBy(ivs, l, i)
  }

  lemma StartsAscend(ivs: seq<RegLiveInterval>, i: nat, j: nat)
    requires Sorted(ByStart, ivs) && i <= j < |ivs|
    ensures ivs[i].start <= ivs[j].start
  {
    assert i < j ==> InOrder(ByStart, ivs[i], ivs[j]);
  }

  lemma EndedEarlierIsBefore(ivs: seq<RegLiveInterval>, l: nat, m: nat, j: nat)
    requires Sorted(ByStart, ivs) && l != m && l < |ivs| && m < |ivs| && !Point(ivs[l]) && !Point(ivs[m])
    requires EndedBy(ivs, l, j) && !EndedBy(ivs, m, j)
    ensures ReleasedBefore(ivs, l, m)
  {
    StartsAscend(ivs, l, j);
    if j <= m {
      StartsAscend(ivs, j, m);
    } else {
      StartsAscend(ivs, m, j);
    }
  }

  /** What `ReleasedBefore` says: an earlier visit releases `l`, or the same visit does, and `l` ends first
      or, if both end together, starts first. */
  lemma ReleasedBeforeMeaning(ivs: seq<RegLiveInterval>, l: nat, j: nat, m: nat, k: nat)
    requires Sorted(ByStart, ivs) && l != m && l < |ivs| && m < |ivs| && !Point(ivs[l]) && !Point(ivs[m])
    requires ReleasedAt(ivs, l, j) && ReleasedAt(ivs, m, k)
    ensures ReleasedBefore(ivs, l, m) <==>
      j < k || (j == k && (ivs[l].end < ivs[m].end || (ivs[l].end == ivs[m].end && ivs[l].start < ivs[m].start)))
  {
    if j < k {
      EndedEarlierIsBefore(ivs, l, m, j);
    } else if k < j {
      EndedEarlierIsBefore(ivs, m, l, k);
    } else {
      if ivs[l].end < ivs[l].start {
        DeadEndsAtOnce(ivs, l, j);
      }
      if ivs[m].end < ivs[m].start {
        DeadEndsAtOnce(ivs, m, j);
      }
      StartsAscend(ivs, l, j);
      StartsAscend(ivs, m, j);
      assert !EndedBy(ivs, l, m) && !EndedBy(ivs, m, l);
    }
  }

  /** A dead write is released by the next visit. */
  lemma DeadEndsAtOnce(ivs: seq<RegLiveInterval>, l: nat, j: nat)
    requires Sorted(ByStart, ivs) && ReleasedAt(ivs, l, j) && ivs[l].end < ivs[l].start
    ensures j == l + 1
  {
    StartsAscend(ivs, l, l + 1);
    assert EndedBy(ivs, l, l + 1);
  }

  /** No assignment that separates conflicting intervals gets by with fewer registers than the
      largest clique has members. */
  lemma CliqueNeedsRegisters(ivs: seq<RegLiveInterval>, colour: seq<nat>, c: seq<nat>, used: nat)
    requires |colour| == |ivs| && Clique(ivs, c)
    requires forall i, k :: 0 <= i < k < |ivs| && Overlaps(ivs, i, k) ==> colour[i] != colour[k]
    requires forall i :: 0 <= i < |ivs| && !Point(ivs[i]) ==> colour[i] < used
    ensures |c| <= used
  {
    var held := seq(|c|, (p: nat) requires p < |c| && c[p] < |ivs| => colour[c[p]]);
    forall p, q | 0 <= p < q < |held| ensures held[p] != held[q] {
      assert Conflict(ivs, c[p], c[q]);
    }
    Pigeonhole(held, used);
  }

  /** `m` is the size of the largest set of mutually conflicting intervals. */
  ghost predicate IsCliqueNumber(ivs: seq<RegLiveInterval>, m: nat) {
    && (exists c :: Clique(ivs, c) && |c| == m)
    && forall c :: Clique(ivs, c) ==> |c| <= m
  }

  /** The number of registers used is the clique number, capped by the registers at hand. */
  lemma AllocationIsOptimal(ivs: seq<RegLiveInterval>, regs: nat, count: nat, used: nat, m: nat)
    requires Allocation(ivs, regs, count, used) && IsCliqueNumber(ivs, m)
    ensures used == if m < regs then m else regs
  {
    var c :| Clique(ivs, c) && |c| == m;
    if count == |ivs| {
      CliqueNeedsRegisters(ivs, seq(|ivs|, (i: nat) requires i < |ivs| => ivs[i].newReg), c, used);
    }
  }

  lemma CliqueSizeIsBounded(ivs: seq<RegLiveInterval>, c: seq<nat>)
    requires Clique(ivs, c)
    ensures |c| <= |ivs|
  {
    Pigeonhole(c, |ivs|);
  }

  /** The clique number exists. */
  lemma {:induction false} CliqueNumberExists(ivs: seq<RegLiveInterval>, c: seq<nat>) returns (m: nat)
    requires Clique(ivs, c)
    ensures IsCliqueNumber(ivs, m) && |c| <= m
    decreases |ivs| - |c|
  {
    CliqueSizeIsBounded(ivs, c);
    if larger :| Clique(ivs, larger) && |larger| > |c| {
      CliqueSizeIsBounded(ivs, larger);
      m := CliqueNumberExists(ivs, larger);
    } else {
      m := |c|;
    }
  }

  /** Registers come into use one at a time, so the `k`-th interval never gets one above `k`. */
  lemma NewRegisterIsAtMostPosition(ivs: seq<RegLiveInterval>, count: nat, used: nat, k: nat)
    requires count <= |ivs| && Dense(ivs, count, used) && k < count && !Point(ivs[k])
    ensures ivs[k].newReg <= k
  {
    var first := seq(ivs[k].newReg, (r: nat) requires r < ivs[k].newReg => FirstHolder(ivs, k, r));
    forall p, q | 0 <= p < q < |first| ensures first[p] != first[q] {
      assert Used(ivs, k, p) && Used(ivs, k, q);
    }
    forall p | 0 <= p < |first| ensures first[p] < k {
      assert Used(ivs, k, p);
    }
    Pigeonhole(first, k);
  }

  ghost function FirstHolder(ivs: seq<RegLiveInterval>, count: nat, r: nat): (i: nat)
    ensures Used(ivs, count, r) ==> Holds(ivs, count, i, r)
  {
    if Used(ivs, count, r) then var i: nat :| Holds(ivs, count, i, r); i else 0
  }

  // ---------------------------------------------------------------- the register pool

  /** The bottom of the pool: the registers never used yet, the next one to use last. */
  ghost predicate Untouched(registers: seq<nat>, regs: nat, used: nat)
    requires used <= regs <= |registers| + used
  {
    forall j :: 0 <= j < regs - used ==> registers[j] == regs - 1 - j
  }

  /** Every active interval holds its own register, and the pool holds the others: the untouched
      tail in descending order followed by registers that have been released. */
  ghost predicate Pool(active: seq<RegLiveInterval>, registers: seq<nat>, regs: nat, used: nat) {
    && used <= regs
    && |active| + |registers| == regs
    && regs - used <= |registers|
    && Untouched(registers, regs, used)
    && (forall j :: regs - used <= j < |registers| ==> registers[j] < used)
    && Distinct(registers)
    && OwnRegisters(active)
    && (forall x :: x in active ==> x.newReg < used && x.newReg !in registers)
  }

  /** Distinct active intervals hold distinct registers; stated so that reordering keeps it. */
  ghost predicate OwnRegisters(active: seq<RegLiveInterval>) {
    && (forall x :: x in active ==> multiset(active)[x] == 1)
    && forall x, y {:trigger x in active, y in active} ::
         x in active && y in active && x.newReg == y.newReg ==> x == y
  }

  ghost function RegistersOf(s: seq<RegLiveInterval>): (r: seq<nat>)
    ensures |r| == |s| && forall i :: 0 <= i < |s| ==> r[i] == s[i].newReg
  {
    if s == [] then [] else RegistersOf(s[..|s| - 1]) + [s[|s| - 1].newReg]
  }

  lemma CountOfRepeated<T>(s: seq<T>, i: nat, j: nat)
    requires i < j < |s| && s[i] == s[j]
    ensures multiset(s)[s[i]] >= 2
  {
    assert s == s[..i] + [s[i]] + s[i + 1..j] + [s[j]] + s[j + 1..];
  }

  lemma OwnRegistersAreDistinct(active: seq<RegLiveInterval>)
    requires OwnRegisters(active)
    ensures Distinct(RegistersOf(active))
  {
    forall i, j | 0 <= i < j < |active| ensures active[i].newReg != active[j].newReg {
      assert active[i] in active && active[j] in active;
      if active[i] == active[j] {
        CountOfRepeated(active, i, j);
      }
    }
  }

  /** Nothing is lost: the active intervals and the pool together hold each register exactly once. */
  lemma PoolHoldsEveryRegister(active: seq<RegLiveInterval>, registers: seq<nat>, regs: nat, used: nat)
    requires Pool(active, registers, regs, used)
    ensures Distinct(RegistersOf(active) + registers)
    ensures forall r: nat :: r in RegistersOf(active) + registers <==> r < regs
  {
    OwnRegistersAreDistinct(active);
    var all := RegistersOf(active) + registers;
    forall j | 0 <= j < |registers| ensures registers[j] < regs {
    }
    forall i, j | 0 <= i < j < |all| ensures all[i] != all[j] {
      if i < |active| <= j {
        assert active[i] in active && all[j] == registers[j - |active|];
      }
    }
    Pigeonhole(all, regs);
  }

  // ---------------------------------------------------------------- one step of the scan

  /** What `ExpireOldIntervals` does to the state. */
  ghost predicate Expiry(now: nat, active: seq<RegLiveInterval>, registers: seq<nat>,
                         active': seq<RegLiveInterval>, registers': seq<nat>, released: seq<RegLiveInterval>) {
    && registers' == registers + RegistersOf(released) && Sorted(ByEnd, released)
    && (forall x :: x in active' <==> x in active && x.end > now)
    && forall x :: x in released <==> x in active && x.end <= now
  }

  /** Move every interval that has ended by the start of `interval` out of `active`, in order of
      its end, and hand its register back to the pool. */
  method ExpireOldIntervals(active: seq<RegLiveInterval>, registers: seq<nat>, interval: RegLiveInterval,
                            ghost regs: nat, ghost used: nat)
    returns (active': seq<RegLiveInterval>, registers': seq<nat>, ghost released: seq<RegLiveInterval>)
    requires Pool(active, registers, regs, used)
    ensures Pool(active', registers', regs, used)
    ensures Expiry(interval.start, active, registers, active', registers', released)
  {
    active' := Sort(ByEnd, active);
    registers', released := registers, [];
    SortKeepsPool(active, active', registers, regs, used);
    while active' != [] && active'[0].end <= interval.start
      invariant Draining(interval.start, active, registers, active', registers', released, regs, used)
    {
      OneMoreReleased(interval.start, active, registers, active', registers', released, regs, used);
      released := released + [active'[0]];
      registers' := registers' + [active'[0].newReg];
      active' := active'[1..];
    }
    SortedParts(ByEnd, released, active');
  }

  lemma SortedParts(o: Order, a: seq<RegLiveInterval>, b: seq<RegLiveInterval>)
    requires Sorted(o, a + b)
    ensures Sorted(o, a) && forall x :: x in b ==> x == b[0] || InOrder(o, b[0], x)
  {
    assert forall i :: 0 <= i < |a| ==> (a + b)[i] == a[i];
    assert forall i :: 0 <= i < |b| ==> (a + b)[|a| + i] == b[i];
  }

  /** Some intervals that have ended are out of `active`, and their registers are back in the pool. */
  ghost predicate Expiring(now: nat, active: seq<RegLiveInterval>, registers: seq<nat>,
                           active': seq<RegLiveInterval>, registers': seq<nat>, released: seq<RegLiveInterval>) {
    && registers' == registers + RegistersOf(released)
    && (forall x :: x in active' || x in released <==> x in active)
    && forall x :: x in released ==> x.end <= now
  }

  ghost predicate Draining(now: nat, active: seq<RegLiveInterval>, registers: seq<nat>, active': seq<RegLiveInterval>,
                           registers': seq<nat>, released: seq<RegLiveInterval>, regs: nat, used: nat) {
    && Sorted(ByEnd, released + active') && Pool(active', registers', regs, used)
    && Expiring(now, active, registers, active', registers', released)
  }

  lemma OneMoreExpiring(now: nat, active: seq<RegLiveInterval>, registers: seq<nat>,
                        active': seq<RegLiveInterval>, registers': seq<nat>, released: seq<RegLiveInterval>)
    requires Expiring(now, active, registers, active', registers', released) && active' != [] && active'[0].end <= now
    ensures Expiring(now, active, registers, active'[1..], registers' + [active'[0].newReg], released + [active'[0]])
  {
    assert active' == [active'[0]] + active'[1..];
    assert RegistersOf(released + [active'[0]]) == RegistersOf(released) + [active'[0].newReg];
  }

  lemma SortedMove(o: Order, a: seq<RegLiveInterval>, b: seq<RegLiveInterval>)
    requires Sorted(o, a + b) && b != []
    ensures Sorted(o, a + [b[0]] + b[1..])
  {
    assert a + b == a + [b[0]] + b[1..];
  }

  lemma OneMoreReleased(now: nat, active: seq<RegLiveInterval>, registers: seq<nat>, active': seq<RegLiveInterval>,
                        registers': seq<nat>, released: seq<RegLiveInterval>, regs: nat, used: nat)
    requires Draining(now, active, registers, active', registers', released, regs, used)
    requires active' != [] && active'[0].end <= now
    ensures Draining(now, active, registers, active'[1..], registers' + [active'[0].newReg],
                     released + [active'[0]], regs, used)
  {
    ReleaseKeepsPool(active', registers', regs, used);
    OneMoreExpiring(now, active, registers, active', registers', released);
    SortedMove(ByEnd, released, active');
  }

  lemma SortKeepsPool(active: seq<RegLiveInterval>, sorted: seq<RegLiveInterval>, registers: seq<nat>, regs: nat,
                      used: nat)
    requires Pool(active, registers, regs, used)
    requires multiset(sorted) == multiset(active) && |sorted| == |active|
    ensures Pool(sorted, registers, regs, used)
    ensures forall x :: x in sorted <==> x in active
  {
    forall x ensures x in sorted <==> x in active {
      assert x in sorted <==> x in multiset(sorted);
    }
  }

  lemma ReleaseKeepsPool(active: seq<RegLiveInterval>, registers: seq<nat>, regs: nat, used: nat)
    requires Pool(active, registers, regs, used) && active != []
    ensures Pool(active[1..], registers + [active[0].newReg], regs, used)
    ensures active[0] !in active[1..]
  {
    var x, rest := active[0], active[1..];
    assert active == [x] + rest;
    assert multiset(active) == multiset{x} + multiset(rest);
    assert x in active && multiset(active)[x] == 1 && x !in multiset(rest);
    forall y | y in rest ensures y in active && y.newReg != x.newReg && multiset(rest)[y] == 1 {
      assert y in active && multiset(active)[y] == 1 && y in multiset(rest);
      assert y != x;
    }
  }

  ghost predicate IsVisited(ivs: seq<RegLiveInterval>, k: nat, x: RegLiveInterval)
    requires k <= |ivs|
  {
    exists i: nat :: VisitedAt(ivs, k, x, i)
  }

  ghost predicate VisitedAt(ivs: seq<RegLiveInterval>, k: nat, x: RegLiveInterval, i: nat)
    requires k <= |ivs|
  {
    i < k && !Point(ivs[i]) && ivs[i] == x
  }

  /** `active` holds visited intervals only, and all of those that end after `now`. */
  ghost predicate Tracks(ivs: seq<RegLiveInterval>, k: nat, active: seq<RegLiveInterval>, now: nat)
    requires k <= |ivs|
  {
    && (forall x :: x in active ==> IsVisited(ivs, k, x))
    && forall i :: 0 <= i < k && !Point(ivs[i]) && ivs[i].end > now ==> ivs[i] in active
  }

  /** What has been established about the intervals visited so far. */
  ghost predicate Mapped(ivs: seq<RegLiveInterval>, k: nat, used: nat)
    requires k <= |ivs|
  {
    && Sorted(ByStart, ivs)
    && NonInterfering(ivs, k)
    && Dense(ivs, k, used)
    && RestKept(ivs, k)
    && LastReleasedFirst(ivs, k)
    && exists c :: Clique(ivs, c) && |c| == used
  }

  /** The registers in the pool from position `from` on lie in the order of their release. */
  ghost predicate InReleaseOrder(ivs: seq<RegLiveInterval>, k: nat, registers: seq<nat>, from: int) {
    forall i, j {:trigger HeldInOrder(ivs, k, registers[i], registers[j])} :: 0 <= from <= i < j < |registers| ==>
      HeldInOrder(ivs, k, registers[i], registers[j])
  }

  ghost predicate HeldInOrder(ivs: seq<RegLiveInterval>, k: nat, r: nat, s: nat) {
    forall l: nat, m: nat :: LastHolder(ivs, k, l, r) && LastHolder(ivs, k, m, s) ==> !ReleasedBefore(ivs, m, l)
  }

  /** They were released by `now`. */
  ghost predicate ReleasedBy(ivs: seq<RegLiveInterval>, k: nat, registers: seq<nat>, from: int, now: nat) {
    forall i, l: nat {:trigger LastHolder(ivs, k, l, registers[i])} ::
      0 <= from <= i < |registers| && LastHolder(ivs, k, l, registers[i]) ==> FreeFrom(ivs[l]) <= now
  }

  /** An active interval is the last holder of its register. */
  ghost predicate HoldsLast(ivs: seq<RegLiveInterval>, k: nat, active: seq<RegLiveInterval>) {
    forall x, l: nat {:trigger LastHolder(ivs, k, l, x.newReg)} ::
      x in active && LastHolder(ivs, k, l, x.newReg) ==> ivs[l] == x
  }

  /** What is known of the order of the pool, and of the active intervals, after the first `k` visits. */
  ghost predicate Stacked(ivs: seq<RegLiveInterval>, k: nat, active: seq<RegLiveInterval>, registers: seq<nat>,
                          from: int)
    requires k <= |ivs|
  {
    && InReleaseOrder(ivs, k, registers, from) && HoldsLast(ivs, k, active)
    && (k > 0 ==> ReleasedBy(ivs, k, registers, from, ivs[k - 1].start))
    && forall x :: x in active ==> k > 0 && (x.end > ivs[k - 1].start || x == ivs[k - 1])
  }

  ghost predicate OnTop(registers: seq<nat>, r: nat) {
    registers != [] && registers[|registers| - 1] == r
  }

  /** An interval that is given a register. */
  function Assign(ivs: seq<RegLiveInterval>, k: nat, r: nat): seq<RegLiveInterval>
    requires k < |ivs|
  {
    ivs[k := ivs[k].(newReg := r)]
  }

  /** The register on top of the pool is held by no live interval. */
  lemma AssignKeepsNonInterfering(ivs: seq<RegLiveInterval>, k: nat, active: seq<RegLiveInterval>, registers: seq<nat>,
                                  regs: nat, used: nat, r: nat)
    requires k < |ivs| && NonInterfering(ivs, k) && Tracks(ivs, k, active, ivs[k].start)
    requires Pool(active, registers, regs, used) && OnTop(registers, r)
    ensures NonInterfering(Assign(ivs, k, r), k + 1)
  {
    var ivs' := Assign(ivs, k, r);
    forall i, j | 0 <= i < j < k + 1 && Overlaps(ivs', i, j) ensures ivs'[i].newReg != ivs'[j].newReg {
      assert Overlaps(ivs, i, j);
      if j == k {
        assert ivs[i] in active && r in registers;
      }
    }
  }

  lemma AssignKeepsDense(ivs: seq<RegLiveInterval>, k: nat, active: seq<RegLiveInterval>, registers: seq<nat>,
                         regs: nat, used: nat, r: nat)
    requires k < |ivs| && !Point(ivs[k]) && Dense(ivs, k, used)
    requires Pool(active, registers, regs, used) && OnTop(registers, r)
    ensures r <= used
    ensures |active| == used <==> r == used
    ensures Dense(Assign(ivs, k, r), k + 1, if r == used then used + 1 else used)
  {
    var ivs' := Assign(ivs, k, r);
    TopOfPool(active, registers, regs, used, r);
    forall count: nat, x: nat | count <= k && Used(ivs, count, x) ensures Used(ivs', count, x) && Used(ivs', k + 1, x) {
      var i: nat :| Holds(ivs, count, i, x);
      assert Holds(ivs', count, i, x) && Holds(ivs', k + 1, i, x);
    }
    assert Holds(ivs', k + 1, k, r) && Used(ivs', k + 1, r);
    forall j, x: nat | 0 <= j < k + 1 && !Point(ivs'[j]) && x < ivs'[j].newReg ensures Used(ivs', j, x) {
      assert Used(ivs, j, x);
    }
    var used', n := if r == used then used + 1 else used, k + 1;
    forall x: nat | x < used' ensures Used(ivs', n, x) {
      assert x != r ==> Used(ivs, k, x);
    }
  }

  /** The top of the pool is a released register, or the next untouched one when none is left;
      the latter exactly when all registers in use are taken. */
  lemma TopOfPool(active: seq<RegLiveInterval>, registers: seq<nat>, regs: nat, used: nat, r: nat)
    requires Pool(active, registers, regs, used) && OnTop(registers, r)
    ensures if |active| == used then r == used else r < used
  {
  }

  /** Two intervals that are live when `k` starts conflict with each other. */
  lemma LiveIntervalsConflict(ivs: seq<RegLiveInterval>, k: nat, i: nat, j: nat)
    requires k < |ivs| && Sorted(ByStart, ivs) && i < k && j < k && i != j
    requires !Point(ivs[i]) && !Point(ivs[j]) && ivs[i].end > ivs[k].start && ivs[j].end > ivs[k].start
    ensures Conflict(ivs, i, j)
  {
    assert InOrder(ByStart, ivs[i], ivs[k]) && InOrder(ByStart, ivs[j], ivs[k]);
  }

  /** When every register in use is taken and one more is needed, the live intervals and the new
      one form a clique of that size. */
  lemma GrowthMakesClique(ivs: seq<RegLiveInterval>, k: nat, active: seq<RegLiveInterval>, registers: seq<nat>,
                          regs: nat, used: nat)
    requires k < |ivs| && !Point(ivs[k]) && Sorted(ByStart, ivs) && Tracks(ivs, k, active, ivs[k].start)
    requires Pool(active, registers, regs, used) && |active| == used
    requires forall x :: x in active ==> x.end > ivs[k].start
    ensures exists c :: Clique(ivs, c) && |c| == used + 1
  {
    var held := VisitedPositions(ivs, k, active);
    forall p, q | 0 <= p < q < |held| ensures ivs[held[p]].newReg != ivs[held[q]].newReg {
      ActiveHoldDifferent(active, p, q);
    }
    LiveIntervalsFormClique(ivs, k, held);
    CliqueExtends(ivs, held, k);
  }

  lemma ActiveHoldDifferent(active: seq<RegLiveInterval>, p: nat, q: nat)
    requires OwnRegisters(active) && p < q < |active|
    ensures active[p].newReg != active[q].newReg
  {
    OwnRegistersAreDistinct(active);
    assert RegistersOf(active)[p] != RegistersOf(active)[q];
  }

  lemma LiveIntervalsFormClique(ivs: seq<RegLiveInterval>, k: nat, held: seq<nat>)
    requires k < |ivs| && Sorted(ByStart, ivs)
    requires forall p :: 0 <= p < |held| ==> held[p] < k && !Point(ivs[held[p]]) && ivs[held[p]].end > ivs[k].start
    requires forall p, q :: 0 <= p < q < |held| ==> ivs[held[p]].newReg != ivs[held[q]].newReg
    ensures Clique(ivs, held)
  {
    forall p, q | 0 <= p < q < |held| ensures held[p] != held[q] && Conflict(ivs, held[p], held[q]) {
      LiveIntervalsConflict(ivs, k, held[p], held[q]);
    }
  }

  lemma CliqueExtends(ivs: seq<RegLiveInterval>, c: seq<nat>, k: nat)
    requires Clique(ivs, c) && k < |ivs| && !Point(ivs[k])
    requires forall p :: 0 <= p < |c| ==> c[p] != k && Conflict(ivs, c[p], k)
    ensures Clique(ivs, c + [k]) && |c + [k]| == |c| + 1
  {
    var c' := c + [k];
    forall p, q | 0 <= p < q < |c'| ensures c'[p] != c'[q] && Conflict(ivs, c'[p], c'[q]) {
      assert p < |c| && c'[p] == c[p] && (q < |c| ==> c'[q] == c[q]);
    }
  }

  lemma {:induction false} VisitedPositions(ivs: seq<RegLiveInterval>, k: nat, s: seq<RegLiveInterval>)
    returns (c: seq<nat>)
    requires k <= |ivs| && forall x :: x in s ==> IsVisited(ivs, k, x)
    ensures |c| == |s|
    ensures forall j :: 0 <= j < |s| ==> c[j] < k && !Point(s[j]) && ivs[c[j]] == s[j]
    ensures forall j :: 0 <= j < |s| ==> s[j] in s
  {
    if s == [] {
      c := [];
    } else {
      var rest := s[1..];
      assert s[0] in s && IsVisited(ivs, k, s[0]);
      var i: nat :| VisitedAt(ivs, k, s[0], i);
      forall x | x in rest ensures IsVisited(ivs, k, x) {
        assert x in s;
      }
      var c' := VisitedPositions(ivs, k, rest);
      c := [i] + c';
      forall j | 0 <= j < |s| ensures c[j] < k && !Point(s[j]) && ivs[c[j]] == s[j] && s[j] in s {
        assert j > 0 ==> c[j] == c'[j - 1] && s[j] == rest[j - 1];
      }
    }
  }

  /** Giving out a register changes no lifetime. */
  lemma AssignKeepsCliques(ivs: seq<RegLiveInterval>, k: nat, r: nat, c: seq<nat>)
    requires k < |ivs| && Clique(ivs, c)
    ensures Clique(Assign(ivs, k, r), c)
  {
    forall p, q | 0 <= p < q < |c| ensures Conflict(Assign(ivs, k, r), c[p], c[q]) {
      assert Conflict(ivs, c[p], c[q]);
    }
  }

  /** All invariants of the mapping survive giving the top register to interval `k`. */
  lemma AssignKeepsMapped(ivs: seq<RegLiveInterval>, k: nat, active: seq<RegLiveInterval>, registers: seq<nat>,
                          regs: nat, used: nat, r: nat)
    requires k < |ivs| && !Point(ivs[k]) && Mapped(ivs, k, used) && Expired(ivs, k, active, registers, regs - used)
    requires Pool(active, registers, regs, used) && OnTop(registers, r)
    ensures Mapped(Assign(ivs, k, r), k + 1, if |active| == used then used + 1 else used)
  {
    AssignKeepsNonInterfering(ivs, k, active, registers, regs, used, r);
    AssignKeepsDense(ivs, k, active, registers, regs, used, r);
    if |active| == used {
      assert Tracks(ivs, k, active, ivs[k].start);
      GrowthMakesClique(ivs, k, active, registers, regs, used);
      var c :| Clique(ivs, c) && |c| == used + 1;
      AssignKeepsCliques(ivs, k, r, c);
    } else {
      var c :| Clique(ivs, c) && |c| == used;
      AssignKeepsCliques(ivs, k, r, c);
    }
    TopIsReleasedLast(ivs, k, active, registers, regs, used, r);
    AssignKeepsLastReleasedFirst(ivs, k, r);
  }

  /** Giving out a register changes nothing about the intervals before. */
  lemma AssignKeepsTaking(ivs: seq<RegLiveInterval>, k: nat, r: nat, j: nat)
    requires j < k < |ivs| && TakesLatest(ivs, j)
    ensures TakesLatest(Assign(ivs, k, r), j)
  {
    var ivs' := Assign(ivs, k, r);
    forall l: nat ensures Idle(ivs', l, j) <==> Idle(ivs, l, j) {
      assert forall i, x :: Holds(ivs', j, i, x) <==> Holds(ivs, j, i, x);
    }
    if l: nat :| TakesFrom(ivs, l, j) {
      assert TakesFrom(ivs', l, j);
    }
  }

  lemma AssignKeepsLastReleasedFirst(ivs: seq<RegLiveInterval>, k: nat, r: nat)
    requires k < |ivs| && LastReleasedFirst(ivs, k) && TakesLatest(Assign(ivs, k, r), k)
    ensures LastReleasedFirst(Assign(ivs, k, r), k + 1)
  {
    forall j | 0 <= j < k && !Point(ivs[j]) ensures TakesLatest(Assign(ivs, k, r), j) {
      AssignKeepsTaking(ivs, k, r, j);
    }
  }

  lemma SkipKeepsMapped(ivs: seq<RegLiveInterval>, k: nat, used: nat)
    requires k < |ivs| && Point(ivs[k]) && Mapped(ivs, k, used)
    ensures Mapped(ivs, k + 1, used)
  {
    SkipKeepsDense(ivs, k, used);
  }

  lemma SkipKeepsDense(ivs: seq<RegLiveInterval>, k: nat, used: nat)
    requires k < |ivs| && Point(ivs[k]) && Dense(ivs, k, used)
    ensures Dense(ivs, k + 1, used)
  {
    var n := k + 1;
    forall x: nat | x < used ensures Used(ivs, n, x) {
      assert Used(ivs, k, x);
      var i: nat :| Holds(ivs, k, i, x);
      assert Holds(ivs, n, i, x);
    }
  }

  /** The register given to `k` leaves the pool and becomes its own. */
  lemma TakeKeepsPool(active: seq<RegLiveInterval>, registers: seq<nat>, regs: nat, used: nat, x: RegLiveInterval)
    requires Pool(active, registers, regs, used) && OnTop(registers, x.newReg)
    ensures Pool(active + [x], registers[..|registers| - 1], regs, if |active| == used then used + 1 else used)
  {
    var rest := registers[..|registers| - 1];
    var used' := if |active| == used then used + 1 else used;
    TopOfPool(active, registers, regs, used, x.newReg);
    assert x !in active;
    forall y | y in active + [x] ensures multiset(active + [x])[y] == 1 && y.newReg !in rest {
    }
  }

  /** The moment interval `k` starts: everything that has ended by then has been expired. */
  ghost predicate Expired(ivs: seq<RegLiveInterval>, k: nat, active: seq<RegLiveInterval>, registers: seq<nat>,
                          from: int)
    requires k < |ivs|
  {
    && Tracks(ivs, k, active, ivs[k].start)
    && (forall x :: x in active ==> x.end > ivs[k].start)
    && InReleaseOrder(ivs, k, registers, from) && HoldsLast(ivs, k, active)
    && ReleasedBy(ivs, k, registers, from, ivs[k].start)
  }

  /** `l` is still active after visit `k` - 1: it is live, or it is the interval just visited. */
  ghost predicate StillActive(ivs: seq<RegLiveInterval>, k: nat, l: nat) {
    0 < k <= |ivs| && l < k && !Point(ivs[l]) && (ivs[l].end > ivs[k - 1].start || l == k - 1)
  }

  lemma ActiveIsReleasedLater(ivs: seq<RegLiveInterval>, k: nat, l: nat, m: nat)
    requires Sorted(ByStart, ivs) && StillActive(ivs, k, m) && l < k && !Point(ivs[l])
    requires FreeFrom(ivs[l]) <= ivs[k - 1].start
    ensures !ReleasedBefore(ivs, m, l)
  {
    assert m < k - 1 ==> InOrder(ByStart, ivs[m], ivs[k - 1]);
    assert l < k - 1 ==> InOrder(ByStart, ivs[l], ivs[k - 1]);
  }

  lemma ReleasedInOrderOfEnd(ivs: seq<RegLiveInterval>, k: nat, l: nat, m: nat)
    requires Sorted(ByStart, ivs) && StillActive(ivs, k, l) && StillActive(ivs, k, m) && InOrder(ByEnd, ivs[l], ivs[m])
    ensures !ReleasedBefore(ivs, m, l)
  {
    assert m < k - 1 ==> InOrder(ByStart, ivs[m], ivs[k - 1]);
    assert l < k - 1 ==> InOrder(ByStart, ivs[l], ivs[k - 1]);
  }

  lemma HolderIsStillActive(ivs: seq<RegLiveInterval>, k: nat, active: seq<RegLiveInterval>, registers: seq<nat>,
                            from: int, x: RegLiveInterval, l: nat)
    requires k <= |ivs| && Stacked(ivs, k, active, registers, from) && x in active && IsVisited(ivs, k, x)
    requires LastHolder(ivs, k, l, x.newReg)
    ensures ivs[l] == x && StillActive(ivs, k, l)
  {
    if x == ivs[k - 1] {
      assert Holds(ivs, k, k - 1, x.newReg);
    }
  }

  lemma HeldInOrderAmongReleased(ivs: seq<RegLiveInterval>, k: nat, active: seq<RegLiveInterval>, registers: seq<nat>,
                                 from: int, released: seq<RegLiveInterval>, i: nat, j: nat)
    requires k <= |ivs| && Sorted(ByStart, ivs) && Stacked(ivs, k, active, registers, from)
    requires Sorted(ByEnd, released) && forall x :: x in released ==> x in active && IsVisited(ivs, k, x)
    requires i < j < |released|
    ensures HeldInOrder(ivs, k, released[i].newReg, released[j].newReg)
  {
    var x, y := released[i], released[j];
    assert x in released && y in released;
    forall l: nat, m: nat | LastHolder(ivs, k, l, x.newReg) && LastHolder(ivs, k, m, y.newReg)
      ensures !ReleasedBefore(ivs, m, l)
    {
      HolderIsStillActive(ivs, k, active, registers, from, x, l);
      HolderIsStillActive(ivs, k, active, registers, from, y, m);
      ReleasedInOrderOfEnd(ivs, k, l, m);
    }
  }

  lemma HeldInOrderAcross(ivs: seq<RegLiveInterval>, k: nat, active: seq<RegLiveInterval>, registers: seq<nat>,
                          from: int, released: seq<RegLiveInterval>, i: nat, j: nat)
    requires k <= |ivs| && Sorted(ByStart, ivs) && Stacked(ivs, k, active, registers, from)
    requires forall x :: x in released ==> x in active && IsVisited(ivs, k, x)
    requires 0 <= from <= i < |registers| && j < |released|
    ensures HeldInOrder(ivs, k, registers[i], released[j].newReg)
  {
    var y := released[j];
    assert y in released;
    forall l: nat, m: nat | LastHolder(ivs, k, l, registers[i]) && LastHolder(ivs, k, m, y.newReg)
      ensures !ReleasedBefore(ivs, m, l)
    {
      HolderIsStillActive(ivs, k, active, registers, from, y, m);
      ActiveIsReleasedLater(ivs, k, l, m);
    }
  }

  lemma HeldInOrderAfterExpiry(ivs: seq<RegLiveInterval>, k: nat, active: seq<RegLiveInterval>, registers: seq<nat>,
                               from: int, released: seq<RegLiveInterval>, i: nat, j: nat, r: nat, s: nat)
    requires k <= |ivs| && Sorted(ByStart, ivs) && Stacked(ivs, k, active, registers, from)
    requires Sorted(ByEnd, released) && forall x :: x in released ==> x in active && IsVisited(ivs, k, x)
    requires 0 <= from <= i < j < |registers| + |released|
    requires r == if i < |registers| then registers[i] else released[i - |registers|].newReg
    requires s == if j < |registers| then registers[j] else released[j - |registers|].newReg
    ensures HeldInOrder(ivs, k, r, s)
  {
    var n := |registers|;
    if n <= i {
      HeldInOrderAmongReleased(ivs, k, active, registers, from, released, i - n, j - n);
    } else if n <= j {
      HeldInOrderAcross(ivs, k, active, registers, from, released, i, j - n);
    } else {
      assert HeldInOrder(ivs, k, registers[i], registers[j]);
    }
  }

  /** What expires goes on top of the pool in the order of its release. */
  lemma ExpiryKeepsOrder(ivs: seq<RegLiveInterval>, k: nat, active: seq<RegLiveInterval>, registers: seq<nat>,
                         from: int, released: seq<RegLiveInterval>)
    requires k < |ivs| && Sorted(ByStart, ivs) && Stacked(ivs, k, active, registers, from)
    requires Sorted(ByEnd, released) && forall x :: x in released ==> x in active && IsVisited(ivs, k, x)
    ensures InReleaseOrder(ivs, k, registers + RegistersOf(released), from)
  {
    var pool := registers + RegistersOf(released);
    forall i, j | 0 <= from <= i < j < |pool| ensures HeldInOrder(ivs, k, pool[i], pool[j]) {
      HeldInOrderAfterExpiry(ivs, k, active, registers, from, released, i, j, pool[i], pool[j]);
    }
  }

  lemma ExpiryKeepsReleasedBy(ivs: seq<RegLiveInterval>, k: nat, active: seq<RegLiveInterval>, registers: seq<nat>,
                              from: int, released: seq<RegLiveInterval>)
    requires k < |ivs| && Sorted(ByStart, ivs) && Stacked(ivs, k, active, registers, from)
    requires forall x :: x in released ==> x in active && x.end <= ivs[k].start && IsVisited(ivs, k, x)
    ensures ReleasedBy(ivs, k, registers + RegistersOf(released), from, ivs[k].start)
  {
    var n, pool := |registers|, registers + RegistersOf(released);
    forall i, l: nat | 0 <= from <= i < |pool| && LastHolder(ivs, k, l, pool[i])
      ensures FreeFrom(ivs[l]) <= ivs[k].start
    {
      assert InOrder(ByStart, ivs[l], ivs[k]) && InOrder(ByStart, ivs[k - 1], ivs[k]);
      if n <= i {
        assert pool[i] == released[i - n].newReg && released[i - n] in released;
        HolderIsStillActive(ivs, k, active, registers, from, released[i - n], l);
      }
    }
  }

  lemma ExpiryReachesStart(ivs: seq<RegLiveInterval>, k: nat, active: seq<RegLiveInterval>, registers: seq<nat>,
                           active': seq<RegLiveInterval>, registers': seq<nat>, released: seq<RegLiveInterval>,
                           from: int)
    requires k < |ivs| && Sorted(ByStart, ivs) && Stacked(ivs, k, active, registers, from)
    requires if k == 0 then active == [] else Tracks(ivs, k, active, ivs[k - 1].start)
    requires Expiry(ivs[k].start, active, registers, active', registers', released)
    ensures Expired(ivs, k, active', registers', from)
  {
    assert 0 < k ==> InOrder(ByStart, ivs[k - 1], ivs[k]);
    ExpiryKeepsOrder(ivs, k, active, registers, from, released);
    ExpiryKeepsReleasedBy(ivs, k, active, registers, from, released);
  }

  lemma HeldMeansHeldLast(ivs: seq<RegLiveInterval>, k: nat, r: nat) returns (l: nat)
    requires k <= |ivs| && Used(ivs, k, r)
    ensures LastHolder(ivs, k, l, r)
    decreases k
  {
    var m := k - 1;
    if Holds(ivs, k, m, r) {
      l := m;
    } else {
      var i :| Holds(ivs, k, i, r);
      assert Holds(ivs, m, i, r);
      l := HeldMeansHeldLast(ivs, m, r);
      assert forall j :: l < j < m ==> (Holds(ivs, k, j, r) <==> Holds(ivs, m, j, r));
    }
  }

  /** An idle register lies in the pool, below or at the top. */
  lemma IdleIsInPool(ivs: seq<RegLiveInterval>, k: nat, active: seq<RegLiveInterval>, registers: seq<nat>,
                     regs: nat, used: nat, m: nat) returns (j: nat)
    requires k < |ivs| && Pool(active, registers, regs, used) && Dense(ivs, k, used)
    requires Expired(ivs, k, active, registers, regs - used) && Idle(ivs, m, k)
    ensures regs - used <= j < |registers| && registers[j] == ivs[m].newReg
  {
    var r := ivs[m].newReg;
    PoolHoldsEveryRegister(active, registers, regs, used);
    assert r < used && r in RegistersOf(active) + registers;
    forall i | 0 <= i < |active| ensures active[i].newReg != r {
      assert active[i] in active && active[i].end > ivs[k].start;
    }
    j :| 0 <= j < |registers| && registers[j] == r;
  }

  /** The register on top of the pool is the idle one released last, if there is any idle one. */
  lemma TopIsReleasedLast(ivs: seq<RegLiveInterval>, k: nat, active: seq<RegLiveInterval>, registers: seq<nat>,
                          regs: nat, used: nat, r: nat)
    requires k < |ivs| && Pool(active, registers, regs, used) && Dense(ivs, k, used) && OnTop(registers, r)
    requires Expired(ivs, k, active, registers, regs - used)
    ensures TakesLatest(Assign(ivs, k, r), k)
  {
    var ivs', n := Assign(ivs, k, r), |registers|;
    assert forall i, x :: Holds(ivs', k, i, x) <==> Holds(ivs, k, i, x);
    assert forall l: nat :: Idle(ivs', l, k) <==> Idle(ivs, l, k);
    if m: nat :| Idle(ivs, m, k) {
      var j := IdleIsInPool(ivs, k, active, registers, regs, used, m);
      assert r < used && Used(ivs, k, r);
      var l := HeldMeansHeldLast(ivs, k, r);
      assert LastHolder(ivs, k, l, registers[n - 1]) && FreeFrom(ivs[l]) <= ivs[k].start;
      assert Idle(ivs, l, k);
      forall m: nat | Idle(ivs', m, k) ensures !ReleasedBefore(ivs', l, m) {
        IdleIsBelowTop(ivs, k, active, registers, regs, used, l, m);
      }
      assert TakesFrom(ivs', l, k);
    }
  }

  lemma IdleIsBelowTop(ivs: seq<RegLiveInterval>, k: nat, active: seq<RegLiveInterval>, registers: seq<nat>,
                       regs: nat, used: nat, l: nat, m: nat)
    requires k < |ivs| && Pool(active, registers, regs, used) && Dense(ivs, k, used) && registers != []
    requires Expired(ivs, k, active, registers, regs - used) && Idle(ivs, m, k)
    requires LastHolder(ivs, k, l, registers[|registers| - 1])
    ensures !ReleasedBefore(ivs, l, m)
  {
    var j := IdleIsInPool(ivs, k, active, registers, regs, used, m);
    assert LastHolder(ivs, k, m, registers[j]);
    assert j < |registers| - 1 ==> HeldInOrder(ivs, k, registers[j], registers[|registers| - 1]);
  }

  /** A point interval is passed over. */
  lemma SkipKeepsState(ivs: seq<RegLiveInterval>, k: nat, active: seq<RegLiveInterval>, registers: seq<nat>,
                       from: int)
    requires k < |ivs| && Point(ivs[k]) && Expired(ivs, k, active, registers, from)
    ensures Tracks(ivs, k + 1, active, ivs[k].start) && Stacked(ivs, k + 1, active, registers, from)
  {
    var n := k + 1;
    forall x | x in active ensures IsVisited(ivs, n, x) {
      assert IsVisited(ivs, k, x);
      var i: nat :| VisitedAt(ivs, k, x, i);
      assert VisitedAt(ivs, n, x, i);
    }
    forall l: nat, r: nat ensures LastHolder(ivs, n, l, r) ==> LastHolder(ivs, k, l, r) {
      assert forall j :: Holds(ivs, k, j, r) <==> Holds(ivs, n, j, r);
    }
    forall i, j | 0 <= from <= i < j < |registers| ensures HeldInOrder(ivs, n, registers[i], registers[j]) {
      assert HeldInOrder(ivs, k, registers[i], registers[j]);
    }
  }

  lemma AssignKeepsTracks(ivs: seq<RegLiveInterval>, k: nat, active: seq<RegLiveInterval>, r: nat)
    requires k < |ivs| && !Point(ivs[k]) && Tracks(ivs, k, active, ivs[k].start)
    ensures Tracks(Assign(ivs, k, r), k + 1, active + [Assign(ivs, k, r)[k]], ivs[k].start)
  {
    var ivs', n := Assign(ivs, k, r), k + 1;
    forall x | x in active + [ivs'[k]] ensures IsVisited(ivs', n, x) {
      if x in active {
        assert IsVisited(ivs, k, x);
        var i: nat :| VisitedAt(ivs, k, x, i);
        assert VisitedAt(ivs', n, x, i);
      } else {
        assert VisitedAt(ivs', n, x, k);
      }
    }
  }

  /** The other registers keep their last holder. */
  lemma AssignKeepsLastHolders(ivs: seq<RegLiveInterval>, k: nat, r: nat, l: nat, x: nat)
    requires k < |ivs| && !Point(ivs[k]) && LastHolder(Assign(ivs, k, r), k + 1, l, x)
    ensures if x == r then l == k else LastHolder(ivs, k, l, x) && ivs[l] == Assign(ivs, k, r)[l]
  {
    var ivs', n := Assign(ivs, k, r), k + 1;
    if x == r {
      assert Holds(ivs', n, k, r);
    } else {
      assert forall j :: Holds(ivs, k, j, x) ==> Holds(ivs', n, j, x);
    }
  }

  /** Interval `k` gets the register on top of the pool. */
  lemma AssignKeepsStacked(ivs: seq<RegLiveInterval>, k: nat, active: seq<RegLiveInterval>, registers: seq<nat>,
                           regs: nat, used: nat, r: nat)
    requires k < |ivs| && !Point(ivs[k]) && Expired(ivs, k, active, registers, regs - used)
    requires Pool(active, registers, regs, used) && OnTop(registers, r)
    ensures Stacked(Assign(ivs, k, r), k + 1, active + [Assign(ivs, k, r)[k]], registers[..|registers| - 1],
                    regs - if |active| == used then used + 1 else used)
  {
    var ivs', n, rest := Assign(ivs, k, r), k + 1, registers[..|registers| - 1];
    var from := regs - if |active| == used then used + 1 else used;
    forall i, l: nat | 0 <= from <= i < |rest| && LastHolder(ivs', n, l, rest[i])
      ensures LastHolder(ivs, k, l, registers[i]) && l < k
    {
      AssignKeepsLastHolders(ivs, k, r, l, rest[i]);
    }
    forall i, j | 0 <= from <= i < j < |rest| ensures HeldInOrder(ivs', n, rest[i], rest[j]) {
      assert HeldInOrder(ivs, k, registers[i], registers[j]);
    }
    forall x, l: nat | x in active + [ivs'[k]] && LastHolder(ivs', n, l, x.newReg) ensures ivs'[l] == x {
      AssignKeepsLastHolders(ivs, k, r, l, x.newReg);
    }
  }

  /** The active intervals are those open when `k` starts, one for each register. */
  lemma ActiveIsFull(ivs: seq<RegLiveInterval>, k: nat, active: seq<RegLiveInterval>, registers: seq<nat>,
                     regs: nat, used: nat)
    requires k < |ivs| && Expired(ivs, k, active, registers, regs - used) && Pool(active, registers, regs, used)
    requires |active| == regs
    ensures FullAt(ivs, k, regs)
  {
    var held := VisitedPositions(ivs, k, active);
    forall p, q | 0 <= p < q < |held| ensures held[p] != held[q] {
      ActiveHoldDifferent(active, p, q);
    }
    forall p | 0 <= p < |held| ensures OpenAt(ivs, held[p], k) {
      assert active[p] in active;
    }
    assert AllOpenAt(ivs, held, k);
  }

  lemma OpenIsHeld(ivs: seq<RegLiveInterval>, k: nat, active: seq<RegLiveInterval>, i: nat)
    requires k < |ivs| && Tracks(ivs, k, active, ivs[k].start) && OpenAt(ivs, i, k)
    ensures ivs[i].newReg in RegistersOf(active)
  {
    var j :| 0 <= j < |active| && active[j] == ivs[i];
    assert RegistersOf(active)[j] == ivs[i].newReg;
  }

  lemma OpenDiffer(ivs: seq<RegLiveInterval>, k: nat, i: nat, j: nat)
    requires k < |ivs| && Sorted(ByStart, ivs) && NonInterfering(ivs, k)
    requires i != j && OpenAt(ivs, i, k) && OpenAt(ivs, j, k)
    ensures ivs[i].newReg != ivs[j].newReg
  {
    LiveIntervalsConflict(ivs, k, i, j);
  }

  lemma OpenAreActive(ivs: seq<RegLiveInterval>, k: nat, active: seq<RegLiveInterval>, c: seq<nat>)
    requires k < |ivs| && Sorted(ByStart, ivs) && NonInterfering(ivs, k)
    requires Tracks(ivs, k, active, ivs[k].start) && OwnRegisters(active)
    requires AllOpenAt(ivs, c, k)
    ensures |c| <= |active|
  {
    var taken := seq(|c|, (p: nat) requires p < |c| && c[p] < |ivs| => ivs[c[p]].newReg);
    forall p, q | 0 <= p < q < |taken| ensures taken[p] != taken[q] {
      OpenDiffer(ivs, k, c[p], c[q]);
    }
    forall r | r in taken ensures r in RegistersOf(active) {
      var p :| 0 <= p < |taken| && taken[p] == r;
      OpenIsHeld(ivs, k, active, c[p]);
    }
    OwnRegistersAreDistinct(active);
    DistinctWithin(taken, RegistersOf(active));
  }

  lemma NotFullMeansRoom(ivs: seq<RegLiveInterval>, k: nat, active: seq<RegLiveInterval>, registers: seq<nat>,
                         regs: nat, used: nat)
    requires k < |ivs| && Sorted(ByStart, ivs) && NonInterfering(ivs, k)
    requires Expired(ivs, k, active, registers, regs - used) && Pool(active, registers, regs, used)
    requires |active| != regs && RoomBefore(ivs, k, regs)
    ensures RoomBefore(ivs, k + 1, regs)
  {
    forall c | AllOpenAt(ivs, c, k) ensures |c| != regs {
      OpenAreActive(ivs, k, active, c);
    }
  }

  lemma AssignKeepsRoom(ivs: seq<RegLiveInterval>, k: nat, r: nat, count: nat, regs: nat)
    requires k < |ivs| && RoomBefore(ivs, count, regs)
    ensures RoomBefore(Assign(ivs, k, r), count, regs)
  {
    var ivs' := Assign(ivs, k, r);
    forall j: nat, c: seq<nat> | j < count && AllOpenAt(ivs', c, j) ensures |c| != regs {
      assert AllOpenAt(ivs, c, j);
    }
  }

  /** The invariant of the scan, before interval `k`. */
  ghost predicate Scanning(ivs: seq<RegLiveInterval>, k: nat, active: seq<RegLiveInterval>, registers: seq<nat>,
                           regs: nat, used: nat)
    requires k <= |ivs|
  {
    && Pool(active, registers, regs, used)
    && Mapped(ivs, k, used) && RoomBefore(ivs, k, regs)
    && (if k == 0 then active == [] else Tracks(ivs, k, active, ivs[k - 1].start))
    && Stacked(ivs, k, active, registers, regs - used)
  }

  lemma ScanStarts(ivs: seq<RegLiveInterval>, registers: seq<nat>, regs: nat)
    requires Sorted(ByStart, ivs) && |registers| == regs && Untouched(registers, regs, 0)
    requires forall x :: x in ivs ==> x.newReg == x.oldReg
    ensures Scanning(ivs, 0, [], registers, regs, 0)
  {
    assert Clique(ivs, []);
  }

  lemma ScanSkips(ivs: seq<RegLiveInterval>, k: nat, active: seq<RegLiveInterval>, registers: seq<nat>,
                  active': seq<RegLiveInterval>, registers': seq<nat>, released: seq<RegLiveInterval>, regs: nat,
                  used: nat)
    requires k < |ivs| && Point(ivs[k]) && Scanning(ivs, k, active, registers, regs, used)
    requires Pool(active', registers', regs, used)
    requires Expiry(ivs[k].start, active, registers, active', registers', released) && |active'| != regs
    ensures Scanning(ivs, k + 1, active', registers', regs, used)
  {
    ExpiryReachesStart(ivs, k, active, registers, active', registers', released, regs - used);
    NotFullMeansRoom(ivs, k, active', registers', regs, used);
    SkipFromExpired(ivs, k, active', registers', regs, used);
  }

  lemma SkipFromExpired(ivs: seq<RegLiveInterval>, k: nat, active: seq<RegLiveInterval>, registers: seq<nat>,
                        regs: nat, used: nat)
    requires k < |ivs| && Point(ivs[k]) && Pool(active, registers, regs, used) && Mapped(ivs, k, used)
    requires Expired(ivs, k, active, registers, regs - used) && RoomBefore(ivs, k + 1, regs)
    ensures Scanning(ivs, k + 1, active, registers, regs, used)
  {
    SkipKeepsState(ivs, k, active, registers, regs - used);
    SkipKeepsMapped(ivs, k, used);
  }

  lemma ScanAssigns(ivs: seq<RegLiveInterval>, k: nat, active: seq<RegLiveInterval>, registers: seq<nat>,
                    active': seq<RegLiveInterval>, registers': seq<nat>, released: seq<RegLiveInterval>,
                    regs: nat, used: nat, r: nat)
    requires k < |ivs| && !Point(ivs[k]) && Scanning(ivs, k, active, registers, regs, used)
    requires Pool(active', registers', regs, used)
    requires Expiry(ivs[k].start, active, registers, active', registers', released)
    requires OnTop(registers', r) && |active'| != regs
    ensures Scanning(Assign(ivs, k, r), k + 1, active' + [Assign(ivs, k, r)[k]], registers'[..|registers'| - 1],
                     regs, if |active'| + 1 > used then |active'| + 1 else used)
  {
    ExpiryReachesStart(ivs, k, active, registers, active', registers', released, regs - used);
    NotFullMeansRoom(ivs, k, active', registers', regs, used);
    AssignFromExpired(ivs, k, active', registers', regs, used, r);
  }

  lemma AssignFromExpired(ivs: seq<RegLiveInterval>, k: nat, active: seq<RegLiveInterval>, registers: seq<nat>,
                          regs: nat, used: nat, r: nat)
    requires k < |ivs| && !Point(ivs[k]) && Pool(active, registers, regs, used) && Mapped(ivs, k, used)
    requires Expired(ivs, k, active, registers, regs - used) && OnTop(registers, r)
    requires RoomBefore(ivs, k + 1, regs)
    ensures Scanning(Assign(ivs, k, r), k + 1, active + [Assign(ivs, k, r)[k]], registers[..|registers| - 1],
                     regs, if |active| + 1 > used then |active| + 1 else used)
  {
    ActiveWithinUsed(active, registers, regs, used);
    AssignKeepsRoom(ivs, k, r, k + 1, regs);
    AssignKeepsTracks(ivs, k, active, r);
    AssignKeepsMapped(ivs, k, active, registers, regs, used, r);
    AssignKeepsStacked(ivs, k, active, registers, regs, used, r);
    TakeKeepsPool(active, registers, regs, used, Assign(ivs, k, r)[k]);
  }

  lemma ActiveWithinUsed(active: seq<RegLiveInterval>, registers: seq<nat>, regs: nat, used: nat)
    requires Pool(active, registers, regs, used)
    ensures |active| <= used
  {
  }

  lemma ScanEnds(ivs: seq<RegLiveInterval>, active: seq<RegLiveInterval>, registers: seq<nat>, regs: nat, used: nat)
    requires Scanning(ivs, |ivs|, active, registers, regs, used)
    ensures Allocation(ivs, regs, |ivs|, used)
  {
  }

  /** All registers are taken when `k` starts. */
  lemma ScanStops(ivs: seq<RegLiveInterval>, k: nat, active: seq<RegLiveInterval>, registers: seq<nat>,
                  active': seq<RegLiveInterval>, registers': seq<nat>, released: seq<RegLiveInterval>, regs: nat,
                  used: nat)
    requires k < |ivs| && Scanning(ivs, k, active, registers, regs, used) && Pool(active', registers', regs, used)
    requires Expiry(ivs[k].start, active, registers, active', registers', released) && |active'| == regs
    ensures Allocation(ivs, regs, k, used)
  {
    ExpiryReachesStart(ivs, k, active, registers, active', registers', released, regs - used);
    ActiveIsFull(ivs, k, active', registers', regs, used);
    ActiveWithinUsed(active', registers', regs, used);
  }

  // ---------------------------------------------------------------- the pass

  class RegallocLinearScan {
    var regsCount: nat
    var newRegsCount: nat
    var intervals: seq<RegLiveInterval>

    /** Gather the live intervals of all registers and sort them by start. */
    method SortIntervals(liveRanges: L.LiveRangeMap)
      requires liveRanges.Valid()
      modifies this`intervals
      ensures forall i, j :: 0 <= i < j < |intervals| ==>
        || intervals[i].start < intervals[j].start
        || (intervals[i].start == intervals[j].start && intervals[i].end <= intervals[j].end)
      ensures Sorted(ByStart, intervals)
      ensures forall x :: multiset(intervals)[x] == Occurrences(liveRanges.Of(x.oldReg), x)
      ensures forall r: nat, iv: L.Interval ::
        multiset(intervals)[RegLiveInterval(r, r, iv.start, iv.end)] == multiset(liveRanges.Of(r))[iv]
      ensures forall x :: x in intervals ==> x.newReg == x.oldReg
    {
      var collected := Collect(liveRanges);
      intervals := Sort(ByStart, collected);
      assert forall x :: x in intervals ==> x in multiset(intervals);
      assert forall i, j :: 0 <= i < j < |intervals| ==> InOrder(ByStart, intervals[i], intervals[j]);
    }

    /** All registers, so that the lowest one is popped first. */
    static method InitialPool(regs: nat) returns (registers: seq<nat>)
      ensures |registers| == regs && Untouched(registers, regs, 0)
    {
      registers := [];
      var i: int := regs - 1;
      while i >= 0
        invariant -1 <= i < regs
        invariant |registers| == regs - 1 - i
        invariant forall j :: 0 <= j < |registers| ==> registers[j] == regs - 1 - j
      {
        registers := registers + [i];
        i := i - 1;
      }
    }

    /** Expire what has ended by the start of interval `k`; then pass over a point interval, and
        give any other one the register on top of the pool. */
    static method VisitInterval(ivs: seq<RegLiveInterval>, k: nat, active: seq<RegLiveInterval>, registers: seq<nat>,
                                regs: nat, used: nat)
      returns (full: bool, ivs': seq<RegLiveInterval>, active': seq<RegLiveInterval>, registers': seq<nat>, used': nat)
      requires k < |ivs| && Scanning(ivs, k, active, registers, regs, used)
      ensures full ==> Allocation(ivs', regs, k, used')
      ensures !full ==> |ivs'| == |ivs| && Scanning(ivs', k + 1, active', registers', regs, used')
      ensures SameLifetimes(ivs', ivs)
    {
      ghost var released;
      ivs', used' := ivs, used;
      active', registers', released := ExpireOldIntervals(active, registers, ivs[k], regs, used);
      if |active'| == regs {
        ScanStops(ivs, k, active, registers, active', registers', released, regs, used);
        return true, ivs', active', registers', used';
      }
      if Point(ivs[k]) {
        ScanSkips(ivs, k, active, registers, active', registers', released, regs, used);
        return false, ivs', active', registers', used';
      }
      var iter := ivs[k].(newReg := registers'[|registers'| - 1]);
      ScanAssigns(ivs, k, active, registers, active', registers', released, regs, used, iter.newReg);
      ivs' := ivs[k := iter];
      registers' := registers'[..|registers'| - 1];
      active' := active' + [iter];
      used' := if |active'| > used then |active'| else used;
      full := false;
    }

    /** Visit the intervals in order of their start, stopping when no register is left. */
    method ComputeRegisterMapping() returns (ghost count: nat)
      requires Sorted(ByStart, intervals) && newRegsCount == 0
      requires forall x :: x in intervals ==> x.newReg == x.oldReg
      modifies this`intervals, this`newRegsCount
      ensures SameLifetimes(intervals, old(intervals))
      ensures Allocation(intervals, regsCount, count, newRegsCount)
    {
      var active: seq<RegLiveInterval> := [];
      var registers := InitialPool(regsCount);
      var k := 0;
      ScanStarts(intervals, registers, regsCount);
      while k < |intervals|
        invariant 0 <= k <= |intervals|
        invariant SameLifetimes(intervals, old(intervals))
        invariant Scanning(intervals, k, active, registers, regsCount, newRegsCount)
      {
        var full, next := false, k + 1;
        full, intervals, active, registers, newRegsCount :=
          VisitInterval(intervals, k, active, registers, regsCount, newRegsCount);
        if full {
          return k;
        }
        k := next;
      }
      ScanEnds(intervals, active, registers, regsCount, newRegsCount);
      count := k;
    }
  }
}

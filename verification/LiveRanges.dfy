/** Live intervals: one pass over the instructions in block order. */
module LiveRanges {
  import opened IR
  import opened Wrappers

  datatype Interval = Interval(start: nat, end: nat)

  /** An instruction as the pass meets it. The reads of an instruction that writes a register are
      not looked at. */
  datatype Visit = Visit(offset: nat, blockStart: nat, write: Option<nat>, reads': seq<nat>)

  type Visits = seq<Visit>

  // ---------------------------------------------------------------- the pass, on values

  function CloseLast(list: seq<Interval>, end: nat): seq<Interval>
    requires list != []
  {
    list[|list| - 1 := list[|list| - 1].(end := end)]
  }

  /** A write closes the current interval and opens the next. */
  function AfterWrite(list: seq<Interval>, offset: nat): seq<Interval> {
    (if list == [] then [] else CloseLast(list, offset)) + [Interval(offset, 0)]
  }

  /** A read extends the current interval, or opens one at the start of its block. */
  function AfterRead(list: seq<Interval>, blockStart: nat, offset: nat): seq<Interval> {
    if list == [] then [Interval(blockStart, offset)] else CloseLast(list, offset)
  }

  predicate WritesReg(v: Visit, r: nat) {
    v.write == Some(r)
  }

  /** The pass records the read. */
  predicate ReadsReg(v: Visit, r: nat) {
    v.write.None? && r in v.reads'
  }

  function AfterVisit(list: seq<Interval>, v: Visit, r: nat): seq<Interval> {
    if WritesReg(v, r) then AfterWrite(list, v.offset)
    else if ReadsReg(v, r) then AfterRead(list, v.blockStart, v.offset)
    else list
  }

  /** The intervals of `r` after the first `n` visits. */
  function Ranges(visits: Visits, n: nat, argumentEnd: nat, r: nat): seq<Interval>
    requires n <= |visits|
  {
    if n == 0
    then if r < argumentEnd then [Interval(0, 0)] else []
    else AfterVisit(Ranges(visits, n - 1, argumentEnd, r), visits[n - 1], r)
  }

  // ---------------------------------------------------------------- what the intervals are

  /** Offsets increase in traversal order and a block starts at or before each of its instructions. */
  ghost predicate InOrder(visits: Visits) {
    && (forall p, q :: 0 <= p < q < |visits| ==> Precedes(visits, p, q))
    && forall p :: 0 <= p < |visits| ==> visits[p].blockStart <= visits[p].offset
  }

  ghost predicate Precedes(visits: Visits, p: nat, q: nat)
    requires p < |visits| && q < |visits|
  {
    visits[p].offset < visits[q].offset
  }

  ghost predicate NoWrite(visits: Visits, from: nat, to: nat, r: nat)
    requires to <= |visits|
  {
    forall q :: from <= q < to ==> !WritesReg(visits[q], r)
  }

  ghost predicate NoRead(visits: Visits, from: nat, to: nat, r: nat)
    requires to <= |visits|
  {
    forall q :: from <= q < to ==> !ReadsReg(visits[q], r)
  }

  /** The last write of `r` among the first `n` visits is at position `w`. */
  ghost predicate LastWrite(visits: Visits, n: nat, r: nat, w: nat)
    requires n <= |visits|
  {
    w < n && WritesReg(visits[w], r) && NoWrite(visits, w + 1, n, r)
  }

  ghost predicate FirstRead(visits: Visits, n: nat, r: nat, p: nat)
    requires n <= |visits|
  {
    p < n && ReadsReg(visits[p], r) && NoRead(visits, 0, p, r)
  }

  /** The last recorded read of `r` is at position `p`, and `r` is not written after it. */
  ghost predicate LastRead(visits: Visits, n: nat, r: nat, p: nat)
    requires n <= |visits|
  {
    p < n && ReadsReg(visits[p], r) && NoRead(visits, p + 1, n, r) && NoWrite(visits, p, n, r)
  }

  /** Where the value of `r` that is current after `n` visits came from: its last write; else it is
      an argument; else it came into the block that first reads it. */
  ghost predicate Opening(visits: Visits, n: nat, argumentEnd: nat, r: nat, start: nat)
    requires n <= |visits|
  {
    || (exists w: nat :: LastWrite(visits, n, r, w) && start == visits[w].offset)
    || (NoWrite(visits, 0, n, r) && r < argumentEnd && start == 0)
    || (NoWrite(visits, 0, n, r) && r >= argumentEnd
        && exists p: nat :: FirstRead(visits, n, r, p) && start == visits[p].blockStart)
  }

  /** The latest recorded read of that value, or 0 when there is none. */
  ghost predicate Closing(visits: Visits, n: nat, r: nat, end: nat)
    requires n <= |visits|
  {
    || (exists p: nat :: LastRead(visits, n, r, p) && end == visits[p].offset)
    || (end == 0 && exists w: nat :: LastWrite(visits, n, r, w) && NoRead(visits, w, n, r))
    || (end == 0 && NoWrite(visits, 0, n, r) && NoRead(visits, 0, n, r))
  }

  /** After any number of visits the last interval of `r` opens where its current value came from
      and closes at the latest recorded read of that value. */
  lemma {:induction false} CurrentInterval(visits: Visits, n: nat, argumentEnd: nat, r: nat)
    requires n <= |visits|
    ensures var list := Ranges(visits, n, argumentEnd, r);
      if list == []
      then r >= argumentEnd && NoWrite(visits, 0, n, r) && NoRead(visits, 0, n, r)
      else Opening(visits, n, argumentEnd, r, list[|list| - 1].start) && Closing(visits, n, r, list[|list| - 1].end)
  {
    if n > 0 {
      CurrentInterval(visits, n - 1, argumentEnd, r);
      var was, v := Ranges(visits, n - 1, argumentEnd, r), visits[n - 1];
      if WritesReg(v, r) {
        assert LastWrite(visits, n, r, n - 1) && NoRead(visits, n - 1, n, r);
      } else {
        if ReadsReg(v, r) {
          assert LastRead(visits, n, r, n - 1);
          if was == [] {
            assert FirstRead(visits, n, r, n - 1);
          }
        }
        if was != [] {
          OpeningPersists(visits, n, argumentEnd, r, was[|was| - 1].start);
          if !ReadsReg(v, r) {
            ClosingPersists(visits, n, r, was[|was| - 1].end);
          }
        }
      }
    }
  }

  lemma OpeningPersists(visits: Visits, n: nat, argumentEnd: nat, r: nat, start: nat)
    requires 0 < n <= |visits| && Opening(visits, n - 1, argumentEnd, r, start) && !WritesReg(visits[n - 1], r)
    ensures Opening(visits, n, argumentEnd, r, start)
  {
    if w: nat :| LastWrite(visits, n - 1, r, w) && start == visits[w].offset {
      assert LastWrite(visits, n, r, w);
    } else if p: nat :| FirstRead(visits, n - 1, r, p) && start == visits[p].blockStart {
      assert FirstRead(visits, n, r, p);
    }
  }

  lemma ClosingPersists(visits: Visits, n: nat, r: nat, end: nat)
    requires 0 < n <= |visits| && Closing(visits, n - 1, r, end)
    requires !WritesReg(visits[n - 1], r) && !ReadsReg(visits[n - 1], r)
    ensures Closing(visits, n, r, end)
  {
    var m := n - 1;
    if p: nat :| LastRead(visits, m, r, p) && end == visits[p].offset {
      assert LastRead(visits, n, r, p);
    } else if w: nat :| LastWrite(visits, m, r, w) && NoRead(visits, w, m, r) {
      assert LastWrite(visits, n, r, w) && NoRead(visits, w, n, r);
    }
  }

  ghost predicate Tiled(list: seq<Interval>) {
    forall i, j :: 0 <= i && j == i + 1 && j < |list| ==> list[i].end == list[j].start
  }

  /** The intervals of a register tile: each ends where the next one starts. */
  lemma {:induction false} IntervalsTile(visits: Visits, n: nat, argumentEnd: nat, r: nat)
    requires n <= |visits|
    ensures Tiled(Ranges(visits, n, argumentEnd, r))
  {
    if n > 0 {
      IntervalsTile(visits, n - 1, argumentEnd, r);
      var was := Ranges(visits, n - 1, argumentEnd, r);
      if was != [] {
        assert Tiled(CloseLast(was, visits[n - 1].offset));
      }
    }
  }

  /** The starts after the opening interval, if there is one, are `writes`. */
  ghost predicate OpenedBy(list: seq<Interval>, writes: seq<nat>) {
    && |writes| <= |list| <= |writes| + 1
    && forall i :: 0 <= i < |writes| ==> list[|list| - |writes| + i].start == writes[i]
  }

  lemma WriteOpens(list: seq<Interval>, writes: seq<nat>, offset: nat)
    requires OpenedBy(list, writes)
    ensures OpenedBy(AfterWrite(list, offset), writes + [offset])
  {
    var now, all := AfterWrite(list, offset), writes + [offset];
    forall i | 0 <= i < |all| ensures now[|now| - |all| + i].start == all[i] {
      assert i < |writes| ==> now[|list| - |writes| + i].start == list[|list| - |writes| + i].start;
    }
  }

  lemma ReadOpensNone(list: seq<Interval>, writes: seq<nat>, blockStart: nat, offset: nat)
    requires OpenedBy(list, writes)
    ensures OpenedBy(AfterRead(list, blockStart, offset), writes)
  {
    var now := AfterRead(list, blockStart, offset);
    assert forall i :: 0 <= i < |list| ==> now[i].start == list[i].start;
  }

  /** Every interval but the first is opened by a write, and each write opens one: the starts after
      the opening interval are exactly the offsets of the writes, in order. */
  lemma {:induction false} WritesOpenIntervals(visits: Visits, n: nat, argumentEnd: nat, r: nat)
    requires n <= |visits|
    ensures OpenedBy(Ranges(visits, n, argumentEnd, r), WriteOffsets(visits, n, r))
  {
    if n > 0 {
      var list, writes, v := Ranges(visits, n - 1, argumentEnd, r), WriteOffsets(visits, n - 1, r), visits[n - 1];
      WritesOpenIntervals(visits, n - 1, argumentEnd, r);
      WriteOpens(list, writes, v.offset);
      ReadOpensNone(list, writes, v.blockStart, v.offset);
      assert writes + [] == writes;
    }
  }

  function WriteOffsets(visits: Visits, n: nat, r: nat): seq<nat>
    requires n <= |visits|
  {
    if n == 0 then []
    else WriteOffsets(visits, n - 1, r) + if WritesReg(visits[n - 1], r) then [visits[n - 1].offset] else []
  }

  /** Later visits keep an interval's start, and its end as well or move it to a later offset. */
  lemma {:induction false} IntervalPersists(visits: Visits, m: nat, n: nat, argumentEnd: nat, r: nat, i: nat)
    requires m <= n <= |visits| && i < |Ranges(visits, m, argumentEnd, r)|
    ensures var was, now := Ranges(visits, m, argumentEnd, r), Ranges(visits, n, argumentEnd, r);
      && |was| <= |now| && now[i].start == was[i].start
      && (now[i].end == was[i].end || exists q :: m <= q < n && now[i].end == visits[q].offset)
  {
    if m < n {
      IntervalPersists(visits, m, n - 1, argumentEnd, r, i);
    }
  }

  lemma RecordedReadEndsInterval(visits: Visits, argumentEnd: nat, r: nat, p: nat)
    requires p < |visits| && ReadsReg(visits[p], r)
    ensures var list := Ranges(visits, p + 1, argumentEnd, r); list != [] && list[|list| - 1].end == visits[p].offset
  {
  }

  lemma PersistsInOrder(visits: Visits, p: nat, argumentEnd: nat, r: nat, i: nat)
    requires InOrder(visits) && p < |visits| && i < |Ranges(visits, p + 1, argumentEnd, r)|
    ensures var was, now := Ranges(visits, p + 1, argumentEnd, r), Ranges(visits, |visits|, argumentEnd, r);
      && |was| <= |now| && now[i].start == was[i].start
      && (now[i].end == was[i].end || visits[p].offset < now[i].end)
  {
    var was, now := Ranges(visits, p + 1, argumentEnd, r), Ranges(visits, |visits|, argumentEnd, r);
    IntervalPersists(visits, p + 1, |visits|, argumentEnd, r, i);
    if now[i].end != was[i].end {
      var q :| p + 1 <= q < |visits| && now[i].end == visits[q].offset;
      assert Precedes(visits, p, q);
    }
  }

  /** Coverage: each recorded read lies in the interval opened at the last preceding write, or in
      the opening interval if there is none. */
  lemma RecordedReadIsCovered(visits: Visits, argumentEnd: nat, r: nat, p: nat)
    requires InOrder(visits) && p < |visits| && ReadsReg(visits[p], r)
    ensures exists iv :: (iv in Ranges(visits, |visits|, argumentEnd, r)
      && Opening(visits, p + 1, argumentEnd, r, iv.start) && iv.start <= visits[p].offset <= iv.end)
  {
    var was, now := Ranges(visits, p + 1, argumentEnd, r), Ranges(visits, |visits|, argumentEnd, r);
    RecordedReadEndsInterval(visits, argumentEnd, r, p);
    var i := |was| - 1;
    PersistsInOrder(visits, p, argumentEnd, r, i);
    CurrentInterval(visits, p + 1, argumentEnd, r);
    OpeningIsEarlier(visits, p + 1, argumentEnd, r, was[i].start);
    assert now[i] in now;
  }

  lemma OpeningIsEarlier(visits: Visits, n: nat, argumentEnd: nat, r: nat, start: nat)
    requires InOrder(visits) && 0 < n <= |visits| && Opening(visits, n, argumentEnd, r, start)
    ensures start <= visits[n - 1].offset
  {
    forall q | 0 <= q < n - 1 ensures visits[q].offset < visits[n - 1].offset {
      assert Precedes(visits, q, n - 1);
    }
  }

  // ---------------------------------------------------------------- the pass, on objects

  /** The map from registers to their intervals, in order of creation. */
  class LiveRangeMap {
    var ranges: map<nat, seq<LiveInterval>>
    ghost var contents: map<nat, seq<Interval>>  // the same, as values
    ghost var repr: set<LiveInterval>
    ghost var place: map<LiveInterval, (nat, nat)>

    ghost predicate Valid()
      reads this, repr
    {
      && contents.Keys == ranges.Keys
      && (forall r :: r in ranges ==> |contents[r]| == |ranges[r]| > 0)
      && forall r, i :: r in ranges && 0 <= i < |ranges[r]| ==> Entry(ranges[r][i], r, i)
    }

    /** An interval is owned, and sits in one place of one list. */
    ghost predicate Entry(interval: LiveInterval, r: nat, i: nat)
      reads this, repr
    {
      && interval in repr && interval in place && place[interval] == (r, i)
      && r in contents && i < |contents[r]| && contents[r][i] == Interval(interval.start, interval.end)
    }

    /** The intervals of `r`; none if it has no entry. */
    ghost function Of(r: nat): seq<Interval>
      reads this
    {
      if r in contents then contents[r] else []
    }

    constructor ()
      ensures Valid() && fresh(repr) && forall r: nat :: Of(r) == []
    {
      ranges, contents := map[], map[];
      repr, place := {}, map[];
    }

    method Insert(r: nat, start: nat, end: nat)
      requires Valid() && r !in ranges
      modifies this
      ensures Valid() && fresh(repr - old(repr))
      ensures forall x: nat :: Of(x) == if x == r then [Interval(start, end)] else old(Of(x))
    {
      var interval := new LiveInterval(start, end);
      ranges, contents := ranges[r := [interval]], contents[r := [Interval(start, end)]];
      repr, place := repr + {interval}, place[interval := (r, 0)];
    }

    method SetLastEnd(r: nat, end: nat)
      requires Valid() && r in ranges
      modifies this`contents, repr
      ensures Valid()
      ensures forall x: nat :: Of(x) == if x == r then CloseLast(old(Of(r)), end) else old(Of(x))
    {
      var list := ranges[r];
      list[|list| - 1].end := end;
      contents := contents[r := CloseLast(contents[r], end)];
      forall x, i | x in ranges && 0 <= i < |ranges[x]| ensures Entry(ranges[x][i], x, i) {
        assert old(Entry(ranges[x][i], x, i)) && old(Entry(list[|list| - 1], r, |list| - 1));
      }
    }

    method PushBack(r: nat, start: nat)
      requires Valid() && r in ranges
      modifies this
      ensures Valid() && fresh(repr - old(repr))
      ensures forall x: nat :: Of(x) == if x == r then old(Of(r)) + [Interval(start, 0)] else old(Of(x))
    {
      var interval := new LiveInterval(start, 0);
      place := place[interval := (r, |ranges[r]|)];
      ranges, contents := ranges[r := ranges[r] + [interval]], contents[r := contents[r] + [Interval(start, 0)]];
      repr := repr + {interval};
      forall x, i | x in ranges && 0 <= i < |ranges[x]| ensures Entry(ranges[x][i], x, i) {
        assert x in old(ranges) && i < |old(ranges[x])| ==> old(Entry(ranges[x][i], x, i));
      }
    }

    /** A write of `r`. */
    method RecordWrite(r: nat, offset: nat)
      requires Valid()
      modifies this, repr
      ensures Valid() && fresh(repr - old(repr))
      ensures forall x: nat :: Of(x) == if x == r then AfterWrite(old(Of(r)), offset) else old(Of(x))
    {
      if r !in ranges {
        Insert(r, offset, 0);
        return;
      }
      SetLastEnd(r, offset);
      PushBack(r, offset);
    }

    /** The reads of an instruction that writes nothing. */
    method RecordReads(regs: seq<nat>, blockStart: nat, offset: nat)
      requires Valid()
      modifies this, repr
      ensures Valid() && fresh(repr - old(repr))
      ensures forall x: nat :: Of(x) == if x in regs then AfterRead(old(Of(x)), blockStart, offset) else old(Of(x))
    {
      var k := 0;
      while k < |regs|
        invariant 0 <= k <= |regs| && Valid() && fresh(repr - old(repr))
        invariant forall x: nat ::
          Of(x) == if x in regs[..k] then AfterRead(old(Of(x)), blockStart, offset) else old(Of(x))
      {
        var reg := regs[k];
        assert regs[..k + 1] == regs[..k] + [reg];
        if reg !in ranges {
          Insert(reg, blockStart, offset);
        } else {
          SetLastEnd(reg, offset);
        }
        k := k + 1;
      }
      assert regs[..k] == regs;
    }
  }

  /** The instruction as the pass sees it, within its block. */
  function VisitOf(bb: BasicBlock, ins: Ins): Visit
    reads bb`insns, ins
    requires bb.insns != []
  {
    Visit(ins.offset, bb.insns[0].offset, if ins.hasWriteReg then Some(ins.writeReg) else None,
          if ins.hasReadReg then ins.readRegs else [])
  }

  /** `visits` lists the instructions of a block as the pass sees them. */
  ghost predicate ListsVisits(visits: Visits, bb: BasicBlock)
    reads bb`insns, bb.insns
  {
    |visits| == |bb.insns| && forall k :: 0 <= k < |visits| ==> IsVisit(visits[k], bb, k)
  }

  ghost predicate IsVisit(v: Visit, bb: BasicBlock, k: nat)
    reads bb`insns, bb.insns
  {
    k < |bb.insns| && v == VisitOf(bb, bb.insns[k])
  }

  /** The visits of the first `n` blocks, one after the other. */
  ghost function Traversal(blocks: seq<Visits>, n: nat): Visits
    requires n <= |blocks|
  {
    if n == 0 then [] else Traversal(blocks, n - 1) + blocks[n - 1]
  }

  /** Instruction `k` of block `b` is met after all instructions of the blocks before `b`. */
  lemma {:induction false} TraversalAt(blocks: seq<Visits>, n: nat, b: nat, k: nat)
    requires b < n <= |blocks| && k <= |blocks[b]|
    ensures |Traversal(blocks, b)| + k <= |Traversal(blocks, n)|
    ensures |Traversal(blocks, b + 1)| == |Traversal(blocks, b)| + |blocks[b]|
    ensures k < |blocks[b]| ==>
      |Traversal(blocks, b)| + k < |Traversal(blocks, n)| &&
      Traversal(blocks, n)[|Traversal(blocks, b)| + k] == blocks[b][k]
  {
    if b < n - 1 {
      TraversalAt(blocks, n - 1, b, k);
    }
  }

  lemma {:induction false} RangesOfPrefix(visits: Visits, v: Visit, n: nat, argumentEnd: nat, r: nat)
    requires n <= |visits|
    ensures Ranges(visits + [v], n, argumentEnd, r) == Ranges(visits, n, argumentEnd, r)
    ensures n == |visits| ==>
      Ranges(visits + [v], n + 1, argumentEnd, r) == AfterVisit(Ranges(visits, n, argumentEnd, r), v, r)
  {
    if n > 0 {
      RangesOfPrefix(visits, v, n - 1, argumentEnd, r);
    }
  }

  /** The map holds the intervals of every register after the given visits. */
  ghost predicate Tracks(ranges: LiveRangeMap, visits: Visits, argumentEnd: nat)
    reads ranges
  {
    forall r: nat :: TracksReg(ranges, visits, argumentEnd, r)
  }

  ghost predicate TracksReg(ranges: LiveRangeMap, visits: Visits, argumentEnd: nat, r: nat)
    reads ranges
  {
    ranges.Of(r) == Ranges(visits, |visits|, argumentEnd, r)
  }

  /** One instruction. */
  method VisitIns(ranges: LiveRangeMap, bb: BasicBlock, ins: Ins, ghost visits: Visits, argumentEnd: nat)
    requires bb.insns != [] && ranges.Valid() && Tracks(ranges, visits, argumentEnd)
    modifies ranges, ranges.repr
    ensures ranges.Valid() && fresh(ranges.repr - old(ranges.repr))
    ensures Tracks(ranges, visits + [VisitOf(bb, ins)], argumentEnd)
  {
    ghost var v := VisitOf(bb, ins);
    if ins.hasWriteReg {
      ranges.RecordWrite(ins.writeReg, ins.offset);
    } else if ins.hasReadReg {
      ranges.RecordReads(ins.readRegs, bb.insns[0].offset, ins.offset);
    }
    forall r: nat ensures TracksReg(ranges, visits + [v], argumentEnd, r) {
      assert old(TracksReg(ranges, visits, argumentEnd, r));
      RangesOfPrefix(visits, v, |visits|, argumentEnd, r);
    }
  }

  /** The argument registers have an interval from the start. */
  method ArgumentRanges(argumentEnd: nat) returns (ranges: LiveRangeMap)
    ensures fresh(ranges) && fresh(ranges.repr) && ranges.Valid() && Tracks(ranges, [], argumentEnd)
  {
    ranges := new LiveRangeMap();
    var i := 0;
    while i < argumentEnd
      invariant 0 <= i <= argumentEnd && fresh(ranges) && fresh(ranges.repr) && ranges.Valid()
      invariant forall r: nat :: ranges.Of(r) == if r < i then [Interval(0, 0)] else []
    {
      assert ranges.Of(i) == [];
      ranges.Insert(i, 0, 0);
      i := i + 1;
    }
  }

  /** The instructions of one block. */
  method VisitBlock(ranges: LiveRangeMap, bb: BasicBlock, ghost visits: Visits, ghost block: Visits, argumentEnd: nat)
    requires ranges.Valid() && Tracks(ranges, visits, argumentEnd) && ListsVisits(block, bb)
    modifies ranges, ranges.repr
    ensures ranges.Valid() && fresh(ranges.repr - old(ranges.repr))
    ensures Tracks(ranges, visits + block, argumentEnd)
  {
    assert visits + block[..0] == visits;
    var k := 0;
    while k < |bb.insns|
      invariant 0 <= k <= |bb.insns| && ranges.Valid() && fresh(ranges.repr - old(ranges.repr))
      invariant Tracks(ranges, visits + block[..k], argumentEnd)
    {
      assert old(IsVisit(block[k], bb, k));
      VisitIns(ranges, bb, bb.insns[k], visits + block[..k], argumentEnd);
      assert visits + block[..k] + [block[k]] == visits + block[..k + 1];
      k := k + 1;
    }
    assert block[..k] == block;
  }

  /** Everything up to block `b` has been visited. */
  ghost predicate VisitedUpTo(ranges: LiveRangeMap, blocks: seq<Visits>, b: nat, argumentEnd: nat)
    reads ranges, ranges.repr
    requires b <= |blocks|
  {
    ranges.Valid() && Tracks(ranges, Traversal(blocks, b), argumentEnd)
  }

  method VisitNthBlock(ranges: LiveRangeMap, bb: BasicBlock, b: nat, ghost blocks: seq<Visits>, argumentEnd: nat)
    requires b < |blocks| && ListsVisits(blocks[b], bb) && VisitedUpTo(ranges, blocks, b, argumentEnd)
    modifies ranges, ranges.repr
    ensures VisitedUpTo(ranges, blocks, b + 1, argumentEnd) && fresh(ranges.repr - old(ranges.repr))
  {
    VisitBlock(ranges, bb, Traversal(blocks, b), blocks[b], argumentEnd);
    assert Traversal(blocks, b + 1) == Traversal(blocks, b) + blocks[b];
  }

  /** The first `n` instructions of a block as the pass meets them. */
  ghost function VisitsIn(bb: BasicBlock, n: nat): (visits: Visits)
    requires n <= |bb.insns|
    reads bb`insns, bb.insns
    ensures |visits| == n && forall k :: 0 <= k < n ==> IsVisit(visits[k], bb, k)
  {
    if n == 0 then [] else VisitsIn(bb, n - 1) + [VisitOf(bb, bb.insns[n - 1])]
  }

  /** The blocks as the pass meets them. */
  lemma SeeBlocks(bbs: seq<BasicBlock>) returns (blocks: seq<Visits>)
    ensures |blocks| == |bbs| && forall b :: 0 <= b < |bbs| ==> ListsVisits(blocks[b], bbs[b])
  {
    blocks := [];
    for b := 0 to |bbs|
      invariant |blocks| == b && forall c :: 0 <= c < b ==> ListsVisits(blocks[c], bbs[c])
    {
      blocks := blocks + [VisitsIn(bbs[b], |bbs[b].insns|)];
    }
  }

  method VisitBlocks(bbs: seq<BasicBlock>, argumentEnd: nat, ghost blocks: seq<Visits>, ghost visits: Visits)
    returns (ranges: LiveRangeMap)
    requires |blocks| == |bbs| && forall b :: 0 <= b < |bbs| ==> ListsVisits(blocks[b], bbs[b])
    requires visits == Traversal(blocks, |blocks|)
    ensures fresh(ranges) && ranges.Valid()
    ensures forall r: nat :: ranges.Of(r) == Ranges(visits, |visits|, argumentEnd, r)
  {
    ranges := ArgumentRanges(argumentEnd);
    for b := 0 to |bbs|
      invariant fresh(ranges) && fresh(ranges.repr) && VisitedUpTo(ranges, blocks, b, argumentEnd)
    {
      assert old(ListsVisits(blocks[b], bbs[b]));
      VisitNthBlock(ranges, bbs[b], b, blocks, argumentEnd);
    }
    forall r: nat ensures ranges.Of(r) == Ranges(visits, |visits|, argumentEnd, r) {
      assert TracksReg(ranges, visits, argumentEnd, r);
    }
  }

  /** How many instructions stand before each block. */
  ghost function LengthsBefore(blocks: seq<Visits>): (before: seq<nat>)
    ensures |before| == |blocks| + 1 && before[0] == 0 && before[|blocks|] == |Traversal(blocks, |blocks|)|
  {
    seq(|blocks| + 1, b requires 0 <= b <= |blocks| => |Traversal(blocks, b)|)
  }

  lemma LengthsAdd(bbs: seq<BasicBlock>, blocks: seq<Visits>)
    requires |blocks| == |bbs| && forall b :: 0 <= b < |bbs| ==> ListsVisits(blocks[b], bbs[b])
    ensures forall b, c :: 0 <= b < |bbs| && c == b + 1 ==>
      LengthsBefore(blocks)[c] == LengthsBefore(blocks)[b] + |bbs[b].insns|
  {
    forall b, c | 0 <= b < |bbs| && c == b + 1
      ensures LengthsBefore(blocks)[c] == LengthsBefore(blocks)[b] + |bbs[b].insns|
    {
      TraversalAt(blocks, |bbs|, b, 0);
      assert ListsVisits(blocks[b], bbs[b]);
    }
  }

  /** Visit `p` is that of an instruction, in the block that starts with `first`. */
  ghost predicate IsMet(visits: Visits, p: nat, ins: Ins, first: Ins)
    reads ins
  {
    && p < |visits| && visits[p].offset == ins.offset && visits[p].blockStart == first.offset
    && visits[p].write == (if ins.hasWriteReg then Some(ins.writeReg) else None)
    && visits[p].reads' == if ins.hasReadReg then ins.readRegs else []
  }

  /** The visits are those of all instructions of all blocks in order; `before[b]` of them stand
      before block `b`. */
  ghost predicate Visited(bbs: seq<BasicBlock>, visits: Visits, before: seq<nat>)
    reads bbs, set b, k | 0 <= b < |bbs| && 0 <= k < |bbs[b].insns| :: bbs[b].insns[k]
  {
    && |before| == |bbs| + 1 && before[0] == 0 && before[|bbs|] == |visits|
    && (forall b, c :: 0 <= b < |bbs| && c == b + 1 ==> before[c] == before[b] + |bbs[b].insns|)
    && forall b, k :: 0 <= b < |bbs| && 0 <= k < |bbs[b].insns| ==>
         IsMet(visits, before[b] + k, bbs[b].insns[k], bbs[b].insns[0])
  }

  lemma InsIsMet(bb: BasicBlock, block: Visits, k: nat, visits: Visits, p: nat)
    requires ListsVisits(block, bb) && k < |bb.insns|
    requires p < |visits| && visits[p] == block[k]
    ensures IsMet(visits, p, bb.insns[k], bb.insns[0])
  {
    assert IsVisit(block[k], bb, k);
  }

  lemma MetInOrder(bbs: seq<BasicBlock>, blocks: seq<Visits>)
    requires |blocks| == |bbs| && forall b :: 0 <= b < |bbs| ==> ListsVisits(blocks[b], bbs[b])
    ensures forall b, k :: 0 <= b < |bbs| && 0 <= k < |bbs[b].insns| ==>
      IsMet(Traversal(blocks, |blocks|), LengthsBefore(blocks)[b] + k, bbs[b].insns[k], bbs[b].insns[0])
  {
    forall b, k | 0 <= b < |bbs| && 0 <= k < |bbs[b].insns|
      ensures IsMet(Traversal(blocks, |blocks|), LengthsBefore(blocks)[b] + k, bbs[b].insns[k], bbs[b].insns[0])
    {
      assert ListsVisits(blocks[b], bbs[b]);
      TraversalAt(blocks, |bbs|, b, k);
      InsIsMet(bbs[b], blocks[b], k, Traversal(blocks, |blocks|), |Traversal(blocks, b)| + k);
    }
  }

  /** The visits of all blocks, of which `before[b]` stand before block `b`. */
  lemma Traverse(bbs: seq<BasicBlock>) returns (blocks: seq<Visits>, visits: Visits, before: seq<nat>)
    ensures |blocks| == |bbs| && forall b :: 0 <= b < |bbs| ==> ListsVisits(blocks[b], bbs[b])
    ensures visits == Traversal(blocks, |blocks|)
    ensures Visited(bbs, visits, before)
  {
    blocks := SeeBlocks(bbs);
    visits, before := Traversal(blocks, |blocks|), LengthsBefore(blocks);
    LengthsAdd(bbs, blocks);
    MetInOrder(bbs, blocks);
  }

  /** The map ends up holding the intervals of every register after all instructions of all blocks. */
  method BuildLiveRanges(bbs: seq<BasicBlock>, argumentEnd: nat)
    returns (ranges: LiveRangeMap, ghost visits: Visits, ghost before: seq<nat>)
    ensures fresh(ranges) && ranges.Valid()
    ensures Visited(bbs, visits, before)
    ensures forall r: nat :: ranges.Of(r) == Ranges(visits, |visits|, argumentEnd, r)
  {
    ghost var blocks;
    blocks, visits, before := Traverse(bbs);
    ranges := VisitBlocks(bbs, argumentEnd, blocks, visits);
  }

  // ---------------------------------------------------------------- the map and the instructions

  lemma {:induction false} BeforeGrows(bbs: seq<BasicBlock>, visits: Visits, before: seq<nat>, b: nat, c: nat)
    requires Visited(bbs, visits, before) && b < c <= |bbs|
    ensures before[b] + |bbs[b].insns| <= before[c]
  {
    if b + 1 < c {
      BeforeGrows(bbs, visits, before, b, c - 1);
      assert before[c] == before[c - 1] + |bbs[c - 1].insns|;
    }
  }

  /** Every visit is that of an instruction of some block. */
  lemma {:induction false} VisitedIn(bbs: seq<BasicBlock>, visits: Visits, before: seq<nat>, n: nat, p: nat)
    returns (b: nat, k: nat)
    requires Visited(bbs, visits, before) && n <= |bbs| && p < before[n]
    ensures b < n && k < |bbs[b].insns| && p == before[b] + k
    ensures IsMet(visits, p, bbs[b].insns[k], bbs[b].insns[0])
  {
    assert before[n] == before[n - 1] + |bbs[n - 1].insns|;
    if p < before[n - 1] {
      b, k := VisitedIn(bbs, visits, before, n - 1, p);
    } else {
      b, k := n - 1, p - before[n - 1];
    }
  }

  /** The offsets increase along the blocks. */
  ghost predicate OffsetsAscend(bbs: seq<BasicBlock>)
    reads bbs
  {
    forall b, k, c, l | 0 <= b < |bbs| && 0 <= k < |bbs[b].insns| && 0 <= c < |bbs| && 0 <= l < |bbs[c].insns| ::
      b < c || (b == c && k < l) ==> bbs[b].insns[k].offset < bbs[c].insns[l].offset
  }

  lemma VisitsAscend(bbs: seq<BasicBlock>, visits: Visits, before: seq<nat>)
    requires Visited(bbs, visits, before) && OffsetsAscend(bbs)
    ensures InOrder(visits)
  {
    forall p, q | 0 <= p < q < |visits| ensures Precedes(visits, p, q) {
      var b, k := VisitedIn(bbs, visits, before, |bbs|, p);
      var c, l := VisitedIn(bbs, visits, before, |bbs|, q);
      if c < b {
        BeforeGrows(bbs, visits, before, c, b);
      }
    }
    forall p | 0 <= p < |visits| ensures visits[p].blockStart <= visits[p].offset {
      var b, k := VisitedIn(bbs, visits, before, |bbs|, p);
    }
  }

  /** Every write opens an interval of its register. */
  lemma WriteIsOpened(ranges: LiveRangeMap, bbs: seq<BasicBlock>, visits: Visits, before: seq<nat>, argumentEnd: nat,
                      b: nat, k: nat)
    requires Visited(bbs, visits, before) && Tracks(ranges, visits, argumentEnd)
    requires b < |bbs| && k < |bbs[b].insns| && bbs[b].insns[k].hasWriteReg
    ensures exists iv :: iv in ranges.Of(bbs[b].insns[k].writeReg) && iv.start == bbs[b].insns[k].offset
  {
    var p, r := before[b] + k, bbs[b].insns[k].writeReg;
    assert IsMet(visits, p, bbs[b].insns[k], bbs[b].insns[0]) && TracksReg(ranges, visits, argumentEnd, r);
    var was := Ranges(visits, p + 1, argumentEnd, r);
    IntervalPersists(visits, p + 1, |visits|, argumentEnd, r, |was| - 1);
    assert ranges.Of(r)[|was| - 1] in ranges.Of(r);
  }

  /** Every read of an instruction that does not write lies in an interval of the register. */
  lemma ReadIsCovered(ranges: LiveRangeMap, bbs: seq<BasicBlock>, visits: Visits, before: seq<nat>, argumentEnd: nat,
                      b: nat, k: nat, r: nat)
    requires Visited(bbs, visits, before) && Tracks(ranges, visits, argumentEnd) && OffsetsAscend(bbs)
    requires b < |bbs| && k < |bbs[b].insns| && !bbs[b].insns[k].hasWriteReg
    requires bbs[b].insns[k].hasReadReg && r in bbs[b].insns[k].readRegs
    ensures exists iv :: iv in ranges.Of(r) && iv.start <= bbs[b].insns[k].offset <= iv.end
  {
    var p := before[b] + k;
    assert IsMet(visits, p, bbs[b].insns[k], bbs[b].insns[0]) && TracksReg(ranges, visits, argumentEnd, r);
    VisitsAscend(bbs, visits, before);
    RecordedReadIsCovered(visits, argumentEnd, r, p);
  }

  /** The instruction writes `r`, or reads it without writing any register. */
  ghost predicate Mentions(ins: Ins, r: nat)
    reads ins
  {
    if ins.hasWriteReg then ins.writeReg == r else ins.hasReadReg && r in ins.readRegs
  }

  ghost predicate MentionedAt(bbs: seq<BasicBlock>, r: nat, b: nat, k: nat)
    reads bbs, set b, k | 0 <= b < |bbs| && 0 <= k < |bbs[b].insns| :: bbs[b].insns[k]
  {
    b < |bbs| && k < |bbs[b].insns| && Mentions(bbs[b].insns[k], r)
  }

  /** Later visits move an end only to where the register is mentioned, and so each interval has its bounds. */
  lemma {:induction false} IntervalIsFromMentions(visits: Visits, n: nat, argumentEnd: nat, r: nat, i: nat)
    requires n <= |visits| && i < |Ranges(visits, n, argumentEnd, r)|
    ensures var iv := Ranges(visits, n, argumentEnd, r)[i];
      && (|| (iv.start == 0 && r < argumentEnd)
          || (exists q :: 0 <= q < n && WritesReg(visits[q], r) && iv.start == visits[q].offset)
          || exists q :: 0 <= q < n && ReadsReg(visits[q], r) && iv.start == visits[q].blockStart)
      && (|| iv.end == 0
          || exists q :: 0 <= q < n && iv.end == visits[q].offset
               && (WritesReg(visits[q], r) || ReadsReg(visits[q], r)))
  {
    if n > 0 && i < |Ranges(visits, n - 1, argumentEnd, r)| {
      IntervalIsFromMentions(visits, n - 1, argumentEnd, r, i);
    }
  }

  lemma VisitIsInCode(bbs: seq<BasicBlock>, visits: Visits, before: seq<nat>, r: nat, q: nat) returns (b: nat, k: nat)
    requires Visited(bbs, visits, before) && q < |visits| && (WritesReg(visits[q], r) || ReadsReg(visits[q], r))
    ensures MentionedAt(bbs, r, b, k) && IsMet(visits, q, bbs[b].insns[k], bbs[b].insns[0])
  {
    b, k := VisitedIn(bbs, visits, before, |bbs|, q);
  }

  /** No interval comes from anywhere else: it starts at offset 0 for an argument, at a write, or at the start
      of a block that reads the register, and it ends where the register is mentioned, or nowhere yet. */
  lemma IntervalComesFromCode(ranges: LiveRangeMap, bbs: seq<BasicBlock>, visits: Visits, before: seq<nat>,
                              argumentEnd: nat, r: nat, i: nat)
    requires Visited(bbs, visits, before) && Tracks(ranges, visits, argumentEnd) && i < |ranges.Of(r)|
    ensures var iv := ranges.Of(r)[i];
      && (|| (iv.start == 0 && r < argumentEnd)
          || exists b: nat, k: nat :: MentionedAt(bbs, r, b, k) &&
               iv.start == (if bbs[b].insns[k].hasWriteReg then bbs[b].insns[k] else bbs[b].insns[0]).offset)
      && (iv.end == 0 || exists b: nat, k: nat :: MentionedAt(bbs, r, b, k) && iv.end == bbs[b].insns[k].offset)
  {
    assert TracksReg(ranges, visits, argumentEnd, r);
    IntervalIsFromMentions(visits, |visits|, argumentEnd, r, i);
    forall q | 0 <= q < |visits| && (WritesReg(visits[q], r) || ReadsReg(visits[q], r))
      ensures exists b: nat, k: nat ::
        && MentionedAt(bbs, r, b, k) && IsMet(visits, q, bbs[b].insns[k], bbs[b].insns[0])
    {
      var b, k := VisitIsInCode(bbs, visits, before, r, q);
    }
  }
}

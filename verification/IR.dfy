/** The intermediate representation: instructions, basic blocks and live intervals. */
module IR {
  import opened Paths

  datatype LiteralType = Argument | Register | Ident | Constant | Template

  datatype Literal = Literal(kind: LiteralType, index: nat)

  class Ins {
    const offset: nat
    const size: nat
    const jump: bool             // JUMP
    const conditionalJump: bool  // CONDITIONAL_JUMP
    const tryContext: bool       // TRY_START, TRY_CATCH or TRY_FINALLY
    const branchOffset: int
    var dead: bool               // DEAD
    var hasReadReg: bool         // READ_REG
    var hasWriteReg: bool        // WRITE_REG
    var readRegs: seq<nat>
    var writeReg: nat
    var literals: seq<Literal>
    var bb: BasicBlock?

    constructor (offset: nat, size: nat, jump: bool, conditionalJump: bool, tryContext: bool, branchOffset: int)
    {
      this.offset := offset;
      this.size := size;
      this.jump := jump;
      this.conditionalJump := conditionalJump;
      this.tryContext := tryContext;
      this.branchOffset := branchOffset;
      dead, hasReadReg, hasWriteReg := false, false, false;
      readRegs, writeReg, literals, bb := [], 0, [], null;
    }

    function JumpTarget(): int {
      offset + branchOffset
    }
  }

  /** The register that an instruction writes is listed among those it reads. */
  ghost predicate WriteListed(ins: Ins)
    reads ins
  {
    ins.hasWriteReg ==> ins.hasReadReg && ins.writeReg in ins.readRegs
  }

  class BasicBlock {
    const id: nat
    const valid: bool
    var predecessors: seq<BasicBlock>
    var successors: seq<BasicBlock>
    var idom: BasicBlock?
    var dominators: seq<BasicBlock>
    var insns: seq<Ins>
    var ue: set<nat>
    var kill: set<nat>
    var liveOut: set<nat>

    constructor (id: nat, valid: bool)
      ensures this.id == id && this.valid == valid
      ensures predecessors == [] && successors == [] && insns == []
      ensures idom == null && dominators == [] && ue == {} && kill == {} && liveOut == {}
    {
      this.id := id;
      this.valid := valid;
      predecessors, successors, idom, dominators, insns := [], [], null, [], [];
      ue, kill, liveOut := {}, {}, {};
    }

    /** Append an instruction, which from now on belongs to this block. */
    method AddIns(ins: Ins)
      modifies this`insns, ins`bb
      ensures insns == old(insns) + [ins] && ins.bb == this
    {
      insns := insns + [ins];
      ins.bb := this;
    }

    method AddPredecessor(bb: BasicBlock, ghost u: set<BasicBlock>)
      requires Mirror(u) && this in u && bb in u
      modifies this`predecessors, bb`successors
      ensures predecessors == old(predecessors) + [bb] && bb.successors == old(bb.successors) + [this]
      ensures Mirror(u)
    {
      predecessors := predecessors + [bb];
      bb.successors := bb.successors + [this];
      forall a, b | a in u && b in u ensures Mirrored(a, b) {
        assert old(Mirrored(a, b));
      }
    }

    method AddSuccessor(bb: BasicBlock, ghost u: set<BasicBlock>)
      requires Mirror(u) && this in u && bb in u
      modifies this`successors, bb`predecessors
      ensures successors == old(successors) + [bb] && bb.predecessors == old(bb.predecessors) + [this]
      ensures Mirror(u)
    {
      successors := successors + [bb];
      bb.predecessors := bb.predecessors + [this];
      forall a, b | a in u && b in u ensures Mirrored(a, b) {
        assert old(Mirrored(a, b));
      }
    }

    /** Delete every edge from the block numbered `id`, in both lists. */
    method RemovePredecessor(id: nat, ghost u: set<BasicBlock>) returns (deleted: bool)
      requires Mirror(u) && this in u
      modifies this`predecessors, u`successors
      ensures deleted <==> exists p :: p in old(predecessors) && p.id == id
      ensures predecessors == Without(old(predecessors), id)
      ensures forall b :: b in u ==>
        b.successors == if b.id == id then Without(old(b.successors), this.id) else old(b.successors)
      ensures Mirror(u)
    {
      var pred := FindBlock(predecessors, id);
      if pred == null {
        AbsentEdge(this, id, u);
        return false;
      }
      DeleteEdges(pred, this, u);
      forall b | b in u && b.id == id ensures b == pred {
        assert SameNumber(b, pred);
      }
      return true;
    }

    /** Delete every edge to the block numbered `id`, in both lists; there must be one. */
    method RemoveSuccessor(id: nat, ghost u: set<BasicBlock>) returns (deleted: bool)
      requires Mirror(u) && this in u && exists s :: s in successors && s.id == id
      modifies this`successors, u`predecessors
      ensures deleted
      ensures successors == Without(old(successors), id)
      ensures forall b :: b in u ==>
        b.predecessors == if b.id == id then Without(old(b.predecessors), this.id) else old(b.predecessors)
      ensures Mirror(u)
    {
      var succ := FindBlock(successors, id);
      DeleteEdges(this, succ, u);
      forall b | b in u && b.id == id ensures b == succ {
        assert SameNumber(b, succ);
      }
      return true;
    }

    /** Delete all edges to this block, restarting at the front after each deletion. */
    method RemoveAllPredecessors(ghost u: set<BasicBlock>)
      requires Mirror(u) && this in u
      modifies this`predecessors, u`successors, u`predecessors
      ensures predecessors == []
      ensures forall b :: b in u ==> b.successors == Without(old(b.successors), id)
      ensures forall b :: b in u && b != this ==> b.predecessors == old(b.predecessors)
      ensures Mirror(u)
    {
      AbsentEverywhere(this, u);
      while predecessors != []
        invariant Mirror(u)
        invariant forall b :: b in u && b != this ==> b.predecessors == old(b.predecessors)
        invariant forall b :: b in u ==>
          b.successors == if b in predecessors then old(b.successors) else Without(old(b.successors), id)
        decreases |predecessors|
      {
        var pred := predecessors[0];
        PredecessorHasSuccessor(pred, this, u);
        WithoutIsSublist(predecessors, pred.id);
        OnlyBlockOfItsNumber(this, u);
        OnlyBlockOfItsNumber(pred, u);
        var deleted := pred.RemoveSuccessor(id, u);
      }
    }

    /** Delete all edges from this block, restarting at the front after each deletion. */
    method RemoveAllSuccessors(ghost u: set<BasicBlock>)
      requires Mirror(u) && this in u
      modifies this`successors, u`successors, u`predecessors
      ensures successors == []
      ensures forall b :: b in u ==> b.predecessors == Without(old(b.predecessors), id)
      ensures forall b :: b in u && b != this ==> b.successors == old(b.successors)
      ensures Mirror(u)
    {
      AbsentEverywhere(this, u);
      while successors != []
        invariant Mirror(u)
        invariant forall b :: b in u && b != this ==> b.successors == old(b.successors)
        invariant forall b :: b in u ==>
          b.predecessors == if b in successors then old(b.predecessors) else Without(old(b.predecessors), id)
        decreases |successors|
      {
        var succ := successors[0];
        SuccessorHasPredecessor(this, succ, u);
        WithoutIsSublist(successors, succ.id);
        OnlyBlockOfItsNumber(this, u);
        OnlyBlockOfItsNumber(succ, u);
        var deleted := succ.RemovePredecessor(id, u);
      }
    }

    /** Cut the block off. */
    method Remove(ghost u: set<BasicBlock>, ghost e: Edges)
      requires Mirror(u) && this in u && Draws(u, e)
      modifies u`successors, u`predecessors
      ensures predecessors == [] && successors == []
      ensures forall b :: b in u && b != this ==> b.successors == Without(old(b.successors), id)
      ensures Mirror(u) && Draws(u, Cut(e, id))
    {
      RemoveAllPredecessors(u);
      RemoveAllSuccessors(u);
      OnlyBlockOfItsNumber(this, u);
      forall a, b | a in u && b in u ensures Drawn(a, b, Cut(e, id)) {
        assert old(Drawn(a, b, e));
        WithoutIsSublist(old(a.successors), id);
      }
    }

    /** Cut off a block without instructions, connecting each predecessor to each successor. The
        lists of this block must not grow while they are traversed, so it has no self-loop. */
    method RemoveEmpty(ghost u: set<BasicBlock>, ghost e: Edges)
      requires Mirror(u) && this in u && Draws(u, e)
      requires insns == [] && this !in successors
      modifies u`successors, u`predecessors
      ensures predecessors == [] && successors == []
      ensures forall b :: b in u && b != this ==>
        b.successors == Without(Grown(old(b.successors), old(predecessors), b, Doubled(old(successors))), id)
      ensures Mirror(u) && Draws(u, Bypass(e, id))
    {
      ghost var preds, succs := predecessors, successors;
      NeighboursDrawn(this, u, e);
      ConnectNeighbours(u, e);
      Remove(u, e + Product(Numbers(preds), Numbers(succs)));
      ConnectThenCutBypasses(e, id, Numbers(preds), Numbers(succs));
    }

    /** Connect each predecessor to each successor, as often as either is listed. */
    method ConnectNeighbours(ghost u: set<BasicBlock>, ghost e: Edges)
      requires Mirror(u) && this in u && Draws(u, e) && this !in successors
      modifies u`successors, u`predecessors
      ensures predecessors == old(predecessors) && successors == old(successors)
      ensures forall b :: b in u ==>
        b.successors == Grown(old(b.successors), old(predecessors), b, Doubled(old(successors)))
      ensures Mirror(u) && Draws(u, e + Product(Numbers(old(predecessors)), Numbers(old(successors))))
    {
      var preds, succs := predecessors, successors;
      assert this !in preds by {
        assert Mirrored(this, this);
      }
      NoProducts(succs);
      for i := 0 to |preds|
        invariant Mirror(u) && predecessors == preds && successors == succs
        invariant forall b :: b in u ==> b.successors == Grown(old(b.successors), preds[..i], b, Doubled(succs))
        invariant Draws(u, e + Product(Numbers(preds[..i]), Numbers(succs)))
      {
        var pred := preds[i];
        assert pred in predecessors && pred in u;
        ConnectRow(preds, i, pred, succs, u, e);
        forall b | b in u ensures b.successors == Grown(old(b.successors), preds[..i + 1], b, Doubled(succs)) {
          GrowsByOne(old(b.successors), preds, i, b, Doubled(succs));
        }
      }
      assert preds[..|preds|] == preds;
    }
  }

  /** Connect the next of `preds` to every block of a list. */
  method ConnectRow(ghost preds: seq<BasicBlock>, ghost i: nat, pred: BasicBlock, succs: seq<BasicBlock>,
                    ghost u: set<BasicBlock>, ghost e: Edges)
    requires i < |preds| && pred == preds[i] && pred in u && forall s :: s in succs ==> s in u
    requires Mirror(u) && Draws(u, e + Product(Numbers(preds[..i]), Numbers(succs)))
    modifies pred`successors, succs`predecessors
    ensures pred.successors == old(pred.successors) + Doubled(succs)
    ensures Mirror(u) && Draws(u, e + Product(Numbers(preds[..i + 1]), Numbers(succs)))
  {
    ConnectToAll(pred, succs, u, e + Product(Numbers(preds[..i]), Numbers(succs)));
    OneMoreRow(e, preds, i, succs);
  }

  /** `given`, followed by `s` for every time that `b` occurs in `preds`. */
  ghost function Grown(given: seq<BasicBlock>, preds: seq<BasicBlock>, b: BasicBlock, s: seq<BasicBlock>)
    : seq<BasicBlock>
  {
    given + Repeated(multiset(preds)[b], s)
  }

  /** A list `n` times over. */
  function Repeated(n: nat, s: seq<BasicBlock>): seq<BasicBlock> {
    if n == 0 then [] else Repeated(n - 1, s) + s
  }

  lemma GrowsByOne(given: seq<BasicBlock>, preds: seq<BasicBlock>, i: nat, b: BasicBlock, s: seq<BasicBlock>)
    requires i < |preds|
    ensures Grown(given, preds[..i + 1], b, s)
      == if b == preds[i] then Grown(given, preds[..i], b, s) + s else Grown(given, preds[..i], b, s)
  {
    assert preds[..i + 1] == preds[..i] + [preds[i]];
    var n := multiset(preds[..i])[b];
    assert given + Repeated(n + 1, s) == given + Repeated(n, s) + s;
  }

  // ---------------------------------------------------------------- mirrored edge lists

  /** As many edges from `a` to `b` in the one list as in the other. */
  ghost predicate Mirrored(a: BasicBlock, b: BasicBlock)
    reads a`successors, b`predecessors
  {
    multiset(a.successors)[b] == multiset(b.predecessors)[a]
  }

  ghost predicate SameNumber(a: BasicBlock, b: BasicBlock) {
    a.id == b.id
  }

  /** Blocks of different identity have different numbers, edges stay among the blocks, and the
      predecessor and successor lists mirror each other, multiplicities included. */
  ghost predicate Mirror(u: set<BasicBlock>)
    reads u`successors, u`predecessors
  {
    && (forall a, b {:trigger SameNumber(a, b)} :: a in u && b in u && SameNumber(a, b) ==> a == b)
    && (forall a, b :: a in u && b in a.successors ==> b in u)
    && (forall a, b :: a in u && b in a.predecessors ==> b in u)
    && forall a, b {:trigger Mirrored(a, b)} :: a in u && b in u ==> Mirrored(a, b)
  }

  /** The blocks of a list other than those numbered `id`. */
  function Without(s: seq<BasicBlock>, id: nat): seq<BasicBlock> {
    if s == [] then []
    else if s[0].id == id then Without(s[1..], id)
    else [s[0]] + Without(s[1..], id)
  }

  lemma {:induction false} WithoutCounts(s: seq<BasicBlock>, id: nat)
    ensures forall b: BasicBlock :: multiset(Without(s, id))[b] == if b.id == id then 0 else multiset(s)[b]
  {
    if s != [] {
      WithoutCounts(s[1..], id);
      assert s == [s[0]] + s[1..];
    }
  }

  lemma FirstOfBoth<T>(a: seq<T>, b: seq<T>)
    requires a != []
    ensures (a + b)[0] == a[0] && (a + b)[1..] == a[1..] + b
  {
  }

  lemma SequencesAssociate<T>(a: seq<T>, b: seq<T>, c: seq<T>)
    ensures a + (b + c) == a + b + c
  {
  }

  /** The blocks that stay, stay in order. */
  lemma {:induction false} WithoutKeepsOrder(a: seq<BasicBlock>, b: seq<BasicBlock>, id: nat)
    ensures Without(a + b, id) == Without(a, id) + Without(b, id)
  {
    if a == [] {
      assert a + b == b;
    } else {
      WithoutKeepsOrder(a[1..], b, id);
      FirstOfBoth(a, b);
      SequencesAssociate([a[0]], Without(a[1..], id), Without(b, id));
    }
  }

  lemma {:induction false} WithoutAbsent(s: seq<BasicBlock>, id: nat)
    requires forall b :: b in s ==> b.id != id
    ensures Without(s, id) == s
  {
    if s != [] {
      WithoutAbsent(s[1..], id);
    }
  }

  /** No predecessor of that number: there is nothing to delete on either side. */
  lemma AbsentEdge(b: BasicBlock, id: nat, u: set<BasicBlock>)
    requires Mirror(u) && b in u && forall p :: p in b.predecessors ==> p.id != id
    ensures Without(b.predecessors, id) == b.predecessors
    ensures forall a :: a in u && a.id == id ==> Without(a.successors, b.id) == a.successors
  {
    WithoutAbsent(b.predecessors, id);
    forall a | a in u && a.id == id ensures Without(a.successors, b.id) == a.successors {
      assert Mirrored(a, b) && a !in b.predecessors;
      forall x | x in a.successors ensures x.id != b.id {
        assert SameNumber(x, b) ==> x == b;
      }
      WithoutAbsent(a.successors, b.id);
    }
  }

  /** Deleting the edges from `a` to `b` on both sides changes no other multiplicity. */
  lemma RemovalCounts(s: seq<BasicBlock>, b: BasicBlock, x: BasicBlock)
    requires SameNumber(x, b) ==> x == b
    ensures multiset(Without(s, b.id))[x] == if x == b then 0 else multiset(s)[x]
  {
    WithoutCounts(s, b.id);
  }

  lemma PredecessorHasSuccessor(a: BasicBlock, b: BasicBlock, u: set<BasicBlock>)
    requires Mirror(u) && a in b.predecessors && b in u
    ensures a in u && b in a.successors
  {
    assert Mirrored(a, b);
  }

  lemma SuccessorHasPredecessor(a: BasicBlock, b: BasicBlock, u: set<BasicBlock>)
    requires Mirror(u) && b in a.successors && a in u
    ensures b in u && a in b.predecessors
  {
    assert Mirrored(a, b);
  }

  lemma NoPredecessorNoSuccessor(a: BasicBlock, b: BasicBlock, u: set<BasicBlock>)
    requires Mirror(u) && a in u && b in u && a !in b.predecessors
    ensures forall x :: x in a.successors ==> x.id != b.id
  {
    assert Mirrored(a, b);
    forall x | x in a.successors ensures x.id != b.id {
      assert SameNumber(x, b) ==> x == b;
    }
  }

  lemma OnlyBlockOfItsNumber(a: BasicBlock, u: set<BasicBlock>)
    requires Mirror(u) && a in u
    ensures forall b :: b in u && b.id == a.id ==> b == a
  {
    forall b | b in u && b.id == a.id ensures b == a {
      assert SameNumber(b, a);
    }
  }

  lemma AbsentEverywhere(b: BasicBlock, u: set<BasicBlock>)
    requires Mirror(u) && b in u
    ensures forall a :: a in u && a !in b.predecessors ==> Without(a.successors, b.id) == a.successors
    ensures forall a :: a in u && a !in b.successors ==> Without(a.predecessors, b.id) == a.predecessors
  {
    OnlyBlockOfItsNumber(b, u);
    forall a | a in u && a !in b.predecessors ensures Without(a.successors, b.id) == a.successors {
      NoPredecessorNoSuccessor(a, b, u);
      WithoutAbsent(a.successors, b.id);
    }
    forall a | a in u && a !in b.successors ensures Without(a.predecessors, b.id) == a.predecessors {
      assert Mirrored(b, a);
      WithoutAbsent(a.predecessors, b.id);
    }
  }

  lemma RemovalKeepsBalance(succs: seq<BasicBlock>, succs': seq<BasicBlock>, preds: seq<BasicBlock>,
                            preds': seq<BasicBlock>, a: BasicBlock, b: BasicBlock, x: BasicBlock, y: BasicBlock)
    requires (SameNumber(x, a) ==> x == a) && (SameNumber(y, b) ==> y == b)
    requires multiset(succs)[y] == multiset(preds)[x]
    requires succs' == (if x == a then Without(succs, b.id) else succs)
    requires preds' == (if y == b then Without(preds, a.id) else preds)
    ensures multiset(succs')[y] == multiset(preds')[x]
  {
    RemovalCounts(succs, b, y);
    RemovalCounts(preds, a, x);
  }

  /** Delete all edges from `a` to `b`, on both sides. */
  method DeleteEdges(a: BasicBlock, b: BasicBlock, ghost u: set<BasicBlock>)
    requires Mirror(u) && a in u && b in u
    modifies a`successors, b`predecessors
    ensures a.successors == Without(old(a.successors), b.id) && b.predecessors == Without(old(b.predecessors), a.id)
    ensures Mirror(u)
  {
    a.successors := Without(a.successors, b.id);
    b.predecessors := Without(b.predecessors, a.id);
    WithoutIsSublist(old(a.successors), b.id);
    WithoutIsSublist(old(b.predecessors), a.id);
    forall x, y | x in u && y in u ensures Mirrored(x, y) {
      assert old(Mirrored(x, y));
      assert (SameNumber(x, a) ==> x == a) && (SameNumber(y, b) ==> y == b);
      RemovalKeepsBalance(old(x.successors), x.successors, old(y.predecessors), y.predecessors, a, b, x, y);
    }
  }

  lemma {:induction false} WithoutIsSublist(s: seq<BasicBlock>, id: nat)
    ensures forall b :: b in Without(s, id) <==> b in s && b.id != id
    ensures |Without(s, id)| <= |s|
    ensures (exists b :: b in s && b.id == id) ==> |Without(s, id)| < |s|
  {
    if s != [] {
      WithoutIsSublist(s[1..], id);
      assert s == [s[0]] + s[1..];
    }
  }

  /** The last block of a list with the given number, if any. */
  method FindBlock(s: seq<BasicBlock>, id: nat) returns (found: BasicBlock?)
    ensures found == null <==> forall b :: b in s ==> b.id != id
    ensures found != null ==> found in s && found.id == id
  {
    found := null;
    var i := 0;
    while i < |s|
      invariant 0 <= i <= |s|
      invariant found == null <==> forall b :: b in s[..i] ==> b.id != id
      invariant found != null ==> found in s[..i] && found.id == id
    {
      assert s[..i + 1] == s[..i] + [s[i]];
      if s[i].id == id {
        found := s[i];
      }
      i := i + 1;
    }
    assert s[..i] == s;
  }

  class LiveInterval {
    var start: nat
    var end: nat

    constructor (start: nat, end: nat)
      ensures this.start == start && this.end == end
    {
      this.start, this.end := start, end;
    }
  }

  /** The blocks of a function are numbered by their position in the block list. */
  ghost predicate Numbered(bbs: seq<BasicBlock>) {
    forall i :: 0 <= i < |bbs| ==> bbs[i].id == i
  }

  ghost predicate PredecessorsListed(bbs: seq<BasicBlock>)
    reads bbs`predecessors
  {
    forall b, p :: b in bbs && p in b.predecessors ==> p in bbs
  }

  /** `e` is the flow graph drawn by the predecessor lists, blocks being known by number. */
  ghost predicate HasEdges(bbs: seq<BasicBlock>, e: Edges)
    reads bbs`predecessors
  {
    forall p: nat, n: nat :: (p, n) in e <==> p < |bbs| && n < |bbs| && bbs[p] in bbs[n].predecessors
  }

  /** `e` is the graph drawn by the successor lists of the blocks of `u`, by number. */
  ghost predicate Draws(u: set<BasicBlock>, e: Edges)
    reads u`successors
  {
    && (forall a, b {:trigger Drawn(a, b, e)} :: a in u && b in u ==> Drawn(a, b, e))
    && forall p :: p in e ==> Joins(u, p)
  }

  ghost predicate Drawn(a: BasicBlock, b: BasicBlock, e: Edges)
    reads a`successors
  {
    (a.id, b.id) in e <==> b in a.successors
  }

  ghost predicate Joins(u: set<BasicBlock>, p: (nat, nat)) {
    exists a, b :: a in u && b in u && p == (a.id, b.id)
  }

  ghost function Numbers(s: seq<BasicBlock>): set<nat> {
    set b | b in s :: b.id
  }

  lemma NoProducts(succs: seq<BasicBlock>)
    ensures forall e: Edges, preds: seq<BasicBlock> :: e + Product(Numbers(preds[..0]), Numbers(succs)) == e
  {
  }

  lemma OneMoreRow(e: Edges, preds: seq<BasicBlock>, i: nat, succs: seq<BasicBlock>)
    requires i < |preds|
    ensures e + Product(Numbers(preds[..i]), Numbers(succs)) + Product({preds[i].id}, Numbers(succs))
      == e + Product(Numbers(preds[..i + 1]), Numbers(succs))
  {
    assert preds[..i + 1] == preds[..i] + [preds[i]];
    assert Numbers(preds[..i + 1]) == Numbers(preds[..i]) + {preds[i].id};
  }

  /** The neighbours of a block, by number, are its neighbours in the drawn graph. */
  lemma NeighboursDrawn(b: BasicBlock, u: set<BasicBlock>, e: Edges)
    requires Mirror(u) && Draws(u, e) && b in u
    ensures forall m: nat :: m in Numbers(b.predecessors) <==> (m, b.id) in e
    ensures forall n: nat :: n in Numbers(b.successors) <==> (b.id, n) in e
  {
    OnlyBlockOfItsNumber(b, u);
    forall m: nat ensures m in Numbers(b.predecessors) <==> (m, b.id) in e {
      if (m, b.id) in e {
        assert Joins(u, (m, b.id));
        var a, c :| a in u && c in u && (m, b.id) == (a.id, c.id);
        assert Mirrored(a, b) && Drawn(a, b, e);
      }
      if m in Numbers(b.predecessors) {
        var a :| a in b.predecessors && a.id == m;
        assert Mirrored(a, b) && Drawn(a, b, e);
      }
    }
    forall n: nat ensures n in Numbers(b.successors) <==> (b.id, n) in e {
      if (b.id, n) in e {
        assert Joins(u, (b.id, n));
        var a, c :| a in u && c in u && (b.id, n) == (a.id, c.id);
        assert Drawn(b, c, e);
      }
      if n in Numbers(b.successors) {
        var a :| a in b.successors && a.id == n;
        assert Drawn(b, a, e);
      }
    }
  }

  /** One more edge. */
  method AddEdge(bb: BasicBlock, succ: BasicBlock, ghost u: set<BasicBlock>, ghost e: Edges)
    requires Mirror(u) && Draws(u, e) && bb in u && succ in u
    modifies bb`successors, succ`predecessors
    ensures bb.successors == old(bb.successors) + [succ] && succ.predecessors == old(succ.predecessors) + [bb]
    ensures Mirror(u) && Draws(u, e + {(bb.id, succ.id)})
  {
    bb.AddSuccessor(succ, u);
    assert Joins(u, (bb.id, succ.id));
    forall a, b | a in u && b in u ensures Drawn(a, b, e + {(bb.id, succ.id)}) {
      assert old(Drawn(a, b, e)) && (SameNumber(a, bb) ==> a == bb) && (SameNumber(b, succ) ==> b == succ);
    }
  }

  /** An edge is added from either end, so that it occurs twice in each list. */
  method ConnectTwice(pred: BasicBlock, succ: BasicBlock, ghost u: set<BasicBlock>, ghost e: Edges)
    requires Mirror(u) && Draws(u, e) && pred in u && succ in u
    modifies pred`successors, succ`predecessors
    ensures Mirror(u) && Draws(u, e + {(pred.id, succ.id)})
    ensures pred.successors == old(pred.successors) + [succ, succ]
    ensures succ.predecessors == old(succ.predecessors) + [pred, pred]
  {
    AddEdge(pred, succ, u, e);
    succ.AddPredecessor(pred, u);
    forall a, b | a in u && b in u ensures Drawn(a, b, e + {(pred.id, succ.id)}) {
      assert old(Drawn(a, b, e)) && (SameNumber(a, pred) ==> a == pred) && (SameNumber(b, succ) ==> b == succ);
    }
  }

  /** Every block of a list twice, in order. */
  function Doubled(s: seq<BasicBlock>): seq<BasicBlock> {
    if s == [] then [] else Doubled(s[..|s| - 1]) + [s[|s| - 1], s[|s| - 1]]
  }

  lemma {:induction false} DoubledAt(s: seq<BasicBlock>, i: nat)
    requires i < |s|
    ensures |Doubled(s)| == 2 * |s| && Doubled(s)[2 * i] == Doubled(s)[2 * i + 1] == s[i]
  {
    var n := |s| - 1;
    if n > 0 {
      DoubledAt(s[..n], if i < n then i else 0);
    }
  }

  /** Connect `pred` to every block of a list, by two edges each. */
  method ConnectToAll(pred: BasicBlock, succs: seq<BasicBlock>, ghost u: set<BasicBlock>, ghost e: Edges)
    requires Mirror(u) && Draws(u, e) && pred in u
    requires forall s :: s in succs ==> s in u
    modifies pred`successors, succs`predecessors
    ensures Mirror(u) && Draws(u, e + Product({pred.id}, Numbers(succs)))
    ensures pred.successors == old(pred.successors) + Doubled(succs)
  {
    var j := 0;
    assert e + Product({pred.id}, Numbers(succs[..0])) == e;
    while j < |succs|
      invariant 0 <= j <= |succs|
      invariant Mirror(u)
      invariant Draws(u, e + Product({pred.id}, Numbers(succs[..j])))
      invariant pred.successors == old(pred.successors) + Doubled(succs[..j])
    {
      assert succs[..j + 1][..j] == succs[..j];
      ConnectTwice(pred, succs[j], u, e + Product({pred.id}, Numbers(succs[..j])));
      OneMoreColumn(e, pred.id, succs, j);
      j := j + 1;
    }
    assert succs[..j] == succs;
  }

  lemma OneMoreColumn(e: Edges, m: nat, succs: seq<BasicBlock>, j: nat)
    requires j < |succs|
    ensures e + Product({m}, Numbers(succs[..j])) + {(m, succs[j].id)} == e + Product({m}, Numbers(succs[..j + 1]))
  {
    assert succs[..j + 1] == succs[..j] + [succs[j]];
    assert Numbers(succs[..j + 1]) == Numbers(succs[..j]) + {succs[j].id};
  }

  // ---------------------------------------------------------------- splitting a block

  function InsnsFrom(s: seq<Ins>, offset: nat): seq<Ins> {
    if s == [] then []
    else
      var last := s[|s| - 1];
      InsnsFrom(s[..|s| - 1], offset) + if last.offset >= offset then [last] else []
  }

  function InsnsBelow(s: seq<Ins>, offset: nat): seq<Ins> {
    if s == [] then []
    else
      var last := s[|s| - 1];
      InsnsBelow(s[..|s| - 1], offset) + if last.offset >= offset then [] else [last]
  }

  lemma AppendCounts<T>(s: seq<T>, x: T)
    ensures multiset(s + [x]) == multiset(s) + multiset{x} && s + [] == s
  {
  }

  /** A split loses no instruction and doubles none. */
  lemma {:induction false} SplitKeepsAll(s: seq<Ins>, offset: nat)
    ensures multiset(InsnsBelow(s, offset)) + multiset(InsnsFrom(s, offset)) == multiset(s)
  {
    if s != [] {
      var rest, last := s[..|s| - 1], s[|s| - 1];
      SplitKeepsAll(rest, offset);
      assert s == rest + [last];
      AppendCounts(rest, last);
      AppendCounts(InsnsFrom(rest, offset), last);
      AppendCounts(InsnsBelow(rest, offset), last);
    }
  }

  /** The instructions from `offset` on move, the others stay. */
  lemma {:induction false} SplitByOffset(s: seq<Ins>, offset: nat, ins: Ins)
    ensures ins in InsnsBelow(s, offset) <==> ins in s && ins.offset < offset
    ensures ins in InsnsFrom(s, offset) <==> ins in s && offset <= ins.offset
  {
    if s != [] {
      SplitByOffset(s[..|s| - 1], offset, ins);
      assert s == s[..|s| - 1] + [s[|s| - 1]];
    }
  }

  /** Both parts keep the order of the instructions. */
  lemma {:induction false} SplitKeepsOrder(a: seq<Ins>, b: seq<Ins>, offset: nat)
    ensures InsnsBelow(a + b, offset) == InsnsBelow(a, offset) + InsnsBelow(b, offset)
    ensures InsnsFrom(a + b, offset) == InsnsFrom(a, offset) + InsnsFrom(b, offset)
  {
    if b == [] {
      assert a + b == a;
    } else {
      var rest, last := b[..|b| - 1], b[|b| - 1];
      SplitKeepsOrder(a, rest, offset);
      assert (a + b)[..|a + b| - 1] == a + rest && (a + b)[|a + b| - 1] == last;
    }
  }

  /** On instructions in offset order a split is a cut: first the part that stays, then the rest. */
  lemma {:induction false} SplitOfSortedIsCut(s: seq<Ins>, offset: nat)
    requires forall i, j :: 0 <= i < j < |s| ==> s[i].offset <= s[j].offset
    ensures InsnsBelow(s, offset) + InsnsFrom(s, offset) == s
  {
    if s != [] {
      var m := |s| - 1;
      SplitOfSortedIsCut(s[..m], offset);
      assert s == s[..m] + [s[m]];
      if s[m].offset < offset {
        NothingFrom(s[..m], offset);
      }
    }
  }

  lemma {:induction false} NothingFrom(s: seq<Ins>, offset: nat)
    requires forall i :: 0 <= i < |s| ==> s[i].offset < offset
    ensures InsnsFrom(s, offset) == []
  {
    if s != [] {
      NothingFrom(s[..|s| - 1], offset);
    }
  }

  lemma InsnsStep(s: seq<Ins>, k: nat, offset: nat)
    requires k < |s|
    ensures InsnsFrom(s[..k + 1], offset) == InsnsFrom(s[..k], offset) + if s[k].offset >= offset then [s[k]] else []
    ensures InsnsBelow(s[..k + 1], offset) == InsnsBelow(s[..k], offset) + if s[k].offset >= offset then [] else [s[k]]
  {
    assert s[..k + 1][..k] == s[..k];
  }

  /** One step of the traversal: the instruction moves over, or stays behind. */
  method MoveOrKeep(from: BasicBlock, into: BasicBlock, offset: nat, i: nat, inst: Ins, ghost stays: seq<Ins>,
                    ghost rest: seq<Ins>)
    returns (moves: bool)
    requires from != into && rest != [] && i == |stays| && from.insns == stays + rest && inst == rest[0]
    modifies from`insns, into`insns, inst`bb
    ensures moves <==> inst.offset >= offset
    ensures from.insns == (if moves then stays else stays + [inst]) + rest[1..]
    ensures into.insns == old(into.insns) + if moves then [inst] else []
    ensures inst.bb == if moves then into else old(inst.bb)
  {
    EraseAt(stays, rest);
    moves := inst.offset >= offset;
    if moves {
      into.AddIns(inst);
      from.insns := from.insns[..i] + from.insns[i + 1..];
    }
  }

  /** Erase the instructions from `offset` on while traversing the list, and append them to `into`. */
  method MoveInsns(from: BasicBlock, into: BasicBlock, offset: nat) returns (copiedAnything: bool)
    requires from != into
    modifies from`insns, into`insns, from.insns`bb
    ensures from.insns == InsnsBelow(old(from.insns), offset)
    ensures into.insns == old(into.insns) + InsnsFrom(old(from.insns), offset)
    ensures forall ins :: ins in old(from.insns) && ins.offset >= offset ==> ins.bb == into
    ensures copiedAnything <==> InsnsFrom(old(from.insns), offset) != []
  {
    ghost var all, k: nat := from.insns, 0;
    ghost var stays: seq<Ins>, moved: seq<Ins>, rest := [], [], from.insns;
    copiedAnything := false;
    var i := 0;
    while i < |from.insns|
      invariant Moving(all, k, offset, stays, moved, rest)
      invariant i == |stays| && from.insns == stays + rest && into.insns == old(into.insns) + moved
      invariant forall m :: 0 <= m < k && all[m].offset >= offset ==> all[m].bb == into
      invariant copiedAnything <==> moved != []
      decreases |rest|
    {
      MovingStep(all, k, offset, stays, moved, rest);
      var inst := from.insns[i];
      assert inst == rest[0];
      var moves := MoveOrKeep(from, into, offset, i, inst, stays, rest);
      if moves {
        copiedAnything := true;
        moved := moved + [inst];
      } else {
        i := i + 1;
        stays := stays + [inst];
      }
      k, rest := k + 1, rest[1..];
    }
    assert all[..k] == all;
  }

  /** The first `k` instructions have been visited. */
  ghost predicate Moving(all: seq<Ins>, k: nat, offset: nat, stays: seq<Ins>, moved: seq<Ins>, rest: seq<Ins>) {
    && k <= |all| && rest == all[k..]
    && stays == InsnsBelow(all[..k], offset) && moved == InsnsFrom(all[..k], offset)
  }

  lemma MovingStep(all: seq<Ins>, k: nat, offset: nat, stays: seq<Ins>, moved: seq<Ins>, rest: seq<Ins>)
    requires Moving(all, k, offset, stays, moved, rest) && rest != []
    ensures k < |all| && rest[0] == all[k]
    ensures if rest[0].offset >= offset
      then Moving(all, k + 1, offset, stays, moved + [rest[0]], rest[1..])
      else Moving(all, k + 1, offset, stays + [rest[0]], moved, rest[1..])
  {
    InsnsStep(all, k, offset);
  }

  lemma EraseAt<T>(a: seq<T>, b: seq<T>)
    ensures b != [] ==>
      && (a + b)[|a|] == b[0]
      && (a + b)[..|a|] + (a + b)[|a| + 1..] == a + b[1..]
      && a + b == (a + [b[0]]) + b[1..]
  {
  }

  /** Move the instructions from `offset` on into another block. If there are any, that block takes
      over all successors and becomes the only successor of the first. */
  method Split(from: BasicBlock, into: BasicBlock, offset: nat, ghost u: set<BasicBlock>, ghost e: Edges)
    requires Mirror(u) && Draws(u, e) && from in u && into in u && from != into
    modifies from`insns, into`insns, from.insns`bb, u`successors, u`predecessors
    ensures from.insns == InsnsBelow(old(from.insns), offset)
    ensures into.insns == old(into.insns) + InsnsFrom(old(from.insns), offset)
    ensures forall ins :: ins in old(from.insns) && ins.offset >= offset ==> ins.bb == into
    ensures Mirror(u)
    ensures InsnsFrom(old(from.insns), offset) == [] ==> Draws(u, e)
    ensures InsnsFrom(old(from.insns), offset) != [] ==>
      && Draws(u, SplitEdges(e, from.id, into.id)) && from.successors == [into, into]
      && into.successors == old(into.successors) + Doubled(old(from.successors))
  {
    var copiedAnything := MoveInsns(from, into, offset);
    if copiedAnything {
      HandOverSuccessors(from, into, u, e);
    }
  }

  method HandOverSuccessors(from: BasicBlock, into: BasicBlock, ghost u: set<BasicBlock>, ghost e: Edges)
    requires Mirror(u) && Draws(u, e) && from in u && into in u && from != into
    modifies u`successors, u`predecessors
    ensures Mirror(u) && Draws(u, SplitEdges(e, from.id, into.id)) && from.successors == [into, into]
    ensures into.successors == old(into.successors) + Doubled(old(from.successors))
  {
    var succs := from.successors;
    NeighboursDrawn(from, u, e);
    assert SameNumber(from, into) ==> from == into;
    ConnectToAll(into, succs, u, e);
    DropSuccessors(from, u, e + Product({into.id}, Numbers(succs)));
    ConnectTwice(from, into, u, set p | p in e + Product({into.id}, Numbers(succs)) && p.0 != from.id);
    HandOverThenLink(e, from.id, into.id, Numbers(succs));
  }

  method DropSuccessors(b: BasicBlock, ghost u: set<BasicBlock>, ghost e: Edges)
    requires Mirror(u) && Draws(u, e) && b in u
    modifies u`successors, u`predecessors
    ensures b.successors == [] && Mirror(u) && Draws(u, set p | p in e && p.0 != b.id)
    ensures forall a :: a in u && a != b ==> a.successors == old(a.successors)
  {
    OnlyBlockOfItsNumber(b, u);
    b.RemoveAllSuccessors(u);
    forall a, c | a in u && c in u ensures Drawn(a, c, set p | p in e && p.0 != b.id) {
      assert old(Drawn(a, c, e));
    }
  }
}

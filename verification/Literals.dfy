/** Literal operands: how an index is classified against the function's bounds, how the decoder
    records it, and how the bounds and the indices move when registers are saved. */
module Literals {
  import opened IR

  /** The bounds of the index ranges, as 16-bit numbers. */
  datatype Bounds = Bounds(argumentEnd: nat, registerEnd: nat, identEnd: nat, constLiteralEnd: nat, literalEnd: nat)

  /** Truncation to `uint16_t`. */
  function U16(x: int): nat {
    x % 0x1_0000
  }

  ghost predicate Ordered(b: Bounds) {
    b.argumentEnd <= b.registerEnd <= b.identEnd <= b.constLiteralEnd <= b.literalEnd < 0x1_0000
  }

  /** The class of an index below `literalEnd`. */
  function Classify(b: Bounds, index: nat): LiteralType {
    if index < b.argumentEnd then Argument
    else if index < b.registerEnd then Register
    else if index < b.identEnd then Ident
    else if index < b.constLiteralEnd then Constant
    else Template
  }

  /** The kinds divide the indices below `literalEnd` between them. */
  lemma KindsDivideIndices(b: Bounds, index: nat)
    requires Ordered(b) && index < b.literalEnd
    ensures Classify(b, index) == Argument <==> index < b.argumentEnd
    ensures Classify(b, index) == Register <==> b.argumentEnd <= index < b.registerEnd
    ensures Classify(b, index) == Ident <==> b.registerEnd <= index < b.identEnd
    ensures Classify(b, index) == Constant <==> b.identEnd <= index < b.constLiteralEnd
    ensures Classify(b, index) == Template <==> b.constLiteralEnd <= index
  {
  }

  function MoveBounds(b: Bounds, offset: int): Bounds {
    Bounds(b.argumentEnd, U16(b.registerEnd + offset), U16(b.identEnd + offset),
           U16(b.constLiteralEnd + offset), U16(b.literalEnd + offset))
  }

  function MoveIndex(lit: Literal, offset: int): Literal {
    lit.(index := U16(lit.index + offset))
  }

  class BytecodeArguments {
    var bounds: Bounds

    constructor (bounds: Bounds)
      ensures this.bounds == bounds
    {
      this.bounds := bounds;
    }

    method MoveRegIndex(offset: int)
      modifies this
      ensures bounds == MoveBounds(old(bounds), offset) && bounds.argumentEnd == old(bounds).argumentEnd
      ensures bounds.registerEnd == (old(bounds).registerEnd + offset) % 0x1_0000
      ensures bounds.identEnd == (old(bounds).identEnd + offset) % 0x1_0000
      ensures bounds.constLiteralEnd == (old(bounds).constLiteralEnd + offset) % 0x1_0000
      ensures bounds.literalEnd == (old(bounds).literalEnd + offset) % 0x1_0000
    {
      bounds := bounds.(registerEnd := U16(bounds.registerEnd + offset));
      bounds := bounds.(identEnd := U16(bounds.identEnd + offset));
      bounds := bounds.(constLiteralEnd := U16(bounds.constLiteralEnd + offset));
      bounds := bounds.(literalEnd := U16(bounds.literalEnd + offset));
    }
  }

  // ---------------------------------------------------------------- moving

  /** Lowering the register bound to `used` moves a non-register literal without wrap-around: its
      slot in the literal pool, counted from the register bound, stays the same, and two literals
      stay apart. */
  lemma MovedLiteralKeepsSlot(b: Bounds, used: nat, a: Literal, c: Literal)
    requires Ordered(b) && used < b.registerEnd
    requires b.registerEnd <= a.index < b.literalEnd && b.registerEnd <= c.index < b.literalEnd
    ensures var offset := used - b.registerEnd;
      && MoveBounds(b, offset).registerEnd == used
      && MoveIndex(a, offset).index - MoveBounds(b, offset).registerEnd == a.index - b.registerEnd
      && MoveIndex(a, offset).index < MoveBounds(b, offset).literalEnd
      && (MoveIndex(a, offset).index == MoveIndex(c, offset).index <==> a.index == c.index)
  {
  }

  /** The ranges above the registers keep their lengths, and that of the arguments keeps its bound. */
  lemma MovedBoundsKeepRanges(b: Bounds, used: nat)
    requires Ordered(b) && used < b.registerEnd
    ensures var moved := MoveBounds(b, used - b.registerEnd);
      && moved.registerEnd == used && moved.argumentEnd == b.argumentEnd
      && moved.identEnd - moved.registerEnd == b.identEnd - b.registerEnd
      && moved.constLiteralEnd - moved.identEnd == b.constLiteralEnd - b.identEnd
      && moved.literalEnd - moved.constLiteralEnd == b.literalEnd - b.constLiteralEnd
  {
  }

  lemma MovedLiteralKeepsClass(b: Bounds, used: nat, lit: Literal)
    requires Ordered(b) && b.argumentEnd <= used < b.registerEnd <= lit.index < b.literalEnd
    ensures Classify(MoveBounds(b, used - b.registerEnd), MoveIndex(lit, used - b.registerEnd).index)
      == Classify(b, lit.index)
  {
  }

  /** The moved bounds classify every moved non-register literal as before exactly when the
      arguments, whose bound does not move, still fit below the new register bound. */
  lemma MovedLiteralsKeepClassIff(b: Bounds, used: nat)
    requires Ordered(b) && used < b.registerEnd < b.literalEnd
    ensures var offset := used - b.registerEnd;
      (forall lit: Literal :: b.registerEnd <= lit.index < b.literalEnd ==>
         Classify(MoveBounds(b, offset), MoveIndex(lit, offset).index) == Classify(b, lit.index))
      <==> b.argumentEnd <= used
  {
    var offset := used - b.registerEnd;
    if b.argumentEnd <= used {
      forall lit: Literal | b.registerEnd <= lit.index < b.literalEnd
        ensures Classify(MoveBounds(b, offset), MoveIndex(lit, offset).index) == Classify(b, lit.index)
      {
        MovedLiteralKeepsClass(b, used, lit);
      }
    } else {
      var first := Literal(Ident, b.registerEnd);
      assert MoveIndex(first, offset).index == used && Classify(b, first.index) != Argument;
      assert b.registerEnd <= first.index < b.literalEnd;
      assert Classify(MoveBounds(b, offset), MoveIndex(first, offset).index) == Argument;
    }
  }

  /** Three arguments and one more register, of which only two registers remain: the first identifier
      moves to index 2, which now counts as an argument. */
  lemma ArgumentsCanSwallowIdent()
    ensures var b := Bounds(3, 4, 6, 6, 6);
      && Classify(b, 4) == Ident
      && Classify(MoveBounds(b, 2 - 4), MoveIndex(Literal(Ident, 4), 2 - 4).index) == Argument
  {
  }

  // ---------------------------------------------------------------- decoding

  ghost function RegisterLiterals(literals: seq<Literal>, registerEnd: nat): set<nat> {
    set lit | lit in literals && lit.index < registerEnd :: lit.index
  }

  /** The decoder's bookkeeping: the registers read are exactly the register literals, and flagged. */
  ghost predicate ReadsMatch(readRegs: seq<nat>, literals: seq<Literal>, hasReadReg: bool, registerEnd: nat) {
    && (set r | r in readRegs) == RegisterLiterals(literals, registerEnd)
    && (readRegs != [] ==> hasReadReg)
  }

  ghost predicate InStep(ins: Ins, registerEnd: nat)
    reads ins
  {
    ReadsMatch(ins.readRegs, ins.literals, ins.hasReadReg, registerEnd)
  }

  /** Classify an index and append it to the operands of an instruction. */
  method DecodeLiteral(ins: Ins, b: Bounds, index: nat) returns (lit: Literal)
    requires index < b.literalEnd && InStep(ins, b.registerEnd)
    modifies ins`hasReadReg, ins`readRegs, ins`literals
    ensures lit == Literal(Classify(b, index), index)
    ensures Ordered(b) ==>
      && (lit.kind == Argument <==> index < b.argumentEnd)
      && (lit.kind == Register <==> b.argumentEnd <= index < b.registerEnd)
      && (lit.kind == Ident <==> b.registerEnd <= index < b.identEnd)
      && (lit.kind == Constant <==> b.identEnd <= index < b.constLiteralEnd)
      && (lit.kind == Template <==> b.constLiteralEnd <= index < b.literalEnd)
    ensures ins.literals == old(ins.literals) + [lit]
    ensures ins.readRegs == old(ins.readRegs) + if index < b.registerEnd then [index] else []
    ensures ins.hasReadReg == (old(ins.hasReadReg) || index < b.registerEnd)
    ensures InStep(ins, b.registerEnd) && (old(WriteListed(ins)) ==> WriteListed(ins))
  {
    var kind;
    if index < b.argumentEnd {
      kind := Argument;
    } else if index < b.registerEnd {
      kind := Register;
    } else if index < b.identEnd {
      kind := Ident;
    } else if index < b.constLiteralEnd {
      kind := Constant;
    } else {
      kind := Template;
    }
    lit := Literal(kind, index);
    if index < b.registerEnd {
      ins.hasReadReg := true;
      ins.readRegs := ins.readRegs + [index];
    }
    ins.literals := ins.literals + [lit];
    RegisterLiteralsAppend(old(ins.literals), lit, b.registerEnd);
    assert (set r | r in ins.readRegs) ==
      (set r | r in old(ins.readRegs)) + (if index < b.registerEnd then {index} else {});
  }

  lemma RegisterLiteralsAppend(literals: seq<Literal>, lit: Literal, registerEnd: nat)
    ensures RegisterLiterals(literals + [lit], registerEnd) ==
      RegisterLiterals(literals, registerEnd) + if lit.index < registerEnd then {lit.index} else {}
  {
    forall r ensures r in RegisterLiterals(literals + [lit], registerEnd) <==>
        r in RegisterLiterals(literals, registerEnd) || (r == lit.index && lit.index < registerEnd) {
      if r in RegisterLiterals(literals, registerEnd) {
        var l :| l in literals && l.index < registerEnd && l.index == r;
        assert l in literals + [lit];
      }
    }
  }

  /** A written register is also decoded as an operand, so it is listed among those read. */
  method SetWriteReg(ins: Ins, b: Bounds, index: nat)
    requires Ordered(b) && index < b.registerEnd && InStep(ins, b.registerEnd)
    modifies ins`hasReadReg, ins`readRegs, ins`literals, ins`hasWriteReg, ins`writeReg
    ensures ins.hasWriteReg && ins.writeReg == index
    ensures ins.hasReadReg && ins.readRegs == old(ins.readRegs) + [index]
    ensures ins.literals == old(ins.literals) + [Literal(if index < b.argumentEnd then Argument else Register, index)]
    ensures InStep(ins, b.registerEnd) && WriteListed(ins)
  {
    ins.hasWriteReg := true;
    ins.writeReg := index;
    var lit := DecodeLiteral(ins, b, index);
  }
}

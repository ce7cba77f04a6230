/**
 * `assembler`: the x86-64 emitters over one code buffer. Each emitting
 * method appends exactly the bytes its layout function in `Instructions`
 * gives; `Bind` patches a label's pending fields in place.
 */
module Assembly {
  import opened Bytes
  import opened Registers
  import opened Operands
  import opened Buffers
  import opened Labels
  import opened Instructions

  class Assembler {
    const buffer: CodeBuffer

    ghost predicate Valid()
      reads this, buffer
    {
      buffer.Valid()
    }

    /** The bytes emitted so far. */
    function Code(): (s: seq<Byte>)
      reads this, buffer, buffer.data
      requires Valid()
      ensures |s| <= INITIAL_CAPACITY
    {
      buffer.Contents()
    }

    /** Whether n more bytes fit in the allocation; the source never checks this. */
    predicate HasRoom(n: nat)
      reads this, buffer
    {
      buffer.HasRoom(n)
    }

    /** `assembler_new`: an assembler over a fresh, empty buffer. */
    constructor ()
      ensures Valid() && fresh(buffer) && fresh(buffer.data)
      ensures Code() == [] && HasRoom(INITIAL_CAPACITY)
    {
      buffer := new CodeBuffer();
    }

    /** `assembler_size`: the number of bytes emitted. */
    function Size(): (n: int)
      reads this, buffer, buffer.data
      requires Valid()
      ensures n == |Code()| && 0 <= n <= INITIAL_CAPACITY
    {
      buffer.Size()
    }

    /** `assembler_emit_uint8`. */
    method EmitUint8(value: Byte)
      requires Valid() && HasRoom(1)
      modifies buffer, buffer.data
      ensures Valid() && Code() == old(Code()) + [value]
    {
      buffer.EmitUint8(value);
    }

    /** `assembler_emit_int32`. */
    method EmitInt32(value: Int32)
      requires Valid() && HasRoom(4)
      modifies buffer, buffer.data
      ensures Valid() && Code() == old(Code()) + LE32(value)
    {
      buffer.EmitInt32(value);
    }

    /** `assembler_emit_immediate`: the 64-bit immediate, little-endian. */
    method EmitImmediate(imm: Int64)
      requires Valid() && HasRoom(8)
      modifies buffer, buffer.data
      ensures Valid() && Code() == old(Code()) + LE64(imm)
    {
      buffer.EmitInt64(imm);
    }

    /** `assembler_emit_operand`: the operand's bytes with rm added into the reg field of its first. */
    method EmitOperand(rm: Byte, op: Operand)
      requires Valid() && |op.encoding| >= 1 && HasRoom(|op.encoding|)
      modifies buffer, buffer.data
      ensures Valid() && Code() == old(Code()) + OperandBytes(rm, op)
    {
      var length := |op.encoding|;
      EmitUint8(op.encoding[0] + (rm << 3));
      var i := 1;
      while i < length
        invariant 1 <= i <= length
        invariant Valid() && HasRoom(length - i)
        invariant Code() == old(Code()) + OperandBytes(rm, op)[..i]
      {
        EmitUint8(op.encoding[i]);
        i := i + 1;
      }
    }

    /** `assembler_emit_operand_rex`: the REX prefix for rm and op, if any bit is set. */
    method EmitOperandRex(rm: Register, op: Operand, rex: Rex)
      requires Valid() && HasRoom(1)
      modifies buffer, buffer.data
      ensures Valid() && Code() == old(Code()) + OperandRexBytes(rm, op, rex)
    {
      var bits := rex.Or(if rm > 7 then REX_R else REX_NONE).Or(op.rex);
      if bits != REX_NONE {
        EmitUint8(REX_PREFIX | bits.Bits());
      }
    }

    /** `assembler_emit_register_rex`: the REX prefix for reg, if any bit is set. */
    method EmitRegisterRex(reg: Register, rex: Rex)
      requires Valid() && HasRoom(1)
      modifies buffer, buffer.data
      ensures Valid() && Code() == old(Code()) + RegisterRexBytes(reg, rex)
    {
      var bits := rex.Or(if reg > 7 then REX_B else REX_NONE);
      if bits != REX_NONE {
        EmitUint8(REX_PREFIX | bits.Bits());
      }
    }

    /** `assembler_ret`. */
    method Ret()
      requires Valid() && HasRoom(1)
      modifies buffer, buffer.data
      ensures Valid() && Code() == old(Code()) + [RET]
    {
      EmitUint8(RET);
    }

    /** `assembler_movq_ri`. */
    method MovqRi(dst: Register, imm: Int64)
      requires Valid() && HasRoom(10)
      modifies buffer, buffer.data
      ensures Valid() && Code() == old(Code()) + MovqRiBytes(dst, imm)
    {
      EmitRegisterRex(dst, REX_W);
      EmitUint8(0xB8 | (dst & 7));
      EmitImmediate(imm);
    }

    /** `assembler_addq_rr`. */
    method AddqRr(dst: Register, src: Register)
      requires Valid() && HasRoom(3)
      modifies buffer, buffer.data
      ensures Valid() && Code() == old(Code()) + AddqRrBytes(dst, src)
    {
      var op := OperandRegister(src);
      EmitOperandRex(dst, op, REX_W);
      EmitUint8(0x03);
      EmitOperand(dst & 7, op);
    }

    /** `assembler_addq_ra`. */
    method AddqRa(dst: Register, addr: Operand)
      requires Valid() && |addr.encoding| >= 1 && HasRoom(2 + |addr.encoding|)
      modifies buffer, buffer.data
      ensures Valid() && Code() == old(Code()) + AddqRaBytes(dst, addr)
    {
      EmitOperandRex(dst, addr, REX_W);
      EmitUint8(0x03);
      EmitOperand(dst & 7, addr);
    }

    /** `assembler_addq_ar`. */
    method AddqAr(addr: Operand, src: Register)
      requires Valid() && |addr.encoding| >= 1 && HasRoom(2 + |addr.encoding|)
      modifies buffer, buffer.data
      ensures Valid() && Code() == old(Code()) + AddqArBytes(addr, src)
    {
      EmitOperandRex(src, addr, REX_W);
      EmitUint8(0x01);
      EmitOperand(src & 7, addr);
    }

    /** `assembler_addq_ri`: `movq tmp, imm` then `addq dst, tmp`. */
    method AddqRi(dst: Register, imm: Int64)
      requires Valid() && HasRoom(13)
      modifies buffer, buffer.data
      ensures Valid() && Code() == old(Code()) + MovqRiBytes(TMP, imm) + AddqRrBytes(dst, TMP)
    {
      MovqRi(TMP, imm);
      AddqRr(dst, TMP);
    }

    /** `assembler_addq_ai`: `movq tmp, imm` then `addq [addr], tmp`. */
    method AddqAi(addr: Operand, imm: Int64)
      requires Valid() && |addr.encoding| >= 1 && HasRoom(12 + |addr.encoding|)
      modifies buffer, buffer.data
      ensures Valid() && Code() == old(Code()) + MovqRiBytes(TMP, imm) + AddqArBytes(addr, TMP)
    {
      MovqRi(TMP, imm);
      AddqAr(addr, TMP);
    }

    /**
     * `assembler_emit_label_link`: a field holding the label's current value,
     * `(int32_t)pos`, and the label linked at that field. On a label that is
     * not bound and whose chain is well formed, the chain grows by the new field.
     */
    method EmitLabelLink(lbl: Label)
      requires Valid() && HasRoom(4)
      modifies buffer, buffer.data, lbl
      ensures Valid()
      ensures Code() == old(Code()) + LE32(Wrap32(old(lbl.pos))) && lbl.pos == LinkTo(old(Size()))
      ensures !IsBound(old(lbl.pos)) && WellLinked(old(Code()), old(lbl.pos)) ==>
        WellLinked(Code(), lbl.pos) && Sites(Code(), lbl.pos) == [old(Size())] + Sites(old(Code()), old(lbl.pos))
    {
      var pos := Size();
      ghost var code := Code();
      ghost var old_pos := lbl.pos;
      EmitInt32(Wrap32(lbl.pos));
      lbl.pos := LinkTo(pos);
      if !IsBound(old_pos) && WellLinked(code, old_pos) {
        if IsLinked(old_pos) {
          LinkedFieldInside(code, old_pos);
        }
        LinkExtendsChain(code, old_pos);
      }
    }

    /**
     * `assembler_emit_label`: for a bound label, the 32-bit distance
     * `(int32_t)(target - size - instr_size)`; otherwise a link, which grows
     * a well-formed chain by the new field as `EmitLabelLink` does.
     */
    method EmitLabel(lbl: Label, instrSize: int)
      requires Valid() && HasRoom(4)
      modifies buffer, buffer.data, lbl
      ensures Valid()
      ensures IsBound(old(lbl.pos)) ==>
        Code() == old(Code()) + LE32(Wrap32(Position(old(lbl.pos)) - old(Size()) - instrSize)) && lbl.pos == old(lbl.pos)
      ensures !IsBound(old(lbl.pos)) ==>
        Code() == old(Code()) + LE32(Wrap32(old(lbl.pos))) && lbl.pos == LinkTo(old(Size()))
      ensures !IsBound(old(lbl.pos)) && WellLinked(old(Code()), old(lbl.pos)) ==>
        WellLinked(Code(), lbl.pos) && Sites(Code(), lbl.pos) == [old(Size())] + Sites(old(Code()), old(lbl.pos))
    {
      if IsBound(lbl.pos) {
        var offset := Position(lbl.pos) - Size();
        EmitInt32(Wrap32(offset - instrSize));
      } else {
        EmitLabelLink(lbl);
      }
    }

    /**
     * `assembler_jmp`. To a bound label: E9 and the distance from the end of
     * the instruction. To an unbound label with `near`: the lone opcode EB,
     * with no displacement and no link. Otherwise: E9 and a link field.
     */
    method Jmp(lbl: Label, near: bool)
      requires Valid() && HasRoom(5)
      modifies buffer, buffer.data, lbl
      ensures Valid()
      ensures IsBound(old(lbl.pos)) ==>
        Code() == old(Code()) + JmpBoundBytes(Position(old(lbl.pos)), old(Size())) && lbl.pos == old(lbl.pos)
      ensures !IsBound(old(lbl.pos)) && near ==>
        Code() == old(Code()) + [JMP_REL8] && lbl.pos == old(lbl.pos)
      ensures !IsBound(old(lbl.pos)) && !near ==>
        Code() == old(Code()) + [JMP_REL32] + LE32(Wrap32(old(lbl.pos))) && lbl.pos == LinkTo(old(Size()) + 1)
      ensures !IsBound(old(lbl.pos)) && !near && WellLinked(old(Code()), old(lbl.pos)) ==>
        WellLinked(Code(), lbl.pos) && Sites(Code(), lbl.pos) == [old(Size()) + 1] + Sites(old(Code()), old(lbl.pos))
    {
      if IsBound(lbl.pos) {
        var offset := Position(lbl.pos) - Size();
        EmitUint8(JMP_REL32);
        EmitInt32(Wrap32(offset - 5));
      } else if near {
        EmitUint8(JMP_REL8);
      } else {
        ghost var code := Code();
        EmitUint8(JMP_REL32);
        if WellLinked(code, lbl.pos) {
          AppendKeepsChain(code, [JMP_REL32], lbl.pos);
        }
        EmitLabelLink(lbl);
      }
    }

    /**
     * `assembler_bind`: walks the label's chain, overwriting each pending
     * field with the distance from the field's end to the current size,
     * then binds the label there. Only the chain's fields change.
     */
    method Bind(lbl: Label)
      requires Valid() && WellLinked(Code(), lbl.pos)
      modifies buffer.data, lbl
      ensures Valid() && Size() == old(Size())
      ensures Code() == Patched(old(Code()), old(lbl.pos), old(Size()))
      ensures lbl.pos == BindTo(old(Size())) && StateOf(lbl.pos) == Bound(old(Size()))
    {
      var bound := Size();
      ghost var start := Code();
      ghost var startPos := lbl.pos;
      while IsLinked(lbl.pos)
        invariant Valid() && |Code()| == bound
        invariant WellLinked(Code(), lbl.pos)
        invariant Patched(Code(), lbl.pos, bound) == Patched(start, startPos, bound)
        decreases lbl.pos
      {
        var site := LinkPosition(lbl.pos);
        ghost var before := Code();
        LinkedFieldInside(before, lbl.pos);
        var next := buffer.LoadInt32(site);
        Decode32LE32(next);
        assert next == NextLink(before, site);
        buffer.StoreInt32(site, Wrap32(bound - (site + 4)));
        assert Code() == Store32(before, site, Rel32(bound, site));
        StableBelow(before, Code(), next, site);
        lbl.pos := next;
      }
      lbl.pos := BindTo(bound);
    }
  }

  /**
   * After `Bind`, every field of the label's old chain holds the distance
   * from its end to the bind point, and every other byte is as it was.
   */
  lemma {:induction false} BindPatchesExactlyTheChain(code: seq<Byte>, pos: int, target: int)
    requires WellLinked(code, pos)
    ensures |Patched(code, pos, target)| == |code|
    ensures forall s :: s in Sites(code, pos) ==>
      0 <= s && s + 4 <= |code| && Patched(code, pos, target)[s..s + 4] == LE32(Rel32(target, s))
    ensures forall i :: 0 <= i < |code| && OffChain(code, pos, i) ==> Patched(code, pos, target)[i] == code[i]
  {
    PatchedLength(code, pos, target);
    forall s | s in Sites(code, pos)
      ensures 0 <= s && s + 4 <= |code| && Patched(code, pos, target)[s..s + 4] == LE32(Rel32(target, s))
    {
      PatchedAtSites(code, pos, target, s);
    }
    forall i | 0 <= i < |code| && OffChain(code, pos, i)
      ensures Patched(code, pos, target)[i] == code[i]
    {
      PatchedElsewhere(code, pos, target, i);
    }
  }
}

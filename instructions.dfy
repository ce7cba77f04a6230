/**
 * The bytes each emitter appends, as functions of its arguments, and an
 * independent decoder for those instruction forms (REX prefix, opcode,
 * ModRM/SIB/displacement or immediate, following chapter 2 of the Intel 64
 * and IA-32 Architectures Software Developer's Manual, Volume 2, and the
 * ADD, MOV, RET and JMP entries of its chapter 3 and 4).
 */
module Instructions {
  import opened Bytes
  import opened Registers
  import opened Operands

  /** `tmp`: the scratch register the immediate forms of ADD load first. */
  const TMP: Register := R11

  /** The REX prefix, if any bit is set: `REX_PREFIX | bits`, and nothing for REX_NONE. */
  function RexPrefix(bits: Rex): (r: seq<Byte>)
    ensures bits == REX_NONE ==> r == []
    ensures bits != REX_NONE ==> |r| == 1 && 0x40 < r[0] < 0x50 && DecodeRex(r[0]) == bits
  {
    if bits == REX_NONE then [] else [RexByte(bits)]
  }

  /** `assembler_emit_operand_rex`: the given bits, REX.R for rm > 7, and the operand's own bits. */
  function OperandRexBytes(rm: Register, op: Operand, rex: Rex): (r: seq<Byte>)
    ensures |r| <= 1 && (rex.w ==> |r| == 1)
  {
    RexPrefix(rex.Or(if rm > 7 then REX_R else REX_NONE).Or(op.rex))
  }

  /** `assembler_emit_register_rex`: the given bits and REX.B for reg > 7. */
  function RegisterRexBytes(reg: Register, rex: Rex): (r: seq<Byte>)
    ensures |r| <= 1 && (rex.w ==> |r| == 1)
  {
    RexPrefix(rex.Or(if reg > 7 then REX_B else REX_NONE))
  }

  /**
   * `assembler_emit_operand`: the first byte is `(uint8_t)(encoding[0] + (rm << 3))`,
   * which puts rm in the reg field of ModRM, then the rest of the operand's bytes.
   */
  function OperandBytes(rm: Byte, op: Operand): (r: seq<Byte>)
    requires |op.encoding| >= 1
    ensures |r| == |op.encoding| && r[1..] == op.encoding[1..]
  {
    [op.encoding[0] + (rm << 3)] + op.encoding[1..]
  }

  /** `assembler_movq_ri`: REX.W (and REX.B for dst > 7), `B8 | (dst & 7)`, then the 8-byte immediate. */
  function MovqRiBytes(dst: Register, imm: Int64): (r: seq<Byte>)
    ensures |r| == 10 && r[2..] == LE64(imm)
  {
    RegisterRexBytes(dst, REX_W) + [0xB8 | (dst & 7)] + LE64(imm)
  }

  /** `assembler_addq_rr`: ADD dst, src as REX.W 03 /r with src in rm. */
  function AddqRrBytes(dst: Register, src: Register): (r: seq<Byte>)
    ensures |r| == 3 && r[1] == 0x03
  {
    var op := OperandRegister(src);
    OperandRexBytes(dst, op, REX_W) + [0x03] + OperandBytes(dst & 7, op)
  }

  /** `assembler_addq_ra`: ADD dst, [addr] as REX.W 03 /r. */
  function AddqRaBytes(dst: Register, addr: Operand): (r: seq<Byte>)
    requires |addr.encoding| >= 1
    ensures |r| == |addr.encoding| + 2 && r[1] == 0x03 && r[3..] == addr.encoding[1..]
  {
    OperandRexBytes(dst, addr, REX_W) + [0x03] + OperandBytes(dst & 7, addr)
  }

  /** `assembler_addq_ar`: ADD [addr], src as REX.W 01 /r. */
  function AddqArBytes(addr: Operand, src: Register): (r: seq<Byte>)
    requires |addr.encoding| >= 1
    ensures |r| == |addr.encoding| + 2 && r[1] == 0x01 && r[3..] == addr.encoding[1..]
  {
    OperandRexBytes(src, addr, REX_W) + [0x01] + OperandBytes(src & 7, addr)
  }

  /** `assembler_ret`. */
  const RET: Byte := 0xC3
  /** JMP rel32. */
  const JMP_REL32: Byte := 0xE9
  /** JMP rel8. */
  const JMP_REL8: Byte := 0xEB

  /**
   * `assembler_jmp` to a label bound at `target`, emitted at offset `at`:
   * E9 and `(int32_t)(target - at - 5)`, the distance from the end of the
   * five-byte instruction.
   */
  function JmpBoundBytes(target: int, at: int): (r: seq<Byte>)
    ensures |r| == 5 && r[0] == JMP_REL32
  {
    [JMP_REL32] + LE32(Wrap32(target - at - 5))
  }

  /** A bound jump is five bytes, and its displacement, added to its end, lands on the target when it fits in 32 bits. */
  lemma {:induction false} JmpBoundLands(target: int, at: int)
    requires -TWO_31 <= target - (at + 5) < TWO_31
    ensures |JmpBoundBytes(target, at)| == 5 && JmpBoundBytes(target, at)[0] == JMP_REL32
    ensures at + 5 + Decode32(JmpBoundBytes(target, at)[1..]) == target
  {
    var v := Wrap32(target - at - 5);
    assert JmpBoundBytes(target, at)[1..] == LE32(v);
    Decode32LE32(v);
  }

  // ---------------------------------------------------------------------
  // A decoder for the forms above

  datatype RegOrMem = Reg(reg: Byte) | Mem(ref: MemoryRef)

  datatype Instruction =
    | MovImm64(movDst: Byte, imm: int)        // REX.W B8+r io
    | AddToReg(regDst: Byte, rmSrc: RegOrMem)  // REX.W 03 /r
    | AddToRM(rmDst: RegOrMem, regSrc: Byte)   // REX.W 01 /r

  /** The r/m operand a ModRM byte (reg field ignored) and what follows it denote. */
  function DecodeRM(rex: Rex, enc: seq<Byte>): Option<RegOrMem>
    requires |enc| >= 1
  {
    if High2(enc[0]) == 3 then
      if |enc| == 1 then Some(Reg((if rex.b then 8 else 0) + Low3(enc[0]))) else None
    else
      match DecodeMemory(Operand(Rex(false, false, rex.x, rex.b), [enc[0] & 0xC7] + enc[1..]))
      case None => None
      case Some(m) => Some(Mem(m))
  }

  /** Decodes exactly one MOV r64, imm64 or ADD instruction with a REX.W prefix, occupying all of `code`. */
  function Decode(code: seq<Byte>): Option<Instruction>
  {
    if |code| < 2 || !(0x40 <= code[0] < 0x50) then None
    else
      var rex := DecodeRex(code[0]);
      var opcode := code[1];
      if !rex.w then None
      else if opcode & 0xF8 == 0xB8 then
        if |code| == 10 then Some(MovImm64((if rex.b then 8 else 0) + (opcode & 7), Decode64(code[2..]))) else None
      else if (opcode == 0x03 || opcode == 0x01) && |code| >= 3 then
        var reg := (if rex.r then 8 else 0) + Mid3(code[2]);
        match DecodeRM(rex, code[2..])
        case None => None
        case Some(rm) => Some(if opcode == 0x03 then AddToReg(reg, rm) else AddToRM(rm, reg))
      else None
  }

  // ---------------------------------------------------------------------
  // Layouts and round trips

  /**
   * `assembler_emit_operand_rex` emits nothing exactly when no bit is
   * wanted, and otherwise one prefix byte carrying the union of the given
   * bits, REX.R for rm > 7, and the operand's bits.
   */
  lemma {:induction false} OperandRexDecodes(rm: Register, op: Operand, rex: Rex)
    ensures |OperandRexBytes(rm, op, rex)| <= 1
    ensures OperandRexBytes(rm, op, rex) == [] <==> rex == REX_NONE && op.rex == REX_NONE && rm <= 7
    ensures OperandRexBytes(rm, op, rex) != [] ==>
      0x40 < OperandRexBytes(rm, op, rex)[0] < 0x50 &&
      DecodeRex(OperandRexBytes(rm, op, rex)[0]) ==
        Rex(rex.w || op.rex.w, rex.r || rm > 7 || op.rex.r, rex.x || op.rex.x, rex.b || op.rex.b)
  {
  }

  /**
   * `assembler_emit_register_rex` emits nothing exactly when no bit is
   * wanted, and otherwise one prefix byte whose REX.B is set iff the given
   * bits have it or reg > 7.
   */
  lemma {:induction false} RegisterRexDecodes(reg: Register, rex: Rex)
    ensures |RegisterRexBytes(reg, rex)| <= 1
    ensures RegisterRexBytes(reg, rex) == [] <==> rex == REX_NONE && reg <= 7
    ensures RegisterRexBytes(reg, rex) != [] ==>
      0x40 < RegisterRexBytes(reg, rex)[0] < 0x50 &&
      DecodeRex(RegisterRexBytes(reg, rex)[0]) == Rex(rex.w, rex.r, rex.x, rex.b || reg > 7)
  {
  }

  /** The REX byte of every REX.W instruction here: W always, R and B as the registers need. */
  lemma {:induction false} OperandRexLayout(rm: Register, op: Operand)
    requires !op.rex.w && !op.rex.r
    ensures OperandRexBytes(rm, op, REX_W) == [RexByte(Rex(true, rm > 7, op.rex.x, op.rex.b))]
  {
  }

  /** Adding `rm << 3` to a ModRM byte whose reg field is zero sets that field to rm and keeps the rest. */
  lemma {:induction false} OperandBytesModRM(rm: Byte, op: Operand)
    requires |op.encoding| >= 1 && Mid3(op.encoding[0]) == 0 && rm < 8
    ensures Mid3(OperandBytes(rm, op)[0]) == rm
    ensures OperandBytes(rm, op)[0] & 0xC7 == op.encoding[0]
  {
  }

  /** `movq_ri` is ten bytes: REX.W(+B), `B8 | (dst & 7)`, and the immediate; it decodes back to MOV dst, imm. */
  lemma {:induction false} MovqRiDecodes(dst: Register, imm: Int64)
    ensures |MovqRiBytes(dst, imm)| == 10
    ensures MovqRiBytes(dst, imm)[0] == RexByte(Rex(true, false, false, dst > 7))
    ensures Decode(MovqRiBytes(dst, imm)) == Some(MovImm64(dst, imm))
  {
    var code := MovqRiBytes(dst, imm);
    assert code == [RexByte(Rex(true, false, false, dst > 7)), 0xB8 | (dst & 7)] + LE64(imm);
    assert code[2..] == LE64(imm);
    Decode64LE64(imm);
  }

  /** `addq_rr` is three bytes: REX.W|R|B, 03, and `C0 | (dst & 7) << 3 | (src & 7)`. */
  lemma {:induction false} AddqRrLayout(dst: Register, src: Register)
    ensures AddqRrBytes(dst, src) == [RexByte(Rex(true, dst > 7, false, src > 7)), 0x03, 0xC0 | ((dst & 7) << 3) | (src & 7)]
  {
    var op := OperandRegister(src);
    OperandRexLayout(dst, op);
    assert OperandBytes(dst & 7, op) == [0xC0 | ((dst & 7) << 3) | (src & 7)];
  }

  /** A register-direct ModRM byte denotes the register its rm field and REX.B name. */
  lemma {:induction false} RegisterRMDecodes(rex: Rex, modrm: Byte)
    requires High2(modrm) == 3
    ensures DecodeRM(rex, [modrm]) == Some(Reg((if rex.b then 8 else 0) + Low3(modrm)))
  {
  }

  /** REX.W 03 with a register-direct ModRM byte decodes to ADD between the two registers it names. */
  lemma {:induction false} DecodeAddRegReg(rex: Rex, modrm: Byte)
    requires rex.w && High2(modrm) == 3
    ensures Decode([RexByte(rex), 0x03, modrm]) ==
      Some(AddToReg((if rex.r then 8 else 0) + Mid3(modrm), Reg((if rex.b then 8 else 0) + Low3(modrm))))
  {
    var code := [RexByte(rex), 0x03, modrm];
    RegisterRMDecodes(rex, modrm);
    assert code[2..] == [modrm];
  }

  /** `addq_rr` decodes back to ADD dst, src. */
  lemma {:induction false} AddqRrDecodes(dst: Register, src: Register)
    ensures Decode(AddqRrBytes(dst, src)) == Some(AddToReg(dst, Reg(src)))
  {
    AddqRrLayout(dst, src);
    var rex := Rex(true, dst > 7, false, src > 7);
    var modrm: Byte := 0xC0 | ((dst & 7) << 3) | (src & 7);
    assert (if rex.r then 8 else 0) + Mid3(modrm) == dst;
    assert (if rex.b then 8 else 0) + Low3(modrm) == src;
    DecodeAddRegReg(rex, modrm);
  }

  /** The r/m part of ADD's bytes decodes back to the memory reference the operand denotes. */
  lemma {:induction false} OperandDecodesAsRM(rm: Byte, op: Operand, m: MemoryRef)
    requires WellFormed(op) && DecodeMemory(op) == Some(m) && rm < 8
    ensures DecodeRM(op.rex, OperandBytes(rm, op)) == Some(Mem(m))
  {
    OperandBytesModRM(rm, op);
    var enc := OperandBytes(rm, op);
    assert [enc[0] & 0xC7] + enc[1..] == op.encoding;
    assert Operand(Rex(false, false, op.rex.x, op.rex.b), op.encoding) == op;
  }

  /** `addq_ra` with any well-formed address decodes back to ADD dst, [the address's memory reference]. */
  lemma {:induction false} AddqRaDecodes(dst: Register, addr: Operand, m: MemoryRef)
    requires WellFormed(addr) && DecodeMemory(addr) == Some(m)
    ensures Decode(AddqRaBytes(dst, addr)) == Some(AddToReg(dst, Mem(m)))
  {
    OperandRexLayout(dst, addr);
    OperandBytesModRM(dst & 7, addr);
    OperandDecodesAsRM(dst & 7, addr, m);
    var code := AddqRaBytes(dst, addr);
    assert code[2..] == OperandBytes(dst & 7, addr);
  }

  /** `addq_ar` with any well-formed address decodes back to ADD [the address's memory reference], src. */
  lemma {:induction false} AddqArDecodes(addr: Operand, src: Register, m: MemoryRef)
    requires WellFormed(addr) && DecodeMemory(addr) == Some(m)
    ensures Decode(AddqArBytes(addr, src)) == Some(AddToRM(Mem(m), src))
  {
    OperandRexLayout(src, addr);
    OperandBytesModRM(src & 7, addr);
    OperandDecodesAsRM(src & 7, addr, m);
    var code := AddqArBytes(addr, src);
    assert code[2..] == OperandBytes(src & 7, addr);
  }
}

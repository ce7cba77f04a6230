/**
 * Register and memory operands: the ModRM byte, the optional SIB byte and
 * the optional 32-bit displacement an instruction carries after its
 * opcode, together with the REX.B and REX.X bits the operand needs
 * (sections 2.1.3, 2.1.5 and 2.2.1 of the Intel 64 and IA-32 Architectures
 * Software Developer's Manual, Volume 2). Operands are immutable values.
 */
module Operands {
  import opened Bytes
  import opened Registers

  datatype Option<T> = None | Some(value: T)

  /**
   * `operand`: the REX bits the operand needs and its encoded bytes. The
   * source's `length` field is `|encoding|`; the bytes of its six-byte
   * array past `length` are never read by the encoder and are not kept.
   */
  datatype Operand = Operand(rex: Rex, encoding: seq<Byte>)

  /**
   * What every operand constructor yields: one to six bytes (the source's
   * `encoding[6]`), a ModRM byte whose reg field is still zero (the
   * instruction adds it), and no W or R bit (the instruction supplies those).
   */
  ghost predicate WellFormed(op: Operand)
  {
    1 <= |op.encoding| <= 6 && Mid3(op.encoding[0]) == 0 && !op.rex.w && !op.rex.r
  }

  // ---------------------------------------------------------------------
  // Field setters

  /**
   * `set_mod_rm`: writes ModRM = (mod, 0, reg & 7) and makes the operand one
   * byte long; REX.B is added for reg > 7, except for R12 when mod != 3.
   */
  function SetModRM(op: Operand, mod: Byte, reg: Register): (r: Operand)
    requires mod < 4
    ensures |r.encoding| == 1
    ensures High2(r.encoding[0]) == mod && Mid3(r.encoding[0]) == 0 && Low3(r.encoding[0]) == reg & 7
    ensures r.rex.w == op.rex.w && r.rex.r == op.rex.r && r.rex.x == op.rex.x
    ensures r.rex.b <==> op.rex.b || (reg > 7 && !(reg == R12 && mod != 3))
  {
    var rex := if reg > 7 && !(reg == R12 && mod != 3) then op.rex.Or(REX_B) else op.rex;
    Operand(rex, [(mod << 6) | (reg & 7)])
  }

  /**
   * `set_sib`: writes SIB = (scale, index & 7, base & 7) after the ModRM byte
   * and makes the operand two bytes long. REX.X is added for index > 7; REX.B
   * is added whenever `base & 7` is non-zero, as the source tests it.
   */
  function SetSib(op: Operand, scale: ScaleFactor, index: Register, base: Register): (r: Operand)
    requires |op.encoding| >= 1
    ensures |r.encoding| == 2 && r.encoding[0] == op.encoding[0]
    ensures High2(r.encoding[1]) == scale && Mid3(r.encoding[1]) == index & 7 && Low3(r.encoding[1]) == base & 7
    ensures r.rex.w == op.rex.w && r.rex.r == op.rex.r
    ensures r.rex.x <==> op.rex.x || index > 7
    ensures r.rex.b <==> op.rex.b || base & 7 != 0
  {
    var rex := if base & 7 != 0 then op.rex.Or(REX_B) else op.rex;
    var rex := if index > 7 then rex.Or(REX_X) else rex;
    Operand(rex, [op.encoding[0], (scale << 6) | ((index & 7) << 3) | (base & 7)])
  }

  /** `set_disp_32`: appends the displacement as four little-endian bytes. */
  function SetDisp32(op: Operand, disp: Int32): (r: Operand)
    requires |op.encoding| <= 2
    ensures r.rex == op.rex
    ensures |r.encoding| == |op.encoding| + 4 && r.encoding[..|op.encoding|] == op.encoding
    ensures Decode32(r.encoding[|op.encoding|..]) == disp
  {
    Decode32LE32(disp);
    Operand(op.rex, op.encoding + LE32(disp))
  }

  // ---------------------------------------------------------------------
  // Constructors

  /** `operand_new`: no bytes and no REX bits; the starting point of every constructor. */
  function OperandNew(): (r: Operand)
    ensures |r.encoding| == 0 && r.rex.Bits() == 0
  {
    Operand(REX_NONE, [])
  }

  /** `operand_register_new`: the register-direct operand (mod = 3). */
  function OperandRegister(reg: Register): (r: Operand)
    ensures WellFormed(r) && |r.encoding| == 1
    ensures r.encoding[0] == 0xC0 | (reg & 7)
    ensures r.rex == Rex(false, false, false, reg > 7)
  {
    SetModRM(OperandNew(), 3, reg)
  }

  /** `operand_clone_new`: copies the length, the REX bits and the first `length` bytes. */
  function OperandClone(other: Operand): (r: Operand)
    ensures r == other
  {
    Operand(other.rex, other.encoding[..|other.encoding|])
  }

  /**
   * `address_r_fixed_new`: [base + disp32], always with mod = 2 and a
   * four-byte displacement, and with a SIB byte when base & 7 is RSP.
   */
  function AddressRFixed(base: Register, disp: Int32): (r: Operand)
    ensures WellFormed(r)
    ensures |r.encoding| == (if base & 7 == RSP then 6 else 5)
  {
    var op := SetModRM(OperandNew(), 2, base);
    var op := if base & 7 == RSP then SetSib(op, TIMES_1, RSP, base) else op;
    SetDisp32(op, disp)
  }

  /**
   * `address_r_new`: [base + disp] with the displacement dropped (mod = 0)
   * when it is zero and base & 7 is not RBP, and otherwise mod = 2 with a
   * four-byte displacement; a SIB byte follows ModRM when base & 7 is RSP.
   */
  function AddressR(base: Register, disp: Int32): (r: Operand)
    ensures WellFormed(r)
    ensures |r.encoding| == (if base & 7 == RSP then 2 else 1) + (if disp == 0 && base & 7 != RBP then 0 else 4)
  {
    if disp == 0 && base & 7 != RBP then
      var op := SetModRM(OperandNew(), 0, base);
      if base & 7 == RSP then SetSib(op, TIMES_1, RSP, base) else op
    else
      var op := SetModRM(OperandNew(), 2, base);
      var op := if base & 7 == RSP then SetSib(op, TIMES_1, RSP, base) else op;
      SetDisp32(op, disp)
  }

  /**
   * `address_r_scale_new`: [index * scale + disp32] with no base: ModRM
   * (0, 0, RSP), a SIB byte whose base field is RBP's 101, then disp32.
   */
  function AddressRScale(index: Register, scale: ScaleFactor, disp: Int32): (r: Operand)
    ensures WellFormed(r) && |r.encoding| == 6
  {
    var op := SetModRM(OperandNew(), 0, RSP);
    var op := SetSib(op, scale, index, RBP);
    SetDisp32(op, disp)
  }

  /**
   * `address_rr_scale_new`: [base + index * scale + disp]: ModRM rm = 100
   * and a SIB byte always, mod = 0 when disp is zero and base & 7 is not
   * RBP, and otherwise mod = 2 followed by disp32.
   */
  function AddressRRScale(base: Register, index: Register, scale: ScaleFactor, disp: Int32): (r: Operand)
    ensures WellFormed(r)
    ensures |r.encoding| == (if disp == 0 && base & 7 != RBP then 2 else 6)
  {
    if disp == 0 && base & 7 != RBP then
      var op := SetModRM(OperandNew(), 0, RSP);
      SetSib(op, scale, index, base)
    else
      var op := SetModRM(OperandNew(), 2, RSP);
      var op := SetSib(op, scale, index, base);
      SetDisp32(op, disp)
  }

  /** `address_clone_new`: an address is an operand, and is cloned as one. */
  function AddressClone(other: Operand): (r: Operand)
    ensures r == other
  {
    OperandClone(other)
  }

  /** `field_address_new`: a field address is built exactly as `address_r_new` builds it. */
  function FieldAddress(base: Register, disp: Int32): (r: Operand)
    ensures r == AddressR(base, disp)
  {
    AddressR(base, disp)
  }

  /** `field_address_rr_scale_new`: built exactly as `address_rr_scale_new` builds it. */
  function FieldAddressRRScale(base: Register, index: Register, scale: ScaleFactor, disp: Int32): (r: Operand)
    ensures r == AddressRRScale(base, index, scale, disp)
  {
    AddressRRScale(base, index, scale, disp)
  }

  /** `field_address_clone_new`. */
  function FieldAddressClone(other: Operand): (r: Operand)
    ensures r == other
  {
    AddressClone(other)
  }

  // ---------------------------------------------------------------------
  // Decoders, as the header writes them (REX_B = 1, REX_X = 2)

  /** `operand_mod`: `(encoding[0] >> 6) & 3`, which is 3 exactly for a register-direct ModRM. */
  function OperandMod(op: Operand): (m: Byte)
    requires |op.encoding| >= 1
    ensures m < 4 && (m == 3 <==> op.encoding[0] >= 0xC0)
  {
    High2(op.encoding[0])
  }

  /** `operand_rm`: `((rex & REX_B) << 3) + (encoding[0] & 7)`. */
  function OperandRm(op: Operand): (r: Byte)
    requires |op.encoding| >= 1
    ensures r < 16 && r & 7 == Low3(op.encoding[0]) && (r > 7 <==> op.rex.b)
  {
    (if op.rex.b then 8 else 0) + Low3(op.encoding[0])
  }

  /** `operand_index`: `((rex & REX_X) << 2) + ((encoding[1] >> 3) & 7)`. */
  function OperandIndex(op: Operand): (r: Byte)
    requires |op.encoding| >= 2
    ensures r < 16 && r & 7 == Mid3(op.encoding[1]) && (r > 7 <==> op.rex.x)
  {
    (if op.rex.x then 8 else 0) + Mid3(op.encoding[1])
  }

  /** `operand_base`: `((rex & REX_B) << 3) + (encoding[1] & 7)`. */
  function OperandBase(op: Operand): (r: Byte)
    requires |op.encoding| >= 2
    ensures r < 16 && r & 7 == Low3(op.encoding[1]) && (r > 7 <==> op.rex.b)
  {
    (if op.rex.b then 8 else 0) + Low3(op.encoding[1])
  }

  /**
   * `operand_is_register`: REX.B agrees with reg > 7, the top five bits of
   * ModRM are 11000, and ModRM's low three bits equal reg itself (not
   * reg & 7).
   */
  predicate OperandIsRegister(op: Operand, reg: Register): (b: bool)
    requires |op.encoding| >= 1
    ensures b ==> reg <= 7 && OperandMod(op) == 3 && OperandRm(op) == reg
  {
    (reg > 7) == op.rex.b && op.encoding[0] & 0xF8 == 0xC0 && op.encoding[0] & 7 == reg
  }

  // ---------------------------------------------------------------------
  // Layout of each constructor's output

  /** A register operand decodes back as mod = 3 with the register itself in rm. */
  lemma {:induction false} RegisterOperandDecodes(reg: Register)
    ensures OperandMod(OperandRegister(reg)) == 3 && OperandRm(OperandRegister(reg)) == reg
  {
  }

  /**
   * `address_r_new`: mod = 0 and no displacement exactly when disp is zero and
   * base & 7 is not RBP, otherwise mod = 2 and disp32; the SIB byte (TIMES_1,
   * RSP, base & 7) is present exactly when base & 7 is RSP, and otherwise
   * `operand_rm` reads the base back.
   */
  lemma {:induction false} AddressRLayout(base: Register, disp: Int32)
    ensures var r := AddressR(base, disp);
      && (OperandMod(r) == if disp == 0 && base & 7 != RBP then 0 else 2)
      && (Low3(r.encoding[0]) == RSP <==> base & 7 == RSP)
      && (base & 7 == RSP ==> r.encoding[1] == 0x24)
      && (base & 7 != RSP ==> OperandRm(r) == base)
      && (OperandMod(r) == 2 ==> Decode32(r.encoding[|r.encoding| - 4..]) == disp)
  {
  }

  /** `address_r_fixed_new`: always mod = 2 and disp32, with the same SIB rule as `address_r_new`. */
  lemma {:induction false} AddressRFixedLayout(base: Register, disp: Int32)
    ensures var r := AddressRFixed(base, disp);
      && OperandMod(r) == 2
      && (Low3(r.encoding[0]) == RSP <==> base & 7 == RSP)
      && (base & 7 == RSP ==> r.encoding[1] == 0x24)
      && (base & 7 != RSP ==> OperandRm(r) == base)
      && Decode32(r.encoding[|r.encoding| - 4..]) == disp
  {
  }

  /** `address_r_scale_new`: ModRM 04, SIB (scale, index & 7, 101), disp32, REX.X for index > 7 and REX.B always. */
  lemma {:induction false} AddressRScaleLayout(index: Register, scale: ScaleFactor, disp: Int32)
    ensures var r := AddressRScale(index, scale, disp);
      && r.encoding[0] == 0x04
      && High2(r.encoding[1]) == scale && Mid3(r.encoding[1]) == index & 7 && Low3(r.encoding[1]) == RBP
      && OperandIndex(r) == index
      && Decode32(r.encoding[2..]) == disp
      && r.rex == Rex(false, false, index > 7, true)
  {
  }

  /** `address_rr_scale_new`: rm = 100, and mod = 0 exactly when the displacement is dropped. */
  lemma {:induction false} AddressRRScaleModRM(base: Register, index: Register, scale: ScaleFactor, disp: Int32)
    ensures var r := AddressRRScale(base, index, scale, disp);
      && Low3(r.encoding[0]) == RSP
      && (OperandMod(r) == if disp == 0 && base & 7 != RBP then 0 else 2)
      && (OperandMod(r) == 2 ==> Decode32(r.encoding[2..]) == disp)
  {
  }

  /**
   * `address_rr_scale_new`: SIB = (scale, index & 7, base & 7), REX.X for
   * index > 7, and REX.B whenever base & 7 is non-zero.
   */
  lemma {:induction false} AddressRRScaleSib(base: Register, index: Register, scale: ScaleFactor, disp: Int32)
    ensures var r := AddressRRScale(base, index, scale, disp);
      && High2(r.encoding[1]) == scale && Mid3(r.encoding[1]) == index & 7 && Low3(r.encoding[1]) == base & 7
      && OperandIndex(r) == index
      && r.rex == Rex(false, false, index > 7, base & 7 != 0)
  {
    var mod: Byte := if disp == 0 && base & 7 != RBP then 0 else 2;
    var op := SetSib(SetModRM(OperandNew(), mod, RSP), scale, index, base);
    var r := AddressRRScale(base, index, scale, disp);
    assert r.rex == op.rex && r.encoding[1] == op.encoding[1];
  }

  // ---------------------------------------------------------------------
  // Consequences of the REX bits as the source sets them

  /** As written, `operand_is_register` recognises a register operand only for RAX..RDI. */
  lemma {:induction false} RegisterOperandIsRegister(reg: Register)
    ensures OperandIsRegister(OperandRegister(reg), reg) <==> reg <= 7
  {
  }

  /** No operand at all passes `operand_is_register` for R8..R15. */
  lemma {:induction false} IsRegisterNeverHighRegister(op: Operand, reg: Register)
    requires |op.encoding| >= 1 && reg > 7
    ensures !OperandIsRegister(op, reg)
  {
  }

  /**
   * `set_sib` tests `base & 7` rather than base > 7, so the base that
   * `operand_base` reads back from an `address_rr_scale_new` address is the
   * requested one only for RAX and R9..R15.
   */
  lemma {:induction false} RRScaleBaseRoundTrip(base: Register, index: Register, scale: ScaleFactor, disp: Int32)
    ensures OperandBase(AddressRRScale(base, index, scale, disp)) == base <==> base == RAX || base >= R9
  {
    AddressRRScaleSib(base, index, scale, disp);
  }

  /** `address_r_new(RSP, ...)` carries REX.B, so its SIB base reads back as R12. */
  lemma {:induction false} AddressRRspCarriesRexB(disp: Int32)
    ensures AddressR(RSP, disp).rex.b
    ensures OperandBase(AddressR(RSP, disp)) == R12
  {
  }

  // ---------------------------------------------------------------------
  // An independent decoder of the ModRM/SIB/displacement bytes, following
  // tables 2-2 and 2-3 of the manual (64-bit mode)

  datatype BaseRef = NoBase | BaseReg(reg: Byte) | RipRelative
  datatype IndexRef = NoIndex | IndexReg(reg: Byte, scale: Byte)

  /** The effective address [base + index * 2^scale + disp] a memory operand denotes. */
  datatype MemoryRef = MemoryRef(base: BaseRef, index: IndexRef, disp: int)

  function Signed8(b: Byte): int
  {
    if b < 128 then b as int else b as int - 256
  }

  /** The displacement of `len` bytes at `at`, provided the bytes end exactly there. */
  function DecodeDisplacement(enc: seq<Byte>, at: nat, len: nat): Option<int>
  {
    if |enc| != at + len then None
    else if len == 0 then Some(0)
    else if len == 1 then Some(Signed8(enc[at]))
    else if len == 4 then Some(Decode32(enc[at..]))
    else None
  }

  /** The length of the displacement for a mod field; an absolute or RIP-relative form always has four bytes. */
  function DisplacementLength(mod: Byte, absolute: bool): nat
  {
    if absolute || mod == 2 then 4 else if mod == 1 then 1 else 0
  }

  /** The index an SIB byte names: 100 without REX.X means none. */
  function SibIndex(rex: Rex, sib: Byte): IndexRef
  {
    var idx := (if rex.x then 8 else 0) + Mid3(sib);
    if idx == RSP then NoIndex else IndexReg(idx, High2(sib))
  }

  /** The base an SIB byte names: 101 with mod = 0 means none (REX.B is then ignored). */
  function SibBase(rex: Rex, mod: Byte, sib: Byte): BaseRef
  {
    if mod == 0 && Low3(sib) == RBP then NoBase else BaseReg((if rex.b then 8 else 0) + Low3(sib))
  }

  /**
   * The memory reference that an operand's bytes and REX.X/REX.B bits
   * denote, or None for a register operand or malformed bytes. With rm =
   * 100 an SIB byte follows ModRM; rm = 101 with mod = 0 and no SIB means
   * RIP-relative.
   */
  function DecodeMemory(op: Operand): Option<MemoryRef>
  {
    if |op.encoding| == 0 then None
    else
      var mod, rm := High2(op.encoding[0]), Low3(op.encoding[0]);
      if mod == 3 then None
      else if rm == RSP then
        if |op.encoding| < 2 then None
        else
          var base := SibBase(op.rex, mod, op.encoding[1]);
          match DecodeDisplacement(op.encoding, 2, DisplacementLength(mod, base == NoBase))
          case None => None
          case Some(d) => Some(MemoryRef(base, SibIndex(op.rex, op.encoding[1]), d))
      else
        var rip := mod == 0 && rm == RBP;
        var base := if rip then RipRelative else BaseReg((if op.rex.b then 8 else 0) + rm);
        match DecodeDisplacement(op.encoding, 1, DisplacementLength(mod, rip))
        case None => None
        case Some(d) => Some(MemoryRef(base, NoIndex, d))
  }

  /** Decoding a ModRM byte with mod 0 or 2 and no SIB byte, followed by `tail` as its displacement. */
  lemma {:induction false} DecodeModRMOnly(rex: Rex, modrm: Byte, tail: seq<Byte>)
    requires (High2(modrm) == 0 || High2(modrm) == 2) && Low3(modrm) != RSP
    requires !(High2(modrm) == 0 && Low3(modrm) == RBP)
    requires |tail| == (if High2(modrm) == 2 then 4 else 0)
    ensures DecodeMemory(Operand(rex, [modrm] + tail))
         == Some(MemoryRef(BaseReg((if rex.b then 8 else 0) + Low3(modrm)), NoIndex,
                           if |tail| == 4 then Decode32(tail) else 0))
  {
    assert ([modrm] + tail)[1..] == tail;
  }

  /** Decoding a ModRM byte with mod 0 or 2 and rm = 100, its SIB byte, and `tail` as the displacement. */
  lemma {:induction false} DecodeWithSib(rex: Rex, modrm: Byte, sib: Byte, tail: seq<Byte>)
    requires (High2(modrm) == 0 || High2(modrm) == 2) && Low3(modrm) == RSP
    requires |tail| == (if High2(modrm) == 2 || Low3(sib) == RBP then 4 else 0)
    ensures DecodeMemory(Operand(rex, [modrm, sib] + tail))
         == Some(MemoryRef(SibBase(rex, High2(modrm), sib), SibIndex(rex, sib),
                           if |tail| == 4 then Decode32(tail) else 0))
  {
    assert ([modrm, sib] + tail)[2..] == tail;
  }

  /** A register operand is not a memory reference. */
  lemma {:induction false} RegisterOperandIsNotMemory(reg: Register)
    ensures DecodeMemory(OperandRegister(reg)) == None
  {
  }

  /**
   * `address_r_new` denotes [base + disp] for every base except RSP, which
   * (through the REX.B that `set_sib` adds) denotes [R12 + disp].
   */
  lemma {:induction false} AddressRDecodes(base: Register, disp: Int32)
    ensures DecodeMemory(AddressR(base, disp))
         == Some(MemoryRef(BaseReg(if base == RSP then R12 else base), NoIndex, disp))
  {
    var r := AddressR(base, disp);
    AddressRLayout(base, disp);
    var n := if base & 7 == RSP then 2 else 1;
    assert r.encoding == r.encoding[..n] + r.encoding[n..];
    if base & 7 == RSP {
      DecodeWithSib(r.rex, r.encoding[0], r.encoding[1], r.encoding[2..]);
    } else {
      DecodeModRMOnly(r.rex, r.encoding[0], r.encoding[1..]);
    }
  }

  /** `address_r_fixed_new` denotes [base + disp] for every base except RSP, which denotes [R12 + disp]. */
  lemma {:induction false} AddressRFixedDecodes(base: Register, disp: Int32)
    ensures DecodeMemory(AddressRFixed(base, disp))
         == Some(MemoryRef(BaseReg(if base == RSP then R12 else base), NoIndex, disp))
  {
    var r := AddressRFixed(base, disp);
    AddressRFixedLayout(base, disp);
    var n := if base & 7 == RSP then 2 else 1;
    assert r.encoding == r.encoding[..n] + r.encoding[n..];
    if base & 7 == RSP {
      DecodeWithSib(r.rex, r.encoding[0], r.encoding[1], r.encoding[2..]);
    } else {
      DecodeModRMOnly(r.rex, r.encoding[0], r.encoding[1..]);
    }
  }

  /** `address_r_scale_new` denotes [index * 2^scale + disp]; RSP cannot serve as an index. */
  lemma {:induction false} AddressRScaleDecodes(index: Register, scale: ScaleFactor, disp: Int32)
    ensures DecodeMemory(AddressRScale(index, scale, disp))
         == Some(MemoryRef(NoBase, if index == RSP then NoIndex else IndexReg(index, scale), disp))
  {
    var r := AddressRScale(index, scale, disp);
    AddressRScaleLayout(index, scale, disp);
    assert r.encoding == [r.encoding[0], r.encoding[1]] + r.encoding[2..];
    DecodeWithSib(r.rex, r.encoding[0], r.encoding[1], r.encoding[2..]);
  }

  /** The SIB fields of `address_rr_scale_new` name the base `operand_base` reads and the requested index. */
  lemma {:induction false} RRScaleSibRefs(base: Register, index: Register, scale: ScaleFactor, disp: Int32)
    ensures var r := AddressRRScale(base, index, scale, disp);
      && SibBase(r.rex, High2(r.encoding[0]), r.encoding[1]) == BaseReg(OperandBase(r))
      && SibIndex(r.rex, r.encoding[1]) == if index == RSP then NoIndex else IndexReg(index, scale)
  {
    AddressRRScaleModRM(base, index, scale, disp);
    AddressRRScaleSib(base, index, scale, disp);
  }

  /**
   * `address_rr_scale_new` denotes [b + index * 2^scale + disp], where b is the
   * base `operand_base` reads back, and has no index when index is RSP.
   */
  lemma {:induction false} AddressRRScaleDecodes(base: Register, index: Register, scale: ScaleFactor, disp: Int32)
    ensures var r := AddressRRScale(base, index, scale, disp);
      DecodeMemory(r) == Some(MemoryRef(BaseReg(OperandBase(r)), if index == RSP then NoIndex else IndexReg(index, scale), disp))
  {
    var r := AddressRRScale(base, index, scale, disp);
    AddressRRScaleModRM(base, index, scale, disp);
    var modrm, sib, tail := r.encoding[0], r.encoding[1], r.encoding[2..];
    assert r.encoding == [modrm, sib] + tail;
    DecodeWithSib(r.rex, modrm, sib, tail);
    RRScaleSibRefs(base, index, scale, disp);
  }

  /**
   * `address_rr_scale_new` denotes the requested [base + index * 2^scale + disp]
   * exactly when base is RAX or R9..R15 and index is not RSP.
   */
  lemma {:induction false} AddressRRScaleDenotesRequest(base: Register, index: Register, scale: ScaleFactor, disp: Int32)
    ensures DecodeMemory(AddressRRScale(base, index, scale, disp))
         == Some(MemoryRef(BaseReg(base), IndexReg(index, scale), disp))
        <==> (base == RAX || base >= R9) && index != RSP
  {
    AddressRRScaleDecodes(base, index, scale, disp);
    RRScaleBaseRoundTrip(base, index, scale, disp);
  }
}

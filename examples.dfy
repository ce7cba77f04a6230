/**
 * Whole programs built with the assembler, with the exact bytes each one
 * produces: the demonstration in `main.c` (add 1000 to the `y` field of a
 * point whose address is loaded into RAX) and forward and backward jumps.
 */
module Programs {
  import opened Bytes
  import opened Registers
  import opened Operands
  import opened Labels
  import opened Instructions
  import opened Assembly

  /** `offsetof(point, y)`: the second `int` field. */
  const POINT_Y: Int32 := 4

  /**
   * `main`: `movq rax, p; addq [rax + 4], 1000; ret`, that is
   * 48 B8 p, then 49 BB 1000 (movq r11, 1000), then 4C 01 98 04 00 00 00
   * (addq [rax + 4], r11), then C3.
   */
  method AddToPointY(p: Int64) returns (code: seq<Byte>)
    ensures code == [0x48, 0xB8] + LE64(p) + [0x49, 0xBB] + LE64(1000)
                  + [0x4C, 0x01, 0x98, 0x04, 0x00, 0x00, 0x00] + [0xC3]
  {
    LoadBytes(p);
    AddToPointYBytes();
    var assm := new Assembler();
    var yAddr := FieldAddress(RAX, POINT_Y);
    PointYAddress();
    assm.MovqRi(RAX, p);
    assert assm.Code() == [0x48, 0xB8] + LE64(p);
    assm.AddqAi(yAddr, 1000);
    assert assm.Code() == [0x48, 0xB8] + LE64(p) + [0x49, 0xBB] + LE64(1000) + [0x4C, 0x01, 0x98, 0x04, 0x00, 0x00, 0x00];
    assm.Ret();
    code := assm.Code();
  }

  /** A forward jump over a `ret`: E9 01 00 00 00 C3, the field patched to skip the one byte. */
  method ForwardJump() returns (code: seq<Byte>)
    ensures code == [0xE9, 0x01, 0x00, 0x00, 0x00, 0xC3]
  {
    var assm := new Assembler();
    var lbl := new Label();
    assm.Jmp(lbl, false);
    ghost var linked := assm.Code();
    assm.Ret();
    AppendKeepsChain(linked, [RET], lbl.pos);
    LE32Zero();
    assert assm.Code() == [0xE9, 0x00, 0x00, 0x00, 0x00, 0xC3] && lbl.pos == 9;
    ForwardJumpPatch();
    assm.Bind(lbl);
    code := assm.Code();
  }

  /** Binding at offset 6 the label linked at the field at offset 1 writes the distance 1 there. */
  lemma {:induction false} ForwardJumpPatch()
    ensures WellLinked([0xE9, 0x00, 0x00, 0x00, 0x00, 0xC3], 9)
    ensures Patched([0xE9, 0x00, 0x00, 0x00, 0x00, 0xC3], 9, 6) == [0xE9, 0x01, 0x00, 0x00, 0x00, 0xC3]
  {
    var code: seq<Byte> := [0xE9, 0x00, 0x00, 0x00, 0x00, 0xC3];
    LE32Zero();
    LE32One();
    assert code[1..5] == LE32(0);
    Decode32LE32(0);
    assert NextLink(code, 1) == 0;
    assert Store32(code, 1, Rel32(6, 1)) == [0xE9, 0x01, 0x00, 0x00, 0x00, 0xC3];
  }

  /** A backward jump to a label bound at offset 0 after a `ret`: C3 E9 FA FF FF FF, landing on the `ret`. */
  method BackwardJump() returns (code: seq<Byte>)
    ensures code == [0xC3, 0xE9, 0xFA, 0xFF, 0xFF, 0xFF]
  {
    var assm := new Assembler();
    var lbl := new Label();
    assm.Bind(lbl);
    assm.Ret();
    assm.Jmp(lbl, false);
    code := assm.Code();
    LE32MinusSix();
  }

  /** A near jump to a label not yet bound emits the opcode EB alone and leaves the label unlinked. */
  method NearJumpUnbound() returns (code: seq<Byte>, linked: bool)
    ensures code == [0xEB, 0xC3] && !linked
  {
    var assm := new Assembler();
    var lbl := new Label();
    assm.Jmp(lbl, true);
    assm.Ret();
    code := assm.Code();
    linked := IsLinked(lbl.pos);
  }

  // ---------------------------------------------------------------------
  // The bytes of the pieces, worked out one at a time

  lemma {:induction false} Zeros3()
    ensures ToLittleEndian(0, 3) == [0, 0, 0]
  {
  }

  lemma {:induction false} LE32Zero()
    ensures LE32(0) == [0x00, 0x00, 0x00, 0x00]
  {
    Zeros3();
    assert LE32(0) == [0 as Byte] + ToLittleEndian(0, 3);
  }

  lemma {:induction false} LE32One()
    ensures LE32(1) == [0x01, 0x00, 0x00, 0x00]
  {
    Zeros3();
    assert LE32(1) == [1 as Byte] + ToLittleEndian(0, 3);
  }

  lemma {:induction false} LE32Four()
    ensures LE32(4) == [0x04, 0x00, 0x00, 0x00]
  {
    Zeros3();
    assert LE32(4) == [4 as Byte] + ToLittleEndian(0, 3);
  }

  lemma {:induction false} Ones2()
    ensures ToLittleEndian(65535, 2) == [0xFF, 0xFF]
  {
    assert ToLittleEndian(255, 1) == [0xFF];
    assert 65535 / 256 == 255 && 65535 % 256 == 255;
  }

  lemma {:induction false} LE32MinusSix()
    ensures LE32(-6) == [0xFA, 0xFF, 0xFF, 0xFF]
  {
    Ones2();
    assert ToLittleEndian(16777215, 3) == [0xFF, 0xFF, 0xFF] by {
      assert 16777215 / 256 == 65535 && 16777215 % 256 == 255;
    }
    assert 4294967290 / 256 == 16777215 && 4294967290 % 256 == 250;
    assert LE32(-6) == ToLittleEndian(4294967290, 4);
  }

  /** `movq rax, p` is 48 B8 and p; `movq r11, 1000` is 49 BB and 1000. */
  lemma {:induction false} LoadBytes(p: Int64)
    ensures MovqRiBytes(RAX, p) == [0x48, 0xB8] + LE64(p)
    ensures MovqRiBytes(TMP, 1000) == [0x49, 0xBB] + LE64(1000)
  {
  }

  /** `field_address_new(RAX, 4)`: mod 2, rm RAX, and the 32-bit displacement 4; no REX bits. */
  lemma {:induction false} PointYAddress()
    ensures FieldAddress(RAX, POINT_Y) == Operand(REX_NONE, [0x80, 0x04, 0x00, 0x00, 0x00])
  {
    AddressRLayout(RAX, POINT_Y);
    LE32Four();
    var a := FieldAddress(RAX, POINT_Y);
    assert a.encoding == [0x80] + LE32(4);
  }

  /** `addq [rax + 4], r11`: REX.W|R, 01, ModRM 98 (mod 2, reg 3, rm 0), displacement 4. */
  lemma {:induction false} AddToPointYBytes()
    ensures AddqArBytes(FieldAddress(RAX, POINT_Y), TMP) == [0x4C, 0x01, 0x98, 0x04, 0x00, 0x00, 0x00]
  {
    PointYAddress();
    var a := Operand(REX_NONE, [0x80, 0x04, 0x00, 0x00, 0x00]);
    OperandRexLayout(TMP, a);
    assert OperandBytes(TMP & 7, a) == [0x98, 0x04, 0x00, 0x00, 0x00];
  }
}

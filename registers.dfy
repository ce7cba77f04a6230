/**
 * The fixed table of integer codes the encoder consumes: the sixteen
 * general-purpose registers, the SIB scale factors and the REX prefix bits
 * (sections 2.1.3 and 2.2.1 of the Intel 64 and IA-32 Architectures
 * Software Developer's Manual, Volume 2).
 */
module Registers {
  import opened Bytes

  /** `asm_register`: RAX = 0 ... R15 = 15, kept as a byte so that `reg & 7` is the source's bit operation. */
  type Register = r: Byte | r < 16

  const RAX: Register := 0
  const RCX: Register := 1
  const RDX: Register := 2
  const RBX: Register := 3
  const RSP: Register := 4
  const RBP: Register := 5
  const RSI: Register := 6
  const RDI: Register := 7
  const R8: Register := 8
  const R9: Register := 9
  const R10: Register := 10
  const R11: Register := 11
  const R12: Register := 12
  const R13: Register := 13
  const R14: Register := 14
  const R15: Register := 15

  /** `scale_factor`: the two-bit SIB scale field. */
  type ScaleFactor = s: Byte | s < 4

  const TIMES_1: ScaleFactor := 0
  const TIMES_2: ScaleFactor := 1
  const TIMES_4: ScaleFactor := 2
  const TIMES_8: ScaleFactor := 3

  /** The high nibble every REX prefix byte carries. */
  const REX_PREFIX: Byte := 0x40

  /**
   * A set of REX bits: W (64-bit operand size, value 8), R (ModRM.reg
   * extension, 4), X (SIB.index extension, 2) and B (ModRM.rm or SIB.base
   * extension, 1). `Or` is the source's `|` on these masks.
   */
  datatype Rex = Rex(w: bool, r: bool, x: bool, b: bool)
  {
    function Or(other: Rex): Rex
    {
      Rex(w || other.w, r || other.r, x || other.x, b || other.b)
    }

    /** The mask as the source's `uint8_t`. */
    function Bits(): (v: Byte)
      ensures v < 16
      ensures v == 0 <==> this == REX_NONE
    {
      (if w then 8 else 0) | (if r then 4 else 0) | (if x then 2 else 0) | (if b then 1 else 0)
    }
  }

  const REX_NONE := Rex(false, false, false, false)
  const REX_W := Rex(true, false, false, false)
  const REX_R := Rex(false, true, false, false)
  const REX_X := Rex(false, false, true, false)
  const REX_B := Rex(false, false, false, true)

  /** Reads the W, R, X and B bits back out of a REX prefix byte. */
  function DecodeRex(prefix: Byte): Rex
  {
    Rex(prefix & 8 != 0, prefix & 4 != 0, prefix & 2 != 0, prefix & 1 != 0)
  }

  /** The byte `REX_PREFIX | rex` for a set of REX bits. */
  function RexByte(rex: Rex): (b: Byte)
    ensures 0x40 <= b < 0x50
    ensures DecodeRex(b) == rex
  {
    REX_PREFIX | rex.Bits()
  }
}

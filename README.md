# ThunderJIT x86-64 encoder, modelled in Dafny

This project models the part of ThunderJIT that turns registers, addresses,
immediates and labels into x86-64 machine code in a code buffer:

- **Operands** (`operands.dfy`, module `Operands`). The ModRM byte, the
  optional SIB byte and the optional 32-bit displacement, with the REX.B and
  REX.X bits, that `set_mod_rm`, `set_sib`, `set_disp_32` and the
  `operand_*`, `address_*` and `field_address_*` constructors produce. Also
  the header's decoders `operand_mod`, `operand_rm`, `operand_index`,
  `operand_base` and `operand_is_register`. Operands are immutable values.
  An independent decoder, `Operands.DecodeMemory`, reads the same bytes the
  way the processor does (tables 2-2 and 2-3 of the Intel 64 and IA-32
  Architectures Software Developer's Manual, Volume 2). Lemmas state which
  memory reference each constructor's output denotes.
- **Code buffer** (`buffer.dfy`, class `Buffers.CodeBuffer`). The 4 MiB
  storage, the cursor and the limit that `asm_buffer_new` sets up. Emits of
  1, 4 and 8 little-endian bytes. The 4-byte load and store at an offset.
  Positions are offsets from the start of the storage, not addresses.
- **Labels** (`labels.dfy`, module `Labels`). A label is one word:
  - 0 when unused;
  - `site + 8` when linked;
  - `-target - 8` when bound.

  The pending 32-bit fields of a linked label form a list threaded through
  the code: each field holds the label's previous value. `WellLinked`,
  `Sites` and `Patched` specify that chain and what binding does to it.
- **Emitters** (`instructions.dfy`, `assembler.dfy`). The class
  `Assembly.Assembler` models `assembler_emit_*`, `ret`, `movq_ri`, the
  `addq_*` family, `jmp`, `emit_label`, `emit_label_link` and `bind`. Each
  emitting method appends exactly the bytes of a layout function in
  `Instructions`. That module also holds a decoder for REX.W MOV/ADD
  instructions, and lemmas that decode each layout back to the instruction
  that was asked for.
- **Bind** is a loop over the chain. It is proved to leave the code equal to
  `Labels.Patched` of the old code. Lemmas show that this patches each
  chain field with the distance from the field's end to the bind point and
  leaves every other byte alone.
- **Programs** (`examples.dfy`). Client methods with the exact bytes they
  produce:
  - the sequence in `main.c`;
  - a forward jump, a backward jump, and a near jump to an unbound label.
- **Bytes** (`bytes.dfy`). Bytes are `bv8`, so `uint8_t` arithmetic wraps.
  `(int32_t)` casts are `Bytes.Wrap32`. Little-endian images of int32 and
  int64 values come with their round trips.

Constants:
- REX_B = 1 and REX_X = 2 (the header's decoders depend on these);
  REX_R = 4, REX_W = 8 and the prefix 0x40;
- RAX = 0 … R15 = 15;
- TIMES_1 … TIMES_8 = 0 … 3;
- `sizeof(word)` = 8;
- `tmp` = R11;
- `kMinGap` = 32, `kInitialBufferCapacity` = 4 MiB.

Behaviour modelled as written, each stated by a lemma:
- `set_sib` adds REX.B when `base & 7` is non-zero rather than when
  `base > 7`. So `operand_base` of an `address_rr_scale_new` address is the
  requested base only for RAX and R9..R15, and `address_r_new(RSP, d)`
  denotes [R12 + d].
- `operand_is_register` compares the low three bits of ModRM with the full
  register number, so it never holds for R8..R15.
- A near `jmp` to an unbound label emits the opcode EB with no displacement
  and no link.
- `limit` is set 32 bytes past the end of the allocation.

## Model

| member | source | states |
|---|---|---|
| Bytes.Wrap32 | src/assembler_x64.c:153-160 | `(int32_t)x` is the int32 congruent to x modulo 2^32, and x itself when x fits |
| Bytes.Decode32 | include/assembler.h:24-28 | every 4 bytes are the little-endian image of the int32 they decode to |
| Bytes.Decode32LE32 | include/assembler.h:24-28 | reading back the 4 bytes an int32 store writes yields that int32 |
| Bytes.Decode64 | include/assembler.h:30-34 | every 8 bytes are the little-endian image of the int64 they decode to |
| Bytes.Decode64LE64 | include/assembler.h:30-34 | reading back the 8 bytes an int64 store writes yields that int64 |
| Bytes.FromToLittleEndian | include/assembler.h:24-34 | an n-byte little-endian image of u < 256^n reads back as u |
| Bytes.ToFromLittleEndian | include/assembler.h:24-34 | every byte string is the image of the value it reads as |
| Registers.RexByte | include/assembler_x64.h:114-128 | `REX_PREFIX \| rex` lies in 0x40..0x4F and its W, R, X, B bits are exactly rex's |
| Operands.SetModRM | src/assembler_x64.c:7-14 | one byte with mod, reg field 0, rm = reg & 7; REX.B added iff reg > 7, except R12 with mod != 3 |
| Operands.SetSib | src/assembler_x64.c:16-26 | SIB = (scale, index & 7, base & 7) after ModRM; REX.X iff index > 7; REX.B iff base & 7 != 0 |
| Operands.SetDisp32 | src/assembler_x64.c:33-37 | the existing bytes and REX bits are kept, then 4 bytes that decode to disp |
| Operands.OperandNew | src/assembler_x64.c:56-62 | no bytes and no REX bits |
| Operands.OperandRegister | src/assembler_x64.c:39-45 | one byte `0xC0 \| (reg & 7)`, REX.B iff reg > 7, a well-formed operand |
| Operands.OperandClone | src/assembler_x64.c:47-54 | the clone equals the original |
| Operands.AddressRFixed | src/assembler_x64.c:64-73 | well formed; 6 bytes when base & 7 is RSP, else 5 |
| Operands.AddressR | src/assembler_x64.c:75-91 | well formed; length 1, 2, 5 or 6 by the SIB and displacement rules |
| Operands.AddressRScale | src/assembler_x64.c:93-100 | well formed; always 6 bytes |
| Operands.AddressRRScale | src/assembler_x64.c:102-114 | well formed; 2 bytes when disp is 0 and base & 7 is not RBP, else 6 |
| Operands.AddressClone | src/assembler_x64.c:116-119 | the clone equals the original |
| Operands.FieldAddress | src/assembler_x64.c:121-124 | a field address is exactly `address_r_new`'s operand |
| Operands.FieldAddressRRScale | src/assembler_x64.c:126-129 | exactly `address_rr_scale_new`'s operand |
| Operands.FieldAddressClone | src/assembler_x64.c:131-134 | the clone equals the original |
| Operands.OperandMod | include/assembler_x64.h:57-60 | the two-bit mod field, 3 exactly when ModRM is at least 0xC0 (register direct) |
| Operands.OperandRm | include/assembler_x64.h:62-66 | a register number below 16 whose low three bits are ModRM's rm and whose bit 3 is REX.B |
| Operands.OperandIndex | include/assembler_x64.h:68-72 | a register number below 16 whose low three bits are SIB's index and whose bit 3 is REX.X |
| Operands.OperandBase | include/assembler_x64.h:74-78 | a register number below 16 whose low three bits are SIB's base and whose bit 3 is REX.B |
| Operands.OperandIsRegister | include/assembler_x64.h:50-55 | when it holds, the operand is register-direct (mod 3), its rm is reg, and reg is below 8 |
| Operands.RegisterOperandDecodes | include/assembler_x64.h:57-66 | for every register r, `operand_mod` of its register operand is 3 and `operand_rm` is r |
| Operands.AddressRLayout | src/assembler_x64.c:75-91 | mod 0 iff disp == 0 and base & 7 != RBP, else mod 2 with disp32; SIB 0x24 iff base & 7 == RSP; `operand_rm` is base otherwise |
| Operands.AddressRFixedLayout | src/assembler_x64.c:64-73 | always mod 2 with disp32; same SIB rule; `operand_rm` is base when no SIB |
| Operands.AddressRScaleLayout | src/assembler_x64.c:93-100 | ModRM 04, SIB (scale, index & 7, 101), disp32; `operand_index` is index; REX.B always set |
| Operands.AddressRRScaleModRM | src/assembler_x64.c:102-114 | rm = 100 always; mod 0 iff the displacement is dropped, else disp32 follows the SIB |
| Operands.AddressRRScaleSib | src/assembler_x64.c:102-114 | SIB fields are scale, index & 7, base & 7; `operand_index` is the requested index; REX bits as `set_sib` sets them |
| Operands.RegisterOperandIsRegister | include/assembler_x64.h:50-55 | `operand_is_register(operand_register_new(r), r)` holds iff r <= 7 |
| Operands.IsRegisterNeverHighRegister | include/assembler_x64.h:50-55 | no operand passes `operand_is_register` for R8..R15 |
| Operands.RRScaleBaseRoundTrip | src/assembler_x64.c:16-26 | `operand_base` of an rr_scale address equals the requested base iff base is RAX or R9..R15 |
| Operands.AddressRRspCarriesRexB | src/assembler_x64.c:16-26 | `address_r_new(RSP, d)` carries REX.B and its base reads back as R12 |
| Operands.RegisterOperandIsNotMemory | src/assembler_x64.c:39-45 | a register operand denotes no memory reference |
| Operands.AddressRDecodes | src/assembler_x64.c:75-91 | the bytes denote [base + disp] for every base except RSP, which gives [R12 + disp] |
| Operands.AddressRFixedDecodes | src/assembler_x64.c:64-73 | the bytes denote [base + disp], RSP giving [R12 + disp] |
| Operands.AddressRScaleDecodes | src/assembler_x64.c:93-100 | the bytes denote [index * 2^scale + disp] with no base (no index for RSP) |
| Operands.AddressRRScaleDecodes | src/assembler_x64.c:102-114 | the bytes denote [b + index * 2^scale + disp] where b is what `operand_base` reads |
| Operands.AddressRRScaleDenotesRequest | src/assembler_x64.c:102-114 | the requested reference is denoted iff base is RAX or R9..R15 and index is not RSP |
| Buffers.CodeBuffer.constructor | src/assembler.c:7-14 | nothing emitted, 4 MiB of storage, limit 32 bytes past its end |
| Buffers.CodeBuffer.Size | include/assembler.h:36-39 | the size is the number of bytes emitted and at most the capacity |
| Buffers.CodeBuffer.Append | include/assembler.h:18-34 | the bytes land at the old cursor, nothing below it changes, the cursor advances by their count |
| Buffers.CodeBuffer.EmitUint8 | include/assembler.h:18-22 | the contents grow by exactly the byte |
| Buffers.CodeBuffer.EmitInt32 | include/assembler.h:24-28 | the contents grow by exactly the 4 little-endian bytes |
| Buffers.CodeBuffer.EmitInt64 | include/assembler.h:30-34 | the contents grow by exactly the 8 little-endian bytes |
| Buffers.CodeBuffer.LoadInt32 | include/assembler.h:41-44 | the int32 whose little-endian bytes sit at pos |
| Buffers.CodeBuffer.StoreInt32 | include/assembler.h:46-49 | only bytes pos..pos+3 change, the cursor does not, and loading at pos yields the value |
| Buffers.LoadInt32AsWritten | include/assembler.h:41-44 | the as-written load returns the address, truncated to 32 bits |
| Buffers.LoadAsWrittenMissesStoredValue | include/assembler.h:41-44 | on any buffer whose field at offset 0 holds 0, the intended load reads 0 while the as-written load of storage at 0x10000 yields 0x10000 |
| Labels.Label.constructor | include/assembler_x64.h:12-15 | a fresh label is unused |
| Labels.LinkTo | src/assembler_x64.c:162-165 | `label_link_position` gives the site back, and the value is at least 8 exactly for sites >= 0 |
| Labels.BindTo | src/assembler_x64.c:167-170 | `label_position` gives the target back, and the value is at most -8 exactly for targets >= 0 |
| Labels.Position | include/assembler_x64.h:17-20 | the position is a valid offset exactly when the value is at most -8 |
| Labels.LinkPosition | include/assembler_x64.h:22-25 | the link site is a valid offset exactly when the value is at least 8 |
| Labels.IsBound | include/assembler_x64.h:27-30 | a bound value is not linked and is the binding of its own position |
| Labels.IsLinked | include/assembler_x64.h:32-35 | a linked value is not the unused 0 and is the link of its own site |
| Labels.StateOf | include/assembler_x64.h:27-35 | every label value is in exactly one of the unused, linked and bound states |
| Labels.BindToRoundTrip | src/assembler_x64.c:167-170 | binding at b >= 0 gives a bound value whose `label_position` is b |
| Labels.LinkToRoundTrip | src/assembler_x64.c:162-165 | linking at p >= 0 gives a linked value whose `label_link_position` is p |
| Labels.Rel32 | src/assembler_x64.c:189-199 | the stored `(int32_t)(bound - (pos + 4))`, added to the field's end, lands on bound when it fits |
| Labels.SitesDescend | src/assembler_x64.c:189-199 | chain fields lie inside the code, each below the one linked after it, so the walk terminates |
| Labels.LinkExtendsChain | src/assembler_x64.c:172-177 | writing the old value at the end and linking there gives a well-formed chain one field longer |
| Labels.AppendKeepsChain | include/assembler.h:18-34 | appending bytes leaves every chain and its fields as they were |
| Labels.PatchedLength | src/assembler_x64.c:189-199 | patching keeps the length of the code |
| Labels.PatchedAtSites | src/assembler_x64.c:189-199 | after patching, each chain field holds `(int32_t)(target - (site + 4))` |
| Labels.PatchedElsewhere | src/assembler_x64.c:189-199 | after patching, every byte outside the chain's fields is unchanged |
| Instructions.RexPrefix | include/assembler_x64.h:114-128 | no byte when no REX bit is wanted, else one byte 0x41..0x4F carrying exactly those bits |
| Instructions.OperandRexBytes | include/assembler_x64.h:114-120 | at most one prefix byte, and exactly one whenever REX.W is requested |
| Instructions.RegisterRexBytes | include/assembler_x64.h:122-128 | at most one prefix byte, and exactly one whenever REX.W is requested |
| Instructions.MovqRiBytes | src/assembler_x64.c:236-241 | ten bytes, the last eight the little-endian immediate |
| Instructions.AddqRrBytes | src/assembler_x64.c:208-215 | three bytes with opcode 03 second |
| Instructions.AddqRaBytes | src/assembler_x64.c:201-206 | two bytes longer than the operand, opcode 03 second, the operand's SIB and displacement carried unchanged |
| Instructions.AddqArBytes | src/assembler_x64.c:223-228 | two bytes longer than the operand, opcode 01 second, the operand's SIB and displacement carried unchanged |
| Instructions.JmpBoundBytes | src/assembler_x64.c:243-255 | five bytes starting with E9 |
| Instructions.OperandBytes | src/assembler_x64.c:143-150 | as many bytes as the operand, all but the first unchanged |
| Instructions.OperandRexDecodes | include/assembler_x64.h:114-120 | no byte iff no bit is wanted; otherwise one prefix carrying the given bits, R for rm > 7 and the operand's bits |
| Instructions.RegisterRexDecodes | include/assembler_x64.h:122-128 | no byte iff no bit is wanted; otherwise one prefix whose B is set iff given or reg > 7 |
| Instructions.OperandRexLayout | include/assembler_x64.h:114-120 | with REX.W requested the prefix is always one byte: W, R iff rm > 7, the operand's X and B |
| Instructions.OperandBytesModRM | src/assembler_x64.c:143-150 | adding `rm << 3` to a ModRM whose reg field is 0 sets that field to rm and keeps mod and rm |
| Instructions.MovqRiDecodes | src/assembler_x64.c:236-241 | `movq_ri` is 10 bytes, REX.W(+B) first, and decodes back to MOV dst, imm |
| Instructions.AddqRrLayout | src/assembler_x64.c:208-215 | `addq_rr` is REX.W\|R\|B, 03, `0xC0 \| (dst & 7) << 3 \| (src & 7)` |
| Instructions.AddqRrDecodes | src/assembler_x64.c:208-215 | `addq_rr` decodes back to ADD dst, src |
| Instructions.OperandDecodesAsRM | src/assembler_x64.c:143-150 | the emitted operand bytes decode to the operand's memory reference whatever the reg field |
| Instructions.AddqRaDecodes | src/assembler_x64.c:201-206 | `addq_ra` decodes back to ADD dst, [the address's reference] |
| Instructions.AddqArDecodes | src/assembler_x64.c:223-228 | `addq_ar` decodes back to ADD [the address's reference], src |
| Instructions.JmpBoundLands | src/assembler_x64.c:243-255 | a jump to a bound label is 5 bytes, E9 first, and its displacement added to its end lands on the target |
| Assembly.Assembler.constructor | src/assembler_x64.c:136-141 | a new assembler over an empty buffer |
| Assembly.Assembler.Size | include/assembler_x64.h:140-143 | `assembler_size` is the number of bytes emitted |
| Assembly.Assembler.EmitUint8 | include/assembler_x64.h:109-112 | appends the byte |
| Assembly.Assembler.EmitInt32 | include/assembler_x64.h:130-133 | appends the 4 little-endian bytes |
| Assembly.Assembler.EmitImmediate | src/assembler_x64.c:179-182 | appends the 8 little-endian bytes of the immediate |
| Assembly.Assembler.EmitOperand | src/assembler_x64.c:143-150 | the loop appends exactly the operand's bytes with rm in the first |
| Assembly.Assembler.EmitOperandRex | include/assembler_x64.h:114-120 | appends exactly the operand REX prefix, if any |
| Assembly.Assembler.EmitRegisterRex | include/assembler_x64.h:122-128 | appends exactly the register REX prefix, if any |
| Assembly.Assembler.Ret | src/assembler_x64.c:184-187 | appends C3 |
| Assembly.Assembler.MovqRi | src/assembler_x64.c:236-241 | appends exactly `movq_ri`'s layout |
| Assembly.Assembler.AddqRr | src/assembler_x64.c:208-215 | appends exactly `addq_rr`'s layout |
| Assembly.Assembler.AddqRa | src/assembler_x64.c:201-206 | appends exactly `addq_ra`'s layout |
| Assembly.Assembler.AddqAr | src/assembler_x64.c:223-228 | appends exactly `addq_ar`'s layout |
| Assembly.Assembler.AddqRi | src/assembler_x64.c:217-221 | appends `movq_ri(R11, imm)` and then `addq_rr(dst, R11)` |
| Assembly.Assembler.AddqAi | src/assembler_x64.c:230-234 | appends `movq_ri(R11, imm)` and then `addq_ar(addr, R11)` |
| Assembly.Assembler.EmitLabelLink | src/assembler_x64.c:172-177 | appends the old value as an int32, links the label there, and a well-formed chain grows by that field |
| Assembly.Assembler.EmitLabel | src/assembler_x64.c:152-160 | bound label: `(int32_t)(target - size - instr_size)`; otherwise a link |
| Assembly.Assembler.Jmp | src/assembler_x64.c:243-255 | bound: E9 and the distance from the end; unbound near: EB alone, label unchanged; unbound: E9 and a link at start + 1 |
| Assembly.Assembler.Bind | src/assembler_x64.c:189-199 | walking the chain with the corrected load, the code becomes the patched chain, the size is unchanged, and the label is bound at the old size |
| Assembly.BindPatchesExactlyTheChain | src/assembler_x64.c:189-199 | each chain field gets the distance from its end to the target; no other byte changes |
| Programs.AddToPointY | main.c:16-22 | `main`'s sequence is 48 B8 p, 49 BB 1000, 4C 01 98 04 00 00 00, C3 |
| Programs.PointYAddress | src/assembler_x64.c:121-124 | `field_address_new(RAX, 4)` is mod 2, rm RAX, disp32 4, with no REX bits |
| Programs.AddToPointYBytes | src/assembler_x64.c:223-228 | `addq [rax + 4], r11` is 4C 01 98 04 00 00 00 |
| Programs.ForwardJump | src/assembler_x64.c:243-255 | a jump over one `ret` is E9 01 00 00 00 C3 once the label is bound |
| Programs.BackwardJump | src/assembler_x64.c:243-255 | a jump back to offset 0 after a `ret` is E9 FA FF FF FF |
| Programs.NearJumpUnbound | src/assembler_x64.c:249-250 | a near jump to an unbound label is EB alone and the label stays unlinked |

## Left out

- `assembler_compile` and `assembler_code` are not modelled. They cover the executable mapping, the copy into it and the raw pointer, which are operating-system plumbing. What the code does when run is out of scope; only its bytes are modelled.
- Operands.AddressRFixed, AddressR, AddressRScale and AddressRRScale start from no REX bits. The source's address constructors never initialise `rex`: they take the operand from `malloc` (src/assembler_x64.c:66,77,95,104), and `set_mod_rm` and `set_sib` OR bits into whatever byte it holds (src/assembler_x64.c:10,19,22). The model starts them at 0, as `operand_register_new` does (src/assembler_x64.c:42). The REX clauses of their layout and decoding lemmas, and `Programs.PointYAddress`, `Programs.AddToPointYBytes` and `Programs.AddToPointY`, hold only under that choice.
- The `malloc`/`free` of operands, buffers and the assembler are not modelled. Operands are values, and cloning one yields the same value.
- `set_disp_8`, `fpu_tmp`, the unused `fixed` parameter of `address_r_fixed_new` and the label's `unresolved` field are not modelled: nothing in the encoder uses them.
- Buffers.CodeBuffer.EmitUint8, EmitInt32, EmitInt64 and Append require room in the 4 MiB storage. The source checks nothing and writes past the end.
- Assembly.Assembler's emitting methods need the same room, through `HasRoom`.
- Buffers.CodeBuffer.LoadInt32 and StoreInt32 require the four bytes to lie below the cursor. The source accepts any offset.
- Assembly.Assembler.Bind requires the label's chain to be well formed: inside the code, and descending. Every chain built by `EmitLabelLink` and `Jmp` from an unused label is, and appending keeps it so.
- Assembly.Assembler.Bind is specified for one label at a time. The model does not show that the chains of different labels never share a field.
- Assembly.Assembler.EmitOperand takes rm as a byte. The source's `int rm` is always `reg & 7` at its call sites.
- Registers are the sixteen values 0..15. `asm_register` values outside that range are not modelled.
- Immediates are passed by value rather than through a pointer.
- The constants header is not part of this model. REX_W = 8, REX_R = 4, the prefix 0x40 and the register numbers follow the manual. REX_B = 1 and REX_X = 2 follow the header's decoders.

## Findings

| source | as written | input that shows it | evidently intended | confidence | as-written member | corrected member |
|---|---|---|---|---|---|---|
| include/assembler.h:41-44 | `asm_buffer_load_int32` returns `(int32_t)(contents + pos)`, the address of the field truncated to 32 bits, not the four bytes stored there | storage at address 0x10000 whose field at offset 0 holds 0: the load yields 0x10000, so `assembler_bind` never sees the end of the chain and follows a bogus link | `*(int32_t*)(contents + pos)`, the stored value, which `assembler_bind` needs to walk the chain | high (not executed) | Buffers.LoadInt32AsWritten, Buffers.LoadAsWrittenMissesStoredValue | Buffers.CodeBuffer.LoadInt32, Buffers.CodeBuffer.StoreInt32, Assembly.Assembler.Bind |

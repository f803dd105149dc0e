/** A reference decoder for the amd64 instructions the back end writes, read
    as the Intel 64 and IA-32 Architectures Software Developer's Manual,
    Vol. 2A, describes them: the address-size prefix 0x67 (section 2.1.1), a
    REX prefix 0x40..0x4F with its W, R and B bits (section 2.2.1), the ModR/M
    byte (section 2.1.3) with the 32/64-bit forms of Table 2-2 (section 2.1.5)
    where rm=101 with mod 01/10 is [rBP]+disp8/disp32, and the opcodes ADD 01,
    SUB 2B, MOV 88/89/8A/8B, group 1 80/81 with a /digit, PUSH 50+r, POP 58+r
    and RET C3. It is written independently of the encoder, and the encoder's
    sequences are proved to decode to the instruction they stand for. */
module Amd64Decoding {

  import opened Bytes
  import opened Sir
  import opened Amd64Encoding

  /** An r/m operand: a register, or memory at a base register plus a displacement. */
  datatype Operand = Direct(reg: nat) | Based(base: nat, disp: int)

  datatype Insn =
    | RegRm(opcode: byte, addressSize: bool, wide: bool, reg: nat, rm: Operand)
    | RmImm(opcode: byte, addressSize: bool, wide: bool, ext: nat, rm: Operand, imm: int)
    | Push(reg: nat)
    | Pop(reg: nat)
    | Return

  /** An instruction and the number of bytes it occupies. */
  datatype Decoded = Decoded(insn: Insn, length: nat)

  /** A ModR/M byte with its displacement: the reg field, the operand and the byte count. */
  datatype ModRm = ModRm(reg: nat, operand: Operand, length: nat)

  function ModField(m: byte): nat { m as nat / 64 }
  function RegField(m: byte): nat { (m as nat / 8) % 8 }
  function RmField(m: byte): nat { m as nat % 8 }

  function Bit(b: bool): nat { if b then 1 else 0 }

  predicate IsRex(b: byte) { 0x40 <= b <= 0x4F }

  /** The ModR/M byte and its displacement at the start of `bs`; None for the
      forms outside the subset (mod 00, a SIB byte) and for a short input. */
  function DecodeModRm(bs: seq<byte>, rexR: bool, rexB: bool): Option<ModRm>
  {
    if |bs| == 0 then None
    else
      var m := bs[0];
      var reg := 8 * Bit(rexR) + RegField(m);
      var rm := 8 * Bit(rexB) + RmField(m);
      if ModField(m) == 3 then Some(ModRm(reg, Direct(rm), 1))
      else if ModField(m) == 0 || RmField(m) == 4 then None
      else
        var n := if ModField(m) == 1 then 1 else 4;
        if |bs| < 1 + n then None
        else Some(ModRm(reg, Based(rm, SignedValue(bs[1..1 + n])), 1 + n))
  }

  /** The first instruction of `bs`, if it is in the subset: an optional
      0x67, an optional REX, then the opcode. */
  function Decode(bs: seq<byte>): Option<Decoded>
  {
    var p := if |bs| > 0 && bs[0] == 0x67 then 1 else 0;
    var hasRex := |bs| > p && IsRex(bs[p]);
    DecodeOpcode(bs, p + Bit(hasRex), p == 1, if hasRex then bs[p] as int else 0x40)
  }

  /** The instruction whose opcode is at `bs[o]`, under the prefixes before it. */
  function DecodeOpcode(bs: seq<byte>, o: nat, addressSize: bool, rex: int): Option<Decoded>
  {
    var w, rexR, rexB := (rex / 8) % 2 == 1, (rex / 4) % 2 == 1, rex % 2 == 1;
    if |bs| <= o then None
    else
      var opcode := bs[o];
      if opcode == 0x01 || opcode == 0x2B || 0x88 <= opcode <= 0x8B then
        match DecodeModRm(bs[o + 1..], rexR, rexB)
        case None => None
        case Some(m) => Some(Decoded(RegRm(opcode, addressSize, w, m.reg, m.operand), o + 1 + m.length))
      else if opcode == 0x80 || opcode == 0x81 then
        // The reg field is an opcode extension; REX.R does not apply to it.
        match DecodeModRm(bs[o + 1..], false, rexB)
        case None => None
        case Some(m) => DecodeImmediate(bs, o + 1 + m.length, if opcode == 0x80 then 1 else 4,
                                        RmImm(opcode, addressSize, w, m.reg, m.operand, 0))
      else if 0x50 <= opcode <= 0x57 then Some(Decoded(Push(8 * Bit(rexB) + (opcode - 0x50) as nat), o + 1))
      else if 0x58 <= opcode <= 0x5F then Some(Decoded(Pop(8 * Bit(rexB) + (opcode - 0x58) as nat), o + 1))
      else if opcode == 0xC3 then Some(Decoded(Return, o + 1))
      else None
  }

  /** The `k`-byte immediate at `start`, sign-extended, completing `insn`. */
  function DecodeImmediate(bs: seq<byte>, start: nat, k: nat, insn: Insn): Option<Decoded>
    requires insn.RmImm?
  {
    if |bs| < start + k then None
    else Some(Decoded(insn.(imm := SignedValue(bs[start..start + k])), start + k))
  }

  /** The operand a location stands for: register `t` for `t > 0`, else the
      frame slot at `rbp + 8 * t`. */
  function Location(t: int): Operand
    requires t <= R15
  {
    if t > 0 then Direct(HwNum(t)) else Based(RBP_NUM, 8 * t)
  }

  /** The 32-bit two's-complement reading of an unsigned 32-bit value. */
  function Signed32(v: uint32): int {
    if v < 0x8000_0000 then v as int else v as int - 0x1_0000_0000
  }

  /** The locations the driver can name: registers and slots whose offset fits
      a signed 32-bit displacement. */
  predicate Addressable(t: int) {
    -0x1000_0000 <= t <= R15
  }

  // ModR/M round trip.

  lemma ModRmFields(mode: int, reg: int, rm: int)
    requires 0 <= mode < 4 && 0 <= reg < 8 && 0 <= rm < 8
    ensures ModField(ModRmByte(mode, reg, rm)) == mode
    ensures RegField(ModRmByte(mode, reg, rm)) == reg
    ensures RmField(ModRmByte(mode, reg, rm)) == rm
  {
    var b := ModRmByte(mode, reg, rm) as int;
    assert b == mode * 64 + reg * 8 + rm;
    DivModUnique(b, 64, mode, reg * 8 + rm);
    DivModUnique(b, 8, mode * 8 + reg, rm);
    DivModUnique(mode * 8 + reg, 8, mode, reg);
  }

  /** A ModR/M byte with a reg field up to 7 decodes to its fields: the
      register, or the rbp-based slot with the displacement `8 * target`; a
      REX.B bit extends the register only. */
  lemma RmRoundTrip(reg: int, target: int, width: byte, rexR: bool, rexB: bool, rest: seq<byte>)
    requires 0 <= reg < 8 && Addressable(target) && (rexB ==> target > 0)
    requires RmMode(target) == 0x2 ==> width != SIR_BYTE && width != SIR_WORD
    ensures DecodeModRm(RmBytes(reg, target, width) + rest, rexR, rexB)
         == Some(ModRm(8 * Bit(rexR) + reg,
                       if target > 0 then Direct(8 * Bit(rexB) + Enc(target) as int) else Based(RBP_NUM, 8 * target),
                       |RmBytes(reg, target, width)|))
  {
    var mode := RmMode(target);
    var rm := if target > 0 then Enc(target) as int else RBP_NUM;
    var n := DisplacementCount(mode, width);
    var bs := RmBytes(reg, target, width) + rest;
    ModRmFields(mode, reg, rm);
    assert bs[0] == ModRmByte(mode, reg, rm);
    if mode != 0x3 {
      assert bs[1..1 + n] == LeBytes(target * 8, n);
      if mode == 0x1 {
        assert Pow256(1) == 256;
      } else {
        assert Pow256(4) == 0x1_0000_0000;
      }
      SignedRoundTrip(target * 8, n);
    }
  }

  /** The REX byte's bits. */
  lemma RexBits(w: bool, r: bool, b: bool)
    ensures var rex := 0x40 + 8 * Bit(w) + 4 * Bit(r) + Bit(b);
      ((rex / 8) % 2 == 1) == w && ((rex / 4) % 2 == 1) == r && (rex % 2 == 1) == b
  {
  }

  /** Without 0x67, and with or without a REX byte in front, decoding goes
      straight to the opcode. */
  lemma DecodeAfterRex(bs: seq<byte>, o: nat, rex: int)
    requires o <= 1 && |bs| > o
    requires o == 1 ==> IsRex(bs[0]) && rex == bs[0] as int
    requires o == 0 ==> !IsRex(bs[0]) && rex == 0x40 && bs[0] != 0x67
    ensures Decode(bs) == DecodeOpcode(bs, o, false, rex)
  {
  }

  /** A register/r-m opcode followed by a ModR/M form. */
  lemma DecodeRegRm(bs: seq<byte>, o: nat, rex: int, m: ModRm)
    requires |bs| > o && (bs[o] == 0x01 || bs[o] == 0x2B || 0x88 <= bs[o] <= 0x8B)
    requires DecodeModRm(bs[o + 1..], (rex / 4) % 2 == 1, rex % 2 == 1) == Some(m)
    ensures DecodeOpcode(bs, o, false, rex)
         == Some(Decoded(RegRm(bs[o], false, (rex / 8) % 2 == 1, m.reg, m.operand), o + 1 + m.length))
  {
  }

  /** Opcode 0x81, a ModR/M form and a four-byte immediate. */
  lemma DecodeImm32(bs: seq<byte>, o: nat, rex: int, m: ModRm)
    requires |bs| > o && bs[o] == 0x81
    requires DecodeModRm(bs[o + 1..], false, rex % 2 == 1) == Some(m)
    requires |bs| >= o + 1 + m.length + 4
    ensures DecodeOpcode(bs, o, false, rex)
         == Some(Decoded(RmImm(0x81, false, (rex / 8) % 2 == 1, m.reg, m.operand,
                               SignedValue(bs[o + 1 + m.length..o + 1 + m.length + 4])), o + 1 + m.length + 4))
  {
  }

  /** A move of a register to or from a location, at any width the driver
      passes (an unpacked index below 16), decodes to MOV with the register
      named by `reg` in the reg field, the location as the r/m operand, REX.W
      exactly for the QWORD width and no address-size prefix. */
  lemma MovRoundTrip(reg: int, regOrMem: int, width: byte, toReg: bool, rest: seq<byte>)
    requires IsRegister(reg) && Addressable(regOrMem) && width < 16
    ensures Decode(MovBytes(reg, regOrMem, width, toReg) + rest)
         == Some(Decoded(RegRm(if toReg then 0x8B else 0x89, false, width == SIR_QWORD, HwNum(reg), Location(regOrMem)),
                         |MovBytes(reg, regOrMem, width, toReg)|))
  {
    var rex := MovRex(reg, regOrMem, width);
    MovRexBits(reg, regOrMem, width);
    MovModRm(reg, regOrMem, width, rest);
    DecodeRegRmForm(Optional(rex != 0x40, rex), MovOpcode(toReg, width), RmBytes(Enc(reg) as int, regOrMem, width),
                    rest, rex as int, ModRm(HwNum(reg), Location(regOrMem), |RmBytes(Enc(reg) as int, regOrMem, width)|));
    MovLayout(reg, regOrMem, width, toReg);
  }

  lemma MovRexBits(reg: int, regOrMem: int, width: byte)
    ensures var rex := MovRex(reg, regOrMem, width) as int;
      IsRex(rex as byte) && ((rex / 8) % 2 == 1) == (width == SIR_QWORD)
      && ((rex / 4) % 2 == 1) == (reg >= R8) && (rex % 2 == 1) == (regOrMem >= R8)
  {
    RexBits(width == SIR_QWORD, reg >= R8, regOrMem >= R8);
  }

  lemma MovModRm(reg: int, regOrMem: int, width: byte, rest: seq<byte>)
    requires IsRegister(reg) && Addressable(regOrMem) && width < 16
    ensures DecodeModRm(RmBytes(Enc(reg) as int, regOrMem, width) + rest, reg >= R8, regOrMem >= R8)
         == Some(ModRm(HwNum(reg), Location(regOrMem), |RmBytes(Enc(reg) as int, regOrMem, width)|))
  {
    RmRoundTrip(Enc(reg) as int, regOrMem, width, reg >= R8, regOrMem >= R8, rest);
  }

  lemma MovLayout(reg: int, regOrMem: int, width: byte, toReg: bool)
    requires IsRegister(reg) && regOrMem < REGS_COUNT && width < 16
    ensures MovBytes(reg, regOrMem, width, toReg)
         == Optional(MovRex(reg, regOrMem, width) != 0x40, MovRex(reg, regOrMem, width)) + [MovOpcode(toReg, width)]
          + RmBytes(Enc(reg) as int, regOrMem, width)
    ensures MovOpcode(toReg, width) == if toReg then 0x8B else 0x89
  {
  }

  /** A register/r-m form behind an optional REX byte decodes to its opcode
      and ModR/M operands. */
  lemma DecodeRegRmForm(pre: seq<byte>, opcode: byte, rmBytes: seq<byte>, rest: seq<byte>, rex: int, m: ModRm)
    requires opcode == 0x01 || opcode == 0x2B || 0x88 <= opcode <= 0x8B
    requires |pre| == 0 ==> rex == 0x40
    requires |pre| <= 1 && (|pre| == 1 ==> IsRex(pre[0]) && rex == pre[0] as int)
    requires DecodeModRm(rmBytes + rest, (rex / 4) % 2 == 1, rex % 2 == 1) == Some(m) && m.length == |rmBytes|
    ensures Decode(pre + [opcode] + rmBytes + rest)
         == Some(Decoded(RegRm(opcode, false, (rex / 8) % 2 == 1, m.reg, m.operand), |pre| + 1 + |rmBytes|))
  {
    var bs := pre + [opcode] + rmBytes + rest;
    RegRmFormShape(pre, opcode, rmBytes, rest);
    DecodeAfterRex(bs, |pre|, rex);
    DecodeRegRm(bs, |pre|, rex, m);
  }

  /** Where the parts of a register/r-m form sit. */
  lemma RegRmFormShape(pre: seq<byte>, opcode: byte, rmBytes: seq<byte>, rest: seq<byte>)
    requires |pre| <= 1
    ensures var bs := pre + [opcode] + rmBytes + rest;
      |bs| > |pre| && bs[|pre|] == opcode && bs[|pre| + 1..] == rmBytes + rest
      && (|pre| == 1 ==> bs[0] == pre[0])
  {
    var bs := pre + [opcode] + rmBytes + rest;
    assert bs[|pre| + 1..] == rmBytes + rest;
  }

  /** The immediate form decodes to ADD (/0) or SUB (/5) with opcode 0x81, the
      destination as the r/m operand, REX.W exactly for QWORD and the
      immediate read as the 32-bit two's complement of the operand. */
  lemma ArithImmRoundTrip(sub: bool, dest: int, width: byte, val: uint32, rest: seq<byte>)
    requires Addressable(dest) && width < 16
    ensures Decode(ArithImmBytes(sub, dest, width, val) + rest)
         == Some(Decoded(RmImm(0x81, false, width == SIR_QWORD, if sub then 5 else 0, Location(dest), Signed32(val)),
                         |ArithImmBytes(sub, dest, width, val)|))
  {
    var rex := ImmRex(dest, width);
    var ext := if sub then 5 else 0;
    var rmBytes := RmBytes(ext, dest, width);
    var imm := LeBytes(val as int, 4);
    ImmRexBits(dest, width);
    ImmModRm(ext, dest, width, imm + rest);
    DecodeImmForm(Optional(rex != 0x40, rex), rmBytes, imm, rest, rex as int, ModRm(ext, Location(dest), |rmBytes|));
    ImmediateRoundTrip(val);
    ArithImmLayout(sub, dest, width, val);
  }

  lemma ImmRexBits(dest: int, width: byte)
    ensures var rex := ImmRex(dest, width) as int;
      IsRex(rex as byte) && ((rex / 8) % 2 == 1) == (width == SIR_QWORD) && (rex % 2 == 1) == (dest >= R8)
  {
    RexBits(width == SIR_QWORD, false, dest >= R8);
  }

  lemma ImmModRm(ext: int, dest: int, width: byte, rest: seq<byte>)
    requires 0 <= ext < 8 && Addressable(dest) && width < 16
    ensures DecodeModRm(RmBytes(ext, dest, width) + rest, false, dest >= R8)
         == Some(ModRm(ext, Location(dest), |RmBytes(ext, dest, width)|))
  {
    RmRoundTrip(ext, dest, width, false, dest >= R8, rest);
  }

  /** An immediate form behind an optional REX byte decodes to its ModR/M
      operand and its sign-extended immediate. */
  lemma DecodeImmForm(pre: seq<byte>, rmBytes: seq<byte>, imm: seq<byte>, rest: seq<byte>, rex: int, m: ModRm)
    requires |imm| == 4
    requires |pre| == 0 ==> rex == 0x40
    requires |pre| <= 1 && (|pre| == 1 ==> IsRex(pre[0]) && rex == pre[0] as int)
    requires DecodeModRm(rmBytes + (imm + rest), false, rex % 2 == 1) == Some(m) && m.length == |rmBytes|
    ensures Decode(pre + [0x81] + rmBytes + imm + rest)
         == Some(Decoded(RmImm(0x81, false, (rex / 8) % 2 == 1, m.reg, m.operand, SignedValue(imm)),
                         |pre| + 1 + |rmBytes| + 4))
  {
    var bs := pre + [0x81] + rmBytes + imm + rest;
    ImmFormShape(pre, rmBytes, imm, rest);
    DecodeAfterRex(bs, |pre|, rex);
    DecodeImm32(bs, |pre|, rex, m);
  }

  /** Where the parts of an immediate form sit. */
  lemma ImmFormShape(pre: seq<byte>, rmBytes: seq<byte>, imm: seq<byte>, rest: seq<byte>)
    requires |pre| <= 1 && |imm| == 4
    ensures var bs := pre + [0x81] + rmBytes + imm + rest;
      var start := |pre| + 1 + |rmBytes|;
      |bs| > |pre| && bs[|pre|] == 0x81 && bs[|pre| + 1..] == rmBytes + (imm + rest)
      && |bs| >= start + 4 && bs[start..start + 4] == imm
      && (|pre| == 1 ==> bs[0] == pre[0])
  {
    var bs := pre + [0x81] + rmBytes + imm + rest;
    assert bs[|pre| + 1..] == rmBytes + (imm + rest);
    var start := |pre| + 1 + |rmBytes|;
    assert bs[start..start + 4] == imm;
  }

  lemma ArithImmLayout(sub: bool, dest: int, width: byte, val: uint32)
    requires dest < REGS_COUNT && width < 16
    ensures ArithImmBytes(sub, dest, width, val)
         == Optional(ImmRex(dest, width) != 0x40, ImmRex(dest, width)) + [0x81]
          + RmBytes(if sub then 5 else 0, dest, width) + LeBytes(val as int, 4)
  {
  }

  /** Four immediate bytes read back as the operand's 32-bit two's complement. */
  lemma ImmediateRoundTrip(val: uint32)
    ensures SignedValue(LeBytes(val as int, 4)) == Signed32(val)
  {
    UnsignedRoundTrip(val);
    assert Pow256(4) == 0x1_0000_0000;
  }

  /** The register form of Add/Sub as written: it has no REX prefix, so the
      operation is 32-bit and a destination register of R8..R15 is read
      without its extension bit, and the reg field holds the register's id,
      not its number. For ids up to 7 this decodes as below. */
  lemma ArithVarAsWritten(sub: bool, op2Loc: int, dest: int, width: byte, rest: seq<byte>)
    requires IsRegister(op2Loc) && op2Loc < 8 && Addressable(dest) && width < 16
    ensures Decode(ArithVarBytes(sub, op2Loc, dest, width) + rest)
         == Some(Decoded(RegRm(if sub then 0x2B else 0x01, false, false, op2Loc,
                               if dest > 0 then Direct(Enc(dest) as int) else Based(RBP_NUM, 8 * dest)),
                         |ArithVarBytes(sub, op2Loc, dest, width)|))
  {
    var bs := ArithVarBytes(sub, op2Loc, dest, width) + rest;
    assert bs[1..] == RmBytes(op2Loc, dest, width) + rest;
    RmRoundTrip(op2Loc, dest, width, false, false, rest);
  }

  /** Consequently the register form never names the operand register it was
      given: the id differs from the register's number for every register. */
  lemma ArithVarNamesWrongRegister(op2Loc: int)
    requires IsRegister(op2Loc)
    ensures HwNum(op2Loc) != op2Loc
  {
  }

  /** For ids from 8 (R9) on, bit 3 of the id falls into the mode bits: an
      Add of R9 into the slot at index -20 (offset -160, a disp32 form) reads
      as a register-to-register add into rbp, and its four displacement
      bytes are left over as the next instruction. */
  lemma ArithVarWideIdCounterexample()
    ensures Decode(ArithVarBytes(false, R9, -20, SIR_QWORD))
         == Some(Decoded(RegRm(0x01, false, false, 0, Direct(RBP_NUM)), 2))
    ensures |ArithVarBytes(false, R9, -20, SIR_QWORD)| == 6
  {
    var bs := ArithVarBytes(false, R9, -20, SIR_QWORD);
    assert bs[0] == 0x01;
    assert bs[1] == ModRmByte(0x2, R9, RBP_NUM);
    assert bs[1] == 0xC5;
    assert bs[1..] == [0xC5] + LeBytes(-160, 4);
  }

  /** Push and pop of RAX..RDI decode to PUSH/POP of that register. */
  lemma PushPopRoundTrip(reg: int, push: bool, rest: seq<byte>)
    requires IsRegister(reg) && reg < R8
    ensures Decode(PushPopBytes(reg, push) + rest)
         == Some(Decoded(if push then Push(HwNum(reg)) else Pop(HwNum(reg)), 1))
  {
    assert (PushPopBytes(reg, push) + rest)[0] == (if push then 0x50 else 0x58) + Enc(reg);
  }

  /** For R8..R15 the byte in front is 0x21, which is not a REX prefix but the
      opcode of AND, so the sequence does not begin with a push or a pop. */
  lemma PushPopExtensionIsNotRex(reg: int, push: bool, rest: seq<byte>)
    requires IsRegister(reg) && reg >= R8
    ensures !IsRex(PushPopBytes(reg, push)[0])
    ensures Decode(PushPopBytes(reg, push) + rest) == None
  {
    assert (PushPopBytes(reg, push) + rest)[0] == PUSH_POP_EXTENSION;
  }

  /** The prologue is push rbp then mov rbp, rsp (MOV r/m64, r64 with rbp as
      r/m and rsp as reg), and the exit sequence is pop rbp then ret. */
  lemma FrameSequences()
    ensures Decode(PROLOGUE_BYTES) == Some(Decoded(Push(RBP_NUM), 1))
    ensures Decode(PROLOGUE_BYTES[1..]) == Some(Decoded(RegRm(0x89, false, true, RSP_NUM, Direct(RBP_NUM)), 3))
    ensures Decode(EXIT_BYTES) == Some(Decoded(Pop(RBP_NUM), 1))
    ensures Decode(EXIT_BYTES[1..]) == Some(Decoded(Return, 1))
  {
    assert PROLOGUE_BYTES[1..] == [0x48, 0x89, 0xE5];
    assert [0x48, 0x89, 0xE5][2..] == [0xE5 as byte];
    RexBits(true, false, false);
    assert EXIT_BYTES[1..] == [0xC3];
  }

  /** The WORD width (unreachable from the driver, which passes indices)
      would write 0x67, the address-size prefix rather than the operand-size
      prefix 0x66, and for a disp32 slot only two displacement bytes where
      mod 10 announces four: a load from slot -17 does not decode. */
  lemma WordWidthCounterexample()
    ensures MovBytes(RAX, -17, SIR_WORD, true)[0] == 0x67
    ensures |MovBytes(RAX, -17, SIR_WORD, true)| == 5
    ensures Decode(MovBytes(RAX, -17, SIR_WORD, true)) == None
  {
    var bs := MovBytes(RAX, -17, SIR_WORD, true);
    assert bs == [0x67, 0x8B, ModRmByte(0x2, 0, RBP_NUM)] + LeBytes(-136, 2);
    ModRmFields(0x2, 0, RBP_NUM);
  }
}

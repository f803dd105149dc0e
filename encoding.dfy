/** The byte sequences the amd64 back end of src/x86_64.c writes, as pure
    functions of their inputs. Every sequence is given in MEMORY order: the
    emitter writes downwards, so the byte it writes last comes first. */
module Amd64Encoding {

  import opened Bytes
  import opened Sir

  // `enum Regs`: the allocator's register ids; 0 means "no register".

  const RAX := 1
  const RBX := 2
  const RCX := 3
  const RDX := 4
  const RSI := 5
  const RDI := 6
  const R8 := 7
  const R9 := 8
  const R10 := 9
  const R11 := 10
  const R12 := 11
  const R13 := 12
  const R14 := 13
  const R15 := 14
  const REGS_COUNT := 15

  predicate IsRegister(r: int) {
    RAX <= r <= R15
  }

  /** `RegistersEnconding`, indexed by register id; slot 0 is zero-initialised. */
  const REGISTERS_ENCODING: seq<byte> := [0, 0, 3, 1, 2, 6, 7, 0, 1, 2, 3, 4, 5, 6, 7]

  /** The low three bits of a register's number, as the ModRM and opcode fields hold them. */
  function Enc(r: int): (e: byte)
    requires 0 <= r < REGS_COUNT
    ensures e < 8
  {
    REGISTERS_ENCODING[r]
  }

  /** The register's number in the SDM's numbering: the REX extension bit for
      R8..R15 followed by the three encoded bits. */
  function HwNum(r: int): (n: nat)
    requires IsRegister(r)
    ensures n < 16
  {
    (if r >= R8 then 8 else 0) + Enc(r) as int
  }

  /** The SDM's number of rsp and of rbp, the frame pointer every displacement is relative to. */
  const RSP_NUM := 4
  const RBP_NUM := 5

  /** The ids name rax, rbx, rcx, rdx, rsi, rdi, r8..r15 as the SDM numbers
      them: distinct registers, and never rsp or rbp. */
  lemma RegisterNumbering(r: int, s: int)
    requires IsRegister(r) && IsRegister(s)
    ensures HwNum(r) != RSP_NUM && HwNum(r) != RBP_NUM
    ensures HwNum(r) == HwNum(s) ==> r == s
    ensures HwNum(RAX) == 0 && HwNum(RCX) == 1 && HwNum(RDX) == 2 && HwNum(RBX) == 3
    ensures HwNum(RSI) == 6 && HwNum(RDI) == 7
    ensures r >= R8 ==> HwNum(r) == r + 1
  {
  }

  /** `(Mod << 6) | (Reg << 3) | Rm` for a 2-bit mode, a reg field below 16 and
      a 3-bit rm field. Bit 3 of the reg field lands on bit 6, the low bit of
      the mode, which the OR merges into it. */
  function ModRmByte(mode: int, reg: int, rm: int): (b: byte)
    requires 0 <= mode < 4 && 0 <= reg < 16 && 0 <= rm < 8
    ensures b as int % 8 == rm && (b as int / 8) % 8 == reg % 8
    ensures b as int / 64 == if reg >= 8 then mode - mode % 2 + 1 else mode
  {
    var modeBits := if reg >= 8 && mode % 2 == 0 then mode + 1 else mode;
    (modeBits * 64 + (reg % 8) * 8 + rm) as byte
  }

  /** The mode `SIR_AMD64WriteRM` picks: register-direct for a register,
      [rbp]+disp8 when the slot's offset fits a signed byte, else [rbp]+disp32. */
  function RmMode(target: int): int {
    if target > 0 then 0x3 else if target * 8 < -128 then 0x2 else 0x1
  }

  /** How many displacement bytes `SIR_AMD64WriteRM` writes after the ModRM byte. */
  function DisplacementCount(mode: int, width: byte): (n: nat)
    ensures n <= 4 && (n == 0 <==> mode == 0x3)
  {
    if mode == 0x3 then 0
    else if width == SIR_BYTE || mode == 0x1 then 1
    else if width == SIR_WORD then 2
    else 4
  }

  /** `SIR_AMD64WriteRM`: the ModRM byte, then the slot offset `target * 8`
      little-endian. A target above 0 is a register, one at or below 0 the
      frame slot at `rbp + 8 * target`. */
  function RmBytes(reg: int, target: int, width: byte): (bs: seq<byte>)
    requires 0 <= reg < 16 && target < REGS_COUNT
    ensures |bs| == 1 + DisplacementCount(RmMode(target), width)
  {
    var mode := RmMode(target);
    var rm := if target > 0 then Enc(target) as int else RBP_NUM;
    [ModRmByte(mode, reg, rm)] + LeBytes(target * 8, DisplacementCount(mode, width))
  }

  /** The one-byte sequence `[b]` when `present`, else nothing. */
  function Optional(present: bool, b: byte): (bs: seq<byte>)
    ensures |bs| == if present then 1 else 0
  {
    if present then [b] else []
  }

  /** MOV r, r/m (0x8B) or MOV r/m, r (0x89); the byte forms are one less. */
  function MovOpcode(toReg: bool, width: byte): byte {
    (if toReg then 0x8B else 0x89) - (if width == SIR_BYTE then 1 else 0)
  }

  /** REX with W for a QWORD width, R for a register operand of R8..R15 and B for
      an r/m register of R8..R15. */
  function MovRex(reg: int, regOrMem: int, width: byte): byte {
    (if width == SIR_QWORD then 0x48 else 0x40) + (if regOrMem >= R8 then 0x1 else 0) + (if reg >= R8 then 0x4 else 0)
  }

  /** `SIR_AMD64WriteMov`: optional 0x67, REX unless it is the bare 0x40, the
      opcode, then the ModRM and displacement bytes with `Enc(reg)` in the reg field. */
  function MovBytes(reg: int, regOrMem: int, width: byte, toReg: bool): (bs: seq<byte>)
    requires IsRegister(reg) && regOrMem < REGS_COUNT
    ensures var n := 1 + DisplacementCount(RmMode(regOrMem), width);
      n + 1 <= |bs| <= n + 3 && bs[|bs| - n - 1] == MovOpcode(toReg, width)
  {
    var rex := MovRex(reg, regOrMem, width);
    Optional(width == SIR_WORD, 0x67) + Optional(rex != 0x40, rex) + [MovOpcode(toReg, width)]
      + RmBytes(Enc(reg) as int, regOrMem, width)
  }

  /** The byte the source writes in front of a push or pop of R8..R15:
      `0b0100000 | 1`, seven binary digits. */
  const PUSH_POP_EXTENSION: byte := 0x21

  /** `SIR_AMD64PushPopReg`: PUSH (0x50) or POP (0x58) plus the register's
      encoding, preceded by 0x21 for R8..R15. */
  function PushPopBytes(reg: int, push: bool): (bs: seq<byte>)
    requires 0 <= reg < REGS_COUNT
    ensures |bs| == (if reg >= R8 then 2 else 1)
    ensures bs[|bs| - 1] == (if push then 0x50 else 0x58) + Enc(reg)
  {
    Optional(reg >= R8, PUSH_POP_EXTENSION) + [(if push then 0x50 else 0x58) + Enc(reg)]
  }

  /** `SIR_AMD64WriteExitSequence`: pop rbp; ret. */
  const EXIT_BYTES: seq<byte> := [0x5D, 0xC3]

  /** push rbp; mov rbp, rsp. */
  const PROLOGUE_BYTES: seq<byte> := [0x55, 0x48, 0x89, 0xE5]

  /** The register-operand form of Add (ADD r/m, r = 0x01) or Sub
      (SUB r, r/m = 0x2B): the opcode then the ModRM and displacement bytes,
      with the register id `op2Loc` itself as the reg field and no prefix. */
  function ArithVarBytes(sub: bool, op2Loc: int, dest: int, width: byte): (bs: seq<byte>)
    requires IsRegister(op2Loc) && dest < REGS_COUNT
    ensures |bs| == 2 + DisplacementCount(RmMode(dest), width)
    ensures bs[0] == (if sub then 0x2B else 0x01)
  {
    [if sub then 0x2B else 0x01] + RmBytes(op2Loc, dest, width)
  }

  /** The number of immediate bytes: 4 for a width up to `SIR_DWORD`, else
      `4 - width`, of which a negative count writes none. */
  function ImmByteCount(width: byte): nat {
    var n := if width <= SIR_DWORD then 4 else 4 - width as int;
    if n > 0 then n else 0
  }

  /** REX for the immediate form: W for QWORD, B for a destination of R8..R15. */
  function ImmRex(dest: int, width: byte): byte {
    (if width == SIR_QWORD then 0x48 else 0x40) + (if dest >= R8 then 0x1 else 0)
  }

  /** The immediate form of Add (/0) or Sub (/5): optional 0x67, REX unless
      0x40, opcode 0x81 (0x80 for the byte width), ModRM and displacement
      bytes, then the immediate little-endian. */
  function ArithImmBytes(sub: bool, dest: int, width: byte, val: uint32): (bs: seq<byte>)
    requires dest < REGS_COUNT
    ensures var n := 1 + DisplacementCount(RmMode(dest), width) + ImmByteCount(width);
      n + 1 <= |bs| <= n + 3
  {
    var rex := ImmRex(dest, width);
    Optional(width == SIR_WORD, 0x67) + Optional(rex != 0x40, rex) + [if width == SIR_BYTE then 0x80 else 0x81]
      + RmBytes(if sub then 5 else 0, dest, width) + LeBytes(val as int, ImmByteCount(width))
  }

  /** The width the driver passes is an unpacked index below 16, so the
      immediate is always four bytes, no 0x67 prefix is written and the
      opcodes are the full-size ones. */
  lemma IndexWidthForms(options: byte, sub: bool, dest: int, val: uint32)
    requires dest < REGS_COUNT
    ensures ImmByteCount(WidthIndex(options)) == 4
    ensures MovOpcode(true, WidthIndex(options)) == 0x8B && MovOpcode(false, WidthIndex(options)) == 0x89
    ensures ArithImmBytes(sub, dest, WidthIndex(options), val)[0] != 0x67
  {
    UnpackedWidthScale(options);
  }
}

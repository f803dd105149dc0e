/** The SIR intermediate representation as laid out in include/sir.h: the
    instruction tags, the options byte with its two packed fields, the operation record with its
    operand union, the function descriptor, the calling-convention selector and
    the lowest-set-bit shim. */
module Sir {

  import opened Bytes

  /** `enum SIR_Instruction`, in declaration order. */
  datatype Instruction =
    | Add | Sub | SMul | SDiv | SMod | UMul | UDiv | UMod
    | And | Or | Xor | SShl | SShr | UShl | UShr
    | CmpEq | CmpNeq | CmpULow | CmpULowEq | CmpUGt | CmpUGtEq | CmpSLow | CmpSLowEq | CmpSGt | CmpSGtEq
    | ReadFromAddr | WriteToAddr | Call | Alloc | Set
    | Br | BrIf | Phi | Ret

  /** `SIR_Instruction_Count`. */
  const INSTRUCTION_COUNT: byte := 34

  /** The enumerator value of a tag, as stored in `SIR_Operation.Instruction`. */
  function Code(i: Instruction): (c: byte)
    ensures c < INSTRUCTION_COUNT
  {
    match i
    case Add => 0 case Sub => 1 case SMul => 2 case SDiv => 3 case SMod => 4 case UMul => 5
    case UDiv => 6 case UMod => 7 case And => 8 case Or => 9 case Xor => 10 case SShl => 11
    case SShr => 12 case UShl => 13 case UShr => 14 case CmpEq => 15 case CmpNeq => 16
    case CmpULow => 17 case CmpULowEq => 18 case CmpUGt => 19 case CmpUGtEq => 20
    case CmpSLow => 21 case CmpSLowEq => 22 case CmpSGt => 23 case CmpSGtEq => 24
    case ReadFromAddr => 25 case WriteToAddr => 26 case Call => 27 case Alloc => 28
    case Set => 29 case Br => 30 case BrIf => 31 case Phi => 32 case Ret => 33
  }

  /** The tag an instruction byte names, if any. */
  function FromCode(b: byte): (r: Option<Instruction>)
  {
    match b as int
    case 0 => Some(Add) case 1 => Some(Sub) case 2 => Some(SMul) case 3 => Some(SDiv)
    case 4 => Some(SMod) case 5 => Some(UMul) case 6 => Some(UDiv) case 7 => Some(UMod)
    case 8 => Some(And) case 9 => Some(Or) case 10 => Some(Xor) case 11 => Some(SShl)
    case 12 => Some(SShr) case 13 => Some(UShl) case 14 => Some(UShr) case 15 => Some(CmpEq)
    case 16 => Some(CmpNeq) case 17 => Some(CmpULow) case 18 => Some(CmpULowEq)
    case 19 => Some(CmpUGt) case 20 => Some(CmpUGtEq) case 21 => Some(CmpSLow)
    case 22 => Some(CmpSLowEq) case 23 => Some(CmpSGt) case 24 => Some(CmpSGtEq)
    case 25 => Some(ReadFromAddr) case 26 => Some(WriteToAddr) case 27 => Some(Call)
    case 28 => Some(Alloc) case 29 => Some(Set) case 30 => Some(Br) case 31 => Some(BrIf)
    case 32 => Some(Phi) case 33 => Some(Ret)
    case _ => None
  }

  /** Decoding an encoded tag gives the tag back. */
  lemma CodeRoundTrip(i: Instruction)
    ensures FromCode(Code(i)) == Some(i)
  {
  }

  /** Exactly the bytes below `SIR_Instruction_Count` name a tag, and encoding the
      tag a byte names gives the byte back: the 34 tags are numbered consecutively
      from `SIR_Add` = 0 to `SIR_Ret` = 33. */
  lemma CodesAreConsecutive(b: byte)
    ensures FromCode(b).Some? <==> b < INSTRUCTION_COUNT
    ensures FromCode(b).Some? ==> Code(FromCode(b).value) == b
  {
    NamedCodesRoundTrip(b);
    CodesBelowCountAreNamed(b);
  }

  lemma NamedCodesRoundTrip(b: byte)
    ensures FromCode(b).Some? ==> b < INSTRUCTION_COUNT && Code(FromCode(b).value) == b
  {}

  lemma CodesBelowCountAreNamed(b: byte)
    ensures b < INSTRUCTION_COUNT ==> FromCode(b).Some?
  {}

  // The options byte: operand type in the low nibble, width in the high nibble.

  const SIR_OPERAND_TYPE_MASK: byte := 0x0F
  const SIR_VAR: byte := 0
  const SIR_IMMEDIATE: byte := 1
  const SIR_CONSTANT: byte := 2

  const SIR_INSTRUCTION_WIDTH_OFFSET := 4
  const SIR_INSTRUCTION_WIDTH_MASK: byte := 0xF0
  /** The width enumerators are pre-shifted into the high nibble. */
  const SIR_QWORD: byte := 0x00
  const SIR_DWORD: byte := 0x10
  const SIR_WORD: byte := 0x20
  const SIR_BYTE: byte := 0x30

  /** `InstructionOptions & SIR_OperandTypeMask`: the low nibble. */
  function OperandType(options: byte): byte {
    options % 16
  }

  /** `(InstructionOptions & SIR_InstructionWidthMask) >> SIR_InstructionWidthOffset`:
      the high nibble as an index 0..15, no longer on the scale of `SIR_DWORD`
      and friends. */
  function WidthIndex(options: byte): (w: byte)
    ensures w < 16
  {
    options / 16
  }

  /** How a caller packs an options byte, `mode | width`; the two fields occupy
      disjoint bits, so the OR is their sum. */
  function Options(mode: byte, width: byte): byte
    requires mode < 16 && width % 16 == 0
  {
    mode + width
  }

  /** Packing a mode and a pre-shifted width, then unpacking, gives the mode and
      the width's index back, and the byte is determined by the two fields. */
  lemma OptionsRoundTrip(mode: byte, width: byte, options: byte)
    requires mode < 16 && width % 16 == 0
    ensures OperandType(Options(mode, width)) == mode
    ensures WidthIndex(Options(mode, width)) as int == width as int / 16
    ensures Options(OperandType(options), WidthIndex(options) * 16) == options
  {
  }

  /** The unpacked width is an index, so it never equals `SIR_DWORD`, `SIR_WORD`
      or `SIR_BYTE`; it equals `SIR_QWORD` exactly when the high nibble is 0.
      An options byte of 0 is a QWORD variable operand. */
  lemma UnpackedWidthScale(options: byte)
    ensures WidthIndex(options) != SIR_DWORD
    ensures WidthIndex(options) != SIR_WORD
    ensures WidthIndex(options) != SIR_BYTE
    ensures WidthIndex(options) == SIR_QWORD <==> options < 16
    ensures options == 0 <==> OperandType(options) == SIR_VAR && WidthIndex(options) == SIR_QWORD
  {
  }

  /** `SIR_Operation`: two 16-bit operand slots `OperandW2`/`OperandW3` share
      their storage with the 32-bit `OperandDW2`. The record keeps the 32-bit
      view; the 16-bit views read its halves as a little-endian host lays them out. */
  datatype Operation = Operation(Instruction: byte, InstructionOptions: byte, OperandW1: uint16, OperandDW2: uint32)
  {
    function OperandW2(): uint16 {
      (OperandDW2 % 0x1_0000) as uint16
    }

    function OperandW3(): uint16 {
      (OperandDW2 / 0x1_0000) as uint16
    }
  }

  /** The 32-bit union value that writing `OperandW2` and `OperandW3` produces. */
  function UnionOfWords(w2: uint16, w3: uint16): uint32 {
    (w2 as int + 0x1_0000 * w3 as int) as uint32
  }

  /** The two views of the union determine each other. */
  lemma UnionViews(op: Operation, w2: uint16, w3: uint16)
    ensures op.(OperandDW2 := UnionOfWords(w2, w3)).OperandW2() == w2
    ensures op.(OperandDW2 := UnionOfWords(w2, w3)).OperandW3() == w3
    ensures UnionOfWords(op.OperandW2(), op.OperandW3()) == op.OperandDW2
  {
  }

  /** `SIR_Function`; the entry-point slot is the compiler's result instead. */
  datatype Function = Function(Operations: seq<Operation>, ArgumentsCount: nat, ReturnCount: int)

  /** `AMD64_CallingConventions`. */
  datatype CallingConvention = Sysv | Win

  function ConventionCode(c: CallingConvention): byte {
    match c
    case Sysv => 0
    case Win => 1
  }

  function ConventionFromCode(b: byte): (r: Option<CallingConvention>)
  {
    if b == 0 then Some(Sysv) else if b == 1 then Some(Win) else None
  }

  /** The selector has exactly two values, `AMD64_SYSV` = 0 and `AMD64_WIN` = 1. */
  lemma ConventionRoundTrip(c: CallingConvention, b: byte)
    ensures ConventionFromCode(ConventionCode(c)) == Some(c)
    ensures ConventionFromCode(b).Some? <==> b < 2
    ensures ConventionFromCode(b).Some? ==> ConventionCode(ConventionFromCode(b).value) == b
  {
  }

  // A `uint32_t` mask is modelled by the set of the indices of its set bits.

  /** The indices of a 32-bit mask's set bits. */
  predicate IsMask(bits: set<int>) {
    forall k :: k in bits ==> 0 <= k < 32
  }

  /** `__builtin_ctz`: the index of the lowest set bit of a non-zero mask. */
  function Ctz(bits: set<int>): (r: nat)
    requires IsMask(bits) && bits != {}
    ensures r in bits
    ensures forall k :: k in bits ==> r <= k
  {
    // A set bit, the witness `LowestSetBitFrom` asks for.
    var j :| j in bits;
    LowestSetBitFrom(bits, 0)
  }

  /** The lowest set bit at index `k` or above, scanning upwards. */
  function LowestSetBitFrom(bits: set<int>, k: nat): (r: nat)
    requires IsMask(bits) && k < 32 && exists j :: j in bits && k <= j
    ensures r in bits && k <= r
    ensures forall j :: j in bits && k <= j ==> r <= j
    decreases 32 - k
  {
    if k in bits then k else LowestSetBitFrom(bits, k + 1)
  }
}

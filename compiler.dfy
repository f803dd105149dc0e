/** `AMD64CompileContext` as an object: the tables are arrays that the
    methods update in place and the cursor counts down through the caller's
    executable-memory array, as in src/x86_64.c. Every method is proved to
    take the object from `old(Model())` to the state the functions of
    model.dfy compute. */
module Amd64Compiler {

  import opened Bytes
  import opened Sir
  import opened Amd64Encoding
  import opened Amd64Output
  import opened Amd64Model

  /** Nested Euclidean division by positive divisors is division by their product. */
  lemma DivDiv(x: int, a: int, b: int)
    requires a > 0 && b > 0
    ensures x / a / b == x / (a * b)
  {
    var q1, r1 := x / a, x % a;
    var q2, r2 := q1 / b, q1 % b;
    Distribute(a, b, q2, r2);
    ScaledRemainder(a, b, r2, r1);
    DivModUnique(x, a * b, q2, a * r2 + r1);
  }

  lemma Distribute(a: int, b: int, q: int, r: int)
    ensures a * (b * q + r) == (a * b) * q + a * r
  {
  }

  /** A remainder modulo `b`, scaled by `a`, plus one modulo `a` stays below `a * b`. */
  lemma ScaledRemainder(a: int, b: int, r2: int, r1: int)
    requires a > 0 && 0 <= r2 < b && 0 <= r1 < a
    ensures 0 <= a * r2 + r1 < a * b
  {
    assert a * r2 <= a * (b - 1);
  }

  /** Byte `i` of `LeBytes(x, n)` is `(uint8_t)(x >> (8 * i))`. */
  lemma {:induction false} LeByteAt(x: int, n: nat, i: nat)
    requires i < n
    ensures LeBytes(x, n)[i] as int == x / Pow256(i) % 256
    decreases i
  {
    if i > 0 {
      LeByteAt(x / 256, n - 1, i - 1);
      DivDiv(x, 256, Pow256(i - 1));
    }
  }

  /** A prefix one longer is the prefix with the next element appended. */
  lemma PrefixExtends<T>(s: seq<T>, i: int)
    requires 0 <= i < |s|
    ensures s[..i + 1] == s[..i] + [s[i]]
  {
  }

  /** Three writes in a row are one write of their bytes, last write first. */
  lemma WriteThree(c: Context, a: seq<byte>, b: seq<byte>, d: seq<byte>)
    requires Valid(c)
    ensures Write(Write(Write(c, d), b), a) == Write(c, a + b + d)
  {
    WriteConcat(c, d, b);
    WriteConcat(c, b + d, a);
    assert a + (b + d) == a + b + d;
  }

  /** The immediate form as the four pieces written after the immediate and
      the ModRM bytes. */
  lemma ImmBytesSplit(sub: bool, dest: int, width: byte, val: uint32)
    requires dest < REGS_COUNT
    ensures var rex := ImmRex(dest, width);
      ArithImmBytes(sub, dest, width, val)
        == Optional(width == SIR_WORD, 0x67) + Optional(rex != 0x40, rex) + [if width == SIR_BYTE then 0x80 else 0x81]
           + (RmBytes(if sub then 5 else 0, dest, width) + LeBytes(val as int, ImmByteCount(width)))
  {
  }

  /** `memset(a, 0, sizeof a)`. */
  method Zero(a: array<int>)
    modifies a
    ensures a[..] == seq(a.Length, _ => 0)
  {
    var i := 0;
    while i < a.Length
      invariant 0 <= i <= a.Length
      invariant forall k :: 0 <= k < i ==> a[k] == 0
    {
      a[i] := 0;
      i := i + 1;
    }
  }

  /** Operation `j` takes state `t[j + 1]` of the backward loop to state `t[j]`. */
  predicate StepAt(t: seq<Context>, f: Function, j: int) {
    && WellFormed(f) && 0 <= j < |f.Operations| && j + 1 < |t|
    && Valid(t[j + 1]) && t[j + 1].MemFreeStackCursor < TABLE_SIZE
    && t[j] == OpStep(t[j + 1], f, j)
  }

  /** `t` lists the states of the backward loop over the operations of `f`. */
  predicate IsOpsTrace(t: seq<Context>, f: Function) {
    && |t| == |f.Operations| + 1
    && forall j :: 0 <= j < |f.Operations| ==> StepAt(t, f, j)
  }

  /** The states of the backward loop from `c`: it starts at `c` and ends at
      `OpsDownTo(c, f, 0)`. */
  lemma OpsTraceOf(c: Context, f: Function) returns (t: seq<Context>)
    requires Valid(c) && WellFormed(f) && c.MemFreeStackCursor + |f.Operations| <= TABLE_SIZE
    ensures IsOpsTrace(t, f) && t[|f.Operations|] == c && t[0] == OpsDownTo(c, f, 0)
  {
    t := seq(|f.Operations| + 1, j requires 0 <= j <= |f.Operations| => OpsDownTo(c, f, j));
    forall j | 0 <= j < |f.Operations|
      ensures StepAt(t, f, j)
    {
      assert t[j] == OpsDownTo(c, f, j) && t[j + 1] == OpsDownTo(c, f, j + 1);
    }
  }

  /** Argument `j` takes state `t[j]` of the argument loop to state `t[j + 1]`. */
  predicate ArgAt(t: seq<Context>, conv: CallingConvention, j: int) {
    && 0 <= j < TABLE_SIZE && j + 1 < |t| && Valid(t[j])
    && t[j + 1] == ArgStep(t[j], conv, j)
  }

  /** `t` lists the states of the loop over `n` arguments. */
  predicate IsArgsTrace(t: seq<Context>, conv: CallingConvention, n: int) {
    && |t| == n + 1
    && forall j :: 0 <= j < n ==> ArgAt(t, conv, j)
  }

  /** The states of the argument loop from `c` over `n` arguments. */
  lemma ArgsTraceOf(c: Context, conv: CallingConvention, n: int) returns (t: seq<Context>)
    requires Valid(c) && 0 <= n <= TABLE_SIZE
    ensures IsArgsTrace(t, conv, n) && t[0] == c
  {
    t := seq(n + 1, j requires 0 <= j <= n => ArgsUpTo(c, conv, j));
    forall j | 0 <= j < n
      ensures ArgAt(t, conv, j)
    {
      assert t[j] == ArgsUpTo(c, conv, j) && t[j + 1] == ArgsUpTo(c, conv, j + 1);
    }
  }

  /** A trace of the argument loop from `c` is at `ArgsUpTo(c, conv, k)`
      after `k` arguments. */
  lemma {:induction false} ArgsTraceAt(t: seq<Context>, c: Context, conv: CallingConvention, n: int, k: int)
    requires 0 <= k <= n <= TABLE_SIZE && IsArgsTrace(t, conv, n) && t[0] == c && Valid(c)
    ensures t[k] == ArgsUpTo(c, conv, k)
    decreases k
  {
    if k > 0 {
      ArgsTraceAt(t, c, conv, n, k - 1);
      assert ArgAt(t, conv, k - 1);
    }
  }

  /** One operation: the destination is freed, then the tag decides. */
  lemma OpStepCases(c: Context, f: Function, k: int)
    requires Valid(c) && WellFormed(f) && 0 <= k < |f.Operations| && c.MemFreeStackCursor < TABLE_SIZE
    ensures var c1 := FreeDestination(c, f.ArgumentsCount + k);
      var op := f.Operations[k];
      && OperandsInRange(op, f.ReturnCount)
      && (Is(op, Ret) ==> OpStep(c, f, k) == CompileRet(c1, f.ReturnCount, op))
      && (!Is(op, Ret) && (Is(op, Add) || Is(op, Sub)) ==> OpStep(c, f, k) == CompileAddSub(c1, op))
      && (!Is(op, Ret) && !Is(op, Add) && !Is(op, Sub) ==> OpStep(c, f, k) == c1)
  {
    assert OperandsInRange(f.Operations[k], f.ReturnCount);
  }

  class CompileContext {
    const VarsLocation: array<int>
    const MemFreeStack: array<int>
    const ExecutableMemory: array<byte>
    var ExecutableMemoryCursor: nat
    var Status: Status
    var CurrentlyFreed: int
    const CurrentRegsVar: array<int>
    var FreeRegs: set<int>
    var MemStackAllocated: int
    var ForceOutReg: int
    var MemFreeStackCursor: int

    /** The object's state as the value model.dfy works on. */
    function Model(): Context
      reads this, VarsLocation, MemFreeStack, ExecutableMemory, CurrentRegsVar
    {
      Context(VarsLocation[..], MemFreeStack[..], Output(ExecutableMemory[..], ExecutableMemoryCursor, Status),
              CurrentlyFreed, CurrentRegsVar[..], FreeRegs, MemStackAllocated, ForceOutReg, MemFreeStackCursor)
    }

    /** The three tables are distinct arrays and the state is a valid context. */
    predicate Valid()
      reads this, VarsLocation, MemFreeStack, ExecutableMemory, CurrentRegsVar
    {
      Sound() == true
    }

    /** The facts `Valid` collects, checked as one. */
    predicate Sound()
      reads this, VarsLocation, MemFreeStack, ExecutableMemory, CurrentRegsVar
    {
      && VarsLocation != MemFreeStack && VarsLocation != CurrentRegsVar && MemFreeStack != CurrentRegsVar
      && Amd64Model.Valid(Model())
    }

    /** The context `SIR_AMD64Compile` sets up over the caller's buffer, with
        the cursor at its end. */
    constructor (mem: array<byte>)
      ensures Valid() && ExecutableMemory == mem && Model() == Initial(old(mem[..]))
      ensures fresh(VarsLocation) && fresh(MemFreeStack) && fresh(CurrentRegsVar)
    {
      VarsLocation := new int[TABLE_SIZE](_ => 0);
      MemFreeStack := new int[TABLE_SIZE](_ => 0);
      ExecutableMemory := mem;
      ExecutableMemoryCursor := mem.Length;
      Status := Running;
      CurrentlyFreed := 0;
      CurrentRegsVar := new int[REGS_COUNT](_ => 0);
      FreeRegs := ALL_FREE;
      MemStackAllocated := 0;
      ForceOutReg := RAX;
      MemFreeStackCursor := 0;
      new;
      assert VarsLocation[..] == seq(TABLE_SIZE, _ => 0) && MemFreeStack[..] == seq(TABLE_SIZE, _ => 0);
      assert CurrentRegsVar[..] == seq(REGS_COUNT, _ => 0);
    }

    /** The `WriteByte` macro. */
    method WriteByte(b: byte)
      requires Valid()
      modifies this, ExecutableMemory
      ensures Valid() && Model() == Write(old(Model()), [b])
    {
      WriteOne(Model(), b);
      if Status.Running? {
        if ExecutableMemoryCursor == 0 {
          Status := Aborted(BufferExhausted);
        } else {
          ExecutableMemoryCursor := ExecutableMemoryCursor - 1;
          ExecutableMemory[ExecutableMemoryCursor] := b;
        }
      }
    }

    /** Records a failed `assert`. */
    method Fail(f: Fault)
      requires Valid()
      modifies this
      ensures Valid() && Model() == old(Model()).(Out := Amd64Output.Fail(old(Model()).Out, f))
    {
      if Status.Running? {
        Status := Aborted(f);
      }
    }

    /** The loops that write `count` bytes of `value`, most significant first,
        `(uint8_t)(value >> (8 * i))` for `i` from `count - 1` down to 0. */
    method WriteLittleEndian(value: int, count: nat)
      requires Valid()
      modifies this, ExecutableMemory
      ensures Valid() && Model() == Write(old(Model()), LeBytes(value, count))
    {
      ghost var start := Model();
      ghost var bs := LeBytes(value, count);
      var i := count;
      while i > 0
        invariant 0 <= i <= count
        invariant Valid() && Model() == Write(start, bs[i..])
      {
        i := i - 1;
        LeByteAt(value, count, i);
        WriteByte((value / Pow256(i) % 256) as byte);
        WriteConcat(start, bs[i + 1..], [bs[i]]);
        assert [bs[i]] + bs[i + 1..] == bs[i..];
      }
    }

    /** `SIR_AMD64WriteRM`: the displacement, then the ModRM byte. */
    method WriteRM(regSection: int, target: int, width: byte)
      requires Valid() && 0 <= regSection < 16 && target < REGS_COUNT
      modifies this, ExecutableMemory
      ensures Valid() && Model() == Write(old(Model()), RmBytes(regSection, target, width))
    {
      ghost var start := Model();
      var mode := if target > 0 then 0x3 else if target * 8 < -128 then 0x2 else 0x1;
      var rm := if target > 0 then Enc(target) as int else RBP_NUM;
      var displacement := if width == SIR_WORD then 2 else 4;
      displacement := if width == SIR_BYTE || mode == 0x1 then 1 else displacement;
      displacement := if mode == 0x3 then 0 else displacement;
      WriteLittleEndian(target * 8, displacement);
      ghost var mid := Model();
      WriteByte(ModRmByte(mode, regSection, rm));
      WriteConcat(start, LeBytes(target * 8, displacement), [ModRmByte(mode, regSection, rm)]);
    }

    /** Writes `b` when `present`, as the conditional prefix bytes do. */
    method WriteOptional(present: bool, b: byte)
      requires Valid()
      modifies this, ExecutableMemory
      ensures Valid() && Model() == Write(old(Model()), Optional(present, b))
    {
      if present {
        WriteByte(b);
      }
    }

    /** The tail both instruction writers share: the opcode, then REX unless
        it is the bare 0x40, then 0x67 for the word width. */
    method WriteOpcodePrefixes(opcode: byte, rex: byte, word: bool)
      requires Valid()
      modifies this, ExecutableMemory
      ensures Valid() && Model() == Write(old(Model()), Optional(word, 0x67) + Optional(rex != 0x40, rex) + [opcode])
    {
      ghost var start := Model();
      WriteByte(opcode);
      WriteOptional(rex != 0x40, rex);
      WriteOptional(word, 0x67);
      WriteThree(start, Optional(word, 0x67), Optional(rex != 0x40, rex), [opcode]);
    }

    /** A run of `WriteByte`s, last byte first. */
    method WriteBytes(bs: seq<byte>)
      requires Valid()
      modifies this, ExecutableMemory
      ensures Valid() && Model() == Write(old(Model()), bs)
    {
      ghost var start := Model();
      var i := |bs|;
      while i > 0
        invariant 0 <= i <= |bs|
        invariant Valid() && Model() == Write(start, bs[i..])
      {
        i := i - 1;
        WriteByte(bs[i]);
        WriteConcat(start, bs[i + 1..], [bs[i]]);
        assert [bs[i]] + bs[i + 1..] == bs[i..];
      }
    }

    /** `SIR_AMD64WriteMov`. */
    method WriteMov(reg: int, regOrMem: int, width: byte, toReg: bool)
      requires Valid() && IsRegister(reg) && regOrMem < REGS_COUNT
      modifies this, ExecutableMemory
      ensures Valid() && Model() == Write(old(Model()), MovBytes(reg, regOrMem, width, toReg))
    {
      ghost var start := Model();
      var opcode: byte := if toReg then 0x8B else 0x89;
      opcode := if width == SIR_BYTE then opcode - 1 else opcode;
      WriteRM(Enc(reg) as int, regOrMem, width);
      var rex: byte := if width == SIR_QWORD then 0x48 else 0x40;
      rex := rex + if regOrMem >= R8 then 0x1 else 0;
      rex := rex + if reg >= R8 then 0x4 else 0;
      WriteOpcodePrefixes(opcode, rex, width == SIR_WORD);
      WriteConcat(start, RmBytes(Enc(reg) as int, regOrMem, width),
                  Optional(width == SIR_WORD, 0x67) + Optional(rex != 0x40, rex) + [opcode]);
    }

    /** `SIR_AMD64PushPopReg`. */
    method PushPopReg(reg: int, push: bool)
      requires Valid() && 0 <= reg < REGS_COUNT
      modifies this, ExecutableMemory
      ensures Valid() && Model() == Write(old(Model()), PushPopBytes(reg, push))
    {
      ghost var start := Model();
      var opcode: byte := if push then 0x50 else 0x58;
      opcode := opcode + Enc(reg);
      WriteByte(opcode);
      if reg >= R8 {
        WriteByte(PUSH_POP_EXTENSION);
        WriteConcat(start, [opcode], [PUSH_POP_EXTENSION]);
      } else {
        assert PushPopBytes(reg, push) == [opcode];
      }
    }

    /** `SIR_AMD64WriteExitSequence`: ret, then pop rbp below it. */
    method WriteExitSequence()
      requires Valid()
      modifies this, ExecutableMemory
      ensures Valid() && Model() == Write(old(Model()), EXIT_BYTES)
    {
      ghost var start := Model();
      WriteByte(0xC3);
      WriteByte(0x5D);
      WriteConcat(start, [0xC3], [0x5D]);
    }

    /** Writes a move when `present`, as the guarded `SIR_AMD64WriteMov` calls do. */
    method WriteMovIf(present: bool, reg: int, regOrMem: int, width: byte, toReg: bool)
      requires Valid() && IsRegister(reg) && regOrMem < REGS_COUNT
      modifies this, ExecutableMemory
      ensures Valid() && Model() == Write(old(Model()), if present then MovBytes(reg, regOrMem, width, toReg) else [])
    {
      if present {
        WriteMov(reg, regOrMem, width, toReg);
      }
    }

    /** The slot a spilled variable goes to: popped from `MemFreeStack`, or
        allocated below `MemStackAllocated`. */
    method TakeSlot() returns (index: int)
      requires Valid()
      modifies this
      ensures Valid() && (Model(), index) == Amd64Model.TakeSlot(old(Model()))
    {
      var memOffset: int;
      if MemFreeStackCursor > 0 {
        MemFreeStackCursor := MemFreeStackCursor - 1;
        memOffset := 8 * MemFreeStack[MemFreeStackCursor];
      } else {
        MemStackAllocated := MemStackAllocated - 8;
        MemStackAllocated := MemStackAllocated - MemStackAllocated % 8;
        memOffset := MemStackAllocated;
      }
      index := memOffset / 8;
    }

    /** The do-while of `SIR_AMD64GetVarIntoReg` that steps `ForceOutReg`
        until it has passed a register outside the mask. */
    method NextVictim(mask: set<int>) returns (victim: int)
      requires Valid() && Evictable(mask)
      modifies this
      ensures victim == FirstUnmasked(old(ForceOutReg), mask, EVICTION_FUEL) && victim !in mask
      ensures Valid() && Model() == old(Model()).(ForceOutReg := NextReg(victim))
    {
      ghost var start := Model();
      ghost var target := FirstUnmasked(ForceOutReg, mask, EVICTION_FUEL);
      FirstUnmaskedIsFirst(ForceOutReg, mask, EVICTION_FUEL, FirstUnmasked(RAX, mask, EVICTION_FUEL));
      ghost var fuel: nat := EVICTION_FUEL;
      victim := ForceOutReg;
      ForceOutReg := if ForceOutReg + 1 >= REGS_COUNT then RAX else ForceOutReg + 1;
      while victim in mask
        invariant IsRegister(victim) && ForceOutReg == NextReg(victim)
        invariant FirstUnmasked(victim, mask, fuel) == target && target !in mask
        invariant Valid() && Model() == start.(ForceOutReg := ForceOutReg)
        decreases fuel
      {
        fuel := fuel - 1;
        victim := ForceOutReg;
        ForceOutReg := if ForceOutReg + 1 >= REGS_COUNT then RAX else ForceOutReg + 1;
      }
    }

    /** The eviction branch of `SIR_AMD64GetVarIntoReg`: the victim, the slot
        for its variable and the load that spills it. */
    method Evict(mask: set<int>) returns (victim: int)
      requires Valid() && Evictable(mask)
      modifies this, VarsLocation, ExecutableMemory
      ensures Valid() && (Model(), victim) == Amd64Model.Evict(old(Model()), mask)
    {
      victim := NextVictim(mask);
      var index := Spill(victim);
      WriteMov(victim, index, SIR_QWORD, true);
    }

    /** Moves the variable held in `victim` to a newly taken frame slot. */
    method Spill(victim: int) returns (index: int)
      requires Valid() && IsRegister(victim)
      modifies this, VarsLocation
      ensures Valid() && index == Amd64Model.TakeSlot(old(Model())).1
      ensures var c1 := Amd64Model.TakeSlot(old(Model())).0;
        Model() == c1.(VarsLocation := c1.VarsLocation[old(CurrentRegsVar[victim]) := index])
    {
      var varToPush := CurrentRegsVar[victim];
      index := TakeSlot();
      VarsLocation[varToPush] := index;
    }

    /** Records that `v` lives in `reg`. */
    method Assign(v: int, reg: int)
      requires Valid() && 0 <= v < TABLE_SIZE && IsRegister(reg)
      modifies this, VarsLocation, CurrentRegsVar
      ensures Valid() && Model() == Amd64Model.Assign(old(Model()), v, reg)
    {
      VarsLocation[v] := reg;
      FreeRegs := FreeRegs - {reg};
      CurrentRegsVar[reg] := v;
    }

    /** `SIR_AMD64GetVarIntoReg`. */
    method GetVarIntoReg(v: int, mask: set<int>) returns (reg: int)
      requires Valid() && 0 <= v < TABLE_SIZE && Evictable(mask)
      modifies this, VarsLocation, CurrentRegsVar, ExecutableMemory
      ensures Valid() && (Model(), reg) == Amd64Model.GetVarIntoReg(old(Model()), v, mask)
    {
      var initial := VarsLocation[v];
      if initial > 0 {
        return initial;
      }
      reg := if 0 <= CurrentlyFreed < 32 && CurrentlyFreed in FreeRegs then CurrentlyFreed else NO_FREE_REG;
      reg := if reg == NO_FREE_REG then Ctz(FreeRegs) else reg;
      if reg == NO_FREE_REG {
        reg := Evict(mask);
      }
      Assign(v, reg);
      if initial < 0 {
        WriteMov(reg, initial, SIR_QWORD, false);
      }
    }

    /** The per-function reset: the three memsets, `ForceOutReg` back to RAX
        and `FreeRegs` rebuilt bit by bit from bit 31 and RAX..R15. */
    method Reset()
      requires Valid()
      modifies this, VarsLocation, MemFreeStack, CurrentRegsVar
      ensures Valid() && Model() == Amd64Model.Reset(old(Model()))
    {
      Zero(VarsLocation);
      Zero(MemFreeStack);
      Zero(CurrentRegsVar);
      ForceOutReg := RAX;
      FreeRegs := {NO_FREE_REG};
      ghost var cleared := Model();
      var r := RAX;
      while r <= R15
        invariant RAX <= r <= R15 + 1
        invariant forall k :: k in FreeRegs <==> k == NO_FREE_REG || RAX <= k < r
        invariant Model() == cleared.(FreeRegs := FreeRegs)
      {
        FreeRegs := FreeRegs + {r};
        r := r + 1;
      }
      assert FreeRegs == ALL_FREE;
    }

    /** Frees the destination of the operation whose result is variable `d`. */
    method FreeDestination(d: int)
      requires Valid() && 0 <= d < TABLE_SIZE
      requires VarsLocation[d] < 0 ==> MemFreeStackCursor < TABLE_SIZE
      modifies this, MemFreeStack
      ensures Valid() && Model() == Amd64Model.FreeDestination(old(Model()), d)
    {
      CurrentlyFreed := VarsLocation[d];
      if CurrentlyFreed < 0 {
        MemFreeStack[MemFreeStackCursor] := CurrentlyFreed;
        MemFreeStackCursor := MemFreeStackCursor + 1;
      } else if CurrentlyFreed > 0 {
        FreeRegs := FreeRegs + {CurrentlyFreed};
      }
    }

    /** `SIR_Ret`. */
    method CompileRet(returnCount: int, op: Operation)
      requires Valid() && (returnCount == 1 ==> op.OperandW1 as int < TABLE_SIZE)
      modifies this, VarsLocation, CurrentRegsVar, ExecutableMemory
      ensures Valid() && Model() == Amd64Model.CompileRet(old(Model()), returnCount, op)
    {
      if returnCount == 1 {
        var returnVar := op.OperandW1 as int;
        var varLocation := VarsLocation[returnVar];
        if varLocation != 0 {
          Fail(ReturnAlreadyAssigned);
        }
        Assign(returnVar, RAX);
      }
      WriteExitSequence();
    }

    /** Add/Sub of two variables. */
    method ArithVar(op: Operation)
      requires Valid() && op.OperandW1 as int < TABLE_SIZE && op.OperandW2() as int < TABLE_SIZE
      modifies this, VarsLocation, CurrentRegsVar, ExecutableMemory
      ensures Valid() && Model() == Amd64Model.ArithVar(old(Model()), op)
    {
      var width := WidthIndex(op.InstructionOptions);
      var loc1 := GetVarIntoReg(op.OperandW1 as int, {});
      var loc2 := GetVarIntoReg(op.OperandW2() as int, {});
      ghost var mid := Model();
      var opcode: byte := if Is(op, Sub) then 0x2B else 0x01;
      WriteRM(loc2, CurrentlyFreed, width);
      WriteByte(opcode);
      WriteConcat(mid, RmBytes(loc2, CurrentlyFreed, width), [opcode]);
      WriteMovIf(CurrentlyFreed != loc1, loc1, CurrentlyFreed, width, false);
    }

    /** The immediate form against the destination: the immediate bytes,
        the ModRM and displacement bytes, the opcode, REX and 0x67. */
    method WriteArithImm(sub: bool, width: byte, val: uint32)
      requires Valid()
      modifies this, ExecutableMemory
      ensures Valid() && Model() == Write(old(Model()), ArithImmBytes(sub, old(CurrentlyFreed), width, val))
    {
      ghost var start := Model();
      var nImmBytes := ImmByteCount(width);
      WriteLittleEndian(val as int, nImmBytes);
      var rmReg := if sub then 5 else 0;
      WriteRM(rmReg, CurrentlyFreed, width);
      ghost var operand := RmBytes(rmReg, CurrentlyFreed, width) + LeBytes(val as int, nImmBytes);
      WriteConcat(start, LeBytes(val as int, nImmBytes), RmBytes(rmReg, CurrentlyFreed, width));
      var opcode: byte := if width == SIR_BYTE then 0x80 else 0x81;
      var rex: byte := if width == SIR_QWORD then 0x48 else 0x40;
      rex := rex + if CurrentlyFreed >= R8 then 0x1 else 0;
      WriteOpcodePrefixes(opcode, rex, width == SIR_WORD);
      WriteConcat(start, operand, Optional(width == SIR_WORD, 0x67) + Optional(rex != 0x40, rex) + [opcode]);
      ImmBytesSplit(sub, CurrentlyFreed, width, val);
    }

    /** Add/Sub of a variable and an immediate. */
    method ArithImm(op: Operation)
      requires Valid() && op.OperandW1 as int < TABLE_SIZE
      modifies this, VarsLocation, CurrentRegsVar, ExecutableMemory
      ensures Valid() && Model() == Amd64Model.ArithImm(old(Model()), op)
    {
      var width := WidthIndex(op.InstructionOptions);
      var loc1 := GetVarIntoReg(op.OperandW1 as int, {});
      WriteArithImm(Is(op, Sub), width, op.OperandDW2);
      WriteMovIf(CurrentlyFreed != loc1, loc1, CurrentlyFreed, width, false);
    }

    /** `SIR_Add`/`SIR_Sub`. */
    method CompileAddSub(op: Operation)
      requires Valid() && OperandsInRange(op, 0) && (Is(op, Add) || Is(op, Sub))
      modifies this, VarsLocation, CurrentRegsVar, ExecutableMemory
      ensures Valid() && Model() == Amd64Model.CompileAddSub(old(Model()), op)
    {
      if CurrentlyFreed == 0 {
      } else if op.InstructionOptions == SIR_VAR {
        ArithVar(op);
      } else if OperandType(op.InstructionOptions) == SIR_IMMEDIATE {
        ArithImm(op);
      }
    }

    /** One iteration of the loop over operations. */
    method OpStep(f: Function, k: int)
      requires Valid() && WellFormed(f) && 0 <= k < |f.Operations| && MemFreeStackCursor < TABLE_SIZE
      modifies this, VarsLocation, MemFreeStack, CurrentRegsVar, ExecutableMemory
      ensures Valid() && Model() == Amd64Model.OpStep(old(Model()), f, k)
    {
      OpStepCases(Model(), f, k);
      FreeDestination(f.ArgumentsCount + k);
      var op := f.Operations[k];
      if Is(op, Ret) {
        CompileRet(f.ReturnCount, op);
      } else if Is(op, Add) || Is(op, Sub) {
        CompileAddSub(op);
      }
    }

    /** The moves that bring an argument from its convention register to
        its location, saving and restoring the register in slot -1 when a
        variable occupies it. */
    method MoveArgument(target: int, current: int)
      requires Valid() && IsRegister(target) && current < REGS_COUNT
      modifies this, ExecutableMemory
      ensures Valid() && Model() == Write(old(Model()), ArgumentMoveBytes(target, current, old(CurrentRegsVar[target]) != 0))
    {
      ghost var start := Model();
      ghost var occupied := CurrentRegsVar[target] != 0;
      if CurrentRegsVar[target] != 0 {
        WriteMov(target, -1, SIR_QWORD, true);
      }
      WriteMov(target, current, SIR_QWORD, false);
      if CurrentRegsVar[target] != 0 {
        WriteMov(target, -1, SIR_QWORD, false);
      }
      WriteThree(start, if occupied then MovBytes(target, -1, SIR_QWORD, false) else [],
                 MovBytes(target, current, SIR_QWORD, false),
                 if occupied then MovBytes(target, -1, SIR_QWORD, true) else []);
    }

    /** One iteration of the loop over arguments. */
    method ArgStep(conv: CallingConvention, i: int)
      requires Valid() && 0 <= i < TABLE_SIZE
      modifies this, VarsLocation, CurrentRegsVar, ExecutableMemory
      ensures Valid() && Model() == Amd64Model.ArgStep(old(Model()), conv, i)
    {
      var regs := InputRegisters(conv);
      if i < |regs| {
        var target := regs[i];
        var current := VarsLocation[i];
        if target != current {
          MoveArgument(target, current);
        }
        ReleaseArgument(i, target);
      } else {
        Fail(TooManyArguments);
      }
    }

    /** Argument `i` loses its location and its register `target` becomes
        free and unowned. */
    method ReleaseArgument(i: int, target: int)
      requires Valid() && 0 <= i < TABLE_SIZE && IsRegister(target)
      modifies this, VarsLocation, CurrentRegsVar
      ensures Valid()
      ensures Model() == old(Model()).(VarsLocation := old(Model()).VarsLocation[i := 0],
        FreeRegs := old(Model()).FreeRegs + {target}, CurrentRegsVar := old(Model()).CurrentRegsVar[target := 0])
    {
      VarsLocation[i] := 0;
      FreeRegs := FreeRegs + {target};
      CurrentRegsVar[target] := 0;
    }

    /** The loop over operations, from the last to the first. */
    method CompileOperations(f: Function)
      requires Valid() && WellFormed(f) && MemFreeStackCursor + |f.Operations| <= TABLE_SIZE
      modifies this, VarsLocation, MemFreeStack, CurrentRegsVar, ExecutableMemory
      ensures Valid() && Model() == OpsDownTo(old(Model()), f, 0)
    {
      ghost var trace := OpsTraceOf(Model(), f);
      for op := |f.Operations| downto 0
        invariant Valid() && Model() == trace[op]
      {
        OperationAt(f, op, trace);
      }
    }

    /** One iteration of the loop over operations: from state `trace[op + 1]`
        to state `trace[op]`. */
    method OperationAt(f: Function, op: int, ghost trace: seq<Context>)
      requires IsOpsTrace(trace, f) && 0 <= op < |f.Operations| && Valid() && Model() == trace[op + 1]
      modifies this, VarsLocation, MemFreeStack, CurrentRegsVar, ExecutableMemory
      ensures Valid() && Model() == trace[op]
    {
      assert StepAt(trace, f, op);
      OpStep(f, op);
    }

    /** One iteration of the loop over arguments: from state `trace[i]` to
        state `trace[i + 1]`. */
    method ArgumentAt(conv: CallingConvention, i: int, n: int, ghost trace: seq<Context>)
      requires IsArgsTrace(trace, conv, n) && 0 <= i < n && Valid() && Model() == trace[i]
      modifies this, VarsLocation, CurrentRegsVar, ExecutableMemory
      ensures Valid() && Model() == trace[i + 1]
    {
      assert ArgAt(trace, conv, i);
      ArgStep(conv, i);
    }

    /** The loop over arguments. */
    method CompileArguments(conv: CallingConvention, count: int)
      requires Valid() && 0 <= count <= TABLE_SIZE
      modifies this, VarsLocation, CurrentRegsVar, ExecutableMemory
      ensures Valid() && Model() == ArgsUpTo(old(Model()), conv, count)
    {
      ghost var start := Model();
      ghost var trace := ArgsTraceOf(start, conv, count);
      for i := 0 to count
        invariant Valid() && Model() == trace[i]
      {
        ArgumentAt(conv, i, count, trace);
      }
      ArgsTraceAt(trace, start, conv, count, count);
    }

    /** `push rbp; mov rbp, rsp`, then the entry at the cursor. */
    method WritePrologue() returns (entry: Option<nat>)
      requires Valid()
      modifies this, ExecutableMemory
      ensures Valid() && (Model(), entry) == Publish(old(Model()))
    {
      WriteBytes(PROLOGUE_BYTES);
      entry := if Status.Running? then Some(ExecutableMemoryCursor) else None;
    }

    /** One iteration of the loop over functions: from state `states[i]` to
        state `states[i + 1]`, publishing entry `outs[i]`. */
    method CompileFunctionAt(fs: seq<Function>, i: int, conv: CallingConvention,
                             ghost states: seq<Context>, ghost outs: seq<Option<nat>>) returns (entry: Option<nat>)
      requires IsCompileTrace(states, outs, fs, conv) && 0 <= i < |fs| && Valid() && Model() == states[i]
      modifies this, VarsLocation, MemFreeStack, CurrentRegsVar, ExecutableMemory
      ensures Valid() && Model() == states[i + 1] && entry == outs[i]
    {
      assert FunctionAt(states, outs, fs, conv, i);
      entry := CompileFunction(fs[i], conv);
    }

    /** Compiles one function. */
    method CompileFunction(f: Function, conv: CallingConvention) returns (entry: Option<nat>)
      requires Valid() && WellFormed(f) && MemFreeStackCursor + |f.Operations| <= TABLE_SIZE
      modifies this, VarsLocation, MemFreeStack, CurrentRegsVar, ExecutableMemory
      ensures Valid() && (Model(), entry) == Amd64Model.CompileFunction(old(Model()), f, conv)
    {
      ghost var start := Model();
      Reset();
      if !EndsWithRet(f) {
        WriteExitSequence();
      }
      CompileOperations(f);
      CompileArguments(conv, f.ArgumentsCount);
      assert Model() == FunctionBody(start, f, conv);
      entry := WritePrologue();
    }
  }

  /** Function `i` takes state `states[i]` of the loop over functions to
      state `states[i + 1]` and publishes entry `outs[i]`. */
  predicate FunctionAt(states: seq<Context>, outs: seq<Option<nat>>, fs: seq<Function>, conv: CallingConvention, i: int) {
    && 0 <= i < |fs| && i + 1 < |states| && i < |outs|
    && Valid(states[i]) && WellFormed(fs[i]) && states[i].MemFreeStackCursor + |fs[i].Operations| <= TABLE_SIZE
    && (states[i + 1], outs[i]) == Amd64Model.CompileFunction(states[i], fs[i], conv)
  }

  /** `states` and `outs` list the states and entries of the loop over `fs`. */
  predicate IsCompileTrace(states: seq<Context>, outs: seq<Option<nat>>, fs: seq<Function>, conv: CallingConvention) {
    && |states| == |fs| + 1 && |outs| == |fs|
    && forall i :: 0 <= i < |fs| ==> FunctionAt(states, outs, fs, conv, i)
  }

  /** The first function fits what is left of the free-slot stack, and so do
      the remaining ones after it. */
  lemma FirstFunctionFits(c: Context, fs: seq<Function>, conv: CallingConvention)
    requires Valid(c) && fs != [] && AllWellFormed(fs) && c.MemFreeStackCursor + TotalOperations(fs) <= TABLE_SIZE
    ensures WellFormed(fs[0]) && c.MemFreeStackCursor + |fs[0].Operations| <= TABLE_SIZE
    ensures AllWellFormed(fs[1..])
    ensures Amd64Model.CompileFunction(c, fs[0], conv).0.MemFreeStackCursor + TotalOperations(fs[1..]) <= TABLE_SIZE
  {
  }

  /** The states of the loop over functions, from `c`. */
  lemma {:induction false} CompileTraceOf(c: Context, fs: seq<Function>, conv: CallingConvention)
      returns (states: seq<Context>, outs: seq<Option<nat>>)
    requires Valid(c) && AllWellFormed(fs) && c.MemFreeStackCursor + TotalOperations(fs) <= TABLE_SIZE
    ensures IsCompileTrace(states, outs, fs, conv) && states[0] == c
    decreases |fs|
  {
    if fs == [] {
      states, outs := [c], [];
    } else {
      FirstFunctionFits(c, fs, conv);
      var (c1, entry) := Amd64Model.CompileFunction(c, fs[0], conv);
      var rest, restOuts := CompileTraceOf(c1, fs[1..], conv);
      ConsTrace(c, rest, entry, restOuts, fs, conv);
      states, outs := [c] + rest, [entry] + restOuts;
    }
  }

  /** A trace of the loop over functions ends where `CompileAll` does, having
      published the same entries. */
  lemma {:induction false} TraceIsCompileAll(states: seq<Context>, outs: seq<Option<nat>>, fs: seq<Function>, conv: CallingConvention)
    requires IsCompileTrace(states, outs, fs, conv)
    requires Valid(states[0]) && AllWellFormed(fs) && states[0].MemFreeStackCursor + TotalOperations(fs) <= TABLE_SIZE
    ensures CompileAll(states[0], fs, conv) == (states[|fs|], outs)
    decreases |fs|
  {
    if fs != [] {
      FirstFunctionFits(states[0], fs, conv);
      TraceHead(states, outs, fs, conv);
      TailTrace(states, outs, fs, conv);
      TraceIsCompileAll(states[1..], outs[1..], fs[1..], conv);
      CompileAllCons(states[0], fs, conv);
    }
  }

  /** The first step of a trace, and how the trace splits around it. */
  lemma TraceHead(states: seq<Context>, outs: seq<Option<nat>>, fs: seq<Function>, conv: CallingConvention)
    requires fs != [] && IsCompileTrace(states, outs, fs, conv)
    ensures Valid(states[0]) && WellFormed(fs[0]) && states[0].MemFreeStackCursor + |fs[0].Operations| <= TABLE_SIZE
    ensures (states[1..][0], outs[0]) == Amd64Model.CompileFunction(states[0], fs[0], conv)
    ensures states[1..][|fs| - 1] == states[|fs|] && outs == [outs[0]] + outs[1..]
  {
    assert FunctionAt(states, outs, fs, conv, 0);
  }

  /** `CompileAll` compiles the first function, then the rest. */
  lemma CompileAllCons(c: Context, fs: seq<Function>, conv: CallingConvention)
    requires Valid(c) && fs != [] && AllWellFormed(fs) && c.MemFreeStackCursor + TotalOperations(fs) <= TABLE_SIZE
    ensures WellFormed(fs[0]) && c.MemFreeStackCursor + |fs[0].Operations| <= TABLE_SIZE
    ensures var (c1, entry) := Amd64Model.CompileFunction(c, fs[0], conv);
      && AllWellFormed(fs[1..]) && c1.MemFreeStackCursor + TotalOperations(fs[1..]) <= TABLE_SIZE
      && CompileAll(c, fs, conv) == (CompileAll(c1, fs[1..], conv).0, [entry] + CompileAll(c1, fs[1..], conv).1)
  {
    FirstFunctionFits(c, fs, conv);
  }

  /** Dropping the first function and state of a trace leaves a trace. */
  lemma TailTrace(states: seq<Context>, outs: seq<Option<nat>>, fs: seq<Function>, conv: CallingConvention)
    requires fs != [] && IsCompileTrace(states, outs, fs, conv)
    ensures IsCompileTrace(states[1..], outs[1..], fs[1..], conv)
  {
    forall i | 0 <= i < |fs| - 1
      ensures FunctionAt(states[1..], outs[1..], fs[1..], conv, i)
    {
      assert FunctionAt(states, outs, fs, conv, i + 1);
      assert states[1..][i] == states[i + 1] && states[1..][i + 1] == states[i + 2];
      assert outs[1..][i] == outs[i + 1] && fs[1..][i] == fs[i + 1];
    }
  }

  /** Compiling the first function and then following the trace of the
      rest is the trace of all of `fs`. */
  lemma ConsTrace(c: Context, rest: seq<Context>, entry: Option<nat>, restOuts: seq<Option<nat>>,
                  fs: seq<Function>, conv: CallingConvention)
    requires fs != [] && Valid(c) && WellFormed(fs[0]) && c.MemFreeStackCursor + |fs[0].Operations| <= TABLE_SIZE
    requires IsCompileTrace(rest, restOuts, fs[1..], conv)
    requires (rest[0], entry) == Amd64Model.CompileFunction(c, fs[0], conv)
    ensures IsCompileTrace([c] + rest, [entry] + restOuts, fs, conv)
  {
    forall i | 0 <= i < |fs|
      ensures FunctionAt([c] + rest, [entry] + restOuts, fs, conv, i)
    {
      if i == 0 {
        FunctionAtFirst(c, rest, entry, restOuts, fs, conv);
      } else {
        assert FunctionAt(rest, restOuts, fs[1..], conv, i - 1);
        FunctionAtShift(c, rest, entry, restOuts, fs, conv, i);
      }
    }
  }

  /** Compiling the first function is the first step of the trace. */
  lemma FunctionAtFirst(c: Context, rest: seq<Context>, entry: Option<nat>, restOuts: seq<Option<nat>>,
                        fs: seq<Function>, conv: CallingConvention)
    requires fs != [] && Valid(c) && WellFormed(fs[0]) && c.MemFreeStackCursor + |fs[0].Operations| <= TABLE_SIZE
    requires rest != [] && (rest[0], entry) == Amd64Model.CompileFunction(c, fs[0], conv)
    ensures FunctionAt([c] + rest, [entry] + restOuts, fs, conv, 0)
  {
    assert ([c] + rest)[0] == c && ([c] + rest)[1] == rest[0] && ([entry] + restOuts)[0] == entry;
  }

  /** A step of the trace of `fs[1..]` is the next step of the trace of `fs`
      that starts one state earlier. */
  lemma FunctionAtShift(c: Context, rest: seq<Context>, entry: Option<nat>, restOuts: seq<Option<nat>>,
                        fs: seq<Function>, conv: CallingConvention, i: int)
    requires fs != [] && 0 < i && FunctionAt(rest, restOuts, fs[1..], conv, i - 1)
    ensures FunctionAt([c] + rest, [entry] + restOuts, fs, conv, i)
  {
    assert ([c] + rest)[i] == rest[i - 1] && ([c] + rest)[i + 1] == rest[i];
    assert ([entry] + restOuts)[i] == restOuts[i - 1] && fs[i] == fs[1..][i - 1];
  }

  /** `SIR_AMD64Compile`: compiles every function into `mem`, from its end
      downwards, and returns each function's entry. */
  method Compile(fs: seq<Function>, mem: array<byte>, conv: CallingConvention) returns (entries: seq<Option<nat>>)
    requires AllWellFormed(fs) && TotalOperations(fs) <= TABLE_SIZE
    modifies mem
    ensures mem[..] == Amd64Model.Compile(fs, old(mem[..]), conv).0.Mem
    ensures entries == Amd64Model.Compile(fs, old(mem[..]), conv).1
  {
    ghost var states, outs := CompileTraceOf(Initial(mem[..]), fs, conv);
    TraceIsCompileAll(states, outs, fs, conv);
    var c := new CompileContext(mem);
    entries := [];
    for i := 0 to |fs|
      invariant c.Valid() && c.ExecutableMemory == mem
      invariant fresh(c) && fresh(c.VarsLocation) && fresh(c.MemFreeStack) && fresh(c.CurrentRegsVar)
      invariant c.Model() == states[i] && entries == outs[..i]
    {
      var entry := c.CompileFunctionAt(fs, i, conv, states, outs);
      PrefixExtends(outs, i);
      entries := entries + [entry];
    }
    assert outs[..|fs|] == outs;
  }
}

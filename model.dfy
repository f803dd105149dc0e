/** The state of `AMD64CompileContext` as a value, and the register/spill
    allocator and the per-function driver of src/x86_64.c as functions from
    one state to the next. The class in compiler.dfy is proved to follow
    these functions step by step. */
module Amd64Model {

  import opened Bytes
  import opened Sir
  import opened Amd64Encoding
  import opened Amd64Output
  import opened Amd64Decoding

  /** The length of `VarsLocation` and of `MemFreeStack`. */
  const TABLE_SIZE := 4096

  /** The `FreeRegs` bit that is always set, so that the lowest set bit is 31
      exactly when no register is free. */
  const NO_FREE_REG := 31

  /** How many registers past `ForceOutReg` the eviction search may try. */
  const EVICTION_FUEL: nat := REGS_COUNT - 2

  /** `AMD64CompileContext`. A location is 0 for "none", a register id for a
      register and, at or below 0, the index of the frame slot at
      `rbp + 8 * index`. */
  datatype Context = Context(
    VarsLocation: seq<int>,
    MemFreeStack: seq<int>,
    Out: Output,
    CurrentlyFreed: int,
    CurrentRegsVar: seq<int>,
    FreeRegs: set<int>,
    MemStackAllocated: int,
    ForceOutReg: int,
    MemFreeStackCursor: int)

  /** The shape every reachable context has: the tables have their sizes,
      locations are below `Regs_Count`, freed slots are at or below 0, the
      registers map to variables of the table, and `FreeRegs` holds bit 31
      and otherwise only register bits. */
  predicate Valid(c: Context) {
    Consistent(c) == true
  }

  /** The facts `Valid` collects, compared with `true` above so that each use
      of `Valid` is checked as one fact rather than one per conjunct. */
  predicate Consistent(c: Context) {
    && |c.VarsLocation| == TABLE_SIZE && |c.MemFreeStack| == TABLE_SIZE && |c.CurrentRegsVar| == REGS_COUNT
    && (forall v :: 0 <= v < TABLE_SIZE ==> c.VarsLocation[v] < REGS_COUNT)
    && (forall s :: 0 <= s < TABLE_SIZE ==> c.MemFreeStack[s] <= 0)
    && (forall r :: 0 <= r < REGS_COUNT ==> 0 <= c.CurrentRegsVar[r] < TABLE_SIZE)
    && OutputValid(c.Out)
    && c.CurrentlyFreed < REGS_COUNT
    && IsMask(c.FreeRegs) && NO_FREE_REG in c.FreeRegs
    && (forall k :: k in c.FreeRegs ==> k == NO_FREE_REG || IsRegister(k))
    && IsRegister(c.ForceOutReg)
    && 0 <= c.MemFreeStackCursor <= TABLE_SIZE
    && c.MemStackAllocated <= 0
  }

  /** `FreeRegs` at the start of every function: bits RAX..R15 and bit 31. */
  const ALL_FREE: set<int> := {RAX, RBX, RCX, RDX, RSI, RDI, R8, R9, R10, R11, R12, R13, R14, R15, NO_FREE_REG}

  // ---------------------------------------------------------------------
  // SIR_AMD64GetVarIntoReg

  /** Some register may be evicted: a scan of all of them from RAX finds one
      outside the mask. */
  predicate Evictable(mask: set<int>) {
    FirstUnmasked(RAX, mask, EVICTION_FUEL) !in mask
  }

  /** The first register the allocator considers: the just-freed destination
      when its bit of `FreeRegs` is set, otherwise the lowest set bit, which
      is the sentinel 31 when no register is free. A `CurrentlyFreed` outside
      0..31 never counts as set. */
  function Preferred(c: Context): (r: int)
    requires Valid(c)
    ensures r == NO_FREE_REG || (IsRegister(r) && r in c.FreeRegs)
  {
    var first := if 0 <= c.CurrentlyFreed < 32 && c.CurrentlyFreed in c.FreeRegs then c.CurrentlyFreed else NO_FREE_REG;
    if first == NO_FREE_REG then Ctz(c.FreeRegs) else first
  }

  /** `ForceOutReg + 1`, wrapping from R15 back to RAX. */
  function NextReg(r: int): (n: int)
    requires IsRegister(r)
    ensures IsRegister(n)
  {
    if r + 1 >= REGS_COUNT then RAX else r + 1
  }

  /** How many `NextReg` steps lead from `r` to `u`. */
  function CyclicDistance(r: int, u: int): (d: int)
    requires IsRegister(r) && IsRegister(u)
    ensures 0 <= d < REGS_COUNT - 1
  {
    if u >= r then u - r else u - r + (REGS_COUNT - 1)
  }

  /** The eviction do-while: from `r`, the first register in cyclic order
      whose bit of `mask` is clear, trying at most `fuel` more registers. */
  function FirstUnmasked(r: int, mask: set<int>, fuel: nat): (v: int)
    requires IsRegister(r)
    ensures IsRegister(v)
    decreases fuel
  {
    if r !in mask || fuel == 0 then r else FirstUnmasked(NextReg(r), mask, fuel - 1)
  }

  /** The search finds an unmasked register whenever one is within reach, and
      none nearer in cyclic order: it is the first unmasked register. */
  lemma {:induction false} FirstUnmaskedIsFirst(r: int, mask: set<int>, fuel: nat, u: int)
    requires IsRegister(r) && IsRegister(u) && u !in mask && CyclicDistance(r, u) <= fuel
    ensures FirstUnmasked(r, mask, fuel) !in mask
    ensures CyclicDistance(r, FirstUnmasked(r, mask, fuel)) <= CyclicDistance(r, u)
    decreases fuel
  {
    if r in mask {
      assert r != u;
      FirstUnmaskedIsFirst(NextReg(r), mask, fuel - 1, u);
      var v := FirstUnmasked(NextReg(r), mask, fuel - 1);
      assert v != r;
      assert CyclicDistance(r, v) == CyclicDistance(NextReg(r), v) + 1;
      assert CyclicDistance(r, u) == CyclicDistance(NextReg(r), u) + 1;
    }
  }

  /** `MemStackAllocated -= 8; MemStackAllocated &= ~7u`: the next slot offset,
      eight below and rounded down to a multiple of eight. */
  function NewSlotOffset(lowest: int): (r: int)
    ensures r % 8 == 0 && r < lowest
  {
    (lowest - 8) - (lowest - 8) % 8
  }

  /** A freshly allocated slot is aligned, lies below every slot allocated
      before it and, once the allocation is aligned, exactly one slot lower. */
  lemma NewSlotIsNextBelow(lowest: int)
    ensures NewSlotOffset(lowest) % 8 == 0
    ensures lowest - 16 < NewSlotOffset(lowest) <= lowest - 8
    ensures lowest % 8 == 0 ==> NewSlotOffset(lowest) == lowest - 8
    ensures NewSlotOffset(lowest) / 8 * 8 == NewSlotOffset(lowest)
  {
  }

  /** Writes `bs` below the cursor and changes nothing else. */
  function Write(c: Context, bs: seq<byte>): (r: Context)
    requires Valid(c)
    ensures Valid(r) && Grows(c.Out, r.Out) && r == c.(Out := r.Out)
  {
    EmitGrows(c.Out, bs);
    c.(Out := Emit(c.Out, bs))
  }

  /** Writing `a` and then `b` is writing `b + a`, in memory order. */
  lemma WriteConcat(c: Context, a: seq<byte>, b: seq<byte>)
    requires Valid(c)
    ensures Write(Write(c, a), b) == Write(c, b + a)
  {
    EmitConcat(c.Out, a, b);
  }

  /** Writing one byte is the `WriteByte` step on the output. */
  lemma WriteOne(c: Context, b: byte)
    requires Valid(c)
    ensures Write(c, [b]) == c.(Out := Amd64Output.WriteByte(c.Out, b))
  {
    assert [b][1..] == [];
    assert Emit(c.Out, [b]) == Amd64Output.WriteByte(Emit(c.Out, []), b);
  }

  /** Records that `v` lives in `reg`: its location, the cleared `FreeRegs` bit
      and the register's `CurrentRegsVar` entry. */
  function Assign(c: Context, v: int, reg: int): (r: Context)
    requires Valid(c) && 0 <= v < TABLE_SIZE && IsRegister(reg)
    ensures Valid(r)
    ensures r.VarsLocation[v] == reg && reg !in r.FreeRegs && r.CurrentRegsVar[reg] == v
    ensures r == c.(VarsLocation := r.VarsLocation, FreeRegs := r.FreeRegs, CurrentRegsVar := r.CurrentRegsVar)
  {
    c.(VarsLocation := c.VarsLocation[v := reg], FreeRegs := c.FreeRegs - {reg},
       CurrentRegsVar := c.CurrentRegsVar[reg := v])
  }

  /** The frame slot a spilled variable goes to, and the context after taking
      it: the most recently freed slot if there is one, else a new slot below
      those allocated. */
  function TakeSlot(c: Context): (r: (Context, int))
    requires Valid(c)
    ensures Valid(r.0) && r.1 <= 0
    ensures r.0 == c.(MemFreeStackCursor := r.0.MemFreeStackCursor, MemStackAllocated := r.0.MemStackAllocated)
    ensures c.MemFreeStackCursor > 0 ==>
      r.1 == c.MemFreeStack[c.MemFreeStackCursor - 1] && r.0.MemFreeStackCursor == c.MemFreeStackCursor - 1
      && r.0.MemStackAllocated == c.MemStackAllocated
    ensures c.MemFreeStackCursor == 0 ==>
      r.1 * 8 == NewSlotOffset(c.MemStackAllocated) && r.0.MemStackAllocated == NewSlotOffset(c.MemStackAllocated)
      && r.0.MemFreeStackCursor == 0
  {
    if c.MemFreeStackCursor > 0 then
      var c1 := c.(MemFreeStackCursor := c.MemFreeStackCursor - 1);
      (c1, 8 * c1.MemFreeStack[c1.MemFreeStackCursor] / 8)
    else
      var c1 := c.(MemStackAllocated := NewSlotOffset(c.MemStackAllocated));
      (c1, c1.MemStackAllocated / 8)
  }

  /** Spilling a register when none is free: the victim is the first register
      from `ForceOutReg` on that the mask leaves alone, and `ForceOutReg` moves
      past it. The victim's variable gets a frame slot and the load of that
      variable back into the victim is written. */
  function Evict(c: Context, mask: set<int>): (r: (Context, int))
    requires Valid(c) && Evictable(mask)
    ensures Valid(r.0) && IsRegister(r.1) && r.1 !in mask
    ensures Grows(c.Out, r.0.Out)
    ensures r.0.MemFreeStackCursor <= c.MemFreeStackCursor
    ensures r.0.CurrentlyFreed == c.CurrentlyFreed
    ensures r.1 == FirstUnmasked(c.ForceOutReg, mask, EVICTION_FUEL) && r.0.ForceOutReg == NextReg(r.1)
    ensures r.0.VarsLocation[c.CurrentRegsVar[r.1]] == TakeSlot(c).1
    ensures r.0.MemFreeStackCursor == TakeSlot(c).0.MemFreeStackCursor
    ensures r.0.MemStackAllocated == TakeSlot(c).0.MemStackAllocated
    ensures r.0.Out == Emit(c.Out, MovBytes(r.1, TakeSlot(c).1, SIR_QWORD, true))
  {
    var victim := FirstUnmasked(c.ForceOutReg, mask, EVICTION_FUEL);
    assert victim !in mask by {
      FirstUnmaskedIsFirst(c.ForceOutReg, mask, EVICTION_FUEL, FirstUnmasked(RAX, mask, EVICTION_FUEL));
    }
    var varToPush := c.CurrentRegsVar[victim];
    var (c1, index) := TakeSlot(c);
    var c2 := c1.(ForceOutReg := NextReg(victim), VarsLocation := c1.VarsLocation[varToPush := index]);
    (Write(c2, MovBytes(victim, index, SIR_QWORD, true)), victim)
  }

  /** `SIR_AMD64GetVarIntoReg(c, Var, DoNotForceOutThisMask)`: the register now
      holding `v`. A variable already in a register stays there and nothing
      changes; otherwise `v` is given a register, whose `FreeRegs` bit is
      cleared and whose `CurrentRegsVar` entry becomes `v`, and a variable that
      was in a frame slot is stored there from the register. */
  function GetVarIntoReg(c: Context, v: int, mask: set<int>): (r: (Context, int))
    requires Valid(c) && 0 <= v < TABLE_SIZE && Evictable(mask)
    ensures Valid(r.0) && IsRegister(r.1)
    ensures Grows(c.Out, r.0.Out)
    ensures c.VarsLocation[v] > 0 ==> r == (c, c.VarsLocation[v])
    ensures c.VarsLocation[v] <= 0 ==>
      r.0.VarsLocation[v] == r.1 && r.1 !in r.0.FreeRegs && r.0.CurrentRegsVar[r.1] == v
    ensures r.0.CurrentlyFreed == c.CurrentlyFreed
    ensures r.0.MemFreeStackCursor <= c.MemFreeStackCursor
  {
    var initial := c.VarsLocation[v];
    if initial > 0 then (c, initial)
    else
      var preferred := Preferred(c);
      var (c1, reg) := if preferred == NO_FREE_REG then Evict(c, mask) else (c, preferred);
      var c2 := Assign(c1, v, reg);
      if initial < 0 then
        var c3 := Write(c2, MovBytes(reg, initial, SIR_QWORD, false));
        GrowsTransitive(c.Out, c2.Out, c3.Out);
        (c3, reg)
      else (c2, reg)
  }

  /** Some register's `FreeRegs` bit is set. */
  ghost predicate SomeRegisterFree(c: Context) {
    exists k :: IsRegister(k) && k in c.FreeRegs
  }

  /** Which register `GetVarIntoReg` hands to a variable that is not in one:
      the just-freed destination when its bit is set; otherwise the lowest free
      register, without evicting; and only when none is free, the first register
      from `ForceOutReg` on that the mask leaves alone, after which
      `ForceOutReg` points past it. */
  lemma GetVarIntoRegChoice(c: Context, v: int, mask: set<int>)
    requires Valid(c) && 0 <= v < TABLE_SIZE && Evictable(mask) && c.VarsLocation[v] <= 0
    ensures var (r, reg) := GetVarIntoReg(c, v, mask);
      && (IsRegister(c.CurrentlyFreed) && c.CurrentlyFreed in c.FreeRegs ==> reg == c.CurrentlyFreed)
      && (c.CurrentlyFreed !in c.FreeRegs && SomeRegisterFree(c) ==>
            reg in c.FreeRegs && forall k :: IsRegister(k) && k in c.FreeRegs ==> reg <= k)
      && (SomeRegisterFree(c) ==>
            r.ForceOutReg == c.ForceOutReg && r.MemFreeStackCursor == c.MemFreeStackCursor
            && r.MemStackAllocated == c.MemStackAllocated)
      && (!SomeRegisterFree(c) ==>
            reg !in mask && r.ForceOutReg == NextReg(reg)
            && forall u :: IsRegister(u) && u !in mask ==>
                 CyclicDistance(c.ForceOutReg, reg) <= CyclicDistance(c.ForceOutReg, u))
  {
    var p := Preferred(c);
    if SomeRegisterFree(c) {
      var k :| IsRegister(k) && k in c.FreeRegs;
      assert Ctz(c.FreeRegs) <= k;
      assert p != NO_FREE_REG;
    } else {
      assert p == NO_FREE_REG;
      forall u | IsRegister(u) && u !in mask
        ensures CyclicDistance(c.ForceOutReg, GetVarIntoReg(c, v, mask).1) <= CyclicDistance(c.ForceOutReg, u)
      {
        FirstUnmaskedIsFirst(c.ForceOutReg, mask, EVICTION_FUEL, u);
      }
    }
  }

  /** When no register is free, the victim's variable moves to a frame slot:
      the most recently freed one, popped from `MemFreeStack`, or else a new
      aligned slot below those allocated. What is written is, in memory order,
      the store of `v` to its old slot if it had one, then the load of the
      victim's variable from its new slot. */
  lemma EvictionSpills(c: Context, v: int, mask: set<int>)
    requires Valid(c) && 0 <= v < TABLE_SIZE && Evictable(mask) && c.VarsLocation[v] <= 0
    requires !SomeRegisterFree(c)
    ensures var (r, reg) := GetVarIntoReg(c, v, mask);
      var spilled := c.CurrentRegsVar[reg];
      var slot := if c.MemFreeStackCursor > 0 then c.MemFreeStack[c.MemFreeStackCursor - 1]
                  else NewSlotOffset(c.MemStackAllocated) / 8;
      && reg == Evict(c, mask).1
      && (spilled != v ==> r.VarsLocation[spilled] == slot)
      && (c.MemFreeStackCursor > 0 ==>
            r.MemFreeStackCursor == c.MemFreeStackCursor - 1 && r.MemStackAllocated == c.MemStackAllocated)
      && (c.MemFreeStackCursor == 0 ==>
            r.MemFreeStackCursor == 0 && r.MemStackAllocated == NewSlotOffset(c.MemStackAllocated))
      && r.Out == Emit(c.Out, (if c.VarsLocation[v] < 0 then MovBytes(reg, c.VarsLocation[v], SIR_QWORD, false) else [])
                              + MovBytes(reg, slot, SIR_QWORD, true))
  {
    var p := Preferred(c);
    assert p == NO_FREE_REG;
    var (e, reg) := Evict(c, mask);
    var slot := TakeSlot(c).1;
    var load := MovBytes(reg, slot, SIR_QWORD, true);
    if c.VarsLocation[v] < 0 {
      EmitConcat(c.Out, load, MovBytes(reg, c.VarsLocation[v], SIR_QWORD, false));
    } else {
      assert [] + load == load;
    }
  }

  /** The whole state after `GetVarIntoReg` for a variable not in a register.
      With a register free, it is exactly the assignment of `v` to that
      register plus, for a variable that was in a frame slot, the store of it
      to that slot. Either way only `v`'s location and that of the register's
      previous variable change, only the register's `CurrentRegsVar` entry
      changes, its `FreeRegs` bit is the one cleared, and `MemFreeStack` and
      `CurrentlyFreed` stay. */
  lemma GetVarIntoRegState(c: Context, v: int, mask: set<int>)
    requires Valid(c) && 0 <= v < TABLE_SIZE && Evictable(mask) && c.VarsLocation[v] <= 0
    ensures var (r, reg) := GetVarIntoReg(c, v, mask);
      var store := if c.VarsLocation[v] < 0 then MovBytes(reg, c.VarsLocation[v], SIR_QWORD, false) else [];
      && (SomeRegisterFree(c) ==> r == Assign(c, v, reg).(Out := Emit(c.Out, store)))
      && (forall u :: 0 <= u < TABLE_SIZE && u != v && u != c.CurrentRegsVar[reg] ==> r.VarsLocation[u] == c.VarsLocation[u])
      && (forall k :: 0 <= k < REGS_COUNT && k != reg ==> r.CurrentRegsVar[k] == c.CurrentRegsVar[k])
      && r.FreeRegs == c.FreeRegs - {reg}
      && r.MemFreeStack == c.MemFreeStack && r.CurrentlyFreed == c.CurrentlyFreed
  {
    var p := Preferred(c);
    if SomeRegisterFree(c) {
      var k :| IsRegister(k) && k in c.FreeRegs;
      assert Ctz(c.FreeRegs) <= k;
      assert p != NO_FREE_REG;
      if c.VarsLocation[v] == 0 {
        assert Emit(c.Out, []) == c.Out;
      }
    } else {
      assert p == NO_FREE_REG;
      var reg := Evict(c, mask).1;
      assert reg !in c.FreeRegs;
    }
  }

  // ---------------------------------------------------------------------
  // The per-function driver of SIR_AMD64Compile

  /** The operation's instruction byte names `t`. */
  predicate Is(op: Operation, t: Instruction) {
    op.Instruction == Code(t)
  }

  /** The operands the driver uses as variables index the 4096-entry tables. */
  predicate OperandsInRange(op: Operation, returnCount: int) {
    && (Is(op, Ret) && returnCount == 1 ==> op.OperandW1 as int < TABLE_SIZE)
    && (Is(op, Add) || Is(op, Sub) ==> op.OperandW1 as int < TABLE_SIZE)
    && ((Is(op, Add) || Is(op, Sub)) && op.InstructionOptions == SIR_VAR ==> op.OperandW2() as int < TABLE_SIZE)
  }

  /** A function whose arguments and operation results fit `VarsLocation`. */
  predicate WellFormed(f: Function) {
    && f.ArgumentsCount + |f.Operations| <= TABLE_SIZE
    && forall k :: 0 <= k < |f.Operations| ==> OperandsInRange(f.Operations[k], f.ReturnCount)
  }

  /** The per-function reset: the tables are zeroed, `ForceOutReg` is RAX and
      `FreeRegs` is bits RAX..R15 plus bit 31. `MemStackAllocated` and
      `MemFreeStackCursor` carry over from the previous function. */
  function Reset(c: Context): (r: Context)
    requires Valid(c)
    ensures Valid(r)
  {
    c.(VarsLocation := seq(TABLE_SIZE, _ => 0), MemFreeStack := seq(TABLE_SIZE, _ => 0),
       CurrentRegsVar := seq(REGS_COUNT, _ => 0), ForceOutReg := RAX, FreeRegs := ALL_FREE)
  }

  /** After the reset no variable has a location, every register is free and
      unowned, eviction starts at RAX, and only the output, the slot
      allocation and the free-slot cursor remain. */
  lemma ResetState(c: Context)
    requires Valid(c)
    ensures var r := Reset(c);
      && (forall v :: 0 <= v < TABLE_SIZE ==> r.VarsLocation[v] == 0 && r.MemFreeStack[v] == 0)
      && (forall k :: 0 <= k < REGS_COUNT ==> r.CurrentRegsVar[k] == 0)
      && (forall k :: k in r.FreeRegs <==> k == NO_FREE_REG || IsRegister(k))
      && r.ForceOutReg == RAX
      && r.Out == c.Out && r.MemStackAllocated == c.MemStackAllocated
      && r.MemFreeStackCursor == c.MemFreeStackCursor
  {
  }

  /** The function's last operation is a Ret. */
  predicate EndsWithRet(f: Function) {
    |f.Operations| > 0 && Is(f.Operations[|f.Operations| - 1], Ret)
  }

  /** Frees the destination of the operation whose result is variable `d`:
      its register bit is set again, or its negative slot is pushed onto
      `MemFreeStack`. The location is remembered as `CurrentlyFreed`. */
  function FreeDestination(c: Context, d: int): (r: Context)
    requires Valid(c) && 0 <= d < TABLE_SIZE
    requires c.VarsLocation[d] < 0 ==> c.MemFreeStackCursor < TABLE_SIZE
    ensures Valid(r) && r.Out == c.Out
    ensures r.CurrentlyFreed == c.VarsLocation[d]
    ensures r.CurrentlyFreed < 0 ==>
      && r.MemFreeStackCursor == c.MemFreeStackCursor + 1
      && r.MemFreeStack[c.MemFreeStackCursor] == r.CurrentlyFreed
      && r == c.(CurrentlyFreed := r.CurrentlyFreed, MemFreeStack := r.MemFreeStack, MemFreeStackCursor := r.MemFreeStackCursor)
      && forall s :: 0 <= s < TABLE_SIZE && s != c.MemFreeStackCursor ==> r.MemFreeStack[s] == c.MemFreeStack[s]
    ensures r.CurrentlyFreed > 0 ==>
      r == c.(CurrentlyFreed := r.CurrentlyFreed, FreeRegs := c.FreeRegs + {r.CurrentlyFreed})
    ensures r.CurrentlyFreed == 0 ==> r == c.(CurrentlyFreed := 0)
  {
    var freed := c.VarsLocation[d];
    var c1 := c.(CurrentlyFreed := freed);
    if freed < 0 then
      c1.(MemFreeStack := c1.MemFreeStack[c1.MemFreeStackCursor := freed], MemFreeStackCursor := c1.MemFreeStackCursor + 1)
    else if freed > 0 then c1.(FreeRegs := c1.FreeRegs + {freed})
    else c1
  }

  /** Ret with one return value: the returned variable must not have a
      location yet, and is pinned to RAX. */
  function PinReturn(c: Context, rv: int): (r: Context)
    requires Valid(c) && 0 <= rv < TABLE_SIZE
    ensures Valid(r) && Grows(c.Out, r.Out)
    ensures r.VarsLocation[rv] == RAX && RAX !in r.FreeRegs && r.CurrentRegsVar[RAX] == rv
    ensures c.VarsLocation[rv] == 0 ==> r.Out == c.Out
    ensures c.VarsLocation[rv] != 0 ==> r.Out == Fail(c.Out, ReturnAlreadyAssigned)
  {
    var o := if c.VarsLocation[rv] != 0 then Fail(c.Out, ReturnAlreadyAssigned) else c.Out;
    Assign(c.(Out := o), rv, RAX)
  }

  /** `SIR_Ret`: pin the return value when there is one, then write the exit
      sequence. */
  function CompileRet(c: Context, returnCount: int, op: Operation): (r: Context)
    requires Valid(c) && (returnCount == 1 ==> op.OperandW1 as int < TABLE_SIZE)
    ensures Valid(r) && Grows(c.Out, r.Out)
    ensures r.CurrentlyFreed == c.CurrentlyFreed && r.MemFreeStackCursor == c.MemFreeStackCursor
    ensures r.Out.Status.Running? ==> r.Out == Emit(c.Out, EXIT_BYTES)
  {
    var c1 := if returnCount == 1 then PinReturn(c, op.OperandW1 as int) else c;
    var c2 := Write(c1, EXIT_BYTES);
    GrowsTransitive(c.Out, c1.Out, c2.Out);
    EmitPlacesBytes(c1.Out, EXIT_BYTES);
    c2
  }

  /** After the operation, the destination gets operand 1's value by a store
      from operand 1's register, unless the destination is that register. */
  function StoreIfMoved(c: Context, loc1: int, width: byte): (r: Context)
    requires Valid(c) && IsRegister(loc1)
    ensures Valid(r) && Grows(c.Out, r.Out) && r == c.(Out := r.Out)
    ensures r.Out == Emit(c.Out, if c.CurrentlyFreed != loc1 then MovBytes(loc1, c.CurrentlyFreed, width, false) else [])
  {
    if c.CurrentlyFreed != loc1 then Write(c, MovBytes(loc1, c.CurrentlyFreed, width, false)) else c
  }

  /** Add/Sub of two variables: both operands are brought into registers, the
      register-operand instruction is written against the destination, and
      operand 1 is moved to the destination first if it is elsewhere. */
  function ArithVar(c: Context, op: Operation): (r: Context)
    requires Valid(c) && op.OperandW1 as int < TABLE_SIZE && op.OperandW2() as int < TABLE_SIZE
    ensures Valid(r) && Grows(c.Out, r.Out)
    ensures r.CurrentlyFreed == c.CurrentlyFreed && r.MemFreeStackCursor <= c.MemFreeStackCursor
  {
    var (c1, loc1) := GetVarIntoReg(c, op.OperandW1 as int, {});
    var (c2, loc2) := GetVarIntoReg(c1, op.OperandW2() as int, {});
    var c3 := Write(c2, ArithVarBytes(Is(op, Sub), loc2, c2.CurrentlyFreed, WidthIndex(op.InstructionOptions)));
    var c4 := StoreIfMoved(c3, loc1, WidthIndex(op.InstructionOptions));
    GrowsTransitive(c.Out, c1.Out, c2.Out);
    GrowsTransitive(c.Out, c2.Out, c3.Out);
    GrowsTransitive(c.Out, c3.Out, c4.Out);
    c4
  }

  /** Add/Sub of a variable and an immediate: operand 1 is brought into a
      register, the immediate form is written against the destination, and
      operand 1 is moved to the destination first if it is elsewhere. */
  function ArithImm(c: Context, op: Operation): (r: Context)
    requires Valid(c) && op.OperandW1 as int < TABLE_SIZE
    ensures Valid(r) && Grows(c.Out, r.Out)
    ensures r.CurrentlyFreed == c.CurrentlyFreed && r.MemFreeStackCursor <= c.MemFreeStackCursor
  {
    var (c1, loc1) := GetVarIntoReg(c, op.OperandW1 as int, {});
    var c2 := Write(c1, ArithImmBytes(Is(op, Sub), c1.CurrentlyFreed, WidthIndex(op.InstructionOptions), op.OperandDW2));
    var c3 := StoreIfMoved(c2, loc1, WidthIndex(op.InstructionOptions));
    GrowsTransitive(c.Out, c1.Out, c2.Out);
    GrowsTransitive(c.Out, c2.Out, c3.Out);
    c3
  }

  /** `SIR_Add`/`SIR_Sub`: nothing for an unused result, the variable form when
      the whole options byte is 0, the immediate form for an immediate operand
      type, and nothing for any other options byte. */
  function CompileAddSub(c: Context, op: Operation): (r: Context)
    requires Valid(c) && OperandsInRange(op, 0) && (Is(op, Add) || Is(op, Sub))
    ensures Valid(r) && Grows(c.Out, r.Out)
    ensures r.CurrentlyFreed == c.CurrentlyFreed && r.MemFreeStackCursor <= c.MemFreeStackCursor
  {
    if c.CurrentlyFreed == 0 then c
    else if op.InstructionOptions == SIR_VAR then ArithVar(c, op)
    else if OperandType(op.InstructionOptions) == SIR_IMMEDIATE then ArithImm(c, op)
    else c
  }

  /** One iteration of the backward loop over the operations: free the
      destination, then dispatch on the tag; tags other than Ret, Add and Sub
      write nothing. */
  function OpStep(c: Context, f: Function, k: int): (r: Context)
    requires Valid(c) && WellFormed(f) && 0 <= k < |f.Operations| && c.MemFreeStackCursor < TABLE_SIZE
    ensures Valid(r) && Grows(c.Out, r.Out)
    ensures r.MemFreeStackCursor <= c.MemFreeStackCursor + 1
    ensures Is(f.Operations[k], Ret) && r.Out.Status.Running? ==> r.Out == Emit(c.Out, EXIT_BYTES)
  {
    var c1 := FreeDestination(c, f.ArgumentsCount + k);
    var op := f.Operations[k];
    assert OperandsInRange(op, f.ReturnCount);
    if Is(op, Ret) then CompileRet(c1, f.ReturnCount, op)
    else if Is(op, Add) || Is(op, Sub) then CompileAddSub(c1, op)
    else c1
  }

  /** The state after the backward loop has processed operations
      `|f.Operations| - 1` down to `j`, starting from `c`. */
  function OpsDownTo(c: Context, f: Function, j: int): (r: Context)
    requires Valid(c) && WellFormed(f) && 0 <= j <= |f.Operations| && c.MemFreeStackCursor + |f.Operations| <= TABLE_SIZE
    ensures Valid(r) && Grows(c.Out, r.Out)
    ensures r.MemFreeStackCursor + j <= c.MemFreeStackCursor + |f.Operations|
    decreases |f.Operations| - j
  {
    if j == |f.Operations| then c
    else
      var c1 := OpsDownTo(c, f, j + 1);
      var c2 := OpStep(c1, f, j);
      GrowsTransitive(c.Out, c1.Out, c2.Out);
      c2
  }

  /** Every later state of the loop extends the output of an earlier one. */
  lemma {:induction false} OpsDownToGrows(c: Context, f: Function, i: int)
    requires Valid(c) && WellFormed(f) && 0 <= i <= |f.Operations| && c.MemFreeStackCursor + |f.Operations| <= TABLE_SIZE
    ensures Grows(OpsDownTo(c, f, i).Out, OpsDownTo(c, f, 0).Out)
    decreases i
  {
    if i == 0 {
      GrowsReflexive(OpsDownTo(c, f, 0).Out);
    } else {
      OpsDownToGrows(c, f, i - 1);
      GrowsTransitive(OpsDownTo(c, f, i).Out, OpsDownTo(c, f, i - 1).Out, OpsDownTo(c, f, 0).Out);
    }
  }

  /** The registers that carry the first arguments: RCX, RDX, R8, R9 on
      Windows x64; RDI, RSI, RDX, RCX, R8, R9 under the System V AMD64 ABI. */
  function InputRegisters(conv: CallingConvention): (regs: seq<int>)
    ensures forall k :: 0 <= k < |regs| ==> IsRegister(regs[k])
  {
    match conv
    case Win => [RCX, RDX, R8, R9]
    case Sysv => [RDI, RSI, RDX, RCX, R8, R9]
  }

  /** The moves that bring an argument from `target` to where the body
      expects it, in memory order: when `target` is in use, its value is
      first saved in slot -1 and reloaded afterwards. */
  function ArgumentMoveBytes(target: int, current: int, occupied: bool): (bs: seq<byte>)
    requires IsRegister(target) && current < REGS_COUNT
    ensures !occupied ==> bs == MovBytes(target, current, SIR_QWORD, false)
    ensures occupied ==> |bs| > |MovBytes(target, current, SIR_QWORD, false)|
  {
    (if occupied then MovBytes(target, -1, SIR_QWORD, false) else [])
    + MovBytes(target, current, SIR_QWORD, false)
    + (if occupied then MovBytes(target, -1, SIR_QWORD, true) else [])
  }

  /** Argument `i`: moved from its convention register to its location when
      they differ, after which the register is free and unowned and the
      argument has no location; an argument beyond the registers fails. */
  function ArgStep(c: Context, conv: CallingConvention, i: int): (r: Context)
    requires Valid(c) && 0 <= i < TABLE_SIZE
    ensures Valid(r) && Grows(c.Out, r.Out)
    ensures r.MemFreeStackCursor == c.MemFreeStackCursor
  {
    var regs := InputRegisters(conv);
    if i < |regs| then
      var target := regs[i];
      var current := c.VarsLocation[i];
      var c1 := if target != current then Write(c, ArgumentMoveBytes(target, current, c.CurrentRegsVar[target] != 0)) else c;
      c1.(VarsLocation := c1.VarsLocation[i := 0], FreeRegs := c1.FreeRegs + {target},
          CurrentRegsVar := c1.CurrentRegsVar[target := 0])
    else c.(Out := Fail(c.Out, TooManyArguments))
  }

  /** The argument loop over arguments 0 to `n - 1`. */
  function ArgsUpTo(c: Context, conv: CallingConvention, n: int): (r: Context)
    requires Valid(c) && 0 <= n <= TABLE_SIZE
    ensures Valid(r) && Grows(c.Out, r.Out)
    ensures r.MemFreeStackCursor == c.MemFreeStackCursor
    decreases n
  {
    if n == 0 then c
    else
      var c1 := ArgsUpTo(c, conv, n - 1);
      var c2 := ArgStep(c1, conv, n - 1);
      GrowsTransitive(c.Out, c1.Out, c2.Out);
      c2
  }

  /** What argument `i` does: beyond the convention's registers, the run
      fails and nothing else changes; otherwise the moves are written exactly
      when the argument's location is not its register, the argument loses its
      location, its register becomes free and unowned, and nothing else changes. */
  lemma ArgStepEffect(c: Context, conv: CallingConvention, i: int)
    requires Valid(c) && 0 <= i < TABLE_SIZE
    ensures var regs := InputRegisters(conv);
      var r := ArgStep(c, conv, i);
      && (i >= |regs| ==> r == c.(Out := Fail(c.Out, TooManyArguments)))
      && (i < |regs| ==>
            var target := regs[i];
            var current := c.VarsLocation[i];
            && r.Out == Emit(c.Out, if target != current then ArgumentMoveBytes(target, current, c.CurrentRegsVar[target] != 0) else [])
            && r.VarsLocation[i] == 0 && target in r.FreeRegs && r.CurrentRegsVar[target] == 0
            && (forall u :: 0 <= u < TABLE_SIZE && u != i ==> r.VarsLocation[u] == c.VarsLocation[u])
            && (forall k :: 0 <= k < REGS_COUNT && k != target ==> r.CurrentRegsVar[k] == c.CurrentRegsVar[k])
            && r.FreeRegs == c.FreeRegs + {target}
            && r == c.(Out := r.Out, VarsLocation := r.VarsLocation, FreeRegs := r.FreeRegs, CurrentRegsVar := r.CurrentRegsVar))
  {
    var regs := InputRegisters(conv);
    if i < |regs| && regs[i] == c.VarsLocation[i] {
      assert Emit(c.Out, []) == c.Out;
    }
  }

  /** Each of the first `n` arguments that has a convention register has no
      location, and that register is free and unowned. */
  predicate Released(r: Context, conv: CallingConvention, n: int) {
    forall k :: 0 <= k < n && k < |InputRegisters(conv)| ==>
      && 0 <= k < |r.VarsLocation| && 0 <= InputRegisters(conv)[k] < |r.CurrentRegsVar|
      && r.VarsLocation[k] == 0 && InputRegisters(conv)[k] in r.FreeRegs
      && r.CurrentRegsVar[InputRegisters(conv)[k]] == 0
  }

  /** Argument `i` releases itself and keeps the earlier ones released, and
      past the registers it fails the run. */
  lemma ArgStepReleases(c: Context, conv: CallingConvention, i: int)
    requires Valid(c) && 0 <= i < TABLE_SIZE && Released(c, conv, i)
    ensures Released(ArgStep(c, conv, i), conv, i + 1)
    ensures i >= |InputRegisters(conv)| ==> !ArgStep(c, conv, i).Out.Status.Running?
  {
    ArgStepEffect(c, conv, i);
  }

  /** After the loop over `n` arguments, every argument that had a register
      has no location and its register is free and unowned; with more
      arguments than registers the run has failed. */
  lemma {:induction false} ArgsReleased(c: Context, conv: CallingConvention, n: int)
    requires Valid(c) && 0 <= n <= TABLE_SIZE
    ensures Released(ArgsUpTo(c, conv, n), conv, n)
    ensures n > |InputRegisters(conv)| ==> !ArgsUpTo(c, conv, n).Out.Status.Running?
    decreases n
  {
    if n > 0 {
      var c1 := ArgsUpTo(c, conv, n - 1);
      ArgsReleased(c, conv, n - 1);
      ArgStepReleases(c1, conv, n - 1);
    }
  }

  /** The argument moves decode as the SDM reads them: without an occupant,
      one store of the register to the argument's location; with one, first
      the save of the register to slot -1 (`[rbp - 8]`). */
  lemma ArgumentMoveDecodes(target: int, current: int, occupied: bool, rest: seq<byte>)
    requires IsRegister(target) && Addressable(current)
    ensures var bs := ArgumentMoveBytes(target, current, occupied);
      var first := if occupied then -1 else current;
      Decode(bs + rest)
        == Some(Decoded(RegRm(0x89, false, true, HwNum(target), Location(first)), |MovBytes(target, first, SIR_QWORD, false)|))
  {
    if occupied {
      var save := MovBytes(target, -1, SIR_QWORD, false);
      var move := MovBytes(target, current, SIR_QWORD, false);
      var reload := MovBytes(target, -1, SIR_QWORD, true);
      assert ArgumentMoveBytes(target, current, occupied) == save + move + reload;
      Regroup(save, move, reload, rest);
      MovRoundTrip(target, -1, SIR_QWORD, false, move + reload + rest);
    } else {
      MovRoundTrip(target, current, SIR_QWORD, false, rest);
    }
  }

  /** Regrouping a concatenation so that its first part stands alone. */
  lemma Regroup<T>(a: seq<T>, b: seq<T>, d: seq<T>, rest: seq<T>)
    ensures a + b + d + rest == a + (b + d + rest)
  {
  }

  /** The four prologue bytes sit at the cursor whenever writing them did not fail. */
  lemma PrologueAtCursor(o: Output)
    requires OutputValid(o)
    ensures var r := Emit(o, PROLOGUE_BYTES);
      r.Status.Running? ==>
        (r.Cursor + 4 <= |r.Mem| && r.Mem[r.Cursor..r.Cursor + 4] == PROLOGUE_BYTES && r.Cursor + 4 <= o.Cursor)
  {
    EmitPlacesBytes(o, PROLOGUE_BYTES);
    var r := Emit(o, PROLOGUE_BYTES);
    if r.Status.Running? {
      assert o.Status.Running? && 4 <= o.Cursor;
      assert r.Mem[r.Cursor..r.Cursor + 4] == (o.Mem[..o.Cursor - 4] + PROLOGUE_BYTES + o.Mem[o.Cursor..])[o.Cursor - 4..o.Cursor];
    }
  }

  /** `entry` is what a function whose code starts below `o` publishes when
      the output ends as `r`: the cursor, exactly when nothing has failed,
      with `push rbp; mov rbp, rsp` in place there. */
  predicate PublishesEntry(o: Output, r: Output, entry: Option<nat>) {
    && (entry.Some? <==> r.Status.Running?)
    && (entry.Some? ==>
          && entry.value == r.Cursor && entry.value + 4 <= o.Cursor && o.Cursor <= |r.Mem|
          && r.Mem[entry.value..entry.value + 4] == PROLOGUE_BYTES)
  }

  /** Writes the prologue and publishes the cursor as the entry when nothing
      has failed. */
  function PublishOut(o: Output): (r: (Output, Option<nat>))
    requires OutputValid(o)
    ensures OutputValid(r.0) && Grows(o, r.0) && PublishesEntry(o, r.0, r.1)
  {
    var o1 := Emit(o, PROLOGUE_BYTES);
    PrologueAtCursor(o);
    EmitGrows(o, PROLOGUE_BYTES);
    (o1, if o1.Status.Running? then Some(o1.Cursor) else None)
  }

  /** `PublishOut` on the context's output; nothing else changes. */
  function Publish(c: Context): (r: (Context, Option<nat>))
    requires Valid(c)
    ensures Valid(r.0) && Grows(c.Out, r.0.Out) && r.0.MemFreeStackCursor == c.MemFreeStackCursor
    ensures PublishesEntry(c.Out, r.0.Out, r.1)
  {
    var (o, entry) := PublishOut(c.Out);
    (c.(Out := o), entry)
  }

  /** One iteration of the loop over functions: reset, the exit sequence
      unless the last operation is a Ret, the operations from last to first,
      the arguments, then `push rbp; mov rbp, rsp`. The entry is the cursor
      after the prologue, published only if nothing failed. */
  function CompileFunction(c: Context, f: Function, conv: CallingConvention): (r: (Context, Option<nat>))
    requires Valid(c) && WellFormed(f) && c.MemFreeStackCursor + |f.Operations| <= TABLE_SIZE
    ensures Valid(r.0) && Grows(c.Out, r.0.Out)
    ensures r.0.MemFreeStackCursor <= c.MemFreeStackCursor + |f.Operations|
    ensures PublishesEntry(c.Out, r.0.Out, r.1)
    ensures BytesBelow(EXIT_BYTES, c.Out.Cursor, r.0.Out)
  {
    var body := FunctionBody(c, f, conv);
    var r := Publish(body);
    GrowsTransitive(c.Out, body.Out, r.0.Out);
    BytesBelowGrows(EXIT_BYTES, c.Out.Cursor, body.Out, r.0.Out);
    r
  }

  /** Everything `CompileFunction` does before the prologue. While nothing
      has failed, the function's code ends with `pop rbp; ret` just below the
      cursor it started from: written up front when the last operation is not
      a Ret, and by that Ret otherwise. */
  function FunctionBody(c: Context, f: Function, conv: CallingConvention): (r: Context)
    requires Valid(c) && WellFormed(f) && c.MemFreeStackCursor + |f.Operations| <= TABLE_SIZE
    ensures Valid(r) && Grows(c.Out, r.Out)
    ensures r.MemFreeStackCursor <= c.MemFreeStackCursor + |f.Operations|
    ensures BytesBelow(EXIT_BYTES, c.Out.Cursor, r.Out)
  {
    var c1 := Reset(c);
    var c2 := if EndsWithRet(f) then c1 else Write(c1, EXIT_BYTES);
    var c3 := OpsDownTo(c2, f, 0);
    var c4 := ArgsUpTo(c3, conv, f.ArgumentsCount);
    GrowsTransitive(c.Out, c2.Out, c3.Out);
    GrowsTransitive(c.Out, c3.Out, c4.Out);
    if EndsWithRet(f) then
      LastOperationExits(c2, f);
      OpsDownToGrows(c2, f, |f.Operations| - 1);
      ExitThenGrows(c2.Out, OpsDownTo(c2, f, |f.Operations| - 1).Out, c3.Out, c4.Out);
      c4
    else
      GrowsTransitive(c2.Out, c3.Out, c4.Out);
      WrittenBytesStay(c1.Out, EXIT_BYTES, c4.Out);
      c4
  }

  /** The backward loop processes the last operation first, so when that is a
      Ret the first thing written is the exit sequence. */
  lemma LastOperationExits(c: Context, f: Function)
    requires Valid(c) && WellFormed(f) && EndsWithRet(f) && c.MemFreeStackCursor + |f.Operations| <= TABLE_SIZE
    ensures var s := OpsDownTo(c, f, |f.Operations| - 1);
      s.Out.Status.Running? ==> s.Out == Emit(c.Out, EXIT_BYTES)
  {
    assert OpsDownTo(c, f, |f.Operations| - 1) == OpStep(c, f, |f.Operations| - 1);
  }

  /** An output that either failed or holds just the exit sequence on top of
      `o` keeps that sequence as it grows. */
  lemma ExitThenGrows(o: Output, s: Output, e: Output, q: Output)
    requires OutputValid(o) && Grows(s, e) && Grows(e, q) && (s.Status.Running? ==> s == Emit(o, EXIT_BYTES))
    ensures BytesBelow(EXIT_BYTES, o.Cursor, q)
  {
    GrowsTransitive(s, e, q);
    if q.Status.Running? {
      assert s.Status.Running?;
      WrittenBytesStay(o, EXIT_BYTES, q);
    }
  }

  /** The total number of operations of `fs`. */
  function TotalOperations(fs: seq<Function>): nat {
    if fs == [] then 0 else |fs[0].Operations| + TotalOperations(fs[1..])
  }

  predicate AllWellFormed(fs: seq<Function>) {
    forall i :: 0 <= i < |fs| ==> WellFormed(fs[i])
  }

  /** Entries laid out from the cursor of `o` downwards, with `r` the output
      at the end: every published entry lies between the final cursor and the
      starting one, with the prologue still in place there; each entry is at
      least four bytes below the one before it; an entry is published only
      while nothing has failed, and the last one exactly when the whole run
      succeeded. */
  predicate Layout(o: Output, r: Output, entries: seq<Option<nat>>) {
    EntriesInPlace(o, r, entries) && EntriesDescend(entries)
    && (|entries| > 0 ==> (r.Status.Running? <==> entries[|entries| - 1].Some?))
  }

  /** Every published entry lies between the cursors, with the prologue there. */
  predicate EntriesInPlace(o: Output, r: Output, entries: seq<Option<nat>>) {
    forall i :: 0 <= i < |entries| && entries[i].Some? ==>
      && o.Status.Running?
      && r.Cursor <= entries[i].value && entries[i].value + 4 <= o.Cursor && o.Cursor <= |r.Mem|
      && r.Mem[entries[i].value..entries[i].value + 4] == PROLOGUE_BYTES
  }

  /** Published entries form a prefix and each lies four bytes or more below
      the one before. */
  predicate EntriesDescend(entries: seq<Option<nat>>) {
    forall i, j :: 0 <= i < j < |entries| && entries[j].Some? ==>
      entries[i].Some? && entries[j].value + 4 <= entries[i].value
  }

  /** One more function in front keeps the layout: its entry, when published,
      is above every later one and its prologue survives what is written below it. */
  lemma LayoutCons(o: Output, o1: Output, e: Option<nat>, r: Output, es: seq<Option<nat>>)
    requires Grows(o, o1) && Grows(o1, r) && Layout(o1, r, es) && (es == [] ==> r == o1)
    requires PublishesEntry(o, o1, e)
    ensures Layout(o, r, [e] + es)
  {
    InPlaceCons(o, o1, e, r, es);
    DescendCons(o1, e, r, es);
    assert ([e] + es)[|es|] == if es == [] then e else es[|es| - 1];
  }

  lemma InPlaceCons(o: Output, o1: Output, e: Option<nat>, r: Output, es: seq<Option<nat>>)
    requires Grows(o, o1) && Grows(o1, r) && EntriesInPlace(o1, r, es)
    requires PublishesEntry(o, o1, e)
    ensures EntriesInPlace(o, r, [e] + es)
  {
    var entries := [e] + es;
    if e.Some? {
      AboveCursorStays(o1, r, e.value, e.value + 4);
    }
    forall i | 0 <= i < |entries| && entries[i].Some?
      ensures o.Status.Running? && r.Cursor <= entries[i].value && entries[i].value + 4 <= o.Cursor
    {
      if i > 0 {
        assert entries[i] == es[i - 1];
      }
    }
  }

  lemma DescendCons(o1: Output, e: Option<nat>, r: Output, es: seq<Option<nat>>)
    requires Grows(o1, r) && EntriesInPlace(o1, r, es) && EntriesDescend(es)
    requires e.Some? <==> o1.Status.Running?
    requires e.Some? ==> e.value == o1.Cursor
    ensures EntriesDescend([e] + es)
  {
    var entries := [e] + es;
    forall i, j | 0 <= i < j < |entries| && entries[j].Some?
      ensures entries[i].Some? && entries[j].value + 4 <= entries[i].value
    {
      assert entries[j] == es[j - 1];
      if i > 0 {
        assert entries[i] == es[i - 1];
      }
    }
  }

  /** The loop over the functions, from the first to the last, with the entry
      each one publishes. */
  function CompileAll(c: Context, fs: seq<Function>, conv: CallingConvention): (r: (Context, seq<Option<nat>>))
    requires Valid(c) && AllWellFormed(fs) && c.MemFreeStackCursor + TotalOperations(fs) <= TABLE_SIZE
    ensures Valid(r.0) && Grows(c.Out, r.0.Out) && |r.1| == |fs|
    ensures Layout(c.Out, r.0.Out, r.1)
    decreases |fs|
  {
    if fs == [] then (c, [])
    else
      var (c1, entry) := CompileFunction(c, fs[0], conv);
      var (c2, entries) := CompileAll(c1, fs[1..], conv);
      GrowsTransitive(c.Out, c1.Out, c2.Out);
      LayoutCons(c.Out, c1.Out, entry, c2.Out, entries);
      (c2, [entry] + entries)
  }

  /** The context `SIR_AMD64Compile` starts from: the cursor at the end of the
      buffer and, as an assumption about fields the source leaves
      uninitialised, no slot allocated and no slot freed. */
  function Initial(mem: seq<byte>): (c: Context)
    ensures Valid(c)
    ensures c.Out == Output(mem, |mem|, Running) && c.MemFreeStackCursor == 0 && c.MemStackAllocated == 0
  {
    Context(seq(TABLE_SIZE, _ => 0), seq(TABLE_SIZE, _ => 0), Output(mem, |mem|, Running), 0,
            seq(REGS_COUNT, _ => 0), ALL_FREE, 0, RAX, 0)
  }

  /** `SIR_AMD64Compile`: the buffer after compiling every function into it,
      and each function's entry, the index its `FunctionPointerToOverride`
      would receive. */
  function Compile(fs: seq<Function>, mem: seq<byte>, conv: CallingConvention): (r: (Output, seq<Option<nat>>))
    requires AllWellFormed(fs) && TotalOperations(fs) <= TABLE_SIZE
    ensures |r.0.Mem| == |mem| && |r.1| == |fs|
    ensures Layout(Output(mem, |mem|, Running), r.0, r.1)
  {
    var c0 := Initial(mem);
    var (c, entries) := CompileAll(c0, fs, conv);
    assert Layout(c0.Out, c.Out, entries);
    (c.Out, entries)
  }

  // ---------------------------------------------------------------------
  // What one operation writes

  /** Two distinct tags have distinct codes. */
  lemma CodesDiffer(s: Instruction, t: Instruction)
    requires s != t
    ensures Code(s) != Code(t)
  {
    CodeRoundTrip(s);
    CodeRoundTrip(t);
  }

  /** Any tag other than Ret, Add and Sub (the multiplications, divisions,
      comparisons, memory operations, calls and branches) only frees its
      destination: no byte is written and no variable moves. */
  lemma UnimplementedTagsWriteNothing(c: Context, f: Function, k: int, t: Instruction)
    requires Valid(c) && WellFormed(f) && 0 <= k < |f.Operations| && c.MemFreeStackCursor < TABLE_SIZE
    requires Is(f.Operations[k], t) && t != Ret && t != Add && t != Sub
    ensures var r := OpStep(c, f, k);
      r.Out == c.Out && r.VarsLocation == c.VarsLocation && r.CurrentRegsVar == c.CurrentRegsVar
      && r.ForceOutReg == c.ForceOutReg && r.MemStackAllocated == c.MemStackAllocated
  {
    CodesDiffer(t, Ret);
    CodesDiffer(t, Add);
    CodesDiffer(t, Sub);
  }

  /** An Add or Sub whose result has no location is never used: it writes
      nothing and changes nothing but `CurrentlyFreed`. */
  lemma DeadArithmeticWritesNothing(c: Context, f: Function, k: int)
    requires Valid(c) && WellFormed(f) && 0 <= k < |f.Operations| && c.MemFreeStackCursor < TABLE_SIZE
    requires Is(f.Operations[k], Add) || Is(f.Operations[k], Sub)
    requires c.VarsLocation[f.ArgumentsCount + k] == 0
    ensures OpStep(c, f, k) == c.(CurrentlyFreed := 0)
  {
    CodesDiffer(Ret, Add);
    CodesDiffer(Ret, Sub);
  }

  /** Ret writes the exit sequence; with one return value, that variable is
      pinned to RAX, RAX is taken, and a return variable that already had a
      location fails the assertion. */
  lemma RetPinsRax(c: Context, f: Function, k: int)
    requires Valid(c) && WellFormed(f) && 0 <= k < |f.Operations| && c.MemFreeStackCursor < TABLE_SIZE
    requires Is(f.Operations[k], Ret)
    ensures var r := OpStep(c, f, k);
      var rv := f.Operations[k].OperandW1 as int;
      && (f.ReturnCount == 1 ==>
            && r.VarsLocation[rv] == RAX && r.CurrentRegsVar[RAX] == rv && RAX !in r.FreeRegs
            && (c.VarsLocation[rv] != 0 ==> !r.Out.Status.Running?)
            && (c.VarsLocation[rv] == 0 ==> r.Out == Emit(c.Out, EXIT_BYTES)))
      && (f.ReturnCount != 1 ==> r.Out == Emit(c.Out, EXIT_BYTES) && r.VarsLocation == c.VarsLocation)
  {
    var rv := f.Operations[k].OperandW1 as int;
    var c1 := FreeDestination(c, f.ArgumentsCount + k);
    if f.ReturnCount == 1 {
      var p := PinReturn(c1, rv);
      if c.VarsLocation[rv] != 0 {
        EmitPlacesBytes(p.Out, EXIT_BYTES);
      }
    }
  }

  /** What the immediate form writes, in memory order: the store of operand
      1's register into the destination exactly when they differ, then the
      instruction on the destination. */
  lemma ArithImmWrites(c: Context, op: Operation)
    requires Valid(c) && op.OperandW1 as int < TABLE_SIZE
    ensures var (c1, loc1) := GetVarIntoReg(c, op.OperandW1 as int, {});
      var width := WidthIndex(op.InstructionOptions);
      var dest := c.CurrentlyFreed;
      ArithImm(c, op).Out
        == Emit(c1.Out, (if dest != loc1 then MovBytes(loc1, dest, width, false) else [])
                        + ArithImmBytes(Is(op, Sub), dest, width, op.OperandDW2))
  {
    var (c1, loc1) := GetVarIntoReg(c, op.OperandW1 as int, {});
    var width := WidthIndex(op.InstructionOptions);
    var dest := c.CurrentlyFreed;
    EmitConcat(c1.Out, ArithImmBytes(Is(op, Sub), dest, width, op.OperandDW2),
               if dest != loc1 then MovBytes(loc1, dest, width, false) else []);
  }

  /** What the register-operand form writes, in memory order: the store of
      operand 1's register into the destination exactly when they differ,
      then the instruction naming operand 2's register and the destination. */
  lemma ArithVarWrites(c: Context, op: Operation)
    requires Valid(c) && op.OperandW1 as int < TABLE_SIZE && op.OperandW2() as int < TABLE_SIZE
    ensures var (c1, loc1) := GetVarIntoReg(c, op.OperandW1 as int, {});
      var (c2, loc2) := GetVarIntoReg(c1, op.OperandW2() as int, {});
      var width := WidthIndex(op.InstructionOptions);
      var dest := c.CurrentlyFreed;
      ArithVar(c, op).Out
        == Emit(c2.Out, (if dest != loc1 then MovBytes(loc1, dest, width, false) else [])
                        + ArithVarBytes(Is(op, Sub), loc2, dest, width))
  {
    var (c1, loc1) := GetVarIntoReg(c, op.OperandW1 as int, {});
    var (c2, loc2) := GetVarIntoReg(c1, op.OperandW2() as int, {});
    var width := WidthIndex(op.InstructionOptions);
    var dest := c.CurrentlyFreed;
    EmitConcat(c2.Out, ArithVarBytes(Is(op, Sub), loc2, dest, width),
               if dest != loc1 then MovBytes(loc1, dest, width, false) else []);
  }

  /** Add and Sub free their destination and then go to `CompileAddSub`. */
  lemma ArithmeticDispatch(c: Context, f: Function, k: int)
    requires Valid(c) && WellFormed(f) && 0 <= k < |f.Operations| && c.MemFreeStackCursor < TABLE_SIZE
    requires Is(f.Operations[k], Add) || Is(f.Operations[k], Sub)
    ensures var d := FreeDestination(c, f.ArgumentsCount + k);
      d.CurrentlyFreed == c.VarsLocation[f.ArgumentsCount + k] && OpStep(c, f, k) == CompileAddSub(d, f.Operations[k])
  {
    CodesDiffer(Ret, Add);
    CodesDiffer(Ret, Sub);
  }

  /** With a live destination, the variable form is taken when the whole
      options byte is 0, at the QWORD width that byte unpacks to, and the
      immediate form when the operand type is immediate. */
  lemma ArithmeticForms(c: Context, op: Operation)
    requires Valid(c) && OperandsInRange(op, 0) && (Is(op, Add) || Is(op, Sub)) && c.CurrentlyFreed != 0
    ensures op.InstructionOptions == SIR_VAR ==>
      CompileAddSub(c, op) == ArithVar(c, op) && WidthIndex(op.InstructionOptions) == SIR_QWORD
    ensures op.InstructionOptions != SIR_VAR && OperandType(op.InstructionOptions) == SIR_IMMEDIATE ==>
      CompileAddSub(c, op) == ArithImm(c, op)
    ensures op.InstructionOptions != SIR_VAR && OperandType(op.InstructionOptions) != SIR_IMMEDIATE ==>
      CompileAddSub(c, op) == c
  {
  }

  // ---------------------------------------------------------------------
  // Quirks of the code as written

  /** The per-function reset zeroes `MemFreeStack` but keeps
      `MemFreeStackCursor`: when a previous function left freed slots on the
      stack, the next spill is given slot 0, the location that means "none". */
  lemma StaleFreeSlotIsZero(c: Context)
    requires Valid(c) && c.MemFreeStackCursor > 0
    ensures TakeSlot(Reset(c)).1 == 0
  {
  }

  /** An argument the body never reads has location 0, and the shuffle still
      stores its register there: to `[rbp + 0]`, the slot that holds the
      caller's saved `rbp` once the prologue has run. */
  lemma UnusedArgumentOverwritesSavedFrame(c: Context, conv: CallingConvention, i: int, rest: seq<byte>)
    requires Valid(c) && 0 <= i < |InputRegisters(conv)| && c.VarsLocation[i] == 0
    requires c.CurrentRegsVar[InputRegisters(conv)[i]] == 0
    ensures var target := InputRegisters(conv)[i];
      var store := MovBytes(target, 0, SIR_QWORD, false);
      && ArgStep(c, conv, i).Out == Emit(c.Out, store)
      && Decode(store + rest) == Some(Decoded(RegRm(0x89, false, true, HwNum(target), Based(RBP_NUM, 0)), |store|))
  {
    var target := InputRegisters(conv)[i];
    assert ArgumentMoveBytes(target, 0, false) == MovBytes(target, 0, SIR_QWORD, false);
    MovRoundTrip(target, 0, SIR_QWORD, false, rest);
  }
}

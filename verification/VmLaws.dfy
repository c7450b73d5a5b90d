/** What instructions do, on the bytes of their operands. */
module VmLaws {
  import opened Mir
  import opened Words
  import opened Vm
  import opened Bytecode
  import Emitter

  // ----- calls -----

  /** A call with these operands is under the pc. */
  ghost predicate AtCall(m: Module_, st: State, argc: nat, dest: nat, target: nat) {
    && st.frames != [] && argc < TWO32 && dest < TWO32 && target < TWO32
    && var top := st.frames[|st.frames| - 1];
    && top.func < |m.functions|
    && var code := m.functions[top.func].code;
    && top.pc < |code| && (code[top.pc] == 0x1B || code[top.pc] == 0x22)
    && CodeAt(code, top.pc + 1, U32Bytes(argc) + U32Bytes(dest) + U32Bytes(target))
  }

  lemma CallOperands(code: seq<U8>, pc: nat, argc: nat, dest: nat, target: nat)
    requires argc < TWO32 && dest < TWO32 && target < TWO32
    requires CodeAt(code, pc, U32Bytes(argc) + U32Bytes(dest) + U32Bytes(target))
    ensures ReadU32(code, pc) == Some(argc) && ReadU32(code, pc + 4) == Some(dest)
    ensures ReadU32(code, pc + 8) == Some(target)
  {
    hide CodeAt, U32Bytes, ReadU32;
    CodeAtSplit(code, pc, U32Bytes(argc) + U32Bytes(dest), U32Bytes(target));
    CodeAtSplit(code, pc, U32Bytes(argc), U32Bytes(dest));
    ReadsBack(code, pc, argc);
    ReadsBack(code, pc + 4, dest);
    ReadsBack(code, pc + 8, target);
  }

  lemma CallDispatched(m: Module_, st: State, argc: nat, dest: nat, target: nat)
    requires AtCall(m, st, argc, dest, target)
    ensures var top := st.frames[|st.frames| - 1];
      Step(m, st) == DoCall(m, st, m.functions[top.func].code, top.(pc := top.pc + 1))
  {
    hide DoCall, CodeAt, U32Bytes;
  }

  /** A frame as a call starts it. */
  ghost predicate Started(m: Module_, callee: Frame, func: nat, args: seq<Value>, dest: nat, target: nat) {
    && func < |m.functions| && callee.func == func && callee.pc == 0
    && callee.destLocal == dest && callee.resumeTarget == target
    && |callee.locals| == (if m.functions[func].nLocals < |args| then |args| else m.functions[func].nLocals)
    && callee.locals[..|args|] == args
    && (forall i: nat :: |args| <= i < |callee.locals| ==> callee.locals[i] == Int(0))
    && |callee.mem| == (if callee.locals == [] then 8 else 8 * |callee.locals|)
    && (forall i: nat :: i < |callee.mem| ==> callee.mem[i] == Int(0))
  }

  /** Exactly what a call does: the argc topmost values, in the order they were pushed, are
      the callee's first locals, the word under them names it, and it records the
      destination and the target of the call; or which error it is. */
  lemma CallStarts(m: Module_, st: State, argc: nat, dest: nat, target: nat)
    requires AtCall(m, st, argc, dest, target)
    ensures var n, k := |st.frames|, |st.stack| - argc;
      if k < 1 then Step(m, st) == Fails(StackUnderflow)
      else if n >= MAX_CALL_DEPTH then Step(m, st) == Fails(CallFrameOverflow)
      else if AsIndex(st.stack[k - 1]) >= |m.functions| then
        Step(m, st) == Fails(FunctionOutOfBounds(AsIndex(st.stack[k - 1])))
      else
        && Step(m, st).Running?
        && var st' := Step(m, st).st;
        && st'.stack == st.stack[..k - 1] && |st'.frames| == n + 1
        && st'.frames[..n] == st.frames[n - 1 := st.frames[n - 1].(pc := st.frames[n - 1].pc + 13)]
        && Started(m, st'.frames[n], AsIndex(st.stack[k - 1]), st.stack[k..], dest, target)
  {
    hide ReadU32, U32Bytes, CodeAt, Step;
    CallDispatched(m, st, argc, dest, target);
    var top := st.frames[|st.frames| - 1];
    CallOperands(m.functions[top.func].code, top.pc + 1, argc, dest, target);
  }

  /** A call and its matching return, on the bytes: the returned value is in the caller's
      local dest, the caller goes on at block target, and nothing else of it changed. */
  lemma CallReturns(m: Module_, run: seq<State>, d: nat, argc: nat, dest: nat, target: nat)
    requires IsRun(m, run) && |run| >= 3 && d >= 1 && |run[0].frames| == d && |run[|run| - 1].frames| == d
    requires forall k: nat :: 0 < k < |run| - 1 ==> |run[k].frames| > d
    requires AtCall(m, run[0], argc, dest, target)
    ensures run[|run| - 2].stack != []
    ensures var caller, after := run[0].frames[d - 1], run[|run| - 1].frames[d - 1];
      var v := Top(run[|run| - 2].stack);
      && caller.func < |m.functions| && m.functions[caller.func].Resolve(target) == Some(after.pc)
      && after.locals == (if dest < |caller.locals| then caller.locals[dest := v] else caller.locals)
      && after == caller.(pc := after.pc, locals := after.locals)
      && run[|run| - 1].frames[..d - 1] == run[0].frames[..d - 1]
  {
    hide Step, AtCall;
    CallThenReturn(m, run, d);
    CallStarts(m, run[0], argc, dest, target);
    assert Step(m, run[0]) == Running(run[0 + 1]);
  }

  // ----- values -----

  /** The n topmost values become a tuple in the order they were pushed. */
  lemma AggregateInOrder(code: seq<U8>, pc: nat, cpu: Cpu, base: seq<Value>, elems: seq<Value>)
    requires |elems| < TWO32 && CodeAt(code, pc, U32Bytes(|elems|)) && cpu.stack == base + elems
    ensures Exec(Aggregate_, code, pc, cpu) == Next(cpu.(stack := base + [Tuple(elems)]), pc + 4)
  {
    hide CodeAt, U32Bytes, ReadU32;
    ReadsBack(code, pc, |elems|);
    var s, n := cpu.stack, |elems|;
    assert s[..|s| - n] == base && s[|s| - n..] == elems;
  }

  /** The value on top, as often as the number under it says. */
  lemma RepeatCopies(code: seq<U8>, pc: nat, cpu: Cpu, base: seq<Value>, n: I64, x: Value)
    requires cpu.stack == base + [Int(n)] + [x]
    ensures var r := Exec(Repeat_, code, pc, cpu);
      && r.Next? && r.pc == pc && |r.cpu.stack| == |base| + 1 && r.cpu.stack[..|base|] == base
      && r.cpu == cpu.(stack := r.cpu.stack)
      && r.cpu.stack[|base|].Tuple?
      && var elems := r.cpu.stack[|base|].elems;
      && |elems| == (if n > 0 then n else 0) && forall i: nat :: i < |elems| ==> elems[i] == x
  {
    var s := cpu.stack;
    assert Pop(s) == base + [Int(n)] && Pop(Pop(s)) == base && Top(Pop(s)) == Int(n);
  }

  /** The discriminant of a tuple is its length, of a number 0. */
  lemma DiscriminantIs(code: seq<U8>, pc: nat, cpu: Cpu, base: seq<Value>, x: Value)
    requires cpu.stack == base + [x]
    ensures Exec(Discriminant_, code, pc, cpu)
      == Next(cpu.(stack := base + [Int(if x.Tuple? then Wrap(|x.elems|) else 0)]), pc)
  {
    assert Pop(cpu.stack) == base && Top(cpu.stack) == x;
  }

  // ----- memory -----

  /** A store to an address: the value, on the stack under the address, is there; every
      other cell keeps its value, and new cells below it are zero. */
  lemma StoreFieldStores(code: seq<U8>, pc: nat, cpu: Cpu, base: seq<Value>, x: Value, addr: Value)
    requires cpu.stack == base + [x] + [addr] && !(AsIndex(addr) >= |cpu.mem| && AsIndex(addr) == TWO64 - 1)
    ensures var r, a := Exec(StoreField, code, pc, cpu), AsIndex(addr);
      && r.Next? && r.pc == pc && r.cpu.stack == base && r.cpu.locals == cpu.locals
      && |r.cpu.mem| == (if a < |cpu.mem| then |cpu.mem| else a + 1) && r.cpu.mem[a] == x
      && (forall i: nat :: i < |cpu.mem| && i != a ==> r.cpu.mem[i] == cpu.mem[i])
      && (forall i: nat :: |cpu.mem| <= i < a ==> r.cpu.mem[i] == Int(0))
  {
    var s := cpu.stack;
    assert Pop(s) == base + [x] && Pop(Pop(s)) == base && Top(Pop(s)) == x && Top(s) == addr;
  }

  /** What was stored at an address is what a dereference of it pushes. */
  lemma StoredIsRead(code: seq<U8>, pc: nat, cpu: Cpu, base: seq<Value>, x: Value, addr: Value)
    requires cpu.stack == base + [x] + [addr] && !(AsIndex(addr) >= |cpu.mem| && AsIndex(addr) == TWO64 - 1)
    ensures var after := Exec(StoreField, code, pc, cpu);
      && after.Next?
      && Exec(Deref_, code, pc, after.cpu.(stack := base + [addr])) == Next(after.cpu.(stack := base + [x]), pc)
  {
    hide Exec;
    StoreFieldStores(code, pc, cpu, base, x, addr);
    var cpu' := Exec(StoreField, code, pc, cpu).cpu.(stack := base + [addr]);
    DerefReads(code, pc, cpu', base, addr);
  }

  lemma DerefReads(code: seq<U8>, pc: nat, cpu: Cpu, base: seq<Value>, addr: Value)
    requires cpu.stack == base + [addr] && AsIndex(addr) < |cpu.mem|
    ensures Exec(Deref_, code, pc, cpu) == Next(cpu.(stack := base + [cpu.mem[AsIndex(addr)]]), pc)
  {
    assert Pop(cpu.stack) == base && Top(cpu.stack) == addr;
  }

  /** Unpacked elements lie one after the other; cells outside keep their values. */
  lemma {:induction false} UnpackIs(mem: seq<Value>, a: nat, elems: seq<Value>)
    ensures forall i: nat :: i < |mem| ==>
      Unpack(mem, a, elems)[i] == if a <= i < a + |elems| then elems[i - a] else mem[i]
    decreases |elems|
  {
    if elems != [] {
      var mem' := if a < |mem| then mem[a := elems[0]] else mem;
      UnpackIs(mem', a + 1, elems[1..]);
      assert forall j: nat :: j < |elems[1..]| ==> elems[1..][j] == elems[j + 1];
    }
  }

  /** A store to a local: the local and the cell that mirrors it hold the value, the cells
      behind it the elements of a tuple, and everything else is unchanged. */
  lemma StoreLocalStores(code: seq<U8>, pc: nat, cpu: Cpu, base: seq<Value>, l: nat, x: Value)
    requires l < |cpu.locals| && l < TWO32 && CodeAt(code, pc, U32Bytes(l)) && cpu.stack == base + [x]
    ensures var r := Exec(StoreLocal, code, pc, cpu);
      && r.Next? && r.pc == pc + 4 && r.cpu.stack == base && r.cpu.locals == cpu.locals[l := x]
      && |r.cpu.mem| == |cpu.mem|
      && forall i: nat :: i < |cpu.mem| ==>
           r.cpu.mem[i] == if i == l then x
                           else if l < |cpu.mem| && x.Tuple? && l < i <= l + |x.elems| then x.elems[i - l - 1]
                           else cpu.mem[i]
  {
    hide CodeAt, U32Bytes, ReadU32, Unpack;
    ReadsBack(code, pc, l);
    assert Pop(cpu.stack) == base && Top(cpu.stack) == x;
    if l < |cpu.mem| && x.Tuple? { UnpackIs(cpu.mem[l := x], l + 1, x.elems); }
  }

  // ----- integer switches -----

  function ArmsBytes(arms: seq<(I64, nat)>): seq<U8> {
    if arms == [] then [] else I64Bytes(arms[0].0) + U32Bytes(arms[0].1) + ArmsBytes(arms[1..])
  }

  /** The last arm for a value. */
  ghost predicate LastArm(arms: seq<(I64, nat)>, d: I64, i: nat) {
    i < |arms| && arms[i].0 == d && forall j: nat :: i < j < |arms| ==> arms[j].0 != d
  }

  lemma ReadI64Back(code: seq<U8>, pc: nat, v: I64)
    requires CodeAt(code, pc, I64Bytes(v))
    ensures ReadI64(code, pc) == Some(v)
  {
    CodeAtMeans(code, pc, I64Bytes(v));
    I64RoundTrip(v);
  }

  /** Scanning encoded arms ends behind them with the target of the last arm for the value,
      or with what was taken before if there is none. */
  lemma {:induction false} ScanTakesLast(code: seq<U8>, pc: nat, arms: seq<(I64, nat)>, d: I64, taken: Option<nat>)
    requires CodeAt(code, pc, ArmsBytes(arms)) && forall i: nat :: i < |arms| ==> arms[i].1 < TWO32
    ensures var r := ScanArms(code, pc, |arms|, d, taken);
      && r.Some? && r.value.1 == pc + |ArmsBytes(arms)|
      && (forall i: nat :: LastArm(arms, d, i) ==> r.value.0 == Some(arms[i].1))
      && ((forall i: nat :: i < |arms| ==> arms[i].0 != d) ==> r.value.0 == taken)
    decreases |arms|
  {
    hide CodeAt, ReadU32, ReadI64, ArmsBytes;
    if arms == [] {
      NoArms();
    } else {
      var rest, next := arms[1..], if arms[0].0 == d then Some(arms[0].1) else taken;
      FirstArm(code, pc, arms);
      ScanTakesLast(code, pc + 12, rest, d, next);
      assert forall i: nat :: i < |rest| ==> rest[i] == arms[i + 1];
      forall i: nat | LastArm(arms, d, i)
        ensures ScanArms(code, pc, |arms|, d, taken).value.0 == Some(arms[i].1)
      {
        if i > 0 { assert LastArm(rest, d, i - 1); }
      }
    }
  }

  lemma NoArms()
    ensures ArmsBytes([]) == []
  {
  }

  lemma FirstArm(code: seq<U8>, pc: nat, arms: seq<(I64, nat)>)
    requires arms != [] && CodeAt(code, pc, ArmsBytes(arms)) && arms[0].1 < TWO32
    ensures ReadI64(code, pc) == Some(arms[0].0) && ReadU32(code, pc + 8) == Some(arms[0].1)
    ensures CodeAt(code, pc + 12, ArmsBytes(arms[1..])) && |ArmsBytes(arms)| == 12 + |ArmsBytes(arms[1..])|
  {
    hide CodeAt, U32Bytes, I64Bytes, ReadU32, ReadI64;
    var (v, t) := arms[0];
    CodeAtSplit(code, pc, I64Bytes(v) + U32Bytes(t), ArmsBytes(arms[1..]));
    CodeAtSplit(code, pc, I64Bytes(v), U32Bytes(t));
    ReadI64Back(code, pc, v);
    ReadsBack(code, pc + 8, t);
  }

  /** An integer switch goes to the last arm for the word on top of the stack, or to the
      otherwise block. */
  lemma SwitchTakesLast(f: Func, st: State, fr: Frame, arms: seq<(I64, nat)>, o: nat)
    requires st.frames != [] && st.stack != [] && |arms| < TWO32 && o < TWO32
    requires forall i: nat :: i < |arms| ==> arms[i].1 < TWO32
    requires CodeAt(f.code, fr.pc, U32Bytes(|arms|) + ArmsBytes(arms) + U32Bytes(o))
    ensures var d, st' := AsInt(Top(st.stack)), st.(stack := Pop(st.stack));
      && (forall i: nat :: LastArm(arms, d, i) ==> DoSwitch(f, st, fr) == JumpTo(f, st', fr, arms[i].1))
      && ((forall i: nat :: i < |arms| ==> arms[i].0 != d) ==> DoSwitch(f, st, fr) == JumpTo(f, st', fr, o))
  {
    hide CodeAt, U32Bytes, ReadU32, ScanArms, JumpTo, ArmsBytes;
    CodeAtSplit(f.code, fr.pc, U32Bytes(|arms|) + ArmsBytes(arms), U32Bytes(o));
    CodeAtSplit(f.code, fr.pc, U32Bytes(|arms|), ArmsBytes(arms));
    ReadsBack(f.code, fr.pc, |arms|);
    ReadsBack(f.code, fr.pc + 4 + |ArmsBytes(arms)|, o);
    ScanTakesLast(f.code, fr.pc + 4, arms, AsInt(Top(st.stack)), None);
  }

  // ----- jumps on a word -----

  /** A conditional jump takes the word off the stack and jumps unless it is 0; its target
      must be a block even where it does not jump. */
  lemma JumpIfTakes(f: Func, st: State, fr: Frame, target: nat)
    requires st.frames != [] && target < TWO32 && CodeAt(f.code, fr.pc, U32Bytes(target))
    ensures f.Resolve(target).None? ==> DoJumpIf(f, st, fr) == Panics
    ensures f.Resolve(target).Some? && st.stack == [] ==> DoJumpIf(f, st, fr) == Fails(StackUnderflow)
    ensures f.Resolve(target).Some? && st.stack != [] ==>
      var pc := if AsInt(Top(st.stack)) == 0 then fr.pc + 4 else f.Resolve(target).value;
      DoJumpIf(f, st, fr) == Running(SetTop(st.(stack := Pop(st.stack)), fr.(pc := pc)))
  {
    hide CodeAt, U32Bytes, ReadU32;
    ReadsBack(f.code, fr.pc, target);
  }

  /** An assertion goes on at its target exactly if the truth of the word on the stack is
      the one its flag byte expects. */
  lemma AssertChecks(f: Func, st: State, fr: Frame, expected: bool, target: nat)
    requires st.frames != [] && st.stack != [] && target < TWO32
    requires CodeAt(f.code, fr.pc, [if expected then 1 else 0] + U32Bytes(target))
    ensures DoAssert(f, st, fr) ==
      if (AsInt(Top(st.stack)) == 0) == expected then Fails(AssertionFailed)
      else JumpTo(f, st.(stack := Pop(st.stack)), fr, target)
  {
    hide U32Bytes, ReadU32;
    var flag: seq<U8> := [if expected then 1 else 0];
    CodeAtSplit(f.code, fr.pc, flag, U32Bytes(target));
    CodeAtMeans(f.code, fr.pc, flag);
    ReadsBack(f.code, fr.pc + 1, target);
  }

  // ----- the rest -----

  /** The address of a local is its number; the length of anything is 0; a cast and its kind
      byte do nothing; a drop takes a value and jumps. */
  lemma SmallInstructions(code: seq<U8>, pc: nat, cpu: Cpu, l: nat)
    requires l < TWO32 && CodeAt(code, pc, U32Bytes(l))
    ensures Exec(LoadLocalAddr, code, pc, cpu) == Next(cpu.(stack := cpu.stack + [Int(l)]), pc + 4)
    ensures Exec(Len_, code, pc, cpu) == Next(cpu.(stack := cpu.stack + [Int(0)]), pc + 4)
    ensures pc < |code| ==> Exec(Cast_, code, pc, cpu) == Next(cpu, pc + 1)
  {
    hide CodeAt, U32Bytes, ReadU32;
    ReadsBack(code, pc, l);
  }

  lemma DropJumps(f: Func, st: State, fr: Frame, target: nat)
    requires st.frames != [] && st.stack != [] && target < TWO32 && CodeAt(f.code, fr.pc, U32Bytes(target))
    ensures DoDrop(f, st, fr) == JumpTo(f, st.(stack := Pop(st.stack)), fr, target)
  {
    hide CodeAt, U32Bytes, ReadU32;
    ReadsBack(f.code, fr.pc, target);
  }

  // ----- opcodes -----

  /** The byte of an opcode on the wire. */
  function Code(op: Opcode): U8 {
    match op
    case LoadConst => 0x01 case Bin(b) => Emitter.BinByte(b) case NotOp => 0x0F case NegOp => 0x10
    case LoadLocal => 0x16 case StoreLocal => 0x17 case Return_ => 0x18 case JumpIf => 0x19 case Jump => 0x1A
    case Call_ => 0x1B case Cast_ => 0x1C case Aggregate_ => 0x1D case Discriminant_ => 0x1E case Len_ => 0x1F
    case SwitchInt_ => 0x20 case Assert_ => 0x21 case CallIndirect => 0x22 case LoadLocalAddr => 0x29
    case StoreField => 0x2A case Deref_ => 0x2B case Drop_ => 0x2C case Repeat_ => 0x2D case Trap => 0xFF
  }

  lemma DecodesBack(op: Opcode)
    ensures DecodeOp(Code(op)) == Some(op)
  {
  }

  /** Decoding is the inverse of the wire format: no two opcodes share a byte, and no other
      byte is an opcode. */
  lemma OpcodesExact(b: U8, op: Opcode)
    ensures DecodeOp(b) == Some(op) <==> Code(op) == b
  {
    DecodesBack(op);
    if DecodeOp(b).Some? { EncodesBack(b); }
  }

  lemma EncodesBack(b: U8)
    requires DecodeOp(b).Some?
    ensures Code(DecodeOp(b).value) == b
  {
  }
}

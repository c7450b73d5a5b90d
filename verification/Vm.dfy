/** The bytecode virtual machine (crates/glyim-bytecode-vm/src/lib.rs): one step of
    its non-recursive driver as a function of the whole machine state. */
module Vm {
  import opened Mir
  import opened Words

  datatype Value = Int(v: I64) | Tuple(elems: seq<Value>)

  function AsInt(x: Value): I64 { if x.Int? then x.v else 0 }

  /** A word used as an address or an index. */
  function AsIndex(x: Value): nat { Unsigned(AsInt(x)) }

  datatype Opcode =
    | LoadConst | Bin(op: BinOp) | NotOp | NegOp
    | LoadLocal | StoreLocal | Return_ | JumpIf | Jump | Call_ | Cast_ | Aggregate_ | Discriminant_
    | Len_ | SwitchInt_ | Assert_ | CallIndirect | LoadLocalAddr | StoreField | Deref_ | Drop_ | Repeat_ | Trap

  function DecodeOp(b: U8): Option<Opcode> {
    if b == 0x01 then Some(LoadConst)
    else if b == 0x02 then Some(Bin(Add)) else if b == 0x03 then Some(Bin(Sub))
    else if b == 0x04 then Some(Bin(Mul)) else if b == 0x05 then Some(Bin(Div))
    else if b == 0x06 then Some(Bin(Rem)) else if b == 0x07 then Some(Bin(Eq))
    else if b == 0x08 then Some(Bin(Ne)) else if b == 0x09 then Some(Bin(Lt))
    else if b == 0x0A then Some(Bin(Gt)) else if b == 0x0B then Some(Bin(LtEq))
    else if b == 0x0C then Some(Bin(GtEq)) else if b == 0x0D then Some(Bin(And))
    else if b == 0x0E then Some(Bin(Or)) else if b == 0x0F then Some(NotOp)
    else if b == 0x10 then Some(NegOp) else if b == 0x11 then Some(Bin(BitAnd))
    else if b == 0x12 then Some(Bin(BitOr)) else if b == 0x13 then Some(Bin(BitXor))
    else if b == 0x14 then Some(Bin(Shl)) else if b == 0x15 then Some(Bin(Shr))
    else if b == 0x16 then Some(LoadLocal) else if b == 0x17 then Some(StoreLocal)
    else if b == 0x18 then Some(Return_) else if b == 0x19 then Some(JumpIf)
    else if b == 0x1A then Some(Jump) else if b == 0x1B then Some(Call_)
    else if b == 0x1C then Some(Cast_) else if b == 0x1D then Some(Aggregate_)
    else if b == 0x1E then Some(Discriminant_) else if b == 0x1F then Some(Len_)
    else if b == 0x20 then Some(SwitchInt_) else if b == 0x21 then Some(Assert_)
    else if b == 0x22 then Some(CallIndirect) else if b == 0x29 then Some(LoadLocalAddr)
    else if b == 0x2A then Some(StoreField) else if b == 0x2B then Some(Deref_)
    else if b == 0x2C then Some(Drop_) else if b == 0x2D then Some(Repeat_)
    else if b == 0xFF then Some(Trap) else None
  }

  datatype VmError =
    | UnexpectedEndOfCode | UnknownOpcode(b: U8) | StackUnderflow | LocalOutOfBounds(i: nat)
    | EmptyReturn | AbnormalTermination | AssertionFailed | CallFrameOverflow | FunctionOutOfBounds(i: nat)

  const MAX_CALL_DEPTH: nat := 1024

  datatype Func = Func(code: seq<U8>, nLocals: nat, argCount: nat, blockOffsets: seq<nat>)
  {
    /** A jump target is a block index when there is a table, else a byte offset;
        an index past the table panics. */
    function Resolve(target: nat): Option<nat> {
      if blockOffsets == [] then Some(target)
      else if target < |blockOffsets| then Some(blockOffsets[target]) else None
    }
  }

  datatype Module_ = Module_(functions: seq<Func>, entry: nat)

  datatype Frame = Frame(locals: seq<Value>, mem: seq<Value>, func: nat, pc: nat, resumeTarget: nat, destLocal: nat)

  datatype State = State(stack: seq<Value>, frames: seq<Frame>)

  datatype Outcome = Running(st: State) | Done(v: Value) | Fails(e: VmError) | Panics

  // ----- reading operands -----

  function ReadU32(code: seq<U8>, pc: nat): Option<nat> {
    if pc + 4 > |code| then None else Some(FromBytes(code[pc..pc + 4]))
  }

  function ReadI64(code: seq<U8>, pc: nat): Option<I64> {
    if pc + 8 > |code| then None else Some(Wrap(FromBytes(code[pc..pc + 8])))
  }

  // ----- straight-line instructions -----

  /** What a straight-line instruction can change. */
  datatype Cpu = Cpu(stack: seq<Value>, locals: seq<Value>, mem: seq<Value>)

  datatype Local_ = Next(cpu: Cpu, pc: nat) | Error(e: VmError) | Crash

  predicate StraightLine(op: Opcode) {
    match op
    case LoadConst => true case Bin(_) => true case NotOp => true case NegOp => true
    case LoadLocal => true case StoreLocal => true case LoadLocalAddr => true
    case StoreField => true case Deref_ => true case Cast_ => true case Len_ => true
    case Discriminant_ => true case Aggregate_ => true case Repeat_ => true
    case _ => false
  }

  function Top(stack: seq<Value>): Value
    requires stack != []
  {
    stack[|stack| - 1]
  }

  function Pop(stack: seq<Value>): seq<Value>
    requires stack != []
  {
    stack[..|stack| - 1]
  }

  /** Unpack a tuple's elements into the slots from a on. */
  function Unpack(mem: seq<Value>, a: nat, elems: seq<Value>): (r: seq<Value>)
    ensures |r| == |mem|
    decreases |elems|
  {
    if elems == [] then mem
    else Unpack(if a < |mem| then mem[a := elems[0]] else mem, a + 1, elems[1..])
  }

  /** A store to a local is mirrored into addressable memory. */
  function SetLocal(cpu: Cpu, i: nat, x: Value): Cpu
    requires i < |cpu.locals|
  {
    var mem := if i < |cpu.mem| then
      var m := cpu.mem[i := x];
      if x.Tuple? then Unpack(m, i + 1, x.elems) else m
      else cpu.mem;
    cpu.(locals := cpu.locals[i := x], mem := mem)
  }

  function SetMem(mem: seq<Value>, a: nat, x: Value): seq<Value> {
    if a < |mem| then mem[a := x] else mem + seq(a - |mem|, i => Int(0)) + [x]
  }

  function Exec(op: Opcode, code: seq<U8>, pc: nat, cpu: Cpu): Local_
    requires StraightLine(op)
  {
    var s := cpu.stack;
    match op
    case LoadConst =>
      var v := ReadI64(code, pc);
      if v.None? then Error(UnexpectedEndOfCode) else Next(cpu.(stack := s + [Int(v.value)]), pc + 8)
    case LoadLocal =>
      var i := ReadU32(code, pc);
      if i.None? then Error(UnexpectedEndOfCode)
      else if i.value >= |cpu.locals| then Error(LocalOutOfBounds(i.value))
      else Next(cpu.(stack := s + [cpu.locals[i.value]]), pc + 4)
    case StoreLocal =>
      var i := ReadU32(code, pc);
      if i.None? then Error(UnexpectedEndOfCode)
      else if s == [] then Error(StackUnderflow)
      else if i.value >= |cpu.locals| then Error(LocalOutOfBounds(i.value))
      else Next(SetLocal(cpu.(stack := Pop(s)), i.value, Top(s)), pc + 4)
    case LoadLocalAddr =>
      var i := ReadU32(code, pc);
      if i.None? then Error(UnexpectedEndOfCode) else Next(cpu.(stack := s + [Int(Wrap(i.value))]), pc + 4)
    case StoreField =>
      if |s| < 2 then Error(StackUnderflow) else
      var a, x := AsIndex(Top(s)), Top(Pop(s));
      if a >= |cpu.mem| && a == TWO64 - 1 then Crash
      else Next(cpu.(stack := Pop(Pop(s)), mem := SetMem(cpu.mem, a, x)), pc)
    case Deref_ =>
      if s == [] then Error(StackUnderflow) else
      var a := AsIndex(Top(s));
      if a >= |cpu.mem| then Error(LocalOutOfBounds(a)) else Next(cpu.(stack := Pop(s) + [cpu.mem[a]]), pc)
    case Bin(op) =>
      if |s| < 2 then Error(StackUnderflow)
      else Next(cpu.(stack := Pop(Pop(s)) + [Int(Binary(op, AsInt(Top(Pop(s))), AsInt(Top(s))))]), pc)
    case NotOp =>
      if s == [] then Error(StackUnderflow)
      else Next(cpu.(stack := Pop(s) + [Int(FromBool(AsInt(Top(s)) == 0))]), pc)
    case NegOp =>
      if s == [] then Error(StackUnderflow)
      else Next(cpu.(stack := Pop(s) + [Int(Negate(AsInt(Top(s))))]), pc)
    case Cast_ => if pc >= |code| then Crash else Next(cpu, pc + 1)
    case Len_ =>
      if ReadU32(code, pc).None? then Error(UnexpectedEndOfCode) else Next(cpu.(stack := s + [Int(0)]), pc + 4)
    case Discriminant_ =>
      if s == [] then Error(StackUnderflow)
      else Next(cpu.(stack := Pop(s) + [Int(if Top(s).Tuple? then Wrap(|Top(s).elems|) else 0)]), pc)
    case Aggregate_ =>
      var n := ReadU32(code, pc);
      if n.None? then Error(UnexpectedEndOfCode)
      else if |s| < n.value then Error(StackUnderflow)
      else Next(cpu.(stack := s[..|s| - n.value] + [Tuple(s[|s| - n.value..])]), pc + 4)
    case Repeat_ =>
      if |s| < 2 then Error(StackUnderflow) else
      var x, n := Top(s), AsInt(Top(Pop(s)));
      Next(cpu.(stack := Pop(Pop(s)) + [Tuple(seq(if n > 0 then n else 0, i => x))]), pc)
  }

  // ----- control -----

  /** The last arm whose value matches wins. */
  function ScanArms(code: seq<U8>, pc: nat, count: nat, discr: I64, taken: Option<nat>): Option<(Option<nat>, nat)>
    decreases count
  {
    if count == 0 then Some((taken, pc)) else
    var v := ReadI64(code, pc);
    if v.None? then None else
    var t := ReadU32(code, pc + 8);
    if t.None? then None
    else ScanArms(code, pc + 12, count - 1, discr, if v.value == discr then t else taken)
  }

  function NewFrame(f: Func, func: nat, args: seq<Value>, resume: nat, dest: nat): Frame {
    var n := if f.nLocals < |args| then |args| else f.nLocals;
    Frame(args + seq(n - |args|, i => Int(0)), seq(if n == 0 then 8 else n * 8, i => Int(0)), func, 0, resume, dest)
  }

  function PushFrame(m: Module_, st: State, func: nat, args: seq<Value>, resume: nat, dest: nat): Outcome {
    if |st.frames| >= MAX_CALL_DEPTH then Fails(CallFrameOverflow)
    else if func >= |m.functions| then Fails(FunctionOutOfBounds(func))
    else Running(st.(frames := st.frames + [NewFrame(m.functions[func], func, args, resume, dest)]))
  }

  function SetTop(st: State, fr: Frame): State
    requires st.frames != []
  {
    st.(frames := st.frames[|st.frames| - 1 := fr])
  }

  function JumpTo(f: Func, st: State, fr: Frame, target: nat): Outcome
    requires st.frames != []
  {
    match f.Resolve(target)
    case None => Panics
    case Some(pc) => Running(SetTop(st, fr.(pc := pc)))
  }

  function DoReturn(m: Module_, st: State): Outcome
    requires st.frames != []
  {
    var s, n := st.stack, |st.frames|;
    if s == [] then Fails(EmptyReturn)
    else if n == 1 then Done(Top(s))
    else
      var done, caller := st.frames[n - 1], st.frames[n - 2];
      if caller.func >= |m.functions| then Panics else
      match m.functions[caller.func].Resolve(done.resumeTarget)
      case None => Panics
      case Some(pc) =>
        var locals :=
          if done.destLocal < |caller.locals| then caller.locals[done.destLocal := Top(s)] else caller.locals;
        Running(State(Pop(s), st.frames[..n - 2] + [caller.(locals := locals, pc := pc)]))
  }

  function DoCall(m: Module_, st: State, code: seq<U8>, fr: Frame): Outcome
    requires st.frames != []
  {
    var argc, dest, target := ReadU32(code, fr.pc), ReadU32(code, fr.pc + 4), ReadU32(code, fr.pc + 8);
    if argc.None? || dest.None? || target.None? then Fails(UnexpectedEndOfCode)
    else if |st.stack| < argc.value + 1 then Fails(StackUnderflow)
    else
      var k := |st.stack| - argc.value;
      var called := SetTop(State(st.stack[..k - 1], st.frames), fr.(pc := fr.pc + 12));
      PushFrame(m, called, AsIndex(st.stack[k - 1]), st.stack[k..], target.value, dest.value)
  }

  function DoJump(f: Func, st: State, fr: Frame): Outcome
    requires st.frames != []
  {
    var target := ReadU32(f.code, fr.pc);
    if target.None? then Fails(UnexpectedEndOfCode) else JumpTo(f, st, fr, target.value)
  }

  function DoJumpIf(f: Func, st: State, fr: Frame): Outcome
    requires st.frames != []
  {
    var target := ReadU32(f.code, fr.pc);
    if target.None? then Fails(UnexpectedEndOfCode)
    else if f.Resolve(target.value).None? then Panics
    else if st.stack == [] then Fails(StackUnderflow)
    else
      var st' := st.(stack := Pop(st.stack));
      if AsInt(Top(st.stack)) != 0 then JumpTo(f, st', fr, target.value)
      else Running(SetTop(st', fr.(pc := fr.pc + 4)))
  }

  function DoSwitch(f: Func, st: State, fr: Frame): Outcome
    requires st.frames != []
  {
    if st.stack == [] then Fails(StackUnderflow) else
    var count := ReadU32(f.code, fr.pc);
    if count.None? then Fails(UnexpectedEndOfCode) else
    var arms := ScanArms(f.code, fr.pc + 4, count.value, AsInt(Top(st.stack)), None);
    if arms.None? then Fails(UnexpectedEndOfCode) else
    var otherwise := ReadU32(f.code, arms.value.1);
    if otherwise.None? then Fails(UnexpectedEndOfCode)
    else JumpTo(f, st.(stack := Pop(st.stack)), fr, if arms.value.0.Some? then arms.value.0.value else otherwise.value)
  }

  function DoAssert(f: Func, st: State, fr: Frame): Outcome
    requires st.frames != []
  {
    if fr.pc >= |f.code| then Panics else
    var target := ReadU32(f.code, fr.pc + 1);
    if target.None? then Fails(UnexpectedEndOfCode)
    else if st.stack == [] then Fails(StackUnderflow)
    else if (AsInt(Top(st.stack)) != 0) != (f.code[fr.pc] != 0) then Fails(AssertionFailed)
    else JumpTo(f, st.(stack := Pop(st.stack)), fr, target.value)
  }

  function DoDrop(f: Func, st: State, fr: Frame): Outcome
    requires st.frames != []
  {
    if st.stack == [] then Fails(StackUnderflow) else
    var target := ReadU32(f.code, fr.pc);
    if target.None? then Fails(UnexpectedEndOfCode) else JumpTo(f, st.(stack := Pop(st.stack)), fr, target.value)
  }

  function DoStraight(op: Opcode, f: Func, st: State, fr: Frame): Outcome
    requires st.frames != [] && StraightLine(op)
  {
    match Exec(op, f.code, fr.pc, Cpu(st.stack, fr.locals, fr.mem))
    case Error(e) => Fails(e)
    case Crash => Panics
    case Next(cpu, pc) =>
      Running(SetTop(st.(stack := cpu.stack), fr.(locals := cpu.locals, mem := cpu.mem, pc := pc)))
  }

  /** What an instruction does, given the top frame with its pc past the opcode. */
  function Dispatch(m: Module_, f: Func, op: Opcode, st: State, fr: Frame): Outcome
    requires st.frames != []
  {
    if StraightLine(op) then DoStraight(op, f, st, fr)
    else match op
      case Jump => DoJump(f, st, fr)
      case JumpIf => DoJumpIf(f, st, fr)
      case SwitchInt_ => DoSwitch(f, st, fr)
      case Assert_ => DoAssert(f, st, fr)
      case Drop_ => DoDrop(f, st, fr)
      case Return_ => DoReturn(m, st)
      case Call_ => DoCall(m, st, f.code, fr)
      case CallIndirect => DoCall(m, st, f.code, fr)
      case _ => Fails(AbnormalTermination)
  }

  /** One iteration of the driver's loop. */
  function Step(m: Module_, st: State): Outcome {
    if st.frames == [] then (if st.stack == [] then Fails(EmptyReturn) else Done(Top(st.stack))) else
    var top := st.frames[|st.frames| - 1];
    if top.func >= |m.functions| then Panics else
    var f := m.functions[top.func];
    if top.pc >= |f.code| then Fails(UnexpectedEndOfCode) else
    match DecodeOp(f.code[top.pc])
    case None => Fails(UnknownOpcode(f.code[top.pc]))
    case Some(op) => Dispatch(m, f, op, st, top.(pc := top.pc + 1))
  }

  /** The state in which the entry function of a module starts. */
  function Start(m: Module_): Outcome {
    if m.functions == [] then Fails(FunctionOutOfBounds(0))
    else PushFrame(m, State([], []), m.entry, [], TWO32 - 1, TWO64 - 1)
  }

  // ----- frame discipline -----

  /** Consecutive states of one execution. */
  ghost predicate IsRun(m: Module_, run: seq<State>) {
    run != [] && forall i: nat :: i + 1 < |run| ==> Step(m, run[i]) == Running(run[i + 1])
  }

  /** Two frames that differ at most in what the frame's own instructions write. */
  predicate SameFrame(a: Frame, b: Frame) {
    a.func == b.func && a.resumeTarget == b.resumeTarget && a.destLocal == b.destLocal
  }

  /** The opcode under the pc of the top frame. */
  function OpUnder(m: Module_, st: State): Option<Opcode> {
    if st.frames == [] then None else
    var top := st.frames[|st.frames| - 1];
    if top.func >= |m.functions| || top.pc >= |m.functions[top.func].code| then None
    else DecodeOp(m.functions[top.func].code[top.pc])
  }

  /** Only the top frame changed, and not its function or its return link. */
  ghost predicate SameDepth(st: State, st': State) {
    var n := |st.frames|;
    && n > 0 && |st'.frames| == n && st'.frames[..n - 1] == st.frames[..n - 1]
    && SameFrame(st.frames[n - 1], st'.frames[n - 1])
  }

  /** One frame more; the caller's pc moved past its call. */
  ghost predicate Deeper(st: State, st': State) {
    var n := |st.frames|;
    && 0 < n < MAX_CALL_DEPTH && |st'.frames| == n + 1 && st'.frames[..n - 1] == st.frames[..n - 1]
    && st'.frames[n - 1] == st.frames[n - 1].(pc := st.frames[n - 1].pc + 13)
  }

  /** One frame less; the caller has the value. */
  ghost predicate Back(m: Module_, st: State, st': State) {
    var n := |st.frames|;
    && n >= 2 && st.stack != [] && |st'.frames| == n - 1 && st'.frames[..n - 2] == st.frames[..n - 2]
    && ReturnedTo(m, st.frames[n - 2], st.frames[n - 1], Top(st.stack), st'.frames[n - 2])
  }

  /** Where a step can lead: a return goes back to the caller, a call one frame deeper, and
      every other instruction keeps the depth and changes only the top frame. */
  ghost predicate FramesMove(m: Module_, st: State, st': State) {
    match OpUnder(m, st)
    case Some(Return_) => Back(m, st, st')
    case Some(Call_) => Deeper(st, st')
    case Some(CallIndirect) => Deeper(st, st')
    case Some(_) => SameDepth(st, st')
    case None => false
  }

  /** The caller's frame once a callee, recorded as callee, returned v to it. */
  ghost predicate ReturnedTo(m: Module_, caller: Frame, callee: Frame, v: Value, after: Frame) {
    && caller.func < |m.functions| && m.functions[caller.func].Resolve(callee.resumeTarget) == Some(after.pc)
    && after == caller.(pc := after.pc, locals := if callee.destLocal < |caller.locals|
                                                   then caller.locals[callee.destLocal := v] else caller.locals)
  }

  lemma StraightFrames(op: Opcode, f: Func, st: State, fr: Frame, st': State)
    requires st.frames != [] && StraightLine(op) && SameFrame(st.frames[|st.frames| - 1], fr)
    requires DoStraight(op, f, st, fr) == Running(st')
    ensures SameDepth(st, st')
  {
    hide Exec;
  }

  lemma ControlFrames(f: Func, st: State, fr: Frame, st': State)
    requires st.frames != [] && SameFrame(st.frames[|st.frames| - 1], fr)
    ensures DoJump(f, st, fr) == Running(st') ==> SameDepth(st, st')
    ensures DoJumpIf(f, st, fr) == Running(st') ==> SameDepth(st, st')
    ensures DoDrop(f, st, fr) == Running(st') ==> SameDepth(st, st')
    ensures DoAssert(f, st, fr) == Running(st') ==> SameDepth(st, st')
    ensures DoSwitch(f, st, fr) == Running(st') ==> SameDepth(st, st')
  {
    hide ReadU32, ScanArms;
  }

  lemma CallFrames(m: Module_, st: State, code: seq<U8>, fr: Frame, st': State)
    requires st.frames != [] && fr == st.frames[|st.frames| - 1].(pc := fr.pc)
    requires fr.pc == st.frames[|st.frames| - 1].pc + 1 && DoCall(m, st, code, fr) == Running(st')
    ensures Deeper(st, st')
  {
    hide ReadU32, NewFrame;
  }

  lemma ReturnFrames(m: Module_, st: State, st': State)
    requires st.frames != [] && DoReturn(m, st) == Running(st')
    ensures Back(m, st, st')
  {
  }

  lemma StepFrames(m: Module_, st: State, st': State)
    requires Step(m, st) == Running(st')
    ensures FramesMove(m, st, st')
  {
    hide DecodeOp, DoStraight, DoJump, DoJumpIf, DoDrop, DoAssert, DoSwitch, DoCall, DoReturn, SameDepth, Deeper, Back;
    var top := st.frames[|st.frames| - 1];
    var f, op, fr := m.functions[top.func], OpUnder(m, st).value, top.(pc := top.pc + 1);
    if StraightLine(op) {
      StraightFrames(op, f, st, fr, st');
    } else if op == Return_ {
      ReturnFrames(m, st, st');
    } else if op == Call_ || op == CallIndirect {
      CallFrames(m, st, f.code, fr, st');
    } else {
      ControlFrames(f, st, fr, st');
    }
  }

  ghost predicate Moves(m: Module_, run: seq<State>) {
    run != [] && forall i: nat :: i + 1 < |run| ==> FramesMove(m, run[i], run[i + 1])
  }

  lemma RunMoves(m: Module_, run: seq<State>)
    requires IsRun(m, run)
    ensures Moves(m, run)
  {
    forall i: nat | i + 1 < |run| ensures FramesMove(m, run[i], run[i + 1]) {
      StepFrames(m, run[i], run[i + 1]);
    }
  }

  lemma {:induction false} DepthStays(m: Module_, run: seq<State>, i: nat)
    requires Moves(m, run) && i < |run| && |run[0].frames| <= MAX_CALL_DEPTH
    ensures |run[i].frames| <= MAX_CALL_DEPTH
  {
    if i > 0 {
      DepthStays(m, run, i - 1);
      assert FramesMove(m, run[i - 1], run[i - 1 + 1]);
    }
  }

  /** No execution that starts within the depth limit ever exceeds it. */
  lemma DepthBounded(m: Module_, run: seq<State>)
    requires IsRun(m, run) && |run[0].frames| <= MAX_CALL_DEPTH
    ensures forall i: nat :: i < |run| ==> |run[i].frames| <= MAX_CALL_DEPTH
  {
    RunMoves(m, run);
    forall i: nat | i < |run| ensures |run[i].frames| <= MAX_CALL_DEPTH { DepthStays(m, run, i); }
  }

  /** A step that leaves more than d frames keeps the d lowest frames, and the
      metadata of the frame above them. */
  lemma MoveKeeps(m: Module_, st: State, st': State, d: nat)
    requires FramesMove(m, st, st') && |st.frames| > d && |st'.frames| > d
    ensures st'.frames[..d] == st.frames[..d] && SameFrame(st.frames[d], st'.frames[d])
  {
    var n := |st.frames|;
    var k := if |st'.frames| >= n then n - 1 else n - 2;
    assert st'.frames[..d] == st'.frames[..k][..d] && st.frames[..d] == st.frames[..k][..d];
    assert d < k ==> st'.frames[d] == st'.frames[..k][d] && st.frames[d] == st.frames[..k][d];
  }

  /** As long as the depth stays above d, the d lowest frames never change, and the
      frame above them keeps its function and its return link. */
  lemma {:induction false} LowerFramesKept(m: Module_, run: seq<State>, d: nat, i: nat)
    requires Moves(m, run) && i < |run| && forall k: nat :: k <= i ==> |run[k].frames| > d
    ensures run[i].frames[..d] == run[0].frames[..d] && SameFrame(run[0].frames[d], run[i].frames[d])
  {
    if i > 0 {
      LowerFramesKept(m, run, d, i - 1);
      assert FramesMove(m, run[i - 1], run[i - 1 + 1]);
      MoveKeeps(m, run[i - 1], run[i], d);
    }
  }

  lemma MatchingReturn(m: Module_, run: seq<State>, d: nat)
    requires Moves(m, run) && |run| >= 3 && d >= 1 && |run[0].frames| == d && |run[|run| - 1].frames| == d
    requires forall k: nat :: 0 < k < |run| - 1 ==> |run[k].frames| > d
    ensures |run[1].frames| == d + 1 && run[|run| - 2].stack != []
    ensures run[1].frames[d - 1] == run[0].frames[d - 1].(pc := run[0].frames[d - 1].pc + 13)
    ensures run[|run| - 1].frames[..d - 1] == run[0].frames[..d - 1]
    ensures ReturnedTo(m, run[0].frames[d - 1], run[1].frames[d], Top(run[|run| - 2].stack),
                       run[|run| - 1].frames[d - 1])
  {
    var last := |run| - 1;
    assert FramesMove(m, run[0], run[0 + 1]) && FramesMove(m, run[last - 1], run[last - 1 + 1]);
    var inner, before := run[1..last], run[last - 1];
    forall i: nat | i + 1 < |inner| ensures FramesMove(m, inner[i], inner[i + 1]) {
      assert FramesMove(m, run[i + 1], run[i + 1 + 1]);
    }
    LowerFramesKept(m, inner, d, last - 2);
    assert inner[last - 2] == before && inner[0] == run[1];
    assert before.frames[d - 1] == before.frames[..d][d - 1] && run[1].frames[d - 1] == run[1].frames[..d][d - 1];
    assert before.frames[..d - 1] == before.frames[..d][..d - 1];
    assert run[1].frames[..d - 1] == run[1].frames[..d][..d - 1];
  }

  /** A call and its matching return: whatever happened in between, the caller's frame
      is the one at the call except for the destination local and the pc, and no
      frame below it changed. Addressable memory does not see the returned value. */
  lemma CallThenReturn(m: Module_, run: seq<State>, d: nat)
    requires IsRun(m, run) && |run| >= 3 && d >= 1 && |run[0].frames| == d && |run[|run| - 1].frames| == d
    requires forall k: nat :: 0 < k < |run| - 1 ==> |run[k].frames| > d
    ensures |run[1].frames| == d + 1 && run[|run| - 2].stack != []
    ensures run[|run| - 1].frames[..d - 1] == run[0].frames[..d - 1]
    ensures ReturnedTo(m, run[0].frames[d - 1], run[1].frames[d], Top(run[|run| - 2].stack),
                       run[|run| - 1].frames[d - 1])
  {
    RunMoves(m, run);
    MatchingReturn(m, run, d);
  }
}

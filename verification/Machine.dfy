/** The virtual machine as the object its driver mutates
    (crates/glyim-bytecode-vm/src/lib.rs): every iteration of the driver's loop
    takes the machine from one state to the next of the step function. */
module Machine {
  import opened Mir
  import opened Words
  import opened Vm
  import opened Bytecode

  /** How an iteration of the driver ends. */
  datatype Signal = Continue | Finished(v: Value) | Failed(e: VmError) | Panicked

  predicate Tells(sig: Signal, now: State, out: Outcome) {
    match out
    case Running(st) => sig == Continue && now == st
    case Done(v) => sig == Finished(v)
    case Fails(e) => sig == Failed(e)
    case Panics => sig == Panicked
  }

  function TopOf(st: State): Frame
    requires st.frames != []
  {
    st.frames[|st.frames| - 1]
  }

  /** What a straight-line instruction does to a machine whose pc is past its opcode. */
  function Straight(op: Opcode, f: Func, st: State): Outcome
    requires st.frames != [] && StraightLine(op)
  {
    DoStraight(op, f, st, TopOf(st))
  }

  class Machine {
    var stack: seq<Value>
    var frames: seq<Frame>

    constructor ()
      ensures stack == [] && frames == []
    {
      stack, frames := [], [];
    }

    ghost function Now(): State
      reads this
    {
      State(stack, frames)
    }

    // ----- the top frame -----

    method SetPc(pc: nat)
      requires frames != []
      modifies this`frames
      ensures Now() == SetTop(old(Now()), TopOf(old(Now())).(pc := pc))
    {
      var n := |frames| - 1;
      frames := frames[n := frames[n].(pc := pc)];
    }

    /** Reads an operand and moves the pc past it. */
    method FetchU32(code: seq<U8>) returns (r: Option<nat>)
      requires frames != []
      modifies this`frames
      ensures r == ReadU32(code, TopOf(old(Now())).pc)
      ensures Now() == if r.None? then old(Now())
        else SetTop(old(Now()), TopOf(old(Now())).(pc := TopOf(old(Now())).pc + 4))
    {
      var pc := frames[|frames| - 1].pc;
      r := ReadU32(code, pc);
      if r.Some? { SetPc(pc + 4); }
    }

    method FetchI64(code: seq<U8>) returns (r: Option<I64>)
      requires frames != []
      modifies this`frames
      ensures r == ReadI64(code, TopOf(old(Now())).pc)
      ensures Now() == if r.None? then old(Now())
        else SetTop(old(Now()), TopOf(old(Now())).(pc := TopOf(old(Now())).pc + 8))
    {
      var pc := frames[|frames| - 1].pc;
      r := ReadI64(code, pc);
      if r.Some? { SetPc(pc + 8); }
    }

    method PopValue() returns (r: Option<Value>)
      modifies this`stack
      ensures r == if old(stack) == [] then None else Some(Top(old(stack)))
      ensures stack == if r.None? then old(stack) else Pop(old(stack))
    {
      if stack == [] { return None; }
      r := Some(stack[|stack| - 1]);
      stack := stack[..|stack| - 1];
    }

    /** Pops n values and puts them back in the order they were pushed. */
    method PopMany(n: nat) returns (r: Option<seq<Value>>)
      modifies this`stack
      ensures r.Some? <==> n <= |old(stack)|
      ensures r.Some? ==> r.value == old(stack)[|old(stack)| - n..] && stack == old(stack)[..|old(stack)| - n]
    {
      var popped: seq<Value> := [];
      for i := 0 to n
        invariant i <= |old(stack)| && stack == old(stack)[..|old(stack)| - i] && |popped| == i
        invariant forall j: nat :: j < i ==> popped[j] == old(stack)[|old(stack)| - 1 - j]
      {
        var v := PopValue();
        if v.None? { return None; }
        popped := popped + [v.value];
      }
      r := Some(seq(n, j requires 0 <= j < n => popped[n - 1 - j]));
      assert r.value == old(stack)[|old(stack)| - n..];
    }

    /** Stores to a local, and to the memory that mirrors it. */
    method SetLocalSlot(i: nat, x: Value)
      requires frames != [] && i < |frames[|frames| - 1].locals|
      modifies this`frames
      ensures var top := TopOf(old(Now()));
        var cpu := SetLocal(Cpu(stack, top.locals, top.mem), i, x);
        Now() == SetTop(old(Now()), top.(locals := cpu.locals, mem := cpu.mem))
    {
      var n := |frames| - 1;
      var top := frames[n];
      var mem := top.mem;
      if i < |mem| {
        mem := mem[i := x];
        if x.Tuple? {
          ghost var before := mem;
          for k := 0 to |x.elems|
            invariant |mem| == |before|
            invariant Unpack(mem, i + 1 + k, x.elems[k..]) == Unpack(before, i + 1, x.elems)
          {
            assert x.elems[k..][1..] == x.elems[k + 1..];
            if i + 1 + k < |mem| { mem := mem[i + 1 + k := x.elems[k]]; }
          }
        }
      }
      frames := frames[n := top.(locals := top.locals[i := x], mem := mem)];
    }

    // ----- straight-line instructions -----

    method Load(op: Opcode, f: Func) returns (sig: Signal)
      requires frames != [] && (op == LoadConst || op == LoadLocal || op == LoadLocalAddr || op == Len_)
      modifies this`stack, this`frames
      ensures Tells(sig, Now(), Straight(op, f, old(Now())))
      ensures |frames| == |old(frames)|
    {
      hide ReadU32, ReadI64;
      if op == LoadConst {
        var v := FetchI64(f.code);
        if v.None? { return Failed(UnexpectedEndOfCode); }
        stack := stack + [Int(v.value)];
        return Continue;
      }
      var i := FetchU32(f.code);
      if i.None? { return Failed(UnexpectedEndOfCode); }
      if op == LoadLocal {
        var locals := frames[|frames| - 1].locals;
        if i.value >= |locals| { return Failed(LocalOutOfBounds(i.value)); }
        stack := stack + [locals[i.value]];
      } else if op == LoadLocalAddr {
        stack := stack + [Int(Wrap(i.value))];
      } else {
        stack := stack + [Int(0)];
      }
      return Continue;
    }

    method Store(f: Func) returns (sig: Signal)
      requires frames != []
      modifies this`stack, this`frames
      ensures Tells(sig, Now(), Straight(StoreLocal, f, old(Now())))
      ensures |frames| == |old(frames)|
    {
      hide ReadU32, Unpack;
      var i := FetchU32(f.code);
      if i.None? { return Failed(UnexpectedEndOfCode); }
      var v := PopValue();
      if v.None? { return Failed(StackUnderflow); }
      if i.value >= |frames[|frames| - 1].locals| { return Failed(LocalOutOfBounds(i.value)); }
      SetLocalSlot(i.value, v.value);
      return Continue;
    }
  
    method Address(op: Opcode, f: Func) returns (sig: Signal)
      requires frames != [] && (op == StoreField || op == Deref_)
      modifies this`stack, this`frames
      ensures Tells(sig, Now(), Straight(op, f, old(Now())))
      ensures |frames| == |old(frames)|
    {
      var a := PopValue();
      if a.None? { return Failed(StackUnderflow); }
      var addr, n := AsIndex(a.value), |frames| - 1;
      var mem := frames[n].mem;
      if op == Deref_ {
        if addr >= |mem| { return Failed(LocalOutOfBounds(addr)); }
        stack := stack + [mem[addr]];
        return Continue;
      }
      var v := PopValue();
      if v.None? { return Failed(StackUnderflow); }
      if addr >= |mem| {
        if addr == TWO64 - 1 { return Panicked; }
        mem := mem + seq(addr + 1 - |mem|, i => Int(0));
      }
      mem := mem[addr := v.value];
      assert mem == SetMem(frames[n].mem, addr, v.value);
      frames := frames[n := frames[n].(mem := mem)];
      return Continue;
    }
  
    method Arithmetic(op: Opcode, f: Func) returns (sig: Signal)
      requires frames != [] && (op.Bin? || op == NotOp || op == NegOp)
      modifies this`stack
      ensures Tells(sig, Now(), Straight(op, f, old(Now())))
    {
      hide Binary, Negate;
      assert frames[|frames| - 1 := frames[|frames| - 1]] == frames;
      var b := PopValue();
      if b.None? { return Failed(StackUnderflow); }
      if op == NotOp {
        stack := stack + [Int(FromBool(AsInt(b.value) == 0))];
      } else if op == NegOp {
        stack := stack + [Int(Negate(AsInt(b.value)))];
      } else {
        var a := PopValue();
        if a.None? { return Failed(StackUnderflow); }
        stack := stack + [Int(Binary(op.op, AsInt(a.value), AsInt(b.value)))];
      }
      return Continue;
    }

    method Inspect(op: Opcode, f: Func) returns (sig: Signal)
      requires frames != [] && (op == Discriminant_ || op == Cast_)
      modifies this`stack, this`frames
      ensures Tells(sig, Now(), Straight(op, f, old(Now())))
      ensures |frames| == |old(frames)|
    {
      hide ReadU32, ReadI64, Wrap;
      assert frames[|frames| - 1 := frames[|frames| - 1]] == frames;
      if op == Cast_ {
        var pc := frames[|frames| - 1].pc;
        if pc >= |f.code| { return Panicked; }
        SetPc(pc + 1);
      } else {
        var v := PopValue();
        if v.None? { return Failed(StackUnderflow); }
        stack := stack + [Int(if v.value.Tuple? then Wrap(|v.value.elems|) else 0)];
      }
      return Continue;
    }

    method BuildTuple(f: Func) returns (sig: Signal)
      requires frames != []
      modifies this`stack, this`frames
      ensures Tells(sig, Now(), Straight(Aggregate_, f, old(Now())))
      ensures |frames| == |old(frames)|
    {
      hide ReadU32, ReadI64;
      var n := FetchU32(f.code);
      if n.None? { return Failed(UnexpectedEndOfCode); }
      var elems := PopMany(n.value);
      if elems.None? { return Failed(StackUnderflow); }
      stack := stack + [Tuple(elems.value)];
      return Continue;
    }

    method Repeats(f: Func) returns (sig: Signal)
      requires frames != []
      modifies this`stack
      ensures Tells(sig, Now(), Straight(Repeat_, f, old(Now())))
    {
      hide ReadU32, ReadI64;
      assert frames[|frames| - 1 := frames[|frames| - 1]] == frames;
      var v := PopValue();
      if v.None? { return Failed(StackUnderflow); }
      var c := PopValue();
      if c.None? { return Failed(StackUnderflow); }
      var elems := Copies(v.value, AsInt(c.value));
      stack := stack + [Tuple(elems)];
      return Continue;
    }

    static method Copies(x: Value, count: int) returns (elems: seq<Value>)
      ensures elems == seq(if count > 0 then count else 0, j => x)
    {
      elems := [];
      for i := 0 to if count > 0 then count else 0
        invariant elems == seq(i, j => x)
      {
        elems := elems + [x];
      }
    }

    // ----- control -----

    method JumpToTarget(f: Func, target: nat) returns (sig: Signal)
      requires frames != []
      modifies this`frames
      ensures Tells(sig, Now(), JumpTo(f, old(Now()), TopOf(old(Now())), target))
      ensures |frames| == |old(frames)|
    {
      var off := f.Resolve(target);
      if off.None? { return Panicked; }
      SetPc(off.value);
      return Continue;
    }

    method Jumps(op: Opcode, f: Func) returns (sig: Signal)
      requires frames != [] && (op == Jump || op == JumpIf || op == Drop_)
      modifies this`stack, this`frames
      ensures op == Jump ==> Tells(sig, Now(), DoJump(f, old(Now()), TopOf(old(Now()))))
      ensures op == JumpIf ==> Tells(sig, Now(), DoJumpIf(f, old(Now()), TopOf(old(Now()))))
      ensures op == Drop_ ==> Tells(sig, Now(), DoDrop(f, old(Now()), TopOf(old(Now()))))
      ensures |frames| == |old(frames)|
    {
      hide ReadU32;
      if op == Drop_ {
        var v := PopValue();
        if v.None? { return Failed(StackUnderflow); }
      }
      var target := FetchU32(f.code);
      if target.None? { return Failed(UnexpectedEndOfCode); }
      if op == JumpIf {
        if f.Resolve(target.value).None? { return Panicked; }
        var c := PopValue();
        if c.None? { return Failed(StackUnderflow); }
        if AsInt(c.value) == 0 { return Continue; }
      }
      sig := JumpToTarget(f, target.value);
    }

    method Asserts(f: Func) returns (sig: Signal)
      requires frames != []
      modifies this`stack, this`frames
      ensures Tells(sig, Now(), DoAssert(f, old(Now()), TopOf(old(Now()))))
      ensures |frames| == |old(frames)|
    {
      hide ReadU32;
      var pc := frames[|frames| - 1].pc;
      if pc >= |f.code| { return Panicked; }
      var expected := f.code[pc];
      SetPc(pc + 1);
      var target := FetchU32(f.code);
      if target.None? { return Failed(UnexpectedEndOfCode); }
      var c := PopValue();
      if c.None? { return Failed(StackUnderflow); }
      if (AsInt(c.value) != 0) != (expected != 0) { return Failed(AssertionFailed); }
      sig := JumpToTarget(f, target.value);
    }

    method Switches(f: Func) returns (sig: Signal)
      requires frames != []
      modifies this`stack, this`frames
      ensures Tells(sig, Now(), DoSwitch(f, old(Now()), TopOf(old(Now()))))
      ensures |frames| == |old(frames)|
    {
      hide ReadU32, ReadI64;
      ghost var start := Now();
      var d := PopValue();
      if d.None? { return Failed(StackUnderflow); }
      var count := FetchU32(f.code);
      if count.None? { return Failed(UnexpectedEndOfCode); }
      var taken: Option<nat> := None;
      ghost var pc0 := TopOf(start).pc + 4;
      for i := 0 to count.value
        invariant frames != [] && stack == Pop(start.stack)
        invariant frames == start.frames[|start.frames| - 1 := TopOf(start).(pc := frames[|frames| - 1].pc)]
        invariant ScanArms(f.code, frames[|frames| - 1].pc, count.value - i, AsInt(d.value), taken)
          == ScanArms(f.code, pc0, count.value, AsInt(d.value), None)
      {
        var v := FetchI64(f.code);
        if v.None? { return Failed(UnexpectedEndOfCode); }
        var t := FetchU32(f.code);
        if t.None? { return Failed(UnexpectedEndOfCode); }
        if v.value == AsInt(d.value) { taken := Some(t.value); }
      }
      var otherwise := FetchU32(f.code);
      if otherwise.None? { return Failed(UnexpectedEndOfCode); }
      sig := JumpToTarget(f, if taken.Some? then taken.value else otherwise.value);
    }

    method PushCallFrame(m: Module_, func: nat, args: seq<Value>, resume: nat, dest: nat) returns (sig: Signal)
      modifies this`frames
      ensures Tells(sig, Now(), PushFrame(m, old(Now()), func, args, resume, dest))
      ensures |old(frames)| <= MAX_CALL_DEPTH ==> |frames| <= MAX_CALL_DEPTH
    {
      if |frames| >= MAX_CALL_DEPTH { return Failed(CallFrameOverflow); }
      if func >= |m.functions| { return Failed(FunctionOutOfBounds(func)); }
      var n := if m.functions[func].nLocals < |args| then |args| else m.functions[func].nLocals;
      var locals := seq(n, i => Int(0));
      for i := 0 to |args|
        invariant |locals| == n && locals[..i] == args[..i]
        invariant forall k: nat :: i <= k < n ==> locals[k] == Int(0)
      {
        locals := locals[i := args[i]];
      }
      var mem := seq(if n * 8 < 8 then 8 else n * 8, i => Int(0));
      assert locals == args + seq(n - |args|, i => Int(0));
      frames := frames + [Frame(locals, mem, func, 0, resume, dest)];
      return Continue;
    }

    /** The three operands of a call: argument count, destination and target. */
    method FetchCall(code: seq<U8>) returns (r: Option<(nat, nat, nat)>)
      requires frames != []
      modifies this`frames
      ensures |frames| == |old(frames)|
      ensures var pc := TopOf(old(Now())).pc;
        var a, d, t := ReadU32(code, pc), ReadU32(code, pc + 4), ReadU32(code, pc + 8);
        if a.None? || d.None? || t.None? then r == None
        else r == Some((a.value, d.value, t.value)) && Now() == SetTop(old(Now()), TopOf(old(Now())).(pc := pc + 12))
    {
      hide ReadU32;
      var argc := FetchU32(code);
      if argc.None? { return None; }
      var dest := FetchU32(code);
      if dest.None? { return None; }
      var target := FetchU32(code);
      if target.None? { return None; }
      r := Some((argc.value, dest.value, target.value));
    }

    method Calls(m: Module_, f: Func) returns (sig: Signal)
      requires frames != []
      modifies this`stack, this`frames
      ensures Tells(sig, Now(), DoCall(m, old(Now()), f.code, TopOf(old(Now()))))
      ensures |old(frames)| <= MAX_CALL_DEPTH ==> |frames| <= MAX_CALL_DEPTH
    {
      hide ReadU32, PushFrame, SetTop;
      ghost var start := stack;
      var call := FetchCall(f.code);
      if call.None? { return Failed(UnexpectedEndOfCode); }
      var (argc, dest, target) := call.value;
      var args := PopMany(argc);
      if args.None? { return Failed(StackUnderflow); }
      var callee := PopValue();
      if callee.None? { return Failed(StackUnderflow); }
      ghost var k := |start| - argc;
      assert stack == start[..k - 1] && callee.value == start[k - 1] && args.value == start[k..];
      CalledState(old(Now()), start[..k - 1], TopOf(old(Now())).pc + 12);
      sig := PushCallFrame(m, AsIndex(callee.value), args.value, target, dest);
    }

    method Returns(m: Module_) returns (sig: Signal)
      requires frames != []
      modifies this`stack, this`frames
      ensures Tells(sig, Now(), DoReturn(m, old(Now())))
      ensures |frames| <= |old(frames)|
    {
      var v := PopValue();
      if v.None? { return Failed(EmptyReturn); }
      var n := |frames|;
      var done := frames[n - 1];
      frames := frames[..n - 1];
      if frames == [] { return Finished(v.value); }
      var caller := frames[n - 2];
      if caller.func >= |m.functions| { return Panicked; }
      var resume := m.functions[caller.func].Resolve(done.resumeTarget);
      if resume.None? { return Panicked; }
      var locals := caller.locals;
      if done.destLocal < |locals| { locals := locals[done.destLocal := v.value]; }
      frames := frames[n - 2 := caller.(locals := locals, pc := resume.value)];
      return Continue;
    }
  
    // ----- the driver -----

    method Computes(f: Func, op: Opcode) returns (sig: Signal)
      requires frames != [] && StraightLine(op)
      modifies this`stack, this`frames
      ensures Tells(sig, Now(), Straight(op, f, old(Now())))
      ensures |frames| == |old(frames)|
    {
      hide Straight, Tells;
      if op == LoadConst || op == LoadLocal || op == LoadLocalAddr || op == Len_ {
        sig := Load(op, f);
      } else if op == StoreLocal {
        sig := Store(f);
      } else if op == StoreField || op == Deref_ {
        sig := Address(op, f);
      } else if op == Aggregate_ {
        sig := BuildTuple(f);
      } else if op == Repeat_ {
        sig := Repeats(f);
      } else if op == Discriminant_ || op == Cast_ {
        sig := Inspect(op, f);
      } else {
        sig := Arithmetic(op, f);
      }
    }

    method Transfers(m: Module_, f: Func, op: Opcode) returns (sig: Signal)
      requires frames != [] && !StraightLine(op)
      modifies this`stack, this`frames
      ensures Tells(sig, Now(), Dispatch(m, f, op, old(Now()), TopOf(old(Now()))))
      ensures |old(frames)| <= MAX_CALL_DEPTH ==> |frames| <= MAX_CALL_DEPTH
    {
      hide DoStraight, DoJump, DoJumpIf, DoDrop, DoAssert, DoSwitch, DoCall, DoReturn, Tells;
      if op == Jump || op == JumpIf || op == Drop_ {
        sig := Jumps(op, f);
      } else if op == Assert_ {
        sig := Asserts(f);
      } else if op == SwitchInt_ {
        sig := Switches(f);
      } else if op == Call_ || op == CallIndirect {
        sig := Calls(m, f);
      } else if op == Return_ {
        sig := Returns(m);
      } else {
        sig := Failed(AbnormalTermination);
        TrapTells(Now());
      }
    }

    method Executes(m: Module_, f: Func, op: Opcode) returns (sig: Signal)
      requires frames != []
      modifies this`stack, this`frames
      ensures Tells(sig, Now(), Dispatch(m, f, op, old(Now()), TopOf(old(Now()))))
      ensures |old(frames)| <= MAX_CALL_DEPTH ==> |frames| <= MAX_CALL_DEPTH
    {
      hide Tells, Dispatch, StraightLine;
      if StraightLine(op) {
        DispatchStraight(m, f, op, Now());
        sig := Computes(f, op);
      } else {
        sig := Transfers(m, f, op);
      }
    }

    /** One iteration of the driver's loop. */
    method Tick(m: Module_) returns (sig: Signal)
      modifies this`stack, this`frames
      ensures Tells(sig, Now(), Step(m, old(Now())))
      ensures |old(frames)| <= MAX_CALL_DEPTH ==> |frames| <= MAX_CALL_DEPTH
    {
      hide Dispatch, DecodeOp;
      if frames == [] {
        var v := PopValue();
        return if v.None? then Failed(EmptyReturn) else Finished(v.value);
      }
      var top := frames[|frames| - 1];
      if top.func >= |m.functions| { return Panicked; }
      var f := m.functions[top.func];
      if top.pc >= |f.code| { return Failed(UnexpectedEndOfCode); }
      var op := DecodeOp(f.code[top.pc]);
      if op.None? { return Failed(UnknownOpcode(f.code[top.pc])); }
      StepFetches(m, Now(), f, op.value);
      SetPc(top.pc + 1);
      sig := Executes(m, f, op.value);
    }

    /** The driver, stopped after at most n iterations: exactly n steps of the machine,
        or as many as it takes to finish. */
    method Drive(m: Module_, n: nat) returns (sig: Signal)
      modifies this`stack, this`frames
      ensures Tells(sig, Now(), Steps(m, old(Now()), n))
      ensures |old(frames)| <= MAX_CALL_DEPTH ==> |frames| <= MAX_CALL_DEPTH
    {
      hide Step;
      sig := Continue;
      for i := 0 to n
        invariant sig == Continue && Steps(m, Now(), n - i) == Steps(m, old(Now()), n)
        invariant |old(frames)| <= MAX_CALL_DEPTH ==> |frames| <= MAX_CALL_DEPTH
      {
        ghost var before := Now();
        sig := Tick(m);
        if sig != Continue { return; }
      }
    }

    /** A whole module from its entry function. */
    method RunModule(m: Module_, n: nat) returns (sig: Signal)
      requires stack == [] && frames == []
      modifies this`stack, this`frames
      ensures Tells(sig, Now(), match Start(m) { case Running(st) => Steps(m, st, n) case other => other })
      ensures |frames| <= MAX_CALL_DEPTH
    {
      hide Steps, PushFrame;
      if m.functions == [] { return Failed(FunctionOutOfBounds(0)); }
      sig := PushCallFrame(m, m.entry, [], TWO32 - 1, TWO64 - 1);
      if sig == Continue { sig := Drive(m, n); }
    }
  }

  lemma CalledState(st: State, stack: seq<Value>, pc: nat)
    requires st.frames != []
    ensures SetTop(State(stack, st.frames), TopOf(st).(pc := pc))
      == State(stack, SetTop(st, TopOf(st).(pc := pc)).frames)
  {
  }

  lemma DispatchStraight(m: Module_, f: Func, op: Opcode, st: State)
    requires st.frames != [] && StraightLine(op)
    ensures Dispatch(m, f, op, st, TopOf(st)) == Straight(op, f, st)
  {
    hide DoStraight;
  }

  lemma TrapTells(st: State)
    ensures Tells(Failed(AbnormalTermination), st, Fails(AbnormalTermination))
  {
  }

  /** Replacing the top frame twice is replacing it once. */
  lemma SetTwice(st: State, fr: Frame, gr: Frame, stack: seq<Value>)
    requires st.frames != []
    ensures SetTop(SetTop(st, fr).(stack := stack), gr) == SetTop(st.(stack := stack), gr)
  {
  }

  /** Moving the pc past the opcode first changes nothing about the instruction. */
  lemma Refetched(m: Module_, f: Func, op: Opcode, st: State, fr: Frame)
    requires st.frames != [] && fr == TopOf(st).(pc := fr.pc)
    ensures Dispatch(m, f, op, SetTop(st, fr), fr) == Dispatch(m, f, op, st, fr)
  {
    hide SetTop, ReadU32, Exec, ScanArms, PushFrame;
    if op == Return_ {
      ReturnRefetched(m, st, fr);
    } else {
      SetTopStack(st, fr);
      forall stack, gr ensures SetTop(SetTop(st, fr).(stack := stack), gr) == SetTop(st.(stack := stack), gr) {
        SetTwice(st, fr, gr, stack);
      }
    }
  }

  lemma SetTopStack(st: State, fr: Frame)
    requires st.frames != []
    ensures SetTop(st, fr).stack == st.stack && SetTop(st, fr).frames != []
    ensures st == st.(stack := st.stack) && SetTop(st, fr) == SetTop(st, fr).(stack := st.stack)
  {
  }

  lemma ReturnRefetched(m: Module_, st: State, fr: Frame)
    requires st.frames != [] && fr == TopOf(st).(pc := fr.pc)
    ensures DoReturn(m, SetTop(st, fr)) == DoReturn(m, st)
  {
    var n := |st.frames|;
    assert n >= 2 ==> SetTop(st, fr).frames[..n - 2] == st.frames[..n - 2];
  }

  /** A step fetches an opcode and executes it. */
  lemma StepFetches(m: Module_, st: State, f: Func, op: Opcode)
    requires st.frames != [] && TopOf(st).func < |m.functions| && m.functions[TopOf(st).func] == f
    requires TopOf(st).pc < |f.code| && DecodeOp(f.code[TopOf(st).pc]) == Some(op)
    ensures var fr := TopOf(st).(pc := TopOf(st).pc + 1);
      Step(m, st) == Dispatch(m, f, op, SetTop(st, fr), fr)
  {
    hide Dispatch, DecodeOp;
    Refetched(m, f, op, st, TopOf(st).(pc := TopOf(st).pc + 1));
  }
}

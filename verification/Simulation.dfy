/** The machine running emitted scalar code computes its words block by block. */
module Simulation {
  import opened Mir
  import opened Words
  import opened Vm
  import opened Bytecode
  import opened Emitter

  function Ints(rho: seq<I64>): (r: seq<Value>)
    ensures |r| == |rho|
  {
    seq(|rho|, i requires 0 <= i < |rho| => Int(rho[i]))
  }

  // ----- straight-line code -----

  lemma BinDecodes(op: BinOp)
    ensures DecodeOp(BinByte(op)) == Some(Bin(op))
  {
  }

  lemma RunOperand(o: Operand, rho: seq<I64>, base: seq<Value>, mem: seq<Value>)
    requires ScalarOperand(o, |rho|) && |rho| < TWO32
    ensures RunOne(OperandInstr(o), Cpu(base, Ints(rho), mem))
      == Some(Cpu(base + [Int(WordOperand(rho, o))], Ints(rho), mem))
  {
    match o {
      case Constant(c) =>
        I64RoundTrip(ConstWord(c.kind));
        assert I64Bytes(ConstWord(c.kind))[0..8] == I64Bytes(ConstWord(c.kind));
      case Copy(p) =>
        U32RoundTrip(p.local);
        assert U32Bytes(p.local)[0..4] == U32Bytes(p.local);
      case Move(p) =>
        U32RoundTrip(p.local);
        assert U32Bytes(p.local)[0..4] == U32Bytes(p.local);
    }
  }

  lemma RunBinary(op: BinOp, a: I64, b: I64, base: seq<Value>, locals: seq<Value>, mem: seq<Value>)
    ensures RunOne(Instr(BinByte(op), []), Cpu(base + [Int(a)] + [Int(b)], locals, mem))
      == Some(Cpu(base + [Int(Binary(op, a, b))], locals, mem))
  {
    BinDecodes(op);
    hide Binary, DecodeOp, BinByte;
    var s := base + [Int(a)] + [Int(b)];
    assert Pop(s) == base + [Int(a)] && Pop(Pop(s)) == base;
    assert Top(s) == Int(b) && Top(Pop(s)) == Int(a);
  }

  lemma RunUnary(op: UnOp, a: I64, base: seq<Value>, locals: seq<Value>, mem: seq<Value>)
    requires op != DerefOp
    ensures RunOne(Instr(if op == Neg then 0x10 else 0x0F, []), Cpu(base + [Int(a)], locals, mem))
      == Some(Cpu(base + [Int(if op == Neg then Negate(a) else FromBool(a == 0))], locals, mem))
  {
    var s := base + [Int(a)];
    assert Pop(s) == base && Top(s) == Int(a);
  }

  lemma RunStore(l: nat, a: I64, rho: seq<I64>, base: seq<Value>, mem: seq<Value>) returns (mem': seq<Value>)
    requires l < |rho| < TWO32
    ensures RunOne(Instr(0x17, U32Bytes(l)), Cpu(base + [Int(a)], Ints(rho), mem))
      == Some(Cpu(base, Ints(rho[l := a]), mem'))
  {
    U32RoundTrip(l);
    assert U32Bytes(l)[0..4] == U32Bytes(l);
    var s := base + [Int(a)];
    assert Pop(s) == base && Top(s) == Int(a);
    mem' := if l < |mem| then mem[l := Int(a)] else mem;
    assert Ints(rho)[l := Int(a)] == Ints(rho[l := a]);
  }

  lemma {:induction false} RunAllAppend(a: seq<Instr>, b: seq<Instr>, cpu: Cpu)
    requires RunAll(a, cpu).Some?
    ensures RunAll(a + b, cpu) == RunAll(b, RunAll(a, cpu).value)
    decreases |a|
  {
    hide RunOne;
    if a == [] {
      assert a + b == b;
    } else {
      RunAllAppend(a[1..], b, RunOne(a[0], cpu).value);
      assert (a + b)[1..] == a[1..] + b;
    }
  }

  lemma RunSingle(i: Instr, cpu: Cpu)
    requires RunOne(i, cpu).Some?
    ensures RunAll([i], cpu) == RunOne(i, cpu)
  {
    hide RunOne;
    assert [i][1..] == [];
    assert RunAll([], RunOne(i, cpu).value) == RunOne(i, cpu);
  }

  lemma RunRvalue(rv: Rvalue, rho: seq<I64>, base: seq<Value>, mem: seq<Value>)
    requires ScalarRvalue(rv, |rho|) && |rho| < TWO32
    ensures RunAll(RvalueInstrs(rv), Cpu(base, Ints(rho), mem))
      == Some(Cpu(base + [Int(WordRvalue(rho, rv))], Ints(rho), mem))
  {
    hide RunOne, WordOperand, OperandInstr, BinByte, Binary;
    var c := Cpu(base, Ints(rho), mem);
    match rv {
      case Use(o) =>
        RunOperand(o, rho, base, mem);
        RunSingle(OperandInstr(o), c);
      case BinaryOp(op, l, r) =>
        var a, b := WordOperand(rho, l), WordOperand(rho, r);
        RunOperand(l, rho, base, mem);
        RunSingle(OperandInstr(l), c);
        RunOperand(r, rho, base + [Int(a)], mem);
        RunSingle(OperandInstr(r), c.(stack := base + [Int(a)]));
        RunBinary(op, a, b, base, Ints(rho), mem);
        RunSingle(Instr(BinByte(op), []), c.(stack := base + [Int(a)] + [Int(b)]));
        RunAllAppend([OperandInstr(l)], [OperandInstr(r)], c);
        RunAllAppend([OperandInstr(l)] + [OperandInstr(r)], [Instr(BinByte(op), [])], c);
        assert RvalueInstrs(rv) == [OperandInstr(l)] + [OperandInstr(r)] + [Instr(BinByte(op), [])];
      case UnaryOp(op, o) =>
        var i := Instr(if op == Neg then 0x10 else 0x0F, []);
        RunOperand(o, rho, base, mem);
        RunSingle(OperandInstr(o), c);
        RunUnary(op, WordOperand(rho, o), base, Ints(rho), mem);
        RunSingle(i, c.(stack := base + [Int(WordOperand(rho, o))]));
        RunAllAppend([OperandInstr(o)], [i], c);
        assert RvalueInstrs(rv) == [OperandInstr(o)] + [i];
    }
  }

  lemma RunStmt(s: Statement, rho: seq<I64>, base: seq<Value>, mem: seq<Value>) returns (mem': seq<Value>)
    requires ScalarStmt(s, |rho|) && |rho| < TWO32
    ensures RunAll(StmtInstrs(s), Cpu(base, Ints(rho), mem)) == Some(Cpu(base, Ints(WordStmt(rho, s)), mem'))
  {
    hide RunOne, RvalueInstrs, WordRvalue;
    var c := Cpu(base, Ints(rho), mem);
    if s.Assign? {
      var v := WordRvalue(rho, s.rvalue);
      var store := Instr(0x17, U32Bytes(s.dest.local));
      RunRvalue(s.rvalue, rho, base, mem);
      mem' := RunStore(s.dest.local, v, rho, base, mem);
      RunSingle(store, c.(stack := base + [Int(v)]));
      RunAllAppend(RvalueInstrs(s.rvalue), [store], c);
    } else {
      mem' := mem;
    }
  }

  lemma {:induction false} RunStmts(stmts: seq<Statement>, rho: seq<I64>, base: seq<Value>, mem: seq<Value>)
    returns (mem': seq<Value>)
    requires (forall i :: 0 <= i < |stmts| ==> ScalarStmt(stmts[i], |rho|)) && |rho| < TWO32
    ensures RunAll(StmtsInstrs(stmts), Cpu(base, Ints(rho), mem)) == Some(Cpu(base, Ints(WordStmts(rho, stmts)), mem'))
    decreases |stmts|
  {
    hide RunOne, StmtInstrs, WordStmt, ScalarStmt;
    if stmts == [] {
      mem' := mem;
    } else {
      var mid := RunStmt(stmts[0], rho, base, mem);
      mem' := RunStmts(stmts[1..], WordStmt(rho, stmts[0]), base, mid);
      RunAllAppend(StmtInstrs(stmts[0]), StmtsInstrs(stmts[1..]), Cpu(base, Ints(rho), mem));
    }
  }

  /** What a terminator's operand leaves on the stack. */
  function Pushed(rho: seq<I64>, t: Terminator, blocks: nat): seq<Value>
    requires ScalarTerm(t, |rho|, blocks)
  {
    match t
    case SwitchInt(d, _, _, _) => [Int(WordOperand(rho, d))]
    case Assert(c, _, _, _) => [Int(WordOperand(rho, c))]
    case _ => []
  }

  lemma RunBlockPrefix(bb: BasicBlock, rho: seq<I64>, base: seq<Value>, mem: seq<Value>, blocks: nat)
    returns (mem': seq<Value>)
    requires ScalarBlock(bb, |rho|, blocks) && |rho| < TWO32
    ensures var rho' := WordStmts(rho, bb.stmts);
      RunAll(StmtsInstrs(bb.stmts) + TermOperand(bb.term), Cpu(base, Ints(rho), mem))
        == Some(Cpu(base + Pushed(rho', bb.term, blocks), Ints(rho'), mem'))
  {
    hide RunOne, WordOperand, OperandInstr, StmtsInstrs, WordStmts;
    mem' := RunStmts(bb.stmts, rho, base, mem);
    var rho' := WordStmts(rho, bb.stmts);
    var c' := Cpu(base, Ints(rho'), mem');
    RunAllAppend(StmtsInstrs(bb.stmts), TermOperand(bb.term), Cpu(base, Ints(rho), mem));
    assert base + [] == base;
    match bb.term {
      case SwitchInt(d, _, _, _) => RunOperand(d, rho', base, mem'); RunSingle(OperandInstr(d), c');
      case Assert(c, _, _, _) => RunOperand(c, rho', base, mem'); RunSingle(OperandInstr(c), c');
      case _ =>
    }
  }

  // ----- where blocks lie -----

  lemma {:induction false} BlockAt(blocks: seq<BasicBlock>, b: nat)
    requires b < |blocks|
    ensures CodeAt(BodyBytes(blocks), |BodyBytes(blocks[..b])|, BlockBytes(blocks[b]))
    decreases |blocks|
  {
    hide BlockBytes;
    var init, last := blocks[..|blocks| - 1], blocks[|blocks| - 1];
    if b < |init| {
      BlockAt(init, b);
      assert init[..b] == blocks[..b];
      CodeAtExtends(BodyBytes(init), BlockBytes(last), |BodyBytes(init[..b])|, BlockBytes(init[b]));
    } else {
      assert blocks[..b] == init;
      CodeAtEnd(BodyBytes(init), BlockBytes(last));
    }
  }

  lemma CodeAtExtends(code: seq<U8>, more: seq<U8>, pc: nat, bytes: seq<U8>)
    requires CodeAt(code, pc, bytes)
    ensures CodeAt(code + more, pc, bytes)
  {
  }

  lemma CodeAtEnd(code: seq<U8>, bytes: seq<U8>)
    ensures CodeAt(code + bytes, |code|, bytes)
  {
  }

  // ----- one block -----

  /** The machine's top frame is at the start of block b with locals rho. */
  ghost predicate InBlock(m: Module_, st: State, body: Body, b: nat, rho: seq<I64>) {
    && st.frames != [] && b < |body.blocks| && |rho| == |body.locals| && st.stack == []
    && var top := st.frames[|st.frames| - 1];
    && top.func < |m.functions| && m.functions[top.func].code == BodyBytes(body.blocks)
    && m.functions[top.func].blockOffsets == Offsets(body.blocks)
    && top.pc == |BodyBytes(body.blocks[..b])| && top.locals == Ints(rho)
  }

  /** The machine is at the control instructions of block b, its operand pushed. */
  ghost predicate AtControl(m: Module_, st: State, body: Body, t: Terminator, rho: seq<I64>) {
    && st.frames != [] && |rho| == |body.locals| && ScalarTerm(t, |rho|, |body.blocks|)
    && st.stack == Pushed(rho, t, |body.blocks|)
    && var top := st.frames[|st.frames| - 1];
    && top.func < |m.functions| && m.functions[top.func].code == BodyBytes(body.blocks)
    && m.functions[top.func].blockOffsets == Offsets(body.blocks)
    && CodeAt(m.functions[top.func].code, top.pc, Encode(TermControl(t))) && top.locals == Ints(rho)
  }

  lemma ReachControl(m: Module_, st: State, body: Body, b: nat, rho: seq<I64>) returns (k: nat, st': State)
    requires ScalarBody(body) && InBlock(m, st, body, b, rho)
    ensures Steps(m, st, k) == Running(st')
    ensures AtControl(m, st', body, body.blocks[b].term, WordStmts(rho, body.blocks[b].stmts))
  {
    hide Step, Steps, Encode, CodeAt, RunAll, RunOne, TermOperand, TermControl, StmtsInstrs, WordStmts;
    hide Offsets, BodyBytes, Pushed;
    var bb := body.blocks[b];
    var top := st.frames[|st.frames| - 1];
    var code := BodyBytes(body.blocks);
    var prefix := StmtsInstrs(bb.stmts) + TermOperand(bb.term);
    BlockAt(body.blocks, b);
    CodeAtSplit(code, top.pc, Encode(prefix), Encode(TermControl(bb.term)));
    var mem' := RunBlockPrefix(bb, rho, [], top.mem, |body.blocks|);
    assert ScalarBlock(bb, |rho|, |body.blocks|);
    EncodedRuns(m, st, prefix);
    var rho' := WordStmts(rho, bb.stmts);
    k := |prefix|;
    var pushed := Pushed(rho', bb.term, |body.blocks|);
    assert [] + pushed == pushed;
    st' := With(st, Cpu(pushed, Ints(rho'), mem'), top.pc + |Encode(prefix)|);
  }

  /** What the machine does when a block is left like this. */
  ghost predicate Mirrors(m: Module_, out: Outcome, body: Body, exit: Exit, rho: seq<I64>) {
    match exit
    case To(b) => out.Running? && InBlock(m, out.st, body, b, rho)
    case Returned => out == Fails(EmptyReturn)
    case AssertFailed => out == Fails(AssertionFailed)
    case Trapped => out == Fails(AbnormalTermination)
  }

  /** The function the top frame runs is the emitted one. */
  ghost predicate Runs(m: Module_, st: State, body: Body, rho: seq<I64>) {
    && st.frames != [] && |rho| == |body.locals|
    && var top := st.frames[|st.frames| - 1];
    && top.func < |m.functions| && m.functions[top.func].code == BodyBytes(body.blocks)
    && m.functions[top.func].blockOffsets == Offsets(body.blocks) && top.locals == Ints(rho)
  }

  lemma JumpLands(m: Module_, st: State, body: Body, rho: seq<I64>, pc: nat, b: nat)
    requires Runs(m, st, body, rho) && st.stack == [] && b < |body.blocks|
    ensures var top := st.frames[|st.frames| - 1];
      Mirrors(m, JumpTo(m.functions[top.func], st, top.(pc := pc), b), body, To(b), rho)
  {
    hide BodyBytes, Ints;
    assert Offsets(body.blocks)[b] == |BodyBytes(body.blocks[..b])|;
  }

  /** An instruction with a four-byte target under the pc. */
  lemma TargetRead(code: seq<U8>, pc: nat, op: U8, target: nat)
    requires target < TWO32 && CodeAt(code, pc, Encode([Instr(op, U32Bytes(target))]))
    ensures pc < |code| && code[pc] == op && ReadU32(code, pc + 1) == Some(target)
  {
    CodeSplit(code, pc, [Instr(op, U32Bytes(target))]);
    ReadsBack(code, pc + 1, target);
  }

  lemma JumpMirrors(m: Module_, st: State, body: Body, rho: seq<I64>, b: nat)
    requires Runs(m, st, body, rho) && st.stack == [] && b < |body.blocks| < TWO32
    requires var top := st.frames[|st.frames| - 1];
      CodeAt(m.functions[top.func].code, top.pc, Encode([Instr(0x1A, U32Bytes(b))]))
    ensures Mirrors(m, Step(m, st), body, To(b), rho)
  {
    hide Step, Encode, CodeAt, BodyBytes, Offsets, Ints, JumpTo, Mirrors;
    var top := st.frames[|st.frames| - 1];
    var f := m.functions[top.func];
    TargetRead(f.code, top.pc, 0x1A, b);
    StepControl(m, st, f, Jump);
    JumpLands(m, st, body, rho, top.pc + 1, b);
  }

  /** A conditional jump with its discriminant on the stack. */
  lemma JumpIfSteps(m: Module_, st: State, f: Func, d: I64, target: nat)
    requires st.frames != [] && st.stack == [Int(d)] && f.Resolve(target).Some?
    requires var top := st.frames[|st.frames| - 1];
      && top.func < |m.functions| && m.functions[top.func] == f && top.pc < |f.code| && f.code[top.pc] == 0x19
      && ReadU32(f.code, top.pc + 1) == Some(target)
    ensures var top, popped := st.frames[|st.frames| - 1], st.(stack := []);
      Step(m, st) == if d != 0 then JumpTo(f, popped, top.(pc := top.pc + 1), target)
                     else Running(SetTop(popped, top.(pc := top.pc + 5)))
  {
    hide Step, ReadU32;
    StepControl(m, st, f, JumpIf);
    assert Pop(st.stack) == [];
  }

  lemma SwitchFirst(code: seq<U8>, pc: nat, o: nat, false_: nat)
    requires o < TWO32 && CodeAt(code, pc, Encode([Instr(0x19, U32Bytes(o)), Instr(0x1A, U32Bytes(false_))]))
    ensures pc < |code| && code[pc] == 0x19 && ReadU32(code, pc + 1) == Some(o)
    ensures CodeAt(code, pc + 5, Encode([Instr(0x1A, U32Bytes(false_))]))
  {
    hide Encode, CodeAt;
    var pair := [Instr(0x19, U32Bytes(o)), Instr(0x1A, U32Bytes(false_))];
    CodeSplit(code, pc, pair);
    assert pair[1..] == [Instr(0x1A, U32Bytes(false_))];
    ReadsBack(code, pc + 1, o);
  }

  /** The function under the pc, with a discriminant on the stack and the code of a bool
      switch ahead. */
  ghost predicate AtSwitch(m: Module_, st: State, f: Func, d: I64, arms: seq<(nat, BlockId)>, o: BlockId) {
    && st.frames != [] && st.stack == [Int(d)] && o < TWO32 && FalseTarget(arms, o) < TWO32
    && f.Resolve(o).Some? && f.Resolve(FalseTarget(arms, o)).Some?
    && var top := st.frames[|st.frames| - 1];
    && top.func < |m.functions| && m.functions[top.func] == f
    && CodeAt(f.code, top.pc, Encode([Instr(0x19, U32Bytes(o)), Instr(0x1A, U32Bytes(FalseTarget(arms, o)))]))
  }

  /** Whatever its arms, the machine leaves the code of a bool switch for the target the
      jumps name, with an empty stack. */
  lemma SwitchLands(m: Module_, st: State, f: Func, d: I64, arms: seq<(nat, BlockId)>, o: BlockId) returns (k: nat)
    requires AtSwitch(m, st, f, d, arms, o)
    ensures var top := st.frames[|st.frames| - 1];
      && f.Resolve(JumpTarget(arms, o, d)).Some?
      && k > 0 && Steps(m, st, k)
        == Running(SetTop(st.(stack := []), top.(pc := f.Resolve(JumpTarget(arms, o, d)).value)))
  {
    hide Step, Steps, Encode, CodeAt, U32Bytes, FalseTarget, ReadU32;
    var top := st.frames[|st.frames| - 1];
    var false_ := FalseTarget(arms, o);
    SwitchFirst(f.code, top.pc, o, false_);
    JumpIfSteps(m, st, f, d, o);
    if d != 0 {
      k := 1;
      StepsOne(m, st);
    } else {
      var st1 := SetTop(st.(stack := []), top.(pc := top.pc + 5));
      TargetRead(f.code, top.pc + 5, 0x1A, false_);
      StepControl(m, st1, f, Jump);
      k := 2;
      StepsUnfold(m, st, st1, 1);
      StepsOne(m, st1);
    }
  }

  lemma SwitchMirrors(m: Module_, st: State, body: Body, rho: seq<I64>, d: I64, arms: seq<(nat, BlockId)>, o: BlockId)
    returns (k: nat)
    requires Runs(m, st, body, rho) && o < |body.blocks| && FalseTarget(arms, o) < |body.blocks| < TWO32
    requires AtSwitch(m, st, m.functions[st.frames[|st.frames| - 1].func], d, arms, o)
    ensures k > 0 && Mirrors(m, Steps(m, st, k), body, To(JumpTarget(arms, o, d)), rho)
  {
    hide Step, Steps, Encode, CodeAt, BodyBytes, Offsets, Ints, U32Bytes, FalseTarget;
    var f := m.functions[st.frames[|st.frames| - 1].func];
    k := SwitchLands(m, st, f, d, arms, o);
    OffsetsResolve(f, body, JumpTarget(arms, o, d));
  }

  // ----- where blocks start -----

  lemma BlockHasBytes(bb: BasicBlock)
    ensures |BlockBytes(bb)| > 0
  {
    hide StmtsInstrs, TermOperand;
  }

  lemma {:induction false} StartsAscend(blocks: seq<BasicBlock>, b: nat, c: nat)
    requires b < c <= |blocks|
    ensures |BodyBytes(blocks[..b])| < |BodyBytes(blocks[..c])|
    decreases c
  {
    hide BlockBytes;
    BlockHasBytes(blocks[c - 1]);
    assert blocks[..c][..c - 1] == blocks[..c - 1];
    if b < c - 1 { StartsAscend(blocks, b, c - 1); }
  }

  /** The machine is in one block only. */
  lemma BlockUnique(m: Module_, out: Outcome, body: Body, b: nat, c: nat, rho: seq<I64>)
    requires Mirrors(m, out, body, To(b), rho) && Mirrors(m, out, body, To(c), rho)
    ensures b == c
  {
    hide BodyBytes, Offsets, Ints;
    if b < c { StartsAscend(body.blocks, b, c); }
    if c < b { StartsAscend(body.blocks, c, b); }
  }

  /** The machine leaves a one-armed bool switch for the block that MIR names exactly when,
      on 0, the arm is for 0 or changes nothing, and on 1, the arm is not for 1 or changes
      nothing. An arm for 1, as if_switch builds it, is sent the wrong way both times. */
  lemma OneArmExact(m: Module_, st: State, body: Body, rho: seq<I64>, d: I64, arm: (nat, BlockId), o: BlockId)
    returns (k: nat)
    requires Runs(m, st, body, rho) && o < |body.blocks| && arm.1 < |body.blocks| < TWO32 && (d == 0 || d == 1)
    requires AtSwitch(m, st, m.functions[st.frames[|st.frames| - 1].func], d, [arm], o)
    ensures Mirrors(m, Steps(m, st, k), body, To(JumpTarget([arm], o, d)), rho)
    ensures Mirrors(m, Steps(m, st, k), body, To(Chosen([arm], o, d)), rho)
      <==> (if d == 0 then arm.0 == 0 else arm.0 != 1) || arm.1 == o
  {
    hide Steps, AtSwitch, Runs, Mirrors;
    k := SwitchMirrors(m, st, body, rho, d, [arm], o);
    assert [arm][1..] == [];
    if Mirrors(m, Steps(m, st, k), body, To(Chosen([arm], o, d)), rho) {
      BlockUnique(m, Steps(m, st, k), body, Chosen([arm], o, d), JumpTarget([arm], o, d), rho);
    }
  }

  /** The guard that drop elaboration puts before a flagged drop is a switch with an arm for
      1. MIR drops when the flag is set; the machine, on the emitted guard, goes to the drop
      when the flag is clear and past it when it is set. */
  lemma GuardIsInverted(m: Module_, st: State, f: Func, drop: BlockId, next: BlockId, flag: I64) returns (k: nat)
    requires (flag == 0 || flag == 1) && AtSwitch(m, st, f, flag, [(1, drop)], next)
    ensures Chosen([(1, drop)], next, flag) == if flag == 1 then drop else next
    ensures var top, reached := st.frames[|st.frames| - 1], f.Resolve(if flag == 0 then drop else next);
      reached.Some? && Steps(m, st, k) == Running(SetTop(st.(stack := []), top.(pc := reached.value)))
  {
    hide Steps;
    assert [(1, drop)][1..] == [];
    k := SwitchLands(m, st, f, flag, [(1, drop)], next);
  }

  lemma OffsetsResolve(f: Func, body: Body, b: nat)
    requires f.blockOffsets == Offsets(body.blocks) && b < |body.blocks|
    ensures f.Resolve(b) == Some(|BodyBytes(body.blocks[..b])|)
  {
  }

  lemma StepsNone(m: Module_, st: State)
    ensures Steps(m, st, 0) == Running(st)
  {
  }

  lemma StepsOne(m: Module_, st: State)
    ensures Steps(m, st, 1) == Step(m, st)
  {
    hide Step;
    if Step(m, st).Running? { assert Steps(m, Step(m, st).st, 0) == Step(m, st); }
  }

  /** An assertion with its condition on the stack. */
  lemma AssertSteps(m: Module_, st: State, f: Func, c: I64, target: nat)
    requires st.frames != [] && st.stack == [Int(c)]
    requires var top := st.frames[|st.frames| - 1];
      && top.func < |m.functions| && m.functions[top.func] == f && top.pc + 1 < |f.code| && f.code[top.pc] == 0x21
      && ReadU32(f.code, top.pc + 2) == Some(target)
    ensures var top := st.frames[|st.frames| - 1];
      Step(m, st) == if (c != 0) == (f.code[top.pc + 1] != 0)
                     then JumpTo(f, st.(stack := []), top.(pc := top.pc + 1), target) else Fails(AssertionFailed)
  {
    hide Step, ReadU32, JumpTo;
    StepControl(m, st, f, Assert_);
    assert Pop(st.stack) == [];
  }

  lemma AssertRead(code: seq<U8>, pc: nat, flag: U8, b: nat)
    requires b < TWO32 && CodeAt(code, pc, Encode([Instr(0x21, [flag] + U32Bytes(b))]))
    ensures pc + 1 < |code| && code[pc] == 0x21 && code[pc + 1] == flag && ReadU32(code, pc + 2) == Some(b)
  {
    hide Encode;
    CodeSplit(code, pc, [Instr(0x21, [flag] + U32Bytes(b))]);
    CodeAtSplit(code, pc + 1, [flag], U32Bytes(b));
    assert code[pc + 1 + 0] == [flag][0];
    ReadsBack(code, pc + 2, b);
  }

  lemma AssertMirrors(m: Module_, st: State, body: Body, rho: seq<I64>, c: I64, e: bool, b: BlockId)
    requires Runs(m, st, body, rho) && st.stack == [Int(c)] && b < |body.blocks| < TWO32
    requires var top := st.frames[|st.frames| - 1];
      CodeAt(m.functions[top.func].code, top.pc, Encode([Instr(0x21, [if e then 1 else 0] + U32Bytes(b))]))
    ensures Mirrors(m, Step(m, st), body, if (c != 0) == e then To(b) else AssertFailed, rho)
  {
    hide Step, Encode, BodyBytes, Offsets, Ints, U32Bytes, CodeAt, JumpTo, InBlock, ReadU32;
    var top := st.frames[|st.frames| - 1];
    var f := m.functions[top.func];
    AssertRead(f.code, top.pc, if e then 1 else 0, b);
    AssertSteps(m, st, f, c, b);
    JumpLands(m, st.(stack := []), body, rho, top.pc + 1, b);
  }

  lemma OpUnderPc(code: seq<U8>, pc: nat, op: U8)
    requires CodeAt(code, pc, Encode([Instr(op, [])]))
    ensures pc < |code| && code[pc] == op
  {
    CodeSplit(code, pc, [Instr(op, [])]);
  }

  lemma ControlMirrors(m: Module_, st: State, body: Body, t: Terminator, rho: seq<I64>) returns (k: nat)
    requires |body.blocks| < TWO32 && AtControl(m, st, body, t, rho)
    ensures k > 0 && Mirrors(m, Steps(m, st, k), body, WordExit(rho, t, |body.blocks|), rho)
  {
    hide Step, Steps, Encode, CodeAt, BodyBytes, Offsets, Ints, WordOperand, U32Bytes;
    var top := st.frames[|st.frames| - 1];
    var f := m.functions[top.func];
    StepsOne(m, st);
    k := 1;
    if t.SwitchInt? {
      OffsetsResolve(f, body, t.otherwise);
      OffsetsResolve(f, body, FalseTarget(t.arms, t.otherwise));
    }
    match t {
      case Goto(b) => JumpMirrors(m, st, body, rho, b);
      case SwitchInt(d, _, arms, o) => k := SwitchMirrors(m, st, body, rho, WordOperand(rho, d), arms, o);
      case Assert(c, e, b, _) => AssertMirrors(m, st, body, rho, WordOperand(rho, c), e, b);
      case Return =>
        OpUnderPc(f.code, top.pc, 0x18);
        StepControl(m, st, f, Return_);
      case Unreachable =>
        OpUnderPc(f.code, top.pc, 0xFF);
        StepControl(m, st, f, Trap);
    }
  }

  // ----- whole runs -----

  /** The words of a run from block b after at most n blocks. */
  function WordAfter(body: Body, b: nat, rho: seq<I64>, n: nat): (r: (Exit, seq<I64>))
    requires ScalarBody(body) && b < |body.blocks| && |rho| == |body.locals|
    ensures |r.1| == |body.locals|
    decreases n
  {
    if n == 0 then (To(b), rho) else
    var bb := body.blocks[b];
    var rho' := WordStmts(rho, bb.stmts);
    match WordExit(rho', bb.term, |body.blocks|)
    case To(c) =>
      SwitchInside(bb.term, rho', |body.blocks|);
      WordAfter(body, c, rho', n - 1)
    case other => (other, rho')
  }

  lemma SwitchInside(t: Terminator, rho: seq<I64>, blocks: nat)
    requires ScalarTerm(t, |rho|, blocks)
    ensures WordExit(rho, t, blocks).To? ==> WordExit(rho, t, blocks).block < blocks
  {
  }

  /** For every n, the machine reaches what the words reach after n blocks. */
  lemma {:induction false} FollowsWords(m: Module_, st: State, body: Body, b: nat, rho: seq<I64>, n: nat)
    returns (k: nat)
    requires ScalarBody(body) && InBlock(m, st, body, b, rho)
    ensures var (exit, rho') := WordAfter(body, b, rho, n);
      Mirrors(m, Steps(m, st, k), body, exit, rho') && (exit.To? ==> k >= n)
    decreases n
  {
    hide Step, WordStmts, WordExit, AtControl, BodyBytes, Offsets, Ints, ScalarStmt, Steps;
    if n == 0 {
      k := 0;
      StepsNone(m, st);
    } else {
      var bb := body.blocks[b];
      var rho1 := WordStmts(rho, bb.stmts);
      var exit := WordExit(rho1, bb.term, |body.blocks|);
      var k1, st1 := ReachControl(m, st, body, b, rho);
      var k2 := ControlMirrors(m, st1, body, bb.term, rho1);
      StepsPlus(m, st, st1, k1, k2);
      k := k1 + k2;
      if exit.To? {
        var st2 := Steps(m, st1, k2).st;
        SwitchInside(bb.term, rho1, |body.blocks|);
        var k3 := FollowsWords(m, st2, body, exit.block, rho1, n - 1);
        StepsPlus(m, st, st2, k, k3);
        k := k + k3;
      }
    }
  }

  /** A module whose entry function is the emitted body starts in its first block with
      every local zero. */
  lemma StartsInEntry(m: Module_, body: Body)
    requires m.entry < |m.functions| && body.blocks != []
    requires m.functions[m.entry].code == BodyBytes(body.blocks)
    requires m.functions[m.entry].blockOffsets == Offsets(body.blocks) && m.functions[m.entry].nLocals == |body.locals|
    ensures Start(m).Running? && InBlock(m, Start(m).st, body, 0, seq(|body.locals|, i => 0))
  {
    var zeros: seq<I64> := seq(|body.locals|, i => 0);
    assert body.blocks[..0] == [];
    assert Start(m).st.frames[0].locals == Ints(zeros);
  }
}

/** Decoded instructions, and the machine running their encoding. */
module Bytecode {
  import opened Mir
  import opened Words
  import opened Vm

  datatype Instr = Instr(op: U8, operand: seq<U8>)

  function Encode(instrs: seq<Instr>): seq<U8> {
    if instrs == [] then [] else [instrs[0].op] + instrs[0].operand + Encode(instrs[1..])
  }

  // ----- running decoded instructions -----

  /** One decoded instruction, executed by the machine on its own bytes. It must be a
      straight-line one and use exactly its operand. */
  function RunOne(i: Instr, cpu: Cpu): Option<Cpu> {
    match DecodeOp(i.op)
    case None => None
    case Some(op) =>
      if !StraightLine(op) then None else
      match Exec(op, i.operand, 0, cpu)
      case Next(cpu', pc) => if pc == |i.operand| then Some(cpu') else None
      case _ => None
  }

  function RunAll(instrs: seq<Instr>, cpu: Cpu): Option<Cpu> {
    if instrs == [] then Some(cpu) else
    match RunOne(instrs[0], cpu)
    case None => None
    case Some(cpu') => RunAll(instrs[1..], cpu')
  }

  /** Straight-line execution reads its operand and nothing else of the code. */
  lemma ExecLocal(op: Opcode, code: seq<U8>, pc: nat, operand: seq<U8>, cpu: Cpu)
    requires StraightLine(op) && pc + |operand| <= |code| && code[pc..pc + |operand|] == operand
    requires Exec(op, operand, 0, cpu).Next? && Exec(op, operand, 0, cpu).pc == |operand|
    ensures Exec(op, code, pc, cpu) == Next(Exec(op, operand, 0, cpu).cpu, pc + |operand|)
  {
    if |operand| == 8 {
      assert operand[0..8] == operand;
    } else if |operand| == 4 {
      assert operand[0..4] == operand;
    }
  }

  /** Iterating the driver. */
  function Steps(m: Module_, st: State, k: nat): Outcome
    decreases k
  {
    if k == 0 then Running(st) else
    match Step(m, st)
    case Running(st') => Steps(m, st', k - 1)
    case other => other
  }

  function CpuOf(st: State): Cpu
    requires st.frames != []
  {
    var fr := st.frames[|st.frames| - 1];
    Cpu(st.stack, fr.locals, fr.mem)
  }

  /** The same machine with the top frame's cpu and pc replaced. */
  function With(st: State, cpu: Cpu, pc: nat): State
    requires st.frames != []
  {
    SetTop(st.(stack := cpu.stack), st.frames[|st.frames| - 1].(locals := cpu.locals, mem := cpu.mem, pc := pc))
  }

  /** The code holds the given bytes at pc. */
  ghost predicate CodeAt(code: seq<U8>, pc: nat, bytes: seq<U8>) {
    pc + |bytes| <= |code| && forall k: nat :: k < |bytes| ==> code[pc + k] == bytes[k]
  }

  lemma CodeAtMeans(code: seq<U8>, pc: nat, bytes: seq<U8>)
    requires CodeAt(code, pc, bytes)
    ensures pc + |bytes| <= |code| && code[pc..pc + |bytes|] == bytes
  {
  }

  lemma CodeAtSplit(code: seq<U8>, pc: nat, a: seq<U8>, b: seq<U8>)
    requires CodeAt(code, pc, a + b)
    ensures CodeAt(code, pc, a) && CodeAt(code, pc + |a|, b)
  {
    forall k: nat | k < |a| ensures code[pc + k] == a[k] { assert (a + b)[k] == a[k]; }
    forall k: nat | k < |b| ensures code[pc + |a| + k] == b[k] { assert (a + b)[|a| + k] == b[k]; }
  }

  ghost predicate RunsNext(m: Module_, st: State, instrs: seq<Instr>) {
    st.frames != [] &&
    var top := st.frames[|st.frames| - 1];
    top.func < |m.functions| && CodeAt(m.functions[top.func].code, top.pc, Encode(instrs))
  }

  /** A straight-line opcode under the pc is executed by Exec. */
  lemma StepStraight(m: Module_, st: State, op: Opcode)
    requires st.frames != []
    requires var top := st.frames[|st.frames| - 1];
      && top.func < |m.functions| && top.pc < |m.functions[top.func].code|
      && DecodeOp(m.functions[top.func].code[top.pc]) == Some(op) && StraightLine(op)
    ensures var top := st.frames[|st.frames| - 1];
      Step(m, st) == DoStraight(op, m.functions[top.func], st, top.(pc := top.pc + 1))
  {
    hide DecodeOp, StraightLine, DoStraight, Exec;
  }

  lemma CodeSplit(code: seq<U8>, pc: nat, instrs: seq<Instr>)
    requires instrs != [] && CodeAt(code, pc, Encode(instrs))
    ensures pc < |code| && code[pc] == instrs[0].op && CodeAt(code, pc + 1, instrs[0].operand)
    ensures CodeAt(code, pc + 1 + |instrs[0].operand|, Encode(instrs[1..]))
  {
    var head, operand, rest := [instrs[0].op], instrs[0].operand, Encode(instrs[1..]);
    CodeAtSplit(code, pc, head + operand, rest);
    CodeAtSplit(code, pc, head, operand);
    assert head[0] == code[pc + 0];
  }

  /** The driver executes the first instruction as it runs on its own. */
  lemma FirstRuns(m: Module_, st: State, instrs: seq<Instr>)
    requires instrs != [] && RunsNext(m, st, instrs) && RunOne(instrs[0], CpuOf(st)).Some?
    ensures var top := st.frames[|st.frames| - 1];
      var st1 := With(st, RunOne(instrs[0], CpuOf(st)).value, top.pc + 1 + |instrs[0].operand|);
      Step(m, st) == Running(st1) && RunsNext(m, st1, instrs[1..])
  {
    hide Step, Exec, DecodeOp, StraightLine, Encode, CodeAt;
    var top := st.frames[|st.frames| - 1];
    var code, i := m.functions[top.func].code, instrs[0];
    CodeSplit(code, top.pc, instrs);
    CodeAtMeans(code, top.pc + 1, i.operand);
    ExecLocal(DecodeOp(i.op).value, code, top.pc + 1, i.operand, CpuOf(st));
    StepStraight(m, st, DecodeOp(i.op).value);
  }

  /** The driver runs the encoding of a straight-line sequence as the sequence runs. */
  lemma {:induction false} EncodedRuns(m: Module_, st: State, instrs: seq<Instr>)
    requires RunsNext(m, st, instrs) && RunAll(instrs, CpuOf(st)).Some?
    ensures var top := st.frames[|st.frames| - 1];
      Steps(m, st, |instrs|) == Running(With(st, RunAll(instrs, CpuOf(st)).value, top.pc + |Encode(instrs)|))
    decreases |instrs|
  {
    hide Step, RunOne, CodeAt;
    var top := st.frames[|st.frames| - 1];
    if instrs == [] {
      assert With(st, CpuOf(st), top.pc) == st;
    } else {
      FirstRuns(m, st, instrs);
      var st1 := With(st, RunOne(instrs[0], CpuOf(st)).value, top.pc + 1 + |instrs[0].operand|);
      EncodedRuns(m, st1, instrs[1..]);
      StepsUnfold(m, st, st1, |instrs| - 1);
    }
  }

  lemma StepsUnfold(m: Module_, st: State, st1: State, k: nat)
    requires Step(m, st) == Running(st1)
    ensures Steps(m, st, 1 + k) == Steps(m, st1, k)
  {
    hide Step;
  }

  lemma {:induction false} StepsPlus(m: Module_, st: State, mid: State, j: nat, k: nat)
    requires Steps(m, st, j) == Running(mid)
    ensures Steps(m, st, j + k) == Steps(m, mid, k)
    decreases j
  {
    hide Step;
    if j > 0 { StepsPlus(m, Step(m, st).st, mid, j - 1, k); }
  }

  // ----- control instructions under the pc -----

  /** The top frame runs function f and the byte under its pc decodes to op. */
  ghost predicate AtOp(m: Module_, st: State, f: Func, op: Opcode) {
    st.frames != [] &&
    var top := st.frames[|st.frames| - 1];
    && top.func < |m.functions| && m.functions[top.func] == f
    && top.pc < |f.code| && DecodeOp(f.code[top.pc]) == Some(op)
  }

  lemma StepControl(m: Module_, st: State, f: Func, op: Opcode)
    requires AtOp(m, st, f, op)
    ensures var top := st.frames[|st.frames| - 1];
      var fr := top.(pc := top.pc + 1);
      && (op == Jump && ReadU32(f.code, fr.pc).Some? ==> Step(m, st) == JumpTo(f, st, fr, ReadU32(f.code, fr.pc).value))
      && (op == JumpIf ==> Step(m, st) == DoJumpIf(f, st, fr))
      && (op == Assert_ ==> Step(m, st) == DoAssert(f, st, fr))
      && (op == Return_ ==> Step(m, st) == DoReturn(m, st))
      && (op == Trap ==> Step(m, st) == Fails(AbnormalTermination))
  {
    hide DecodeOp, JumpTo, DoJumpIf, DoAssert, DoReturn, ReadU32, DoStraight, DoCall, DoSwitch, DoDrop;
  }

  lemma ReadsBack(code: seq<U8>, pc: nat, n: nat)
    requires n < TWO32 && CodeAt(code, pc, U32Bytes(n))
    ensures ReadU32(code, pc) == Some(n)
  {
    CodeAtMeans(code, pc, U32Bytes(n));
    U32RoundTrip(n);
  }
}

/** The bytecode emitter on scalar MIR (crates/glyim-codegen/src/lib.rs), and what
    its code computes on words. */
module Emitter {
  import opened Mir
  import opened Words
  import opened Bytecode

  // ----- the scalar fragment -----

  predicate ScalarConst(k: ConstKind) {
    k.CInt? || k.CUint? || k.CBool? || k.CChar? || k.CUnit? || k.CError?
  }

  predicate ScalarOperand(o: Operand, n: nat) {
    match o
    case Constant(c) => ScalarConst(c.kind)
    case Copy(p) => p.projection == [] && p.local < n
    case Move(p) => p.projection == [] && p.local < n
  }

  predicate ScalarRvalue(rv: Rvalue, n: nat) {
    match rv
    case Use(o) => ScalarOperand(o, n)
    case BinaryOp(_, l, r) => ScalarOperand(l, n) && ScalarOperand(r, n)
    case UnaryOp(op, o) => op != DerefOp && ScalarOperand(o, n)
    case _ => false
  }

  predicate ScalarStmt(s: Statement, n: nat) {
    s.Assign? ==> s.dest.projection == [] && s.dest.local < n && ScalarRvalue(s.rvalue, n)
  }

  predicate ScalarTerm(t: Terminator, n: nat, blocks: nat) {
    match t
    case Goto(b) => b < blocks
    case SwitchInt(d, ty, arms, o) =>
      ty == BOOL && ScalarOperand(d, n) && o < blocks && forall i :: 0 <= i < |arms| ==> arms[i].1 < blocks
    case Assert(c, _, b, _) => ScalarOperand(c, n) && b < blocks
    case Return => true
    case Unreachable => true
    case _ => false
  }

  predicate ScalarBlock(bb: BasicBlock, n: nat, blocks: nat) {
    (forall i :: 0 <= i < |bb.stmts| ==> ScalarStmt(bb.stmts[i], n)) && ScalarTerm(bb.term, n, blocks)
  }

  predicate ScalarBody(body: Body) {
    && |body.locals| < TWO32 && |body.blocks| < TWO32
    && forall b :: 0 <= b < |body.blocks| ==> ScalarBlock(body.blocks[b], |body.locals|, |body.blocks|)
  }

  // ----- the words the code computes -----

  function ConstWord(k: ConstKind): I64 {
    match k
    case CInt(v) => Wrap(v)
    case CUint(v) => Wrap(v)
    case CBool(b) => FromBool(b)
    case CChar(c) => Wrap(c)
    case _ => 0
  }

  function WordOperand(rho: seq<I64>, o: Operand): I64
    requires ScalarOperand(o, |rho|)
  {
    match o
    case Constant(c) => ConstWord(c.kind)
    case Copy(p) => rho[p.local]
    case Move(p) => rho[p.local]
  }

  function WordRvalue(rho: seq<I64>, rv: Rvalue): I64
    requires ScalarRvalue(rv, |rho|)
  {
    match rv
    case Use(o) => WordOperand(rho, o)
    case BinaryOp(op, l, r) => Binary(op, WordOperand(rho, l), WordOperand(rho, r))
    case UnaryOp(op, o) => UnaryWord(op, WordOperand(rho, o))
  }

  function WordStmt(rho: seq<I64>, s: Statement): (r: seq<I64>)
    requires ScalarStmt(s, |rho|)
    ensures |r| == |rho|
  {
    if s.Assign? then rho[s.dest.local := WordRvalue(rho, s.rvalue)] else rho
  }

  function WordStmts(rho: seq<I64>, stmts: seq<Statement>): (r: seq<I64>)
    requires forall i :: 0 <= i < |stmts| ==> ScalarStmt(stmts[i], |rho|)
    ensures |r| == |rho|
    decreases |stmts|
  {
    if stmts == [] then rho else WordStmts(WordStmt(rho, stmts[0]), stmts[1..])
  }

  /** How a block ends. */
  datatype Exit = To(block: BlockId) | Returned | AssertFailed | Trapped

  /** Where a bool switch goes on 0: its first arm. */
  function FalseTarget(arms: seq<(nat, BlockId)>, otherwise: BlockId): BlockId {
    if arms == [] then otherwise else arms[0].1
  }

  /** Where the two jumps emitted for a bool switch lead. */
  function JumpTarget(arms: seq<(nat, BlockId)>, otherwise: BlockId, d: I64): BlockId {
    if d != 0 then otherwise else FalseTarget(arms, otherwise)
  }

  function WordExit(rho: seq<I64>, t: Terminator, blocks: nat): Exit
    requires ScalarTerm(t, |rho|, blocks)
  {
    match t
    case Goto(b) => To(b)
    case SwitchInt(d, _, arms, o) => To(JumpTarget(arms, o, WordOperand(rho, d)))
    case Assert(c, e, b, _) => if (WordOperand(rho, c) != 0) == e then To(b) else AssertFailed
    case Return => Returned
    case _ => Trapped
  }

  // ----- emission -----

  function BinByte(op: BinOp): U8 {
    match op
    case Add => 0x02 case Sub => 0x03 case Mul => 0x04 case Div => 0x05 case Rem => 0x06
    case Eq => 0x07 case Ne => 0x08 case Lt => 0x09 case Gt => 0x0A case LtEq => 0x0B case GtEq => 0x0C
    case And => 0x0D case Or => 0x0E case BitAnd => 0x11 case BitOr => 0x12 case BitXor => 0x13
    case Shl => 0x14 case Shr => 0x15
  }

  function OperandInstr(o: Operand): Instr {
    match o
    case Constant(c) => Instr(0x01, I64Bytes(ConstWord(c.kind)))
    case Copy(p) => Instr(0x16, U32Bytes(p.local))
    case Move(p) => Instr(0x16, U32Bytes(p.local))
  }

  function RvalueInstrs(rv: Rvalue): seq<Instr> {
    match rv
    case Use(o) => [OperandInstr(o)]
    case BinaryOp(op, l, r) => [OperandInstr(l), OperandInstr(r), Instr(BinByte(op), [])]
    case UnaryOp(op, o) => [OperandInstr(o), Instr(if op == Neg then 0x10 else 0x0F, [])]
    case _ => []
  }

  function StmtInstrs(s: Statement): seq<Instr> {
    if s.Assign? then RvalueInstrs(s.rvalue) + [Instr(0x17, U32Bytes(s.dest.local))] else []
  }

  function StmtsInstrs(stmts: seq<Statement>): seq<Instr> {
    if stmts == [] then [] else StmtInstrs(stmts[0]) + StmtsInstrs(stmts[1..])
  }

  /** The operand a terminator pushes first. */
  function TermOperand(t: Terminator): seq<Instr> {
    match t
    case SwitchInt(d, _, _, _) => [OperandInstr(d)]
    case Assert(c, _, _, _) => [OperandInstr(c)]
    case _ => []
  }

  function TermControl(t: Terminator): seq<Instr> {
    match t
    case Goto(b) => [Instr(0x1A, U32Bytes(b))]
    case SwitchInt(_, _, arms, o) => [Instr(0x19, U32Bytes(o)), Instr(0x1A, U32Bytes(FalseTarget(arms, o)))]
    case Assert(_, e, b, _) => [Instr(0x21, [if e then 1 else 0] + U32Bytes(b))]
    case Return => [Instr(0x18, [])]
    case _ => [Instr(0xFF, [])]
  }

  function BlockBytes(bb: BasicBlock): seq<U8> {
    Encode(StmtsInstrs(bb.stmts) + TermOperand(bb.term)) + Encode(TermControl(bb.term))
  }

  function BodyBytes(blocks: seq<BasicBlock>): seq<U8> {
    if blocks == [] then [] else BodyBytes(blocks[..|blocks| - 1]) + BlockBytes(blocks[|blocks| - 1])
  }

  /** The byte offset of each block. */
  function Offsets(blocks: seq<BasicBlock>): seq<nat> {
    seq(|blocks|, b requires 0 <= b < |blocks| => |BodyBytes(blocks[..b])|)
  }

  lemma EncodeCons(i: Instr, rest: seq<Instr>)
    ensures Encode([i] + rest) == [i.op] + i.operand + Encode(rest)
  {
    assert ([i] + rest)[1..] == rest;
  }

  lemma Reassociate(h: seq<U8>, x: seq<U8>, y: seq<U8>)
    ensures h + (x + y) == h + x + y
  {
  }

  lemma {:induction false} EncodeAppend(a: seq<Instr>, b: seq<Instr>)
    ensures Encode(a + b) == Encode(a) + Encode(b)
  {
    if a == [] {
      assert a + b == b;
    } else {
      hide Encode;
      var rest, head := a[1..], [a[0].op] + a[0].operand;
      EncodeAppend(rest, b);
      EncodeCons(a[0], rest);
      EncodeCons(a[0], rest + b);
      assert a == [a[0]] + rest && a + b == [a[0]] + (rest + b);
      Reassociate(head, Encode(rest), Encode(b));
    }
  }

  /** Appending one instruction to the byte buffer. */
  method Push(bc: seq<U8>, i: Instr) returns (r: seq<U8>)
    ensures r == bc + Encode([i])
  {
    r := bc + [i.op];
    r := r + i.operand;
    assert [i][1..] == [] && Encode([i]) == [i.op] + i.operand + [];
  }

  method PushAll(bc: seq<U8>, instrs: seq<Instr>) returns (r: seq<U8>)
    ensures r == bc + Encode(instrs)
  {
    r := bc;
    for k := 0 to |instrs|
      invariant r == bc + Encode(instrs[..k])
    {
      assert instrs[..k + 1] == instrs[..k] + [instrs[k]];
      EncodeAppend(instrs[..k], [instrs[k]]);
      r := Push(r, instrs[k]);
    }
    assert instrs[..|instrs|] == instrs;
  }

  method EmitStatements(bc: seq<U8>, stmts: seq<Statement>) returns (r: seq<U8>)
    ensures r == bc + Encode(StmtsInstrs(stmts))
  {
    hide Encode, StmtInstrs;
    r := bc;
    EncodeNone();
    for i := 0 to |stmts|
      invariant r == bc + Encode(StmtsInstrs(stmts[..i]))
    {
      r := PushAll(r, StmtInstrs(stmts[i]));
      StmtsSnoc(stmts, i);
      EncodeAppend(StmtsInstrs(stmts[..i]), StmtInstrs(stmts[i]));
    }
    assert stmts[..|stmts|] == stmts;
  }

  lemma EncodeNone()
    ensures Encode([]) == [] && StmtsInstrs([]) == []
  {
  }

  method EmitBlock(bc: seq<U8>, bb: BasicBlock) returns (r: seq<U8>)
    ensures r == bc + BlockBytes(bb)
  {
    hide Encode, StmtsInstrs, TermOperand, TermControl;
    r := EmitStatements(bc, bb.stmts);
    r := PushAll(r, TermOperand(bb.term));
    EncodeAppend(StmtsInstrs(bb.stmts), TermOperand(bb.term));
    r := PushAll(r, TermControl(bb.term));
  }

  /** The unoptimised code of a body, with the offset at which each block starts. */
  method GenerateFunction(body: Body) returns (bc: seq<U8>, offsets: seq<nat>)
    requires ScalarBody(body)
    ensures bc == BodyBytes(body.blocks) && offsets == Offsets(body.blocks)
  {
    hide BlockBytes, ScalarBody;
    bc, offsets := [], [];
    var blocks := body.blocks;
    for b := 0 to |blocks|
      invariant bc == BodyBytes(blocks[..b]) && |offsets| == b
      invariant forall k: nat :: k < b ==> offsets[k] == |BodyBytes(blocks[..k])|
    {
      offsets := offsets + [|bc|];
      assert blocks[..b + 1][..b] == blocks[..b] && blocks[..b + 1][b] == blocks[b];
      bc := EmitBlock(bc, blocks[b]);
    }
    assert blocks[..|blocks|] == blocks;
  }

  lemma {:induction false} StmtsSnoc(stmts: seq<Statement>, i: nat)
    requires i < |stmts|
    ensures StmtsInstrs(stmts[..i + 1]) == StmtsInstrs(stmts[..i]) + StmtInstrs(stmts[i])
  {
    hide StmtInstrs;
    if i == 0 {
      assert stmts[..1][1..] == [] && stmts[..0] == [];
    } else {
      StmtsSnoc(stmts[1..], i - 1);
      assert stmts[..i + 1][1..] == stmts[1..][..i] && stmts[..i][1..] == stmts[1..][..i - 1];
    }
  }
}

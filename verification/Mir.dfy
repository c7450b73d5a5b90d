/** MIR bodies in control-flow-graph form (crates/glyim-mir/src/lib.rs), as the
    analyses and the code generator read them. Interned types, substitutions and
    definition ids are plain numbers. */
module Mir {

  datatype Option<+T> = None | Some(value: T)

  type Local = nat
  type BlockId = nat
  type Ty = nat
  type Substs = nat

  /** The interned unit and bool types. */
  const UNIT: Ty := 2
  const BOOL: Ty := 3

  datatype Proj =
    | Deref
    | Field(field: nat)
    | Index(index: Local)
    | Downcast(variant: nat)
    | ConstantIndex(offset: nat, minLength: nat, indexFromEnd: bool)
    | Subslice(from: nat, to: nat, sliceFromEnd: bool)

  datatype Place = Place(local: Local, projection: seq<Proj>)

  datatype ConstKind =
    | CInt(int)
    | CUint(nat)
    | CFloatBits(nat)
    | CBool(bool)
    | CChar(nat)
    | CString(name: nat)
    | CUnit
    | CFn(def: nat, substs: Substs)
    | CConstRef(constDef: nat)
    | CVirtualMethod(traitDef: nat, methodName: nat)
    | CAggregate(elems: seq<Const>)
    | CError

  datatype Const = Const(kind: ConstKind, ty: Ty)

  datatype Operand = Copy(place: Place) | Move(place: Place) | Constant(const_: Const)

  datatype BinOp =
    | Add | Sub | Mul | Div | Rem
    | Eq | Ne | Lt | Gt | LtEq | GtEq
    | And | Or | BitAnd | BitOr | BitXor | Shl | Shr

  datatype UnOp = Not | Neg | DerefOp

  datatype BorrowKind = Shared | Unique | Mut(allowTwoPhase: bool)

  datatype Rvalue =
    | Use(operand: Operand)
    | Ref(refPlace: Place, kind: BorrowKind)
    | BinaryOp(binop: BinOp, left: Operand, right: Operand)
    | UnaryOp(unop: UnOp, operand: Operand)
    | Aggregate(operands: seq<Operand>)
    | Discriminant(place: Place)
    | Len(place: Place)
    | Cast(operand: Operand, toTy: Ty)
    | Repeat(operand: Operand, count: Const)

  datatype Statement =
    | Assign(dest: Place, rvalue: Rvalue)
    | StorageLive(local: Local)
    | StorageDead(local: Local)
    | Nop

  datatype Terminator =
    | Goto(target: BlockId)
    | SwitchInt(discr: Operand, switchTy: Ty, arms: seq<(nat, BlockId)>, otherwise: BlockId)
    | Return
    | Unreachable
    | Call(func: Operand, args: seq<Operand>, destination: Place,
           callTarget: Option<BlockId>, cleanup: Option<BlockId>)
    | Assert(cond: Operand, expected: bool, target: BlockId, cleanup: Option<BlockId>)
    | Drop(dropPlace: Place, target: BlockId, cleanup: Option<BlockId>)

  datatype BasicBlock = BasicBlock(stmts: seq<Statement>, term: Terminator)

  datatype Body = Body(blocks: seq<BasicBlock>, locals: seq<Ty>, argCount: nat)

  /** A switch takes the first arm for the value. */
  function Chosen(arms: seq<(nat, BlockId)>, otherwise: BlockId, v: nat): BlockId {
    if arms == [] then otherwise else if arms[0].0 == v then arms[0].1 else Chosen(arms[1..], otherwise, v)
  }

  // ----- visitors (crates/glyim-borrowck/src/visitor.rs) -----

  /** The places an operand reads, in visiting order. */
  function OperandReads(o: Operand): seq<Place> {
    match o
    case Copy(p) => [p]
    case Move(p) => [p]
    case Constant(_) => []
  }

  function OperandsReads(os: seq<Operand>): seq<Place> {
    if os == [] then [] else OperandReads(os[0]) + OperandsReads(os[1..])
  }

  function RvalueReads(rv: Rvalue): seq<Place> {
    match rv
    case Use(o) => OperandReads(o)
    case Ref(p, _) => [p]
    case BinaryOp(_, l, r) => OperandReads(l) + OperandReads(r)
    case UnaryOp(_, o) => OperandReads(o)
    case Aggregate(os) => OperandsReads(os)
    case Discriminant(p) => [p]
    case Len(p) => [p]
    case Cast(o, _) => OperandReads(o)
    case Repeat(o, _) => OperandReads(o)
  }

  /** A Drop is a kill, not a read; a Call's destination is a definition. */
  function TerminatorReads(t: Terminator): seq<Place> {
    match t
    case SwitchInt(d, _, _, _) => OperandReads(d)
    case Call(f, args, _, _, _) => OperandReads(f) + OperandsReads(args)
    case Assert(c, _, _, _) => OperandReads(c)
    case _ => []
  }

  function Targets(arms: seq<(nat, BlockId)>): (r: seq<BlockId>)
    ensures |r| == |arms|
  {
    if arms == [] then [] else [arms[0].1] + Targets(arms[1..])
  }

  function OptToSeq<T>(o: Option<T>): seq<T> {
    match o
    case None => []
    case Some(x) => [x]
  }

  function Successors(t: Terminator): seq<BlockId> {
    match t
    case Goto(b) => [b]
    case SwitchInt(_, _, arms, o) => Targets(arms) + [o]
    case Return => []
    case Unreachable => []
    case Call(_, _, _, b, c) => OptToSeq(b) + OptToSeq(c)
    case Assert(_, _, b, c) => [b] + OptToSeq(c)
    case Drop(_, b, c) => [b] + OptToSeq(c)
  }

  function Succs(body: Body, b: nat): seq<BlockId>
    requires b < |body.blocks|
  {
    Successors(body.blocks[b].term)
  }

  /** Every edge of the graph leads to a block of the body. */
  ghost predicate Closed(body: Body) {
    forall b, k :: 0 <= b < |body.blocks| && 0 <= k < |Succs(body, b)| ==> Succs(body, b)[k] < |body.blocks|
  }

  /** Whether one of the places is rooted at local x. */
  predicate Mentions(ps: seq<Place>, x: Local) {
    exists i :: 0 <= i < |ps| && ps[i].local == x
  }

  /** What a statement reads: only an assignment's right-hand side. */
  function StmtReads(s: Statement): seq<Place> {
    if s.Assign? then RvalueReads(s.rvalue) else []
  }

  // ----- program points -----

  /** Point(b, i) is statement i of block b, or its terminator when i is the
      number of statements. */
  datatype Point = Point(block: nat, index: nat)

  predicate IsPoint(body: Body, p: Point) {
    p.block < |body.blocks| && p.index <= |body.blocks[p.block].stmts|
  }

  function ReadsAt(body: Body, p: Point): seq<Place>
    requires IsPoint(body, p)
  {
    var bb := body.blocks[p.block];
    if p.index < |bb.stmts| then StmtReads(bb.stmts[p.index]) else TerminatorReads(bb.term)
  }

  /** Control flows from p to q in one step. */
  ghost predicate Flows(body: Body, p: Point, q: Point)
    requires IsPoint(body, p)
  {
    if p.index < |body.blocks[p.block].stmts|
    then q == Point(p.block, p.index + 1)
    else q.index == 0 && q.block in Succs(body, p.block)
  }

  ghost predicate ArePreds(body: Body, s: nat, ps: seq<nat>) {
    forall b: nat :: b in ps <==> b < |body.blocks| && s in Succs(body, b)
  }

  /** The predecessor lists every forward or backward analysis precomputes. */
  method Predecessors(body: Body) returns (preds: seq<seq<nat>>)
    requires Closed(body)
    ensures |preds| == |body.blocks|
    ensures forall s: nat :: s < |preds| ==> ArePreds(body, s, preds[s])
  {
    var n := |body.blocks|;
    preds := seq(n, i => []);
    for b := 0 to n
      invariant |preds| == n
      invariant forall s: nat :: s < n ==> PredsUpTo(body, s, preds[s], b, [])
    {
      var succs := Succs(body, b);
      for k := 0 to |succs|
        invariant |preds| == n
        invariant forall s: nat :: s < n ==> PredsUpTo(body, s, preds[s], b, succs[..k])
      {
        var t := succs[k];
        assert succs[..k + 1] == succs[..k] + [t];
        var row := preds[t] + [b];
        assert PredsUpTo(body, t, preds[t], b, succs[..k]);
        preds := preds[t := row];
      }
      assert succs[..|succs|] == succs;
    }
  }

  /** The predecessors of s among the blocks below b, and b itself if s is listed. */
  ghost predicate PredsUpTo(body: Body, s: nat, ps: seq<nat>, b: nat, succs: seq<nat>)
    requires b <= |body.blocks|
  {
    forall p: nat :: p in ps <==> (p < b && s in Succs(body, p)) || (p == b && s in succs)
  }
}

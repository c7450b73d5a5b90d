/** Scalar bodies run by the MIR interpreter (crates/glyim-mir-interp/src/lib.rs), and
    the machine on their emitted code following that run. */
module MirRun {
  import opened Mir
  import opened Words
  import opened Interp
  import opened Emitter
  import opened Vm
  import opened Bytecode
  import opened Simulation

  /** The locals of a frame; one that was never written holds nothing. */
  type Store = seq<Option<Val>>

  function ConstVal(k: ConstKind): Eval
    requires ScalarConst(k)
  {
    match k
    case CInt(v) => Good(VInt(Wrap128(v)))
    case CUint(v) => Good(VUint(Low128(v)))
    case CBool(b) => Good(VBool(b))
    case CChar(c) => Good(VInt(Wrap128(c)))
    case CUnit => Good(VUnit)
    case CError => Bad(Panic)
  }

  function ReadLocal(store: Store, l: Local): Eval
    requires l < |store|
  {
    if store[l].None? then Bad(Panic) else Good(store[l].value)
  }

  function OperandVal(store: Store, o: Operand): Eval
    requires ScalarOperand(o, |store|)
  {
    match o
    case Constant(c) => ConstVal(c.kind)
    case Copy(p) => ReadLocal(store, p.local)
    case Move(p) => ReadLocal(store, p.local)
  }

  function RvalueVal(store: Store, rv: Rvalue): Eval
    requires ScalarRvalue(rv, |store|)
  {
    match rv
    case Use(o) => OperandVal(store, o)
    case BinaryOp(op, l, r) =>
      var a, b := OperandVal(store, l), OperandVal(store, r);
      if a.Bad? then a else if b.Bad? then b else BinaryOf(op, a.v, b.v)
    case UnaryOp(op, o) =>
      var a := OperandVal(store, o);
      if a.Bad? then a else UnaryOf(op, a.v)
  }

  datatype Ran = Ran(store: Store) | Stopped(f: Fault)

  /** An argument keeps its value when its storage starts. */
  function RunStmt(store: Store, s: Statement, args: nat): (r: Ran)
    requires ScalarStmt(s, |store|)
    ensures r.Ran? ==> |r.store| == |store|
  {
    match s
    case Assign(dest, rv) =>
      var v := RvalueVal(store, rv);
      if v.Bad? then Stopped(v.f) else Ran(store[dest.local := Some(v.v)])
    case StorageLive(l) =>
      if 1 <= l <= args then Ran(store)
      else if l < |store| then Ran(store[l := None])
      else Stopped(Panic)
    case _ => Ran(store)
  }

  function RunStmts(store: Store, stmts: seq<Statement>, args: nat): (r: Ran)
    requires forall i :: 0 <= i < |stmts| ==> ScalarStmt(stmts[i], |store|)
    ensures r.Ran? ==> |r.store| == |store|
    decreases |stmts|
  {
    if stmts == [] then Ran(store) else
    var first := RunStmt(store, stmts[0], args);
    if first.Stopped? then first else RunStmts(first.store, stmts[1..], args)
  }

  datatype Leaving = Leaves(exit: Exit) | Breaks(f: Fault)

  /** How the interpreter leaves a block. A bool switch asks whether its discriminant is
      zero; an assertion needs a bool. */
  function LeavingOf(store: Store, t: Terminator, blocks: nat): Leaving
    requires ScalarTerm(t, |store|, blocks)
  {
    match t
    case Goto(b) => Leaves(To(b))
    case SwitchInt(d, _, arms, o) =>
      var v := OperandVal(store, d);
      if v.Bad? then Breaks(v.f) else Leaves(To(Chosen(arms, o, if Number(v.v) != 0 then 1 else 0)))
    case Assert(c, e, b, _) =>
      var v := OperandVal(store, c);
      if v.Bad? then Breaks(v.f)
      else if !v.v.VBool? then Breaks(Panic)
      else Leaves(if v.v.b == e then To(b) else AssertFailed)
    case Return => Leaves(Returned)
    case _ => Leaves(Trapped)
  }

  /** Where a run is: about to leave or enter a block, or broken off by a fault. */
  datatype MirState = At(exit: Exit, store: Store) | Broken(f: Fault)

  /** The interpreter's run from block b after at most n blocks. */
  function MirAfter(body: Body, b: nat, store: Store, n: nat): MirState
    requires ScalarBody(body) && b < |body.blocks| && |store| == |body.locals|
    decreases n
  {
    if n == 0 then At(To(b), store) else
    var bb := body.blocks[b];
    match RunStmts(store, bb.stmts, body.argCount)
    case Stopped(f) => Broken(f)
    case Ran(store') =>
      match LeavingOf(store', bb.term, |body.blocks|)
      case Breaks(f) => Broken(f)
      case Leaves(exit) =>
        if !exit.To? then At(exit, store')
        else
          ChosenInside(bb.term, store', |body.blocks|);
          MirAfter(body, exit.block, store', n - 1)
  }

  lemma ChosenInside(t: Terminator, store: Store, blocks: nat)
    requires ScalarTerm(t, |store|, blocks)
    ensures var r := LeavingOf(store, t, blocks); r.Leaves? && r.exit.To? ==> r.exit.block < blocks
  {
    if t.SwitchInt? {
      ChosenBelow(t.arms, t.otherwise, 0, blocks);
      ChosenBelow(t.arms, t.otherwise, 1, blocks);
    }
  }

  lemma {:induction false} ChosenBelow(arms: seq<(nat, BlockId)>, otherwise: BlockId, v: nat, blocks: nat)
    requires otherwise < blocks && forall i :: 0 <= i < |arms| ==> arms[i].1 < blocks
    ensures Chosen(arms, otherwise, v) < blocks
  {
    if arms != [] { ChosenBelow(arms[1..], otherwise, v, blocks); }
  }

  // ----- what the machine follows -----

  /** The machine's locals are the words of the interpreter's. */
  ghost predicate Represents(rho: seq<I64>, store: Store) {
    |rho| == |store| && forall l: nat :: l < |store| && store[l].Some? ==> rho[l] == Word(store[l].value)
  }

  /** The operation of an rvalue is one the machine follows on the values it meets. */
  predicate OperationFollowed(store: Store, rv: Rvalue)
    requires ScalarRvalue(rv, |store|) && RvalueVal(store, rv).Good?
  {
    match rv
    case Use(_) => true
    case BinaryOp(op, l, r) => Followed(op, Number(OperandVal(store, l).v), Number(OperandVal(store, r).v))
    case UnaryOp(op, o) => UnaryFollowed(op, OperandVal(store, o).v)
  }

  /** Divisions and right shifts meet numbers of 64-bit types. */
  predicate OperandsInWidth(store: Store, rv: Rvalue)
    requires ScalarRvalue(rv, |store|) && RvalueVal(store, rv).Good?
  {
    rv.BinaryOp? && NeedsWidth(rv.binop) ==>
      InWidth(Number(OperandVal(store, rv.left).v), Number(OperandVal(store, rv.right).v))
  }

  predicate RvalueFollowed(store: Store, rv: Rvalue)
    requires ScalarRvalue(rv, |store|)
  {
    RvalueVal(store, rv).Good? && OperationFollowed(store, rv)
  }

  lemma OperandWord(rho: seq<I64>, store: Store, o: Operand)
    requires Represents(rho, store) && ScalarOperand(o, |store|) && OperandVal(store, o).Good?
    ensures WordOperand(rho, o) == Word(OperandVal(store, o).v)
  {
    hide Wrap, Wrap128, Low128;
    BoolWords();
    if o.Constant? {
      match o.const_.kind {
        case CInt(v) => WrapNarrows(v);
        case CUint(v) => WrapNarrows(v);
        case CChar(c) => WrapNarrows(c);
        case _ =>
      }
    }
  }

  /** Where the interpreter has a value for an rvalue, the word the emitted code pushes is
      that value exactly if the operation is followed. */
  lemma RvalueFollowsIff(rho: seq<I64>, store: Store, rv: Rvalue)
    requires Represents(rho, store) && ScalarRvalue(rv, |store|) && RvalueVal(store, rv).Good?
    requires OperandsInWidth(store, rv)
    ensures WordRvalue(rho, rv) == Word(RvalueVal(store, rv).v) <==> OperationFollowed(store, rv)
  {
    hide Represents, Word, Binary, BinaryOf, UnaryOf, UnaryWord, Followed, UnaryFollowed, WordOperand, OperandVal;
    match rv {
      case Use(o) => OperandWord(rho, store, o);
      case BinaryOp(op, l, r) =>
        OperandWord(rho, store, l);
        OperandWord(rho, store, r);
        BinaryFollowsIff(op, OperandVal(store, l).v, OperandVal(store, r).v);
      case UnaryOp(op, o) =>
        OperandWord(rho, store, o);
        UnaryFollowsIff(op, OperandVal(store, o).v);
    }
  }

  lemma FollowedInWidth(store: Store, rv: Rvalue)
    requires ScalarRvalue(rv, |store|) && RvalueFollowed(store, rv)
    ensures OperandsInWidth(store, rv)
  {
    hide OperandVal, InWidth, QuotientFollowed, RemainderFollowed, ShrFollowed;
  }

  predicate StmtFollowed(store: Store, s: Statement, args: nat)
    requires ScalarStmt(s, |store|)
  {
    RunStmt(store, s, args).Ran? && (s.Assign? ==> RvalueFollowed(store, s.rvalue))
  }

  predicate StmtsFollowed(store: Store, stmts: seq<Statement>, args: nat)
    requires forall i :: 0 <= i < |stmts| ==> ScalarStmt(stmts[i], |store|)
    decreases |stmts|
  {
    stmts == [] ||
    (StmtFollowed(store, stmts[0], args) && StmtsFollowed(RunStmt(store, stmts[0], args).store, stmts[1..], args))
  }

  lemma StmtFollows(rho: seq<I64>, store: Store, s: Statement, args: nat)
    requires Represents(rho, store) && ScalarStmt(s, |store|) && StmtFollowed(store, s, args)
    ensures Represents(WordStmt(rho, s), RunStmt(store, s, args).store)
  {
    hide Word, WordRvalue, RvalueVal, OperandsInWidth, OperationFollowed;
    if s.Assign? {
      FollowedInWidth(store, s.rvalue);
      RvalueFollowsIff(rho, store, s.rvalue);
    }
  }

  lemma {:induction false} StmtsFollow(rho: seq<I64>, store: Store, stmts: seq<Statement>, args: nat)
    requires Represents(rho, store) && (forall i :: 0 <= i < |stmts| ==> ScalarStmt(stmts[i], |store|))
    requires StmtsFollowed(store, stmts, args)
    ensures RunStmts(store, stmts, args).Ran?
    ensures Represents(WordStmts(rho, stmts), RunStmts(store, stmts, args).store)
    decreases |stmts|
  {
    hide Represents, WordStmt, RunStmt, ScalarStmt;
    if stmts != [] {
      StmtFollows(rho, store, stmts[0], args);
      RepresentsLength(rho, store);
      StmtsFollow(WordStmt(rho, stmts[0]), RunStmt(store, stmts[0], args).store, stmts[1..], args);
    }
  }

  lemma RepresentsLength(rho: seq<I64>, store: Store)
    requires Represents(rho, store)
    ensures |rho| == |store|
  {
  }

  /** A switch is followed if its discriminant's word is zero only when it is, and the jumps
      lead where the first arm for it does. */
  predicate LeavingFollowed(store: Store, t: Terminator, blocks: nat)
    requires ScalarTerm(t, |store|, blocks)
  {
    && LeavingOf(store, t, blocks).Leaves?
    && (t.SwitchInt? ==>
          var v := OperandVal(store, t.discr).v;
          && (Number(v) != 0 ==> Word(v) != 0)
          && Chosen(t.arms, t.otherwise, if Number(v) != 0 then 1 else 0)
             == if Number(v) != 0 then t.otherwise else FalseTarget(t.arms, t.otherwise))
  }

  lemma LeavingFollows(rho: seq<I64>, store: Store, t: Terminator, blocks: nat)
    requires Represents(rho, store) && ScalarTerm(t, |store|, blocks) && LeavingFollowed(store, t, blocks)
    ensures LeavingOf(store, t, blocks) == Leaves(WordExit(rho, t, blocks))
  {
    hide Represents, WordOperand, OperandVal, Chosen, Wrap;
    BoolWords();
    if t.SwitchInt? { OperandWord(rho, store, t.discr); }
    if t.Assert? { OperandWord(rho, store, t.cond); }
  }

  // ----- whole runs -----

  /** Every operation of the first n blocks is one that the machine follows. */
  predicate RunFollowed(body: Body, b: nat, store: Store, n: nat)
    requires ScalarBody(body) && b < |body.blocks| && |store| == |body.locals|
    decreases n
  {
    n == 0 ||
    var bb := body.blocks[b];
    && StmtsFollowed(store, bb.stmts, body.argCount)
    && var ran := RunStmts(store, bb.stmts, body.argCount);
    && ran.Ran? && LeavingFollowed(ran.store, bb.term, |body.blocks|)
    && var exit := LeavingOf(ran.store, bb.term, |body.blocks|).exit;
    (exit.To? ==> (ChosenInside(bb.term, ran.store, |body.blocks|);
                   RunFollowed(body, exit.block, ran.store, n - 1)))
  }

  /** The words follow the interpreter for as long as its operations are followed. */
  lemma {:induction false} WordsFollow(body: Body, b: nat, rho: seq<I64>, store: Store, n: nat)
    requires ScalarBody(body) && b < |body.blocks| && |store| == |body.locals|
    requires Represents(rho, store) && RunFollowed(body, b, store, n)
    ensures |rho| == |store| && MirAfter(body, b, store, n).At?
    ensures var (exit, rho') := WordAfter(body, b, rho, n);
      MirAfter(body, b, store, n).exit == exit && Represents(rho', MirAfter(body, b, store, n).store)
    decreases n
  {
    hide Represents, StmtsFollowed, LeavingFollowed, RunStmts, LeavingOf, WordStmts, WordExit, ScalarStmt, ScalarTerm;
    RepresentsLength(rho, store);
    if n > 0 {
      var bb := body.blocks[b];
      assert ScalarBlock(bb, |store|, |body.blocks|);
      StmtsFollow(rho, store, bb.stmts, body.argCount);
      var rho1, store1 := WordStmts(rho, bb.stmts), RunStmts(store, bb.stmts, body.argCount).store;
      RepresentsLength(rho1, store1);
      LeavingFollows(rho1, store1, bb.term, |body.blocks|);
      var exit := WordExit(rho1, bb.term, |body.blocks|);
      if exit.To? {
        ChosenInside(bb.term, store1, |body.blocks|);
        WordsFollow(body, exit.block, rho1, store1, n - 1);
      }
    }
  }

  // ----- bodies whose runs are always followed -----

  /** An operand that holds a bool: a bool constant or a local of type bool. */
  predicate BoolOperand(o: Operand, locals: seq<Ty>)
    requires ScalarOperand(o, |locals|)
  {
    match o
    case Constant(c) => c.kind.CBool?
    case Copy(p) => locals[p.local] == BOOL
    case Move(p) => locals[p.local] == BOOL
  }

  /** Copies, sums, differences, products, bitwise and logical operations and negation, of
      anything; Not, and tests for equality, of bools. */
  predicate PlainRvalue(rv: Rvalue, locals: seq<Ty>)
    requires ScalarRvalue(rv, |locals|)
  {
    match rv
    case Use(_) => true
    case BinaryOp(op, l, r) =>
      || Ring(op) || Logical(op)
      || ((op == Eq || op == Ne) && BoolOperand(l, locals) && BoolOperand(r, locals))
    case UnaryOp(op, o) => op == Neg || BoolOperand(o, locals)
  }

  predicate BoolRvalue(rv: Rvalue, locals: seq<Ty>)
    requires ScalarRvalue(rv, |locals|)
  {
    match rv
    case Use(o) => BoolOperand(o, locals)
    case BinaryOp(op, _, _) => Compares(op) || Logical(op)
    case UnaryOp(op, o) => op == Not && BoolOperand(o, locals)
  }

  predicate PlainStmt(s: Statement, locals: seq<Ty>)
    requires ScalarStmt(s, |locals|)
  {
    s.Assign? ==> PlainRvalue(s.rvalue, locals) && (locals[s.dest.local] == BOOL ==> BoolRvalue(s.rvalue, locals))
  }

  /** A switch on a bool whose only arm, if it has one, is for 0. */
  predicate PlainTerm(t: Terminator, locals: seq<Ty>, blocks: nat)
    requires ScalarTerm(t, |locals|, blocks)
  {
    t.SwitchInt? ==> BoolOperand(t.discr, locals) && (t.arms == [] || (|t.arms| == 1 && t.arms[0].0 == 0))
  }

  predicate PlainBlock(bb: BasicBlock, locals: seq<Ty>, blocks: nat)
    requires ScalarBlock(bb, |locals|, blocks)
  {
    (forall i :: 0 <= i < |bb.stmts| ==> PlainStmt(bb.stmts[i], locals)) && PlainTerm(bb.term, locals, blocks)
  }

  /** A condition on the body alone. */
  predicate PlainBody(body: Body)
    requires ScalarBody(body)
  {
    forall b :: 0 <= b < |body.blocks| ==> PlainBlock(body.blocks[b], body.locals, |body.blocks|)
  }

  /** Locals of type bool hold bools, if anything. */
  predicate BoolsHold(store: Store, locals: seq<Ty>) {
    |store| == |locals| && forall l :: 0 <= l < |store| && locals[l] == BOOL && store[l].Some? ==> store[l].value.VBool?
  }

  lemma BoolOperandVal(store: Store, locals: seq<Ty>, o: Operand)
    requires BoolsHold(store, locals) && ScalarOperand(o, |locals|) && BoolOperand(o, locals)
    requires OperandVal(store, o).Good?
    ensures OperandVal(store, o).v.VBool?
  {
  }

  lemma PlainRvalueFollowed(store: Store, locals: seq<Ty>, rv: Rvalue)
    requires BoolsHold(store, locals) && ScalarRvalue(rv, |locals|) && RvalueVal(store, rv).Good?
    ensures PlainRvalue(rv, locals) ==> RvalueFollowed(store, rv)
    ensures BoolRvalue(rv, locals) ==> RvalueVal(store, rv).v.VBool?
  {
    hide OperandVal, BoolOperand, BoolsHold, Wrap, InWidth;
    match rv {
      case Use(o) => if BoolOperand(o, locals) { BoolOperandVal(store, locals, o); }
      case BinaryOp(_, l, r) =>
        if BoolOperand(l, locals) { BoolOperandVal(store, locals, l); }
        if BoolOperand(r, locals) { BoolOperandVal(store, locals, r); }
      case UnaryOp(_, o) => if BoolOperand(o, locals) { BoolOperandVal(store, locals, o); }
    }
  }

  lemma PlainStmtFollowed(store: Store, locals: seq<Ty>, s: Statement, args: nat)
    requires BoolsHold(store, locals) && ScalarStmt(s, |locals|) && PlainStmt(s, locals)
    requires RunStmt(store, s, args).Ran?
    ensures StmtFollowed(store, s, args) && BoolsHold(RunStmt(store, s, args).store, locals)
  {
    hide RvalueVal, RvalueFollowed, PlainRvalue, BoolRvalue;
    if s.Assign? { PlainRvalueFollowed(store, locals, s.rvalue); }
  }

  lemma {:induction false} PlainStmtsFollowed(store: Store, locals: seq<Ty>, stmts: seq<Statement>, args: nat)
    requires BoolsHold(store, locals) && (forall i :: 0 <= i < |stmts| ==> ScalarStmt(stmts[i], |locals|))
    requires forall i :: 0 <= i < |stmts| ==> PlainStmt(stmts[i], locals)
    requires RunStmts(store, stmts, args).Ran?
    ensures StmtsFollowed(store, stmts, args) && BoolsHold(RunStmts(store, stmts, args).store, locals)
    decreases |stmts|
  {
    hide BoolsHold, StmtFollowed, PlainStmt, ScalarStmt, RunStmt;
    BoolsLength(store, locals);
    if stmts != [] {
      PlainStmtFollowed(store, locals, stmts[0], args);
      PlainStmtsFollowed(RunStmt(store, stmts[0], args).store, locals, stmts[1..], args);
    }
  }

  lemma BoolsLength(store: Store, locals: seq<Ty>)
    requires BoolsHold(store, locals)
    ensures |store| == |locals|
  {
  }

  lemma PlainTermFollowed(store: Store, locals: seq<Ty>, t: Terminator, blocks: nat)
    requires BoolsHold(store, locals) && ScalarTerm(t, |locals|, blocks) && PlainTerm(t, locals, blocks)
    requires LeavingOf(store, t, blocks).Leaves?
    ensures LeavingFollowed(store, t, blocks)
  {
    hide OperandVal, BoolOperand, Wrap;
    BoolWords();
    if t.SwitchInt? {
      BoolOperandVal(store, locals, t.discr);
      assert Chosen([], t.otherwise, 1) == t.otherwise;
      if t.arms != [] { assert t.arms[1..] == []; }
    }
  }

  /** On a plain body the machine follows every run of the interpreter that meets no
      fault. */
  lemma {:induction false} PlainRunFollowed(body: Body, b: nat, store: Store, n: nat)
    requires ScalarBody(body) && PlainBody(body) && b < |body.blocks| && BoolsHold(store, body.locals)
    requires |store| == |body.locals| && MirAfter(body, b, store, n).At?
    ensures RunFollowed(body, b, store, n)
    decreases n
  {
    hide BoolsHold, StmtsFollowed, LeavingFollowed, RunStmts, LeavingOf, PlainStmt, PlainTerm, ScalarStmt, ScalarTerm;
    if n > 0 {
      var bb, blocks := body.blocks[b], |body.blocks|;
      assert ScalarBlock(bb, |store|, blocks) && PlainBlock(bb, body.locals, blocks);
      PlainStmtsFollowed(store, body.locals, bb.stmts, body.argCount);
      var store1 := RunStmts(store, bb.stmts, body.argCount).store;
      PlainTermFollowed(store1, body.locals, bb.term, blocks);
      var exit := LeavingOf(store1, bb.term, blocks).exit;
      if exit.To? {
        ChosenInside(bb.term, store1, blocks);
        PlainRunFollowed(body, exit.block, store1, n - 1);
      }
    }
  }

  // ----- the simulation -----

  /** For every n whose operations are followed, the machine reaches what the interpreter
      reaches after n blocks: the same block with the words of its locals and an empty
      operand stack, or the failure that mirrors its end. A Return finds no value to
      return. */
  lemma Simulates(m: Module_, st: State, body: Body, b: nat, rho: seq<I64>, store: Store, n: nat)
    returns (k: nat, rho': seq<I64>)
    requires ScalarBody(body) && InBlock(m, st, body, b, rho) && Represents(rho, store)
    requires |store| == |body.locals| && RunFollowed(body, b, store, n)
    ensures var end := MirAfter(body, b, store, n);
      && end.At? && Represents(rho', end.store)
      && Mirrors(m, Steps(m, st, k), body, end.exit, rho') && (end.exit.To? ==> k >= n)
  {
    hide Represents, RunFollowed, MirAfter, WordAfter, Steps, Mirrors, ScalarBody;
    k := FollowsWords(m, st, body, b, rho, n);
    WordsFollow(body, b, rho, store, n);
    rho' := WordAfter(body, b, rho, n).1;
  }

  /** The emitted module, started from nothing, follows the interpreter from the entry block
      with unwritten locals for as many blocks as their operations are followed. */
  lemma EmittedModuleFollows(m: Module_, body: Body, n: nat) returns (k: nat, rho: seq<I64>)
    requires ScalarBody(body) && body.blocks != [] && m.entry < |m.functions|
    requires m.functions[m.entry].code == BodyBytes(body.blocks)
    requires m.functions[m.entry].blockOffsets == Offsets(body.blocks) && m.functions[m.entry].nLocals == |body.locals|
    requires RunFollowed(body, 0, seq(|body.locals|, i => None), n)
    ensures Start(m).Running?
    ensures var end := MirAfter(body, 0, seq(|body.locals|, i => None), n);
      && end.At? && Represents(rho, end.store)
      && Mirrors(m, Steps(m, Start(m).st, k), body, end.exit, rho) && (end.exit.To? ==> k >= n)
  {
    hide ScalarBody, BodyBytes, Offsets, MirAfter, Mirrors, InBlock, Steps, RunFollowed;
    StartsInEntry(m, body);
    k, rho := Simulates(m, Start(m).st, body, 0, seq(|body.locals|, i => 0), seq(|body.locals|, i => None), n);
  }

  /** The same with a condition on the body alone: of a plain body, the emitted module
      follows the interpreter for as many blocks as that meets no fault. */
  lemma PlainModuleFollows(m: Module_, body: Body, n: nat) returns (k: nat, rho: seq<I64>)
    requires ScalarBody(body) && PlainBody(body) && body.blocks != [] && m.entry < |m.functions|
    requires m.functions[m.entry].code == BodyBytes(body.blocks)
    requires m.functions[m.entry].blockOffsets == Offsets(body.blocks)
    requires m.functions[m.entry].nLocals == |body.locals|
    requires MirAfter(body, 0, seq(|body.locals|, i => None), n).At?
    ensures Start(m).Running?
    ensures var end := MirAfter(body, 0, seq(|body.locals|, i => None), n);
      && Represents(rho, end.store)
      && Mirrors(m, Steps(m, Start(m).st, k), body, end.exit, rho) && (end.exit.To? ==> k >= n)
  {
    hide ScalarBody, PlainBody, BodyBytes, Offsets, MirAfter, Mirrors, Steps, RunFollowed;
    PlainRunFollowed(body, 0, seq(|body.locals|, i => None), n);
    k, rho := EmittedModuleFollows(m, body, n);
  }

  /** From any block and any store whose bool locals hold bools. */
  lemma PlainSimulates(m: Module_, st: State, body: Body, b: nat, rho: seq<I64>, store: Store, n: nat)
    returns (k: nat, rho': seq<I64>)
    requires ScalarBody(body) && PlainBody(body) && InBlock(m, st, body, b, rho) && Represents(rho, store)
    requires BoolsHold(store, body.locals) && MirAfter(body, b, store, n).At?
    ensures var end := MirAfter(body, b, store, n);
      && Represents(rho', end.store)
      && Mirrors(m, Steps(m, st, k), body, end.exit, rho') && (end.exit.To? ==> k >= n)
  {
    hide ScalarBody, PlainBody, MirAfter, Mirrors, Steps, RunFollowed, Represents;
    PlainRunFollowed(body, b, store, n);
    k, rho' := Simulates(m, st, body, b, rho, store, n);
  }
}

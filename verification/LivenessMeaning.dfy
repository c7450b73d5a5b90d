/** Liveness against runs of the MIR interpreter: a local that is not live does not
    matter. */
module LivenessMeaning {
  import opened Mir
  import opened Interp
  import opened Emitter
  import opened MirRun
  import opened Reads
  import opened Liveness

  /** Two stores agree on the locals that the places mention. */
  ghost predicate AgreeOn(a: Store, b: Store, ps: seq<Place>) {
    |a| == |b| && forall x: nat :: x < |a| && Mentions(ps, x) ==> a[x] == b[x]
  }

  lemma OperandAgrees(a: Store, b: Store, o: Operand, ps: seq<Place>)
    requires AgreeOn(a, b, ps) && ScalarOperand(o, |a|) && forall p :: Names(o, p) ==> p in ps
    ensures OperandVal(a, o) == OperandVal(b, o)
  {
    if !o.Constant? {
      assert Names(o, o.place);
      var i: nat :| i < |ps| && ps[i] == o.place;
      assert Mentions(ps, o.place.local);
    }
  }

  /** The value of an rvalue depends on nothing but what it reads. */
  lemma RvalueAgrees(a: Store, b: Store, rv: Rvalue)
    requires AgreeOn(a, b, RvalueReads(rv)) && ScalarRvalue(rv, |a|)
    ensures RvalueVal(a, rv) == RvalueVal(b, rv)
  {
    hide OperandVal, AgreeOn, RvalueReads, ScalarOperand;
    AgreeLength(a, b, RvalueReads(rv));
    forall i: nat, o, p | OperandAt(rv, i, o) && Names(o, p) ensures p in RvalueReads(rv) { RvalueReadsIff(rv, p); }
    match rv {
      case Use(o) =>
        assert OperandAt(rv, 0, o);
        OperandAgrees(a, b, o, RvalueReads(rv));
      case BinaryOp(_, l, r) =>
        assert OperandAt(rv, 0, l) && OperandAt(rv, 1, r);
        OperandAgrees(a, b, l, RvalueReads(rv));
        OperandAgrees(a, b, r, RvalueReads(rv));
      case UnaryOp(_, o) =>
        assert OperandAt(rv, 0, o);
        OperandAgrees(a, b, o, RvalueReads(rv));
    }
  }

  lemma AgreeLength(a: Store, b: Store, ps: seq<Place>)
    requires AgreeOn(a, b, ps)
    ensures |a| == |b|
  {
  }

  /** How a block is left depends on nothing but what its terminator reads. */
  lemma LeavingAgrees(a: Store, b: Store, t: Terminator, blocks: nat)
    requires AgreeOn(a, b, TerminatorReads(t)) && ScalarTerm(t, |a|, blocks)
    ensures LeavingOf(a, t, blocks) == LeavingOf(b, t, blocks)
  {
    hide OperandVal, AgreeOn, TerminatorReads, Chosen;
    AgreeLength(a, b, TerminatorReads(t));
    forall i: nat, o, p | OperandAtEnd(t, i, o) && Names(o, p) ensures p in TerminatorReads(t) {
      TerminatorReadsIff(t, p);
    }
    if t.SwitchInt? {
      assert OperandAtEnd(t, 0, t.discr);
      OperandAgrees(a, b, t.discr, TerminatorReads(t));
    }
    if t.Assert? {
      assert OperandAtEnd(t, 0, t.cond);
      OperandAgrees(a, b, t.cond, TerminatorReads(t));
    }
  }

  lemma {:induction false} ChosenIsArm(arms: seq<(nat, BlockId)>, otherwise: BlockId, v: nat)
    ensures var b := Chosen(arms, otherwise, v);
      b == otherwise || exists i: nat :: i < |arms| && arms[i] == (v, b)
  {
    if arms != [] && arms[0].0 != v {
      ChosenIsArm(arms[1..], otherwise, v);
      assert forall i: nat :: i < |arms[1..]| ==> arms[1..][i] == arms[i + 1];
    }
  }

  /** Control goes nowhere but to a successor. */
  lemma LeavesToSuccessor(store: Store, t: Terminator, blocks: nat)
    requires ScalarTerm(t, |store|, blocks)
    ensures var r := LeavingOf(store, t, blocks); r.Leaves? && r.exit.To? ==> r.exit.block in Successors(t)
  {
    var r := LeavingOf(store, t, blocks);
    if r.Leaves? && r.exit.To? {
      SuccessorsIff(t, r.exit.block);
      if t.SwitchInt? {
        ChosenIsArm(t.arms, t.otherwise, 0);
        ChosenIsArm(t.arms, t.otherwise, 1);
      }
    }
  }

  // ----- liveness one step at a time -----

  /** A local is live before a statement that reads it, and before one that does not
      assign to it if it is live behind it. */
  lemma LiveBeforeStmt(body: Body, b: nat, i: nat, x: Local)
    requires b < |body.blocks| && i < |body.blocks[b].stmts|
    ensures var s := body.blocks[b].stmts[i];
      LiveAt(body, Point(b, i), x) <==>
      StmtReadsLocal(s, x) || (!(s.Assign? && s.dest.local == x) && LiveAt(body, Point(b, i + 1), x))
  {
    hide LiveAt, StmtReadsLocal, Mentions;
    var p, q := Point(b, i), Point(b, i + 1);
    StmtReadsIff(body.blocks[b].stmts[i], x);
    if ReadsLocal(body, p, x) { LiveHere(body, p, x); }
    if !Writes(body, p, x) && LiveAt(body, q, x) { LiveAhead(body, p, q, x); }
    if LiveAt(body, p, x) { LiveUnfold(body, p, x); }
  }

  /** Some block that control can go to from here begins with the local live. */
  ghost predicate LiveNext(body: Body, t: Terminator, x: Local) {
    exists c: BlockId :: LeadsTo(t, c) && LiveAt(body, Point(c, 0), x)
  }

  /** The same for a terminator, of which only a call assigns. */
  lemma LiveBeforeEnd(body: Body, b: nat, x: Local)
    requires b < |body.blocks|
    ensures var t, p := body.blocks[b].term, Point(b, |body.blocks[b].stmts|);
      && (LiveAt(body, p, x) <==>
            EndReadsLocal(t, x) || (!(t.Call? && t.destination.local == x) && LiveNext(body, t, x)))
      && (LiveOnExit(body, b, x) <==> LiveNext(body, t, x))
  {
    hide LiveAt, EndReadsLocal, Mentions, LeadsTo, Successors;
    var t, p := body.blocks[b].term, Point(b, |body.blocks[b].stmts|);
    EndReadsIff(t, x);
    forall c: BlockId ensures c in Succs(body, b) <==> LeadsTo(t, c) { SuccessorsIff(t, c); }
    if ReadsLocal(body, p, x) { LiveHere(body, p, x); }
    if !Writes(body, p, x) && LiveNext(body, t, x) {
      var c: BlockId :| LeadsTo(t, c) && LiveAt(body, Point(c, 0), x);
      LiveAhead(body, p, Point(c, 0), x);
    }
    if LiveAt(body, p, x) { LiveUnfold(body, p, x); }
  }

  // ----- live locals decide -----

  /** Two stores agree on every local that is live at a point. */
  ghost predicate AgreeLive(a: Store, b: Store, body: Body, p: Point) {
    |a| == |b| && forall x: nat :: x < |a| && LiveAt(body, p, x) ==> a[x] == b[x]
  }

  lemma LiveCoversReads(a: Store, b: Store, body: Body, p: Point)
    requires IsPoint(body, p) && AgreeLive(a, b, body, p)
    ensures AgreeOn(a, b, ReadsAt(body, p))
  {
    forall x: nat | x < |a| && Mentions(ReadsAt(body, p), x) ensures a[x] == b[x] { LiveHere(body, p, x); }
  }

  /** One statement takes stores that agree on the locals live before it to stores that
      agree on the locals live after it, or faults on both. */
  lemma StmtAgrees(a: Store, b: Store, body: Body, k: nat, i: nat)
    requires k < |body.blocks| && i < |body.blocks[k].stmts| && AgreeLive(a, b, body, Point(k, i))
    requires ScalarStmt(body.blocks[k].stmts[i], |a|)
    ensures var s, n := body.blocks[k].stmts[i], body.argCount;
      var x, y := RunStmt(a, s, n), RunStmt(b, s, n);
      if x.Stopped? then x == y else y.Ran? && AgreeLive(x.store, y.store, body, Point(k, i + 1))
  {
    hide RvalueVal, LiveAt;
    var s, p, q := body.blocks[k].stmts[i], Point(k, i), Point(k, i + 1);
    LiveCoversReads(a, b, body, p);
    if s.Assign? { RvalueAgrees(a, b, s.rvalue); }
    forall x: nat | x < |a| && LiveAt(body, q, x) && !(s.Assign? && s.dest.local == x) ensures a[x] == b[x] {
      LiveAhead(body, p, q, x);
    }
  }

  lemma {:induction false} StmtsAgree(a: Store, b: Store, body: Body, k: nat, i: nat)
    requires k < |body.blocks| && i <= |body.blocks[k].stmts| && AgreeLive(a, b, body, Point(k, i))
    requires forall j :: 0 <= j < |body.blocks[k].stmts| ==> ScalarStmt(body.blocks[k].stmts[j], |a|)
    ensures var rest := body.blocks[k].stmts[i..];
      var x, y := RunStmts(a, rest, body.argCount), RunStmts(b, rest, body.argCount);
      if x.Stopped? then x == y
      else y.Ran? && AgreeLive(x.store, y.store, body, Point(k, |body.blocks[k].stmts|))
    decreases |body.blocks[k].stmts| - i
  {
    hide AgreeLive, RunStmt, ScalarStmt;
    LiveLength(a, b, body, Point(k, i));
    var stmts := body.blocks[k].stmts;
    if i < |stmts| {
      StmtAgrees(a, b, body, k, i);
      assert stmts[i..][1..] == stmts[i + 1..];
      var x, y := RunStmt(a, stmts[i], body.argCount), RunStmt(b, stmts[i], body.argCount);
      if x.Ran? { StmtsAgree(x.store, y.store, body, k, i + 1); }
    }
  }

  lemma LiveLength(a: Store, b: Store, body: Body, p: Point)
    requires AgreeLive(a, b, body, p)
    ensures |a| == |b|
  {
  }

  /** The same exits and faults. */
  ghost predicate SameEnd(x: MirState, y: MirState) {
    if x.At? then y.At? && x.exit == y.exit else x == y
  }

  /** Locals that are not live do not matter: from stores that agree on the locals live at
      the start of a block, the interpreter goes through the same blocks, for any number of
      them, and ends or faults in the same way. */
  lemma {:induction false} DeadLocalsDoNotMatter(body: Body, k: nat, a: Store, b: Store, n: nat)
    requires ScalarBody(body) && k < |body.blocks| && |a| == |body.locals| && AgreeLive(a, b, body, Point(k, 0))
    ensures |b| == |body.locals| && SameEnd(MirAfter(body, k, a, n), MirAfter(body, k, b, n))
    decreases n
  {
    hide AgreeLive, RunStmts, LeavingOf, ScalarStmt, ScalarTerm;
    LiveLength(a, b, body, Point(k, 0));
    if n > 0 {
      var bb, blocks := body.blocks[k], |body.blocks|;
      assert ScalarBlock(bb, |a|, blocks);
      StmtsAgree(a, b, body, k, 0);
      assert bb.stmts[0..] == bb.stmts;
      var x, y := RunStmts(a, bb.stmts, body.argCount), RunStmts(b, bb.stmts, body.argCount);
      if x.Ran? {
        var p := Point(k, |bb.stmts|);
        LiveCoversReads(x.store, y.store, body, p);
        LiveLength(x.store, y.store, body, p);
        LeavingAgrees(x.store, y.store, bb.term, blocks);
        var r := LeavingOf(x.store, bb.term, blocks);
        if r.Leaves? && r.exit.To? {
          ChosenInside(bb.term, x.store, blocks);
          LeavesToSuccessor(x.store, bb.term, blocks);
          ScalarNoCall(bb.term, |a|, blocks);
          EntryAgrees(x.store, y.store, body, k, r.exit.block);
          DeadLocalsDoNotMatter(body, r.exit.block, x.store, y.store, n - 1);
        }
      }
    }
  }

  lemma ScalarNoCall(t: Terminator, n: nat, blocks: nat)
    requires ScalarTerm(t, n, blocks)
    ensures !t.Call?
  {
  }

  lemma EntryAgrees(a: Store, b: Store, body: Body, k: nat, c: nat)
    requires k < |body.blocks| && AgreeLive(a, b, body, Point(k, |body.blocks[k].stmts|))
    requires c in Succs(body, k) && !body.blocks[k].term.Call?
    ensures AgreeLive(a, b, body, Point(c, 0))
  {
    var p := Point(k, |body.blocks[k].stmts|);
    forall x: nat | x < |a| && LiveAt(body, Point(c, 0), x) ensures a[x] == b[x] {
      LiveAhead(body, p, Point(c, 0), x);
    }
  }
}

/** What the visitors of crates/glyim-borrowck/src/visitor.rs collect, by position. */
module Reads {
  import opened Mir

  /** Operand o stands at position i of an rvalue. */
  predicate OperandAt(rv: Rvalue, i: nat, o: Operand) {
    match rv
    case Use(a) => i == 0 && o == a
    case BinaryOp(_, a, b) => (i == 0 && o == a) || (i == 1 && o == b)
    case UnaryOp(_, a) => i == 0 && o == a
    case Cast(a, _) => i == 0 && o == a
    case Repeat(a, _) => i == 0 && o == a
    case Aggregate(os) => i < |os| && o == os[i]
    case Ref(_, _) => false
    case Discriminant(_) => false
    case Len(_) => false
  }

  /** The place an rvalue inspects without an operand. */
  predicate Inspects(rv: Rvalue, p: Place) {
    (rv.Ref? && p == rv.refPlace) || (rv.Discriminant? && p == rv.place) || (rv.Len? && p == rv.place)
  }

  /** Operand o stands at position i of a terminator: a call's callee at 0 and its
      arguments behind it. */
  predicate OperandAtEnd(t: Terminator, i: nat, o: Operand) {
    match t
    case SwitchInt(d, _, _, _) => i == 0 && o == d
    case Assert(c, _, _, _) => i == 0 && o == c
    case Call(f, args, _, _, _) => (i == 0 && o == f) || (0 < i <= |args| && o == args[i - 1])
    case Goto(_) => false
    case Return => false
    case Unreachable => false
    case Drop(_, _, _) => false
  }

  /** An operand reads a place by copying it or moving out of it. */
  predicate Names(o: Operand, p: Place) { o == Copy(p) || o == Move(p) }

  /** Where control can go from a terminator. */
  predicate LeadsTo(t: Terminator, b: BlockId) {
    match t
    case Goto(x) => b == x
    case SwitchInt(_, _, arms, o) => b == o || exists i: nat :: i < |arms| && arms[i].1 == b
    case Call(_, _, _, x, c) => x == Some(b) || c == Some(b)
    case Assert(_, _, x, c) => b == x || c == Some(b)
    case Drop(_, x, c) => b == x || c == Some(b)
    case Return => false
    case Unreachable => false
  }

  ghost predicate ReadByOperand(rv: Rvalue, p: Place) {
    exists i: nat, o :: OperandAt(rv, i, o) && Names(o, p)
  }

  ghost predicate ReadAtEnd(t: Terminator, p: Place) {
    exists i: nat, o :: OperandAtEnd(t, i, o) && Names(o, p)
  }

  lemma OperandReadsIff(o: Operand, p: Place)
    ensures p in OperandReads(o) <==> Names(o, p)
  {
  }

  lemma {:induction false} OperandsReadsIff(os: seq<Operand>, p: Place)
    ensures p in OperandsReads(os) <==> exists i: nat :: i < |os| && Names(os[i], p)
  {
    if os != [] {
      OperandReadsIff(os[0], p);
      OperandsReadsIff(os[1..], p);
      assert forall i: nat :: i < |os[1..]| ==> os[1..][i] == os[i + 1];
      assert forall i: nat :: 0 < i < |os| ==> os[i] == os[1..][i - 1];
    }
  }

  lemma TwoReads(rv: Rvalue, p: Place)
    requires rv.BinaryOp?
    ensures ReadByOperand(rv, p) <==> Names(rv.left, p) || Names(rv.right, p)
  {
    assert OperandAt(rv, 0, rv.left) && OperandAt(rv, 1, rv.right);
  }

  lemma OneRead(rv: Rvalue, o: Operand, p: Place)
    requires OperandAt(rv, 0, o) && !rv.BinaryOp? && !rv.Aggregate?
    ensures ReadByOperand(rv, p) <==> Names(o, p)
  {
  }

  /** The places an rvalue reads are exactly those of its operands and the one it
      inspects. */
  lemma RvalueReadsIff(rv: Rvalue, p: Place)
    ensures p in RvalueReads(rv) <==> ReadByOperand(rv, p) || Inspects(rv, p)
  {
    match rv {
      case Use(o) => OneRead(rv, o, p);
      case UnaryOp(_, o) => OneRead(rv, o, p);
      case Cast(o, _) => OneRead(rv, o, p);
      case Repeat(o, _) => OneRead(rv, o, p);
      case BinaryOp(_, l, r) =>
        OperandReadsIff(l, p);
        OperandReadsIff(r, p);
        TwoReads(rv, p);
      case Aggregate(os) =>
        OperandsReadsIff(os, p);
        assert forall i: nat :: i < |os| ==> OperandAt(rv, i, os[i]);
      case _ =>
    }
  }

  /** The places a terminator reads: a switch's discriminant, an assertion's condition, a
      call's callee and arguments; not a call's destination and not a dropped place. */
  lemma TerminatorReadsIff(t: Terminator, p: Place)
    ensures p in TerminatorReads(t) <==> ReadAtEnd(t, p)
  {
    match t {
      case SwitchInt(d, _, _, _) => assert OperandAtEnd(t, 0, d);
      case Assert(c, _, _, _) => assert OperandAtEnd(t, 0, c);
      case Call(f, args, _, _, _) =>
        OperandReadsIff(f, p);
        OperandsReadsIff(args, p);
        assert OperandAtEnd(t, 0, f);
        assert forall i: nat :: i < |args| ==> OperandAtEnd(t, i + 1, args[i]);
      case _ =>
    }
  }

  lemma {:induction false} TargetsIff(arms: seq<(nat, BlockId)>, b: BlockId)
    ensures b in Targets(arms) <==> exists i: nat :: i < |arms| && arms[i].1 == b
  {
    if arms != [] {
      TargetsIff(arms[1..], b);
      assert forall i: nat :: i < |arms[1..]| ==> arms[1..][i] == arms[i + 1];
      assert forall i: nat :: 0 < i < |arms| ==> arms[i] == arms[1..][i - 1];
    }
  }

  lemma SuccessorsIff(t: Terminator, b: BlockId)
    ensures b in Successors(t) <==> LeadsTo(t, b)
  {
    if t.SwitchInt? { TargetsIff(t.arms, b); }
  }

  // ----- locals -----

  ghost predicate StmtReadsLocal(s: Statement, x: Local) {
    s.Assign? && exists p: Place :: (ReadByOperand(s.rvalue, p) || Inspects(s.rvalue, p)) && p.local == x
  }

  ghost predicate EndReadsLocal(t: Terminator, x: Local) {
    exists p: Place :: ReadAtEnd(t, p) && p.local == x
  }

  lemma MentionsIff(ps: seq<Place>, x: Local)
    ensures Mentions(ps, x) <==> exists p: Place :: p in ps && p.local == x
  {
  }

  lemma StmtReadsIff(s: Statement, x: Local)
    ensures Mentions(StmtReads(s), x) <==> StmtReadsLocal(s, x)
  {
    hide RvalueReads, ReadByOperand, Inspects, Mentions;
    MentionsIff(StmtReads(s), x);
    if s.Assign? {
      forall p: Place ensures p in RvalueReads(s.rvalue) <==> ReadByOperand(s.rvalue, p) || Inspects(s.rvalue, p) {
        RvalueReadsIff(s.rvalue, p);
      }
    }
  }

  lemma EndReadsIff(t: Terminator, x: Local)
    ensures Mentions(TerminatorReads(t), x) <==> EndReadsLocal(t, x)
  {
    hide TerminatorReads, ReadAtEnd, Mentions;
    MentionsIff(TerminatorReads(t), x);
    forall p: Place ensures p in TerminatorReads(t) <==> ReadAtEnd(t, p) { TerminatorReadsIff(t, p); }
  }
}

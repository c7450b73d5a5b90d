/** When the two-phase worklist is exact, and a body on which it never stops. */
module TwoPhaseLimits {
  import opened Mir
  import opened TwoPhase
  import opened Reads

  // ----- reservation one step at a time -----

  /** A loan is reserved behind a statement exactly if it is the loan itself, or the loan
      is reserved before it and it does not read the loan's destination. */
  lemma ReservedBehindStmt(body: Body, loan: Loan, b: nat, i: nat)
    requires IsLoan(body, loan) && b < |body.blocks| && i < Len_(body, b)
    ensures Reserved(body, loan, Point(b, i + 1)) <==>
      || (b == loan.block && i == loan.stmt)
      || (Reserved(body, loan, Point(b, i)) && !StmtReadsLocal(body.blocks[b].stmts[i], loan.dest))
  {
    hide Reserved, StmtReadsLocal, Mentions, Succs, IsLoan;
    var p, q := Point(b, i), Point(b, i + 1);
    ReservedStart(body, loan);
    StmtReadsIff(body.blocks[b].stmts[i], loan.dest);
    if Reserved(body, loan, p) && Passes(body, p, loan.dest) { ReservedAhead(body, loan, p, q); }
    if Reserved(body, loan, q) { ReservedFrom(body, loan, q); }
  }

  /** The block leads to b and ends with the loan still reserved. */
  ghost predicate ReservedInto(body: Body, loan: Loan, p: nat, b: nat)
    requires IsLoan(body, loan)
  {
    p < |body.blocks| && LeadsTo(body.blocks[p].term, b) && Reserved(body, loan, Point(p, Len_(body, p)))
  }

  /** At the start of a block it is reserved exactly if it is at the end of one that leads
      there: terminators activate nothing. */
  lemma ReservedAtEntry(body: Body, loan: Loan, b: nat)
    requires IsLoan(body, loan)
    ensures Reserved(body, loan, Point(b, 0)) <==> exists p: nat :: ReservedInto(body, loan, p, b)
  {
    hide Reserved, LeadsTo, Successors, IsLoan;
    var q := Point(b, 0);
    if p: nat :| ReservedInto(body, loan, p, b) {
      SuccessorsIff(body.blocks[p].term, b);
      ReservedAhead(body, loan, Point(p, Len_(body, p)), q);
    }
    if Reserved(body, loan, q) {
      ReservedFrom(body, loan, q);
      var p :| IsPoint(body, p) && Reserved(body, loan, p) && Passes(body, p, loan.dest) && Flows(body, p, q);
      SuccessorsIff(body.blocks[p.block].term, b);
      assert ReservedInto(body, loan, p.block, b);
    }
  }

  lemma ReservedFrom(body: Body, loan: Loan, q: Point)
    requires IsLoan(body, loan) && Reserved(body, loan, q)
    ensures q == Point(loan.block, loan.stmt + 1) ||
      exists p :: IsPoint(body, p) && Reserved(body, loan, p) && Passes(body, p, loan.dest) && Flows(body, p, q)
  {
    var path :| QuietPath(body, loan, path) && path[|path| - 1] == q;
    if |path| > 1 {
      var init := path[..|path| - 1];
      assert Reserved(body, loan, init[|init| - 1]);
    }
  }

  // ----- disturbed loans -----

  /** The point just after the loan has lost its bit. */
  ghost predicate Overwritten(body: Body, loan: Loan, st: State) {
    Shaped(body, st) && IsLoan(body, loan) && loan.stmt + 1 !in st.bits[loan.block]
  }

  lemma StepOverwrites(body: Body, loan: Loan, st: State)
    requires Shaped(body, st) && IsLoan(body, loan) && st.queue != []
    requires !Quiet(body, loan.block, 0, loan.stmt + 1, loan.dest)
    requires Overwritten(body, loan, st) || st.queue[0] == loan.block
    ensures Overwritten(body, loan, Step(body, loan.dest, st))
  {
    assert st.queue[0] in st.queue;
    StepShaped(body, loan.dest, st);
  }

  /** Every state of a disturbed run still waits for the loan's block or has lost
      the loan's own point. */
  lemma {:induction false} DisturbedRun(body: Body, loan: Loan, k: nat)
    requires Closed(body) && IsLoan(body, loan) && Shaped(body, Init(body, loan))
    requires !Quiet(body, loan.block, 0, loan.stmt + 1, loan.dest)
    ensures var st := After(body, loan.dest, Init(body, loan), k);
      Inv(body, loan, st, false) || Overwritten(body, loan, st)
  {
    hide Closed, IsLoan, Quiet, Init, Inv;
    if k == 0 {
      InitInv(body, loan);
    } else {
      DisturbedRun(body, loan, k - 1);
      var st := After(body, loan.dest, Init(body, loan), k - 1);
      if st.queue != [] {
        if Overwritten(body, loan, st) || st.queue[0] == loan.block {
          StepOverwrites(body, loan, st);
        } else {
          StepInv(body, loan, st, false);
        }
      }
    }
  }

  /** A reserved way back to the loan's block keeps that block on the list. */
  lemma NotDoneWhileWaiting(body: Body, loan: Loan, st: State)
    requires Rows(body, loan, st, false) && Flags(body, st) && st.queue == []
    ensures !Reserved(body, loan, Point(loan.block, 0))
  {
    assert Row(body, loan, st, loan.block, false);
    if Reserved(body, loan, Point(loan.block, 0)) {
      var path :| QuietPath(body, loan, path) && path[|path| - 1] == Point(loan.block, 0);
      PathCovered(body, loan, st, false, path);
    }
  }

  lemma LostPointNotExact(body: Body, loan: Loan, st: State)
    requires Overwritten(body, loan, st)
    ensures !Exact(body, loan, st.bits)
  {
    ReservedStart(body, loan);
    assert IsPoint(body, Point(loan.block, loan.stmt + 1));
  }

  lemma DisturbedNotExact(body: Body, loan: Loan, k: nat, bits: seq<set<nat>>)
    requires Closed(body) && IsLoan(body, loan) && !Undisturbed(body, loan) && Halted(body, loan, k, bits)
    ensures !Exact(body, loan, bits)
  {
    var st := After(body, loan.dest, Init(body, loan), k);
    DisturbedRun(body, loan, k);
    if Inv(body, loan, st, false) {
      NotDoneWhileWaiting(body, loan, st);
    } else {
      LostPointNotExact(body, loan, st);
    }
  }

  lemma AfterStep(body: Body, d: Local, st: State, m: nat)
    requires Shaped(body, st) && Shaped(body, Step(body, d, st))
    ensures After(body, d, st, 1 + m) == After(body, d, Step(body, d, st), m)
  {
    AfterPlus(body, d, st, 1, m);
    assert After(body, d, st, 0) == st;
  }

  ghost predicate HaltsFrom(body: Body, loan: Loan, st: State, m: nat)
    requires Shaped(body, st) && IsLoan(body, loan)
  {
    After(body, loan.dest, st, m).queue == [] && Exact(body, loan, After(body, loan.dest, st, m).bits)
  }

  lemma {:induction false} UndisturbedHalts(body: Body, loan: Loan, st: State, seen: bool)
    requires Inv(body, loan, st, seen) && Undisturbed(body, loan)
    requires seen ==> Quiet(body, loan.block, 0, loan.stmt + 1, loan.dest)
    ensures exists m: nat :: HaltsFrom(body, loan, st, m)
    decreases Unset(st.entry), |st.queue|
  {
    if st.queue == [] {
      FinalExact(body, loan, st, seen);
      assert HaltsFrom(body, loan, st, 0);
    } else {
      var st' := Step(body, loan.dest, st);
      Advance(body, loan, st, seen);
      UndisturbedHalts(body, loan, st', seen || st.queue[0] == loan.block);
      var m: nat :| HaltsFrom(body, loan, st', m);
      AfterStep(body, loan.dest, st, m);
      assert HaltsFrom(body, loan, st, 1 + m);
    }
  }

  /** The worklist stops with exact bits if and only if the loan is undisturbed. */
  lemma HaltsExactlyIffUndisturbed(body: Body, loan: Loan)
    requires Closed(body) && IsLoan(body, loan)
    ensures (exists k: nat, bits :: Halted(body, loan, k, bits) && Exact(body, loan, bits)) <==> Undisturbed(body, loan)
  {
    if Undisturbed(body, loan) {
      InitInv(body, loan);
      UndisturbedHalts(body, loan, Init(body, loan), false);
      var m: nat :| HaltsFrom(body, loan, Init(body, loan), m);
      assert Halted(body, loan, m, After(body, loan.dest, Init(body, loan), m).bits);
    } else {
      forall k: nat, bits | Halted(body, loan, k, bits) ensures !Exact(body, loan, bits) {
        DisturbedNotExact(body, loan, k, bits);
      }
    }
  }

  // ----- a body on which the worklist never stops -----

  /** Block 0 reads its borrow's destination before borrowing and loops; blocks 1,
      2 and 3 form a cycle entered from block 0. */
  function Loop(): Body {
    var read := Assign(Place(2, []), Use(Copy(Place(1, []))));
    var borrow := Assign(Place(1, []), Ref(Place(0, []), Mut(true)));
    Body([BasicBlock([read, borrow], SwitchInt(Copy(Place(3, [])), 0, [(0, 1)], 0)),
          BasicBlock([], Goto(2)), BasicBlock([], Goto(3)), BasicBlock([], Goto(1))], [0, 0, 0, 0], 0)
  }

  function LoopLoan(): Loan { Loan(0, 1, 1) }

  lemma LoopEdges()
    ensures |Loop().blocks| == 4 && IsLoan(Loop(), LoopLoan()) && Closed(Loop())
    ensures Succs(Loop(), 0) == [1, 0] && Succs(Loop(), 1) == [2] && Succs(Loop(), 2) == [3] && Succs(Loop(), 3) == [1]
  {
    var arms: seq<(nat, BlockId)> := [(0, 1)];
    assert arms[1..] == [];
    assert Targets(arms) == [1];
    assert Succs(Loop(), 0) == [1, 0];
  }

  lemma LoopPreds(exit: seq<bool>)
    requires |exit| == 4
    ensures |Loop().blocks| == 4
    ensures AnyPred(Loop(), exit, 0) == exit[0] && AnyPred(Loop(), exit, 1) == (exit[0] || exit[3])
    ensures AnyPred(Loop(), exit, 2) == exit[1] && AnyPred(Loop(), exit, 3) == exit[2]
  {
    LoopEdges();
    assert 1 in Succs(Loop(), 0) && 0 in Succs(Loop(), 0) && 2 in Succs(Loop(), 1);
    assert 3 in Succs(Loop(), 2) && 1 in Succs(Loop(), 3);
  }

  /** The transfer of the empty blocks, and of block 0 whose first statement activates. */
  lemma LoopTransfer(b: nat, e: bool)
    requires b < 4
    ensures |Loop().blocks| == 4
    ensures BitsFrom(Loop(), b, 1, 0, e) == if e then {0} else {}
    ensures ExitFrom(Loop(), b, 1, 0, e) == (e && b != 0)
  {
    LoopEdges();
    if b == 0 {
      assert Activates(Loop(), 0, 0, 1) by { assert [Place(1, [])][0].local == 1; }
      assert Quiet(Loop(), 0, 0, 0, 1) && !Quiet(Loop(), 0, 0, 1, 1) && !Quiet(Loop(), 0, 0, 2, 1);
      assert Len_(Loop(), 0) == 2;
    } else {
      assert Len_(Loop(), b) == 0 && Quiet(Loop(), b, 0, 0, 1);
    }
  }

  function Next(b: nat): nat { if b == 3 then 1 else b + 1 }

  function Prev(b: nat): nat { if b <= 1 then 3 else b - 1 }

  /** One step at a block of the cycle whose exit disagrees with its entry flag and
      whose successor's flag then flips. */
  lemma CycleStep(st: State)
    requires Shaped(Loop(), st) && st.queue != []
    requires var b := st.queue[0];
      && 0 < b < 4 && |st.entry| == |st.exit| == 4 && st.exit[b] != st.entry[b] && (b == 3 ==> !st.exit[0])
      && st.entry[Next(b)] != st.entry[b] && Next(b) !in st.queue[1..]
    ensures var b := st.queue[0];
      && |st.bits| == 4
      && Step(Loop(), 1, st) ==
        State(st.entry[Next(b) := st.entry[b]], st.exit[b := st.entry[b]],
              st.bits[b := if st.entry[b] then {0} else {}], st.queue[1..] + [Next(b)])
  {
    LoopEdges();
    var b := st.queue[0];
    var s, e := Next(b), st.entry[b];
    assert b in st.queue;
    LoopTransfer(b, e);
    var exits := st.exit[b := e];
    LoopPreds(exits);
    assert Succs(Loop(), b) == [s] && [s][1..] == [];
    assert Propagate(Loop(), exits, [s], st.entry, st.queue[1..]) == (st.entry[s := e], st.queue[1..] + [s]);
  }

  /** A lone change of flag travelling round the cycle. */
  ghost predicate Pulse(st: State, b: nat) {
    && Shaped(Loop(), st) && 0 < b < 4 && |st.entry| == |st.exit| == 4
    && st.queue == [b, Prev(b)] && !st.exit[0]
    && st.entry[b] != st.exit[b] && st.entry[Prev(b)] != st.exit[Prev(b)]
    && st.entry[b] != st.entry[Prev(b)] && st.entry[b] != st.entry[Next(b)] && st.entry[b] != st.exit[Next(b)]
  }

  lemma PulseMoves(st: State, b: nat)
    requires Pulse(st, b)
    ensures Pulse(Step(Loop(), 1, st), Prev(b))
  {
    assert st.queue[1..] == [Prev(b)];
    CycleStep(st);
    StepShaped(Loop(), 1, st);
    assert Step(Loop(), 1, st).queue == [Prev(b), Next(b)];
  }

  lemma {:induction false} PulseForever(st: State, b: nat, k: nat)
    requires Pulse(st, b)
    ensures exists c :: Pulse(After(Loop(), 1, st, k), c)
  {
    if k == 0 {
      assert Pulse(After(Loop(), 1, st, 0), b);
    } else {
      PulseForever(st, b, k - 1);
      var c :| Pulse(After(Loop(), 1, st, k - 1), c);
      PulseMoves(After(Loop(), 1, st, k - 1), c);
      assert Pulse(After(Loop(), 1, st, k), Prev(c));
    }
  }

  const T := true
  const F := false

  /** Propagating from block 0: first to block 1, then to block 0 itself. */
  lemma PropagateFromZero(exit: seq<bool>, entry: seq<bool>, queue: seq<nat>)
    requires |exit| == |entry| == 4
    ensures |Loop().blocks| == 4 && Succs(Loop(), 0) == [1, 0]
    ensures var now := exit[0] || exit[3];
      var entry' := entry[1 := now];
      var queue' := if now == entry[1] || 1 in queue then queue else queue + [1];
      Propagate(Loop(), exit, [1, 0], entry, queue) ==
        (entry'[0 := exit[0]], if exit[0] == entry[0] || 0 in queue' then queue' else queue' + [0])
  {
    LoopEdges();
    LoopPreds(exit);
    var now := exit[0] || exit[3];
    var entry' := entry[1 := now];
    var queue' := if now == entry[1] || 1 in queue then queue else queue + [1];
    assert [1, 0][1..] == [0] && [0][1..] == [];
    assert now == entry[1] ==> entry' == entry;
    assert exit[0] == entry[0] ==> entry'[0 := exit[0]] == entry';
    assert Propagate(Loop(), exit, [0], entry', queue') ==
      (entry'[0 := exit[0]], if exit[0] == entry[0] || 0 in queue' then queue' else queue' + [0]);
  }

  lemma LoopLoanBits()
    ensures Len_(Loop(), 0) == 2 && BitsFrom(Loop(), 0, 1, 2, true) == {2} && ExitFrom(Loop(), 0, 1, 2, true)
  {
    assert Quiet(Loop(), 0, 2, 2, 1);
  }

  lemma LoopInit()
    ensures Closed(Loop()) && IsLoan(Loop(), LoopLoan())
    ensures Init(Loop(), LoopLoan()) == State([T, T, F, F], [T, F, F, F], [{2}, {}, {}, {}], [1, 0])
  {
    LoopEdges();
    LoopLoanBits();
    hide BitsFrom, ExitFrom;
    var none := seq(4, i => false);
    PropagateFromZero(none[0 := true], none, []);
    assert none[0 := true] == [T, F, F, F] && none[1 := true][0 := true] == [T, T, F, F];
    var empty: seq<set<nat>> := seq(4, i => {});
    assert empty[0 := {2}] == [{2}, {}, {}, {}];
  }

  /** The first visit of block 0 takes its reservation back, and with it both entry flags. */
  lemma RevisitStep(st: State)
    requires st == State([T, T, T, F], [T, T, F, F], [{2}, {0}, {}, {}], [0, 2]) && Shaped(Loop(), st)
    ensures Step(Loop(), 1, st) == State([F, F, T, F], [F, T, F, F], [{0}, {0}, {}, {}], [2, 1, 0])
  {
    LoopTransfer(0, true);
    assert st.exit[0 := false] == [F, T, F, F] && [0, 2][1..] == [2];
    PropagateFromZero([F, T, F, F], st.entry, [2]);
    assert st.entry[1 := false][0 := false] == [F, F, T, F] && [2] + [1] + [0] == [2, 1, 0];
    assert st.bits[0 := {0}] == [{0}, {0}, {}, {}];
  }

  lemma SecondRevisitStep(st: State)
    requires st == State([F, F, F, T], [F, F, T, F], [{0}, {}, {0}, {}], [0, 3, 2]) && Shaped(Loop(), st)
    ensures Step(Loop(), 1, st) == State([F, F, F, T], [F, F, T, F], [{}, {}, {0}, {}], [3, 2])
  {
    LoopTransfer(0, false);
    assert st.exit[0 := false] == st.exit && [0, 3, 2][1..] == [3, 2];
    PropagateFromZero(st.exit, st.entry, [3, 2]);
    assert st.entry[1 := false][0 := false] == st.entry;
    assert st.bits[0 := {}] == [{}, {}, {0}, {}];
  }

  /** Steps 1, 3 and 4 of the run, at blocks of the cycle. */
  lemma CycleStep1(st: State)
    requires st == State([T, T, F, F], [T, F, F, F], [{2}, {}, {}, {}], [1, 0]) && Shaped(Loop(), st)
    ensures Step(Loop(), 1, st) == State([T, T, T, F], [T, T, F, F], [{2}, {0}, {}, {}], [0, 2])
  {
    assert st.queue[1..] == [0];
    CycleStep(st);
    assert st.entry[2 := T] == [T, T, T, F] && st.exit[1 := T] == [T, T, F, F];
    assert st.bits[1 := {0}] == [{2}, {0}, {}, {}];
  }

  lemma CycleStep3(st: State)
    requires st == State([F, F, T, F], [F, T, F, F], [{0}, {0}, {}, {}], [2, 1, 0]) && Shaped(Loop(), st)
    ensures Step(Loop(), 1, st) == State([F, F, T, T], [F, T, T, F], [{0}, {0}, {0}, {}], [1, 0, 3])
  {
    assert st.queue[1..] == [1, 0];
    CycleStep(st);
    assert st.entry[3 := T] == [F, F, T, T] && st.exit[2 := T] == [F, T, T, F];
    assert st.bits[2 := {0}] == [{0}, {0}, {0}, {}];
  }

  lemma CycleStep4(st: State)
    requires st == State([F, F, T, T], [F, T, T, F], [{0}, {0}, {0}, {}], [1, 0, 3]) && Shaped(Loop(), st)
    ensures Step(Loop(), 1, st) == State([F, F, F, T], [F, F, T, F], [{0}, {}, {0}, {}], [0, 3, 2])
  {
    assert st.queue[1..] == [0, 3];
    CycleStep(st);
    assert st.entry[2 := F] == [F, F, F, T] && st.exit[1 := F] == [F, F, T, F];
    assert st.bits[1 := {}] == [{0}, {}, {0}, {}];
  }

  lemma LoopReachesPulse()
    ensures Closed(Loop()) && IsLoan(Loop(), LoopLoan()) && Shaped(Loop(), Init(Loop(), LoopLoan()))
    ensures Pulse(After(Loop(), 1, Init(Loop(), LoopLoan()), 5), 3)
  {
    LoopInit();
    InitShaped(Loop(), LoopLoan());
    var st0 := Init(Loop(), LoopLoan());
    assert After(Loop(), 1, st0, 0) == st0;
    CycleStep1(After(Loop(), 1, st0, 0));
    RevisitStep(After(Loop(), 1, st0, 1));
    CycleStep3(After(Loop(), 1, st0, 2));
    CycleStep4(After(Loop(), 1, st0, 3));
    SecondRevisitStep(After(Loop(), 1, st0, 4));
  }

  lemma {:induction false} StaysHalted(body: Body, d: Local, st: State, k: nat)
    requires Shaped(body, st) && st.queue == []
    ensures After(body, d, st, k) == st
  {
    if k > 0 { StaysHalted(body, d, st, k - 1); }
  }

  /** On this body the worklist is never empty: the analysis does not terminate. */
  lemma LoopNeverHalts(k: nat, bits: seq<set<nat>>)
    ensures Closed(Loop()) && IsLoan(Loop(), LoopLoan()) && !Halted(Loop(), LoopLoan(), k, bits)
  {
    LoopReachesPulse();
    var st0 := Init(Loop(), LoopLoan());
    AfterPlus(Loop(), 1, st0, 5, k);
    AfterPlus(Loop(), 1, st0, k, 5);
    PulseForever(After(Loop(), 1, st0, 5), 3, k);
    if After(Loop(), 1, st0, k).queue == [] {
      StaysHalted(Loop(), 1, After(Loop(), 1, st0, k), 5);
    }
  }
}

/** Two-phase borrow reservation (crates/glyim-borrowck/src/twophase.rs): the
    forward worklist is exact on exactly the loans whose block is quiet up to the
    loan or is not entered again while the loan is reserved, and may run forever
    on the others. */
module TwoPhase {
  import opened Mir

  /** A loan: statement stmt of block block, whose reference is stored in dest. */
  datatype Loan = Loan(block: nat, stmt: nat, dest: Local)

  predicate IsLoan(body: Body, loan: Loan) {
    loan.block < |body.blocks| && loan.stmt < |body.blocks[loan.block].stmts|
  }

  // ----- what reservation means -----

  function Len_(body: Body, b: nat): nat
    requires b < |body.blocks|
  {
    |body.blocks[b].stmts|
  }

  /** Statement i of block b activates a loan stored in d. */
  predicate Activates(body: Body, b: nat, i: nat, d: Local)
    requires b < |body.blocks| && i < Len_(body, b)
  {
    Mentions(StmtReads(body.blocks[b].stmts[i]), d)
  }

  /** No statement of block b in [i, j) activates d. */
  predicate Quiet(body: Body, b: nat, i: nat, j: nat, d: Local)
    requires b < |body.blocks| && j <= Len_(body, b)
  {
    forall k: nat :: i <= k < j ==> !Activates(body, b, k, d)
  }

  predicate Passes(body: Body, p: Point, d: Local)
    requires IsPoint(body, p)
  {
    p.index < Len_(body, p.block) ==> !Activates(body, p.block, p.index, d)
  }

  /** A control-flow path from just after the loan on which no statement but
      possibly the last point activates it. */
  ghost predicate QuietPath(body: Body, loan: Loan, path: seq<Point>)
    requires IsLoan(body, loan)
  {
    if |path| == 0 then false
    else if |path| == 1 then path[0] == Point(loan.block, loan.stmt + 1)
    else
      var init := path[..|path| - 1];
      var p := init[|init| - 1];
      QuietPath(body, loan, init) && IsPoint(body, p) && Passes(body, p, loan.dest) && Flows(body, p, path[|path| - 1])
  }

  ghost predicate Reserved(body: Body, loan: Loan, p: Point)
    requires IsLoan(body, loan)
  {
    exists path :: QuietPath(body, loan, path) && path[|path| - 1] == p
  }

  lemma ReservedStart(body: Body, loan: Loan)
    requires IsLoan(body, loan)
    ensures Reserved(body, loan, Point(loan.block, loan.stmt + 1))
  {
    assert QuietPath(body, loan, [Point(loan.block, loan.stmt + 1)]);
  }

  lemma ReservedAhead(body: Body, loan: Loan, p: Point, q: Point)
    requires IsLoan(body, loan) && IsPoint(body, p)
    requires Reserved(body, loan, p) && Passes(body, p, loan.dest) && Flows(body, p, q)
    ensures Reserved(body, loan, q)
  {
    hide Passes, Flows, IsLoan;
    var path :| QuietPath(body, loan, path) && path[|path| - 1] == p;
    var longer := path + [q];
    assert longer[..|longer| - 1] == path && longer[|longer| - 1] == q;
    assert QuietPath(body, loan, longer);
  }

  lemma {:induction false} ReservedAlong(body: Body, loan: Loan, b: nat, i: nat, j: nat)
    requires IsLoan(body, loan) && b < |body.blocks| && i <= j <= Len_(body, b)
    requires Reserved(body, loan, Point(b, i)) && Quiet(body, b, i, j, loan.dest)
    ensures Reserved(body, loan, Point(b, j))
    decreases j - i
  {
    if i < j {
      ReservedAhead(body, loan, Point(b, i), Point(b, i + 1));
      ReservedAlong(body, loan, b, i + 1, j);
    }
  }

  // ----- the transfer function of a block -----

  function BitsFrom(body: Body, b: nat, d: Local, start: nat, current: bool): set<nat>
    requires b < |body.blocks|
  {
    if current then set i: nat | start <= i <= Len_(body, b) && Quiet(body, b, start, i, d) else {}
  }

  predicate ExitFrom(body: Body, b: nat, d: Local, start: nat, current: bool)
    requires b < |body.blocks|
  {
    current && Quiet(body, b, start, Len_(body, b), d)
  }

  method Transfer(body: Body, b: nat, d: Local, start: nat, startCurrent: bool) returns (bits: set<nat>, exit: bool)
    requires b < |body.blocks| && start <= Len_(body, b)
    ensures bits == BitsFrom(body, b, d, start, startCurrent)
    ensures exit == ExitFrom(body, b, d, start, startCurrent)
  {
    bits := {};
    exit := startCurrent;
    for i := start to Len_(body, b)
      invariant exit <==> startCurrent && Quiet(body, b, start, i, d)
      invariant bits == if startCurrent then set j: nat | start <= j < i && Quiet(body, b, start, j, d) else {}
    {
      if exit { bits := bits + {i}; }
      if Activates(body, b, i, d) { exit := false; }
    }
    if exit { bits := bits + {Len_(body, b)}; }
  }

  // ----- the worklist as a step function -----

  datatype State = State(entry: seq<bool>, exit: seq<bool>, bits: seq<set<nat>>, queue: seq<nat>)

  ghost predicate Shaped(body: Body, st: State) {
    && |st.entry| == |st.exit| == |st.bits| == |body.blocks| && Closed(body)
    && forall b: nat :: b in st.queue ==> b < |body.blocks|
  }

  ghost predicate AnyPred(body: Body, exit: seq<bool>, s: nat)
    requires |exit| == |body.blocks|
  {
    exists p: nat :: p < |body.blocks| && s in Succs(body, p) && exit[p]
  }

  /** Recompute the entry flags of the given blocks, queueing those that change. */
  ghost function Propagate(body: Body, exit: seq<bool>, succs: seq<nat>, entry: seq<bool>, queue: seq<nat>):
    (seq<bool>, seq<nat>)
    requires |exit| == |entry| == |body.blocks|
    requires forall k :: 0 <= k < |succs| ==> succs[k] < |body.blocks|
  {
    if succs == [] then (entry, queue) else
    var s := succs[0];
    var now := AnyPred(body, exit, s);
    if now == entry[s] then Propagate(body, exit, succs[1..], entry, queue)
    else Propagate(body, exit, succs[1..], entry[s := now], if s in queue then queue else queue + [s])
  }

  ghost function Step(body: Body, d: Local, st: State): (r: State)
    requires Shaped(body, st)
  {
    if st.queue == [] then st else
    var b := st.queue[0];
    assert b in st.queue;
    var rest := st.queue[1..];
    var bits, exit := BitsFrom(body, b, d, 0, st.entry[b]), ExitFrom(body, b, d, 0, st.entry[b]);
    if bits == st.bits[b] && exit == st.exit[b] then st.(queue := rest)
    else
      var exits := st.exit[b := exit];
      var (entry, queue) := Propagate(body, exits, Succs(body, b), st.entry, rest);
      State(entry, exits, st.bits[b := bits], queue)
  }

  lemma {:induction false} Propagated(body: Body, exit: seq<bool>, succs: seq<nat>, entry: seq<bool>, queue: seq<nat>)
    requires |exit| == |entry| == |body.blocks|
    requires forall k :: 0 <= k < |succs| ==> succs[k] < |body.blocks|
    ensures var (entry', queue') := Propagate(body, exit, succs, entry, queue);
      && |entry'| == |entry|
      && (forall s: nat :: s < |entry| ==> entry'[s] == if s in succs then AnyPred(body, exit, s) else entry[s])
      && (forall s: nat :: s in queue' <==> s in queue || (s in succs && entry[s] != AnyPred(body, exit, s)))
  {
    if succs != [] {
      var s := succs[0];
      var now := AnyPred(body, exit, s);
      if now == entry[s] {
        Propagated(body, exit, succs[1..], entry, queue);
      } else {
        Propagated(body, exit, succs[1..], entry[s := now], if s in queue then queue else queue + [s]);
      }
    }
  }

  lemma StepShaped(body: Body, d: Local, st: State)
    requires Shaped(body, st)
    ensures Shaped(body, Step(body, d, st))
  {
    if st.queue != [] {
      var b := st.queue[0];
      assert b in st.queue;
      var exits := st.exit[b := ExitFrom(body, b, d, 0, st.entry[b])];
      Propagated(body, exits, Succs(body, b), st.entry, st.queue[1..]);
      assert forall c: nat :: c in st.queue[1..] ==> c in st.queue;
    }
  }

  /** The state the worklist starts from: the loan's own block seeds it. */
  ghost function Init(body: Body, loan: Loan): State
    requires Closed(body) && IsLoan(body, loan)
  {
    var n := |body.blocks|;
    var bits := BitsFrom(body, loan.block, loan.dest, loan.stmt + 1, true);
    var exit := ExitFrom(body, loan.block, loan.dest, loan.stmt + 1, true);
    var exits := seq(n, i => false)[loan.block := exit];
    var entry := seq(n, i => false);
    var (entry', queue) := if exit then Propagate(body, exits, Succs(body, loan.block), entry, []) else (entry, []);
    State(entry', exits, seq(n, i => {})[loan.block := bits], queue)
  }

  lemma InitShaped(body: Body, loan: Loan)
    requires Closed(body) && IsLoan(body, loan)
    ensures Shaped(body, Init(body, loan))
  {
    var n := |body.blocks|;
    var exits := seq(n, i => false)[loan.block := ExitFrom(body, loan.block, loan.dest, loan.stmt + 1, true)];
    Propagated(body, exits, Succs(body, loan.block), seq(n, i => false), []);
  }

  ghost function After(body: Body, d: Local, st: State, k: nat): (r: State)
    requires Shaped(body, st)
    ensures Shaped(body, r)
  {
    if k == 0 then st else
      var prev := After(body, d, st, k - 1);
      StepShaped(body, d, prev);
      Step(body, d, prev)
  }

  lemma {:induction false} AfterPlus(body: Body, d: Local, st: State, j: nat, k: nat)
    requires Shaped(body, st)
    ensures After(body, d, st, j + k) == After(body, d, After(body, d, st, j), k)
  {
    if k > 0 { AfterPlus(body, d, st, j, k - 1); }
  }

  // ----- the condition -----

  /** The loan's block does not activate the loan up to the loan, or control never
      comes back to its entry with the loan still reserved. */
  ghost predicate Undisturbed(body: Body, loan: Loan)
    requires IsLoan(body, loan)
  {
    || Quiet(body, loan.block, 0, loan.stmt + 1, loan.dest)
    || !Reserved(body, loan, Point(loan.block, 0))
  }

  /** The lookup that the borrow checker asks. */
  predicate IsReservation(perBlock: seq<set<nat>>, p: Point) {
    p.block < |perBlock| && p.index in perBlock[p.block]
  }

  /** The lookup answers exactly the path-based question. */
  ghost predicate Exact(body: Body, loan: Loan, bits: seq<set<nat>>)
    requires IsLoan(body, loan)
  {
    && |bits| == |body.blocks|
    && forall p :: IsPoint(body, p) ==> (IsReservation(bits, p) <==> Reserved(body, loan, p))
  }

  // ----- the invariant -----

  /** What a block's row holds: nothing before its entry is reserved, the whole
      transfer afterwards; the loan's block starts with its seed. */
  ghost predicate RowHolds(body: Body, loan: Loan, st: State, b: nat, seen: bool)
    requires Shaped(body, st) && IsLoan(body, loan) && b < |body.blocks|
  {
    var d := loan.dest;
    if b == loan.block && !seen then
      st.bits[b] == BitsFrom(body, b, d, loan.stmt + 1, true) && st.exit[b] == ExitFrom(body, b, d, loan.stmt + 1, true)
    else
      st.bits[b] == BitsFrom(body, b, d, 0, true) && st.exit[b] == ExitFrom(body, b, d, 0, true)
  }

  ghost predicate RowEmpty(body: Body, st: State, b: nat)
    requires Shaped(body, st) && b < |body.blocks|
  {
    st.bits[b] == {} && !st.exit[b]
  }

  ghost predicate Row(body: Body, loan: Loan, st: State, b: nat, seen: bool)
    requires Shaped(body, st) && IsLoan(body, loan) && b < |body.blocks|
  {
    if b == loan.block || (st.entry[b] && b !in st.queue) then RowHolds(body, loan, st, b, seen)
    else RowEmpty(body, st, b) || (st.entry[b] && RowHolds(body, loan, st, b, seen))
  }

  /** seen says whether the loan's block has been taken off the list. */
  ghost predicate Rows(body: Body, loan: Loan, st: State, seen: bool) {
    && Shaped(body, st) && IsLoan(body, loan)
    && (forall b: nat :: b < |body.blocks| ==> Row(body, loan, st, b, seen))
    && (forall b: nat :: b in st.queue ==> st.entry[b])
    && (seen ==> st.entry[loan.block])
    && (st.entry[loan.block] && !seen ==> loan.block in st.queue)
  }

  /** A block's entry is reserved exactly when a predecessor's exit is. */
  ghost predicate Flags(body: Body, st: State) {
    Shaped(body, st) && forall s: nat :: s < |body.blocks| ==> (st.entry[s] <==> AnyPred(body, st.exit, s))
  }

  ghost predicate Sound(body: Body, loan: Loan, st: State) {
    && Shaped(body, st) && IsLoan(body, loan)
    && (forall s: nat :: s < |body.blocks| && st.entry[s] ==> Reserved(body, loan, Point(s, 0)))
  }

  ghost predicate Inv(body: Body, loan: Loan, st: State, seen: bool) {
    Rows(body, loan, st, seen) && Flags(body, st) && Sound(body, loan, st)
  }

  lemma InitInv(body: Body, loan: Loan)
    requires Closed(body) && IsLoan(body, loan)
    ensures Inv(body, loan, Init(body, loan), false)
  {
    hide Reserved, BitsFrom, Succs;
    InitShaped(body, loan);
    var n, l := |body.blocks|, loan.block;
    var exit := ExitFrom(body, l, loan.dest, loan.stmt + 1, true);
    var exits := seq(n, i => false)[l := exit];
    Propagated(body, exits, Succs(body, l), seq(n, i => false), []);
    if exit {
      ReservedStart(body, loan);
      ReservedAlong(body, loan, l, loan.stmt + 1, Len_(body, l));
      forall s: nat | s < n && s in Succs(body, l) ensures Reserved(body, loan, Point(s, 0)) {
        ReservedAhead(body, loan, Point(l, Len_(body, l)), Point(s, 0));
      }
    }
  }

  /** The step's effect once the entry flag of the processed block is set. */
  lemma StepEffect(body: Body, loan: Loan, st: State, seen: bool)
    requires Rows(body, loan, st, seen) && st.queue != []
    ensures var b := st.queue[0];
      && b < |body.blocks| && st.entry[b]
      && Step(body, loan.dest, st).bits == st.bits[b := BitsFrom(body, b, loan.dest, 0, true)]
      && Step(body, loan.dest, st).exit == st.exit[b := ExitFrom(body, b, loan.dest, 0, true)]
  {
    assert st.queue[0] in st.queue;
  }

  ghost predicate StepAllowed(body: Body, loan: Loan, b: nat, seen: bool)
    requires IsLoan(body, loan)
  {
    b == loan.block || seen ==> Quiet(body, loan.block, 0, loan.stmt + 1, loan.dest)
  }

  /** Exit flags only ever rise. */
  lemma ExitRises(body: Body, loan: Loan, st: State, seen: bool)
    requires Rows(body, loan, st, seen) && st.queue != [] && StepAllowed(body, loan, st.queue[0], seen)
    ensures var b := st.queue[0];
      b < |body.blocks| && (st.exit[b] ==> ExitFrom(body, b, loan.dest, 0, true))
  {
    var b := st.queue[0];
    assert b in st.queue && Row(body, loan, st, b, seen);
  }

  lemma StepEntries(body: Body, loan: Loan, st: State, seen: bool)
    requires Rows(body, loan, st, seen) && Flags(body, st)
    requires st.queue != [] && StepAllowed(body, loan, st.queue[0], seen)
    ensures var b, st' := st.queue[0], Step(body, loan.dest, st);
      && b < |body.blocks| && Flags(body, st')
      && (forall s: nat :: s < |body.blocks| ==>
        (st'.entry[s] <==> st.entry[s] || (st'.exit[b] && s in Succs(body, b))))
      && (forall s: nat :: s < |body.blocks| ==>
            (s in st'.queue <==> s in st.queue[1..] || st'.entry[s] != st.entry[s]))
  {
    var b, d := st.queue[0], loan.dest;
    assert b in st.queue;
    ExitRises(body, loan, st, seen);
    StepShaped(body, d, st);
    var exit := ExitFrom(body, b, d, 0, true);
    var exits := st.exit[b := exit];
    Propagated(body, exits, Succs(body, b), st.entry, st.queue[1..]);
    forall s: nat | s < |body.blocks|
      ensures AnyPred(body, exits, s) <==> st.entry[s] || (exit && s in Succs(body, b))
    {
      if AnyPred(body, st.exit, s) {
        var p: nat :| p < |body.blocks| && s in Succs(body, p) && st.exit[p];
        assert exits[p];
      }
      if exit && s in Succs(body, b) { assert exits[b]; }
    }
    if exit == st.exit[b] { assert exits == st.exit; }
  }

  /** The row of b is full after b's step, and no other row changes. */
  lemma StepRows(body: Body, loan: Loan, st: State, seen: bool, seen': bool)
    requires Rows(body, loan, st, seen) && Flags(body, st)
    requires st.queue != [] && StepAllowed(body, loan, st.queue[0], seen)
    requires seen' == (seen || st.queue[0] == loan.block)
    ensures Rows(body, loan, Step(body, loan.dest, st), seen')
  {
    var b, st' := st.queue[0], Step(body, loan.dest, st);
    StepEffect(body, loan, st, seen);
    StepEntries(body, loan, st, seen);
    assert forall c: nat :: c in st.queue <==> c == b || c in st.queue[1..];
    forall c: nat | c < |body.blocks| ensures Row(body, loan, st', c, seen') {
      assert Row(body, loan, st, c, seen);
      if c != b {
        assert RowHolds(body, loan, st, c, seen) <==> RowHolds(body, loan, st', c, seen');
      }
    }
  }

  lemma StepSound(body: Body, loan: Loan, st: State, seen: bool)
    requires Inv(body, loan, st, seen) && st.queue != [] && StepAllowed(body, loan, st.queue[0], seen)
    ensures Sound(body, loan, Step(body, loan.dest, st))
  {
    var b, st' := st.queue[0], Step(body, loan.dest, st);
    StepEffect(body, loan, st, seen);
    StepEntries(body, loan, st, seen);
    forall s: nat | s < |body.blocks| && st'.entry[s] ensures Reserved(body, loan, Point(s, 0)) {
      if !st.entry[s] {
        ReservedAlong(body, loan, b, 0, Len_(body, b));
        ReservedAhead(body, loan, Point(b, Len_(body, b)), Point(s, 0));
      }
    }
  }

  lemma StepInv(body: Body, loan: Loan, st: State, seen: bool)
    requires Inv(body, loan, st, seen) && st.queue != [] && StepAllowed(body, loan, st.queue[0], seen)
    ensures Inv(body, loan, Step(body, loan.dest, st), seen || st.queue[0] == loan.block)
  {
    StepEntries(body, loan, st, seen);
    StepRows(body, loan, st, seen, seen || st.queue[0] == loan.block);
    StepSound(body, loan, st, seen);
  }

  // ----- exactness at the end -----

  lemma BitSound(body: Body, loan: Loan, st: State, seen: bool, p: Point)
    requires Inv(body, loan, st, seen) && IsPoint(body, p) && p.index in st.bits[p.block]
    ensures Reserved(body, loan, p)
  {
    if p.block == loan.block && !seen {
      ReservedStart(body, loan);
      ReservedAlong(body, loan, p.block, loan.stmt + 1, p.index);
    } else {
      assert Row(body, loan, st, p.block, seen);
      ReservedAlong(body, loan, p.block, 0, p.index);
    }
  }

  lemma BitsClosed(body: Body, b: nat, d: Local, start: nat, i: nat)
    requires b < |body.blocks| && i <= Len_(body, b) && i in BitsFrom(body, b, d, start, true)
    requires Passes(body, Point(b, i), d)
    ensures if i < Len_(body, b) then i + 1 in BitsFrom(body, b, d, start, true) else ExitFrom(body, b, d, start, true)
  {
  }

  lemma AlongCovered(body: Body, loan: Loan, st: State, seen: bool, p: Point)
    requires Rows(body, loan, st, seen) && IsPoint(body, p)
    requires p.index in st.bits[p.block] && Passes(body, p, loan.dest)
    ensures if p.index < Len_(body, p.block) then p.index + 1 in st.bits[p.block] else st.exit[p.block]
  {
    assert Row(body, loan, st, p.block, seen);
    assert RowHolds(body, loan, st, p.block, seen);
    BitsClosed(body, p.block, loan.dest, if p.block == loan.block && !seen then loan.stmt + 1 else 0, p.index);
  }

  lemma CrossCovered(body: Body, loan: Loan, st: State, seen: bool, b: nat, s: nat)
    requires Rows(body, loan, st, seen) && Flags(body, st) && st.queue == []
    requires b < |body.blocks| && st.exit[b] && s in Succs(body, b)
    ensures s < |body.blocks| && 0 in st.bits[s]
  {
    assert AnyPred(body, st.exit, s);
    assert st.entry[s] && Row(body, loan, st, s, seen);
  }

  lemma {:induction false} PathCovered(body: Body, loan: Loan, st: State, seen: bool, path: seq<Point>)
    requires Rows(body, loan, st, seen) && Flags(body, st) && st.queue == []
    requires seen ==> Quiet(body, loan.block, 0, loan.stmt + 1, loan.dest)
    requires QuietPath(body, loan, path)
    ensures IsPoint(body, path[|path| - 1]) && path[|path| - 1].index in st.bits[path[|path| - 1].block]
  {
    if |path| == 1 {
      assert Row(body, loan, st, loan.block, seen);
    } else {
      hide Rows, Flags, Row;
      var init, q := path[..|path| - 1], path[|path| - 1];
      var p := init[|init| - 1];
      PathCovered(body, loan, st, seen, init);
      AlongCovered(body, loan, st, seen, p);
      if p.index == Len_(body, p.block) {
        CrossCovered(body, loan, st, seen, p.block, q.block);
      }
    }
  }

  lemma FinalExact(body: Body, loan: Loan, st: State, seen: bool)
    requires Inv(body, loan, st, seen) && st.queue == []
    requires seen ==> Quiet(body, loan.block, 0, loan.stmt + 1, loan.dest)
    ensures Exact(body, loan, st.bits)
  {
    forall p | IsPoint(body, p) ensures p.index in st.bits[p.block] <==> Reserved(body, loan, p) {
      if p.index in st.bits[p.block] { BitSound(body, loan, st, seen, p); }
      if Reserved(body, loan, p) {
        var path :| QuietPath(body, loan, path) && path[|path| - 1] == p;
        PathCovered(body, loan, st, seen, path);
      }
    }
  }

  // ----- termination -----

  function Unset(entry: seq<bool>): nat {
    if entry == [] then 0 else (if entry[0] then 0 else 1) + Unset(entry[1..])
  }

  lemma {:induction false} UnsetDrops(entry: seq<bool>, s: nat)
    requires s < |entry| && !entry[s]
    ensures Unset(entry[s := true]) < Unset(entry)
  {
    if s == 0 {
      assert entry[0 := true][1..] == entry[1..];
    } else {
      UnsetDrops(entry[1..], s - 1);
      assert entry[s := true][1..] == entry[1..][s - 1 := true];
    }
  }

  lemma {:induction false} PropagateProgress(body: Body, exit: seq<bool>, succs: seq<nat>, entry: seq<bool>,
                                             queue: seq<nat>)
    requires |exit| == |entry| == |body.blocks|
    requires forall k :: 0 <= k < |succs| ==>
      succs[k] < |body.blocks| && (entry[succs[k]] ==> AnyPred(body, exit, succs[k]))
    ensures var (entry', queue') := Propagate(body, exit, succs, entry, queue);
      (entry' == entry && queue' == queue) || Unset(entry') < Unset(entry)
  {
    if succs != [] {
      var s := succs[0];
      var now := AnyPred(body, exit, s);
      if now == entry[s] {
        PropagateProgress(body, exit, succs[1..], entry, queue);
      } else {
        UnsetDrops(entry, s);
        PropagateProgress(body, exit, succs[1..], entry[s := now], if s in queue then queue else queue + [s]);
      }
    }
  }

  lemma StepProgress(body: Body, loan: Loan, st: State, seen: bool)
    requires Inv(body, loan, st, seen) && st.queue != [] && StepAllowed(body, loan, st.queue[0], seen)
    ensures var st' := Step(body, loan.dest, st);
      Unset(st'.entry) < Unset(st.entry) || (st'.entry == st.entry && |st'.queue| < |st.queue|)
  {
    var b := st.queue[0];
    StepEffect(body, loan, st, seen);
    StepEntries(body, loan, st, seen);
    var exits := st.exit[b := ExitFrom(body, b, loan.dest, 0, true)];
    forall s: nat | s < |body.blocks| && st.entry[s] ensures AnyPred(body, exits, s) {
      assert Step(body, loan.dest, st).entry[s];
    }
    PropagateProgress(body, exits, Succs(body, b), st.entry, st.queue[1..]);
  }

  /** An undisturbed loan's step is always allowed. */
  lemma UndisturbedAllows(body: Body, loan: Loan, st: State, seen: bool)
    requires Inv(body, loan, st, seen) && st.queue != [] && Undisturbed(body, loan)
    requires seen ==> Quiet(body, loan.block, 0, loan.stmt + 1, loan.dest)
    ensures StepAllowed(body, loan, st.queue[0], seen)
  {
    assert st.queue[0] in st.queue;
  }

  // ----- the analysis -----

  /** The reservation bits of every block, exactly. */
  method Compute(body: Body, loan: Loan) returns (perBlock: seq<set<nat>>)
    requires Closed(body) && IsLoan(body, loan) && Undisturbed(body, loan)
    ensures Exact(body, loan, perBlock)
    ensures exists k: nat :: Halted(body, loan, k, perBlock)
  {
    var d := loan.dest;
    var preds := Predecessors(body);
    var entry, exit, queue;
    entry, exit, perBlock, queue := Seed(body, loan);
    InitShaped(body, loan);
    InitInv(body, loan);
    ghost var k, seen := 0, false;
    while queue != []
      invariant Shaped(body, Init(body, loan))
      invariant State(entry, exit, perBlock, queue) == After(body, d, Init(body, loan), k)
      invariant Inv(body, loan, State(entry, exit, perBlock, queue), seen)
      invariant seen ==> Quiet(body, loan.block, 0, loan.stmt + 1, d)
      decreases Unset(entry), |queue|
    {
      ghost var st := State(entry, exit, perBlock, queue);
      Advance(body, loan, st, seen);
      k, seen := k + 1, seen || queue[0] == loan.block;
      entry, exit, perBlock, queue := StepOnce(body, d, entry, exit, perBlock, queue, preds);
    }
    FinalExact(body, loan, State(entry, exit, perBlock, queue), seen);
    assert Halted(body, loan, k, perBlock);
  }

  /** The loan's block is transferred from just after the loan; when its exit is
      reserved, every successor's entry becomes so and is queued. */
  method Seed(body: Body, loan: Loan)
    returns (entry: seq<bool>, exit: seq<bool>, perBlock: seq<set<nat>>, queue: seq<nat>)
    requires Closed(body) && IsLoan(body, loan)
    ensures State(entry, exit, perBlock, queue) == Init(body, loan)
  {
    var n := |body.blocks|;
    var bits, out := Transfer(body, loan.block, loan.dest, loan.stmt + 1, true);
    entry, exit, perBlock, queue := seq(n, i => false), seq(n, i => false), seq(n, i => {}), [];
    perBlock := perBlock[loan.block := bits];
    exit := exit[loan.block := out];
    if out {
      var succs := Succs(body, loan.block);
      ghost var start := entry;
      assert succs[0..] == succs;
      for k := 0 to |succs|
        invariant |entry| == n
        invariant Propagate(body, exit, succs, start, []) == Propagate(body, exit, succs[k..], entry, queue)
      {
        var s := succs[k];
        assert succs[k..][0] == s && succs[k..][1..] == succs[k + 1..];
        assert AnyPred(body, exit, s) by { assert s in Succs(body, loan.block) && exit[loan.block]; }
        if !entry[s] {
          entry := entry[s := true];
          if s !in queue { queue := queue + [s]; }
        }
      }
    }
  }

  /** One iteration keeps the invariant and makes progress. */
  lemma Advance(body: Body, loan: Loan, st: State, seen: bool)
    requires Inv(body, loan, st, seen) && st.queue != [] && Undisturbed(body, loan)
    requires seen ==> Quiet(body, loan.block, 0, loan.stmt + 1, loan.dest)
    ensures Inv(body, loan, Step(body, loan.dest, st), seen || st.queue[0] == loan.block)
    ensures st.queue[0] == loan.block ==> Quiet(body, loan.block, 0, loan.stmt + 1, loan.dest)
    ensures var st' := Step(body, loan.dest, st);
      Unset(st'.entry) < Unset(st.entry) || (st'.entry == st.entry && |st'.queue| < |st.queue|)
  {
    UndisturbedAllows(body, loan, st, seen);
    StepProgress(body, loan, st, seen);
    StepInv(body, loan, st, seen);
  }

  /** One iteration of the worklist. */
  method StepOnce(body: Body, d: Local, entry: seq<bool>, exit: seq<bool>, perBlock: seq<set<nat>>, queue: seq<nat>,
                  preds: seq<seq<nat>>)
    returns (entry': seq<bool>, exit': seq<bool>, perBlock': seq<set<nat>>, queue': seq<nat>)
    requires queue != [] && Shaped(body, State(entry, exit, perBlock, queue)) && |preds| == |body.blocks|
    requires forall s: nat :: s < |preds| ==> ArePreds(body, s, preds[s])
    ensures State(entry', exit', perBlock', queue') == Step(body, d, State(entry, exit, perBlock, queue))
  {
    var b := queue[0];
    assert b in State(entry, exit, perBlock, queue).queue;
    entry', exit', perBlock', queue' := entry, exit, perBlock, queue[1..];
    var bits, out := Transfer(body, b, d, 0, entry[b]);
    if bits != perBlock[b] || out != exit[b] {
      perBlock' := perBlock[b := bits];
      exit' := exit[b := out];
      entry', queue' := PropagateAll(body, exit', Succs(body, b), entry, queue', preds);
    }
  }

  /** The worklist runs empty after k steps with these bits. */
  ghost predicate Halted(body: Body, loan: Loan, k: nat, bits: seq<set<nat>>)
    requires Closed(body) && IsLoan(body, loan)
  {
    Shaped(body, Init(body, loan)) &&
    var st := After(body, loan.dest, Init(body, loan), k);
    st.queue == [] && st.bits == bits
  }

  method AnyExit(body: Body, exit: seq<bool>, s: nat, preds: seq<nat>) returns (r: bool)
    requires |exit| == |body.blocks|
    requires ArePreds(body, s, preds)
    ensures r == AnyPred(body, exit, s)
  {
    r := false;
    for k := 0 to |preds|
      invariant r <==> exists p: nat :: p in preds[..k] && p in preds && exit[p]
    {
      assert preds[..k + 1] == preds[..k] + [preds[k]] && preds[k] in preds;
      if exit[preds[k]] { r := true; }
    }
    assert preds[..|preds|] == preds;
  }

  method PropagateAll(body: Body, exit: seq<bool>, succs: seq<nat>, entry: seq<bool>, queue: seq<nat>,
                      preds: seq<seq<nat>>)
    returns (entry': seq<bool>, queue': seq<nat>)
    requires |exit| == |entry| == |preds| == |body.blocks|
    requires forall k :: 0 <= k < |succs| ==> succs[k] < |body.blocks|
    requires forall s: nat :: s < |preds| ==> ArePreds(body, s, preds[s])
    ensures (entry', queue') == Propagate(body, exit, succs, entry, queue)
  {
    entry', queue' := entry, queue;
    assert succs[0..] == succs;
    for k := 0 to |succs|
      invariant |entry'| == |entry|
      invariant Propagate(body, exit, succs, entry, queue) == Propagate(body, exit, succs[k..], entry', queue')
    {
      var s := succs[k];
      assert succs[k..][0] == s && succs[k..][1..] == succs[k + 1..];
      var now := AnyExit(body, exit, s, preds[s]);
      if now != entry'[s] {
        entry' := entry'[s := now];
        if s !in queue' { queue' := queue' + [s]; }
      }
    }
  }
}

/** Backward liveness of locals (crates/glyim-borrowck/src/liveness.rs): the
    worklist over bit sets computes exactly the path-based notion of liveness. */
module Liveness {
  import opened Mir
  import opened Bits

  // ----- what liveness means -----

  /** The local a program point overwrites: an assignment's destination, whatever
      its projection, or a call's destination. */
  function WrittenAt(body: Body, p: Point): Option<Local>
    requires IsPoint(body, p)
  {
    var bb := body.blocks[p.block];
    if p.index < |bb.stmts| then
      if bb.stmts[p.index].Assign? then Some(bb.stmts[p.index].dest.local) else None
    else if bb.term.Call? then Some(bb.term.destination.local) else None
  }

  ghost predicate ReadsLocal(body: Body, p: Point, x: Local)
    requires IsPoint(body, p)
  {
    Mentions(ReadsAt(body, p), x)
  }

  ghost predicate Writes(body: Body, p: Point, x: Local)
    requires IsPoint(body, p)
  {
    WrittenAt(body, p) == Some(x)
  }

  /** A control-flow path that ends in a read of x and does not write x before. */
  ghost predicate LivePath(body: Body, path: seq<Point>, x: Local) {
    && path != [] && IsPoint(body, path[0])
    && if |path| == 1 then ReadsLocal(body, path[0], x)
       else !Writes(body, path[0], x) && Flows(body, path[0], path[1]) && LivePath(body, path[1..], x)
  }

  ghost predicate LiveAt(body: Body, p: Point, x: Local) {
    exists path :: LivePath(body, path, x) && path[0] == p
  }

  ghost predicate LiveOnExit(body: Body, b: nat, x: Local)
    requires b < |body.blocks|
  {
    exists s :: s in Succs(body, b) && LiveAt(body, Point(s, 0), x)
  }

  lemma LiveHere(body: Body, p: Point, x: Local)
    requires IsPoint(body, p) && ReadsLocal(body, p, x)
    ensures LiveAt(body, p, x)
  {
    assert LivePath(body, [p], x);
  }

  lemma LiveAhead(body: Body, p: Point, q: Point, x: Local)
    requires IsPoint(body, p) && !Writes(body, p, x) && Flows(body, p, q) && LiveAt(body, q, x)
    ensures LiveAt(body, p, x)
  {
    var path :| LivePath(body, path, x) && path[0] == q;
    assert ([p] + path)[1..] == path;
    assert LivePath(body, [p] + path, x);
  }

  lemma LiveUnfold(body: Body, p: Point, x: Local)
    requires IsPoint(body, p) && LiveAt(body, p, x)
    ensures ReadsLocal(body, p, x) || (!Writes(body, p, x) && exists q :: Flows(body, p, q) && LiveAt(body, q, x))
  {
    var path :| LivePath(body, path, x) && path[0] == p;
    if |path| > 1 {
      assert path[1..][0] == path[1] && LiveAt(body, path[1], x);
    }
  }

  // ----- block summaries -----

  /** No point of block b in [i, k) writes x. */
  ghost predicate Unwritten(body: Body, b: nat, i: nat, k: nat, x: Local)
    requires b < |body.blocks| && k <= |body.blocks[b].stmts| + 1
  {
    forall j: nat :: i <= j < k ==> !Writes(body, Point(b, j), x)
  }

  ghost predicate ExposedBy(body: Body, b: nat, i: nat, k: nat, x: Local)
    requires b < |body.blocks| && k <= |body.blocks[b].stmts|
  {
    ReadsLocal(body, Point(b, k), x) && Unwritten(body, b, i, k, x)
  }

  /** Some point of block b from i on reads x before any point from i on writes it. */
  ghost predicate ExposedFrom(body: Body, b: nat, i: nat, x: Local)
    requires b < |body.blocks|
  {
    exists k: nat :: i <= k <= |body.blocks[b].stmts| && ExposedBy(body, b, i, k, x)
  }

  ghost predicate WrittenFrom(body: Body, b: nat, i: nat, x: Local)
    requires b < |body.blocks|
  {
    exists k: nat :: i <= k <= |body.blocks[b].stmts| && Writes(body, Point(b, k), x)
  }

  /** The transfer function of the tail of a block. */
  ghost predicate Transfer(body: Body, b: nat, i: nat, x: Local, out: bool)
    requires b < |body.blocks|
  {
    ExposedFrom(body, b, i, x) || (!WrittenFrom(body, b, i, x) && out)
  }

  lemma ExposedStep(body: Body, b: nat, i: nat, x: Local)
    requires b < |body.blocks| && i <= |body.blocks[b].stmts|
    ensures ExposedFrom(body, b, i, x) <==>
      ReadsLocal(body, Point(b, i), x) || (!Writes(body, Point(b, i), x) && ExposedFrom(body, b, i + 1, x))
  {
    hide ReadsLocal, Writes;
    if ReadsLocal(body, Point(b, i), x) {
      assert ExposedBy(body, b, i, i, x);
    } else if ExposedFrom(body, b, i, x) {
      var k: nat :| i <= k <= |body.blocks[b].stmts| && ExposedBy(body, b, i, k, x);
      assert i < k && ExposedBy(body, b, i + 1, k, x);
    }
    if !Writes(body, Point(b, i), x) && ExposedFrom(body, b, i + 1, x) {
      var k: nat :| i + 1 <= k <= |body.blocks[b].stmts| && ExposedBy(body, b, i + 1, k, x);
      assert ExposedBy(body, b, i, k, x);
    }
  }

  lemma WrittenStep(body: Body, b: nat, i: nat, x: Local)
    requires b < |body.blocks| && i <= |body.blocks[b].stmts|
    ensures WrittenFrom(body, b, i, x) <==> Writes(body, Point(b, i), x) || WrittenFrom(body, b, i + 1, x)
  {
    hide Writes;
    if WrittenFrom(body, b, i, x) {
      var k: nat :| i <= k <= |body.blocks[b].stmts| && Writes(body, Point(b, k), x);
      assert k == i || WrittenFrom(body, b, i + 1, x);
    }
  }

  /** Liveness inside a block is its transfer function applied to liveness on exit. */
  lemma {:induction false} BlockTransfer(body: Body, b: nat, i: nat, x: Local)
    requires b < |body.blocks| && i <= |body.blocks[b].stmts|
    ensures LiveAt(body, Point(b, i), x) <==> Transfer(body, b, i, x, LiveOnExit(body, b, x))
    decreases |body.blocks[b].stmts| - i
  {
    hide ReadsLocal, Writes, ExposedFrom, WrittenFrom, LiveAt;
    var p, n := Point(b, i), |body.blocks[b].stmts|;
    ExposedStep(body, b, i, x);
    WrittenStep(body, b, i, x);
    if LiveAt(body, p, x) { LiveUnfold(body, p, x); }
    if ReadsLocal(body, p, x) {
      LiveHere(body, p, x);
    } else if i < n {
      BlockTransfer(body, b, i + 1, x);
      if LiveAt(body, Point(b, i + 1), x) && !Writes(body, p, x) { LiveAhead(body, p, Point(b, i + 1), x); }
    } else {
      NothingBehind(body, b, x);
      if LiveOnExit(body, b, x) && !Writes(body, p, x) {
        var s :| s in Succs(body, b) && LiveAt(body, Point(s, 0), x);
        LiveAhead(body, p, Point(s, 0), x);
      }
    }
  }

  lemma NothingBehind(body: Body, b: nat, x: Local)
    requires b < |body.blocks|
    ensures !ExposedFrom(body, b, |body.blocks[b].stmts| + 1, x) && !WrittenFrom(body, b, |body.blocks[b].stmts| + 1, x)
  {
  }

  // ----- the block equations -----

  function UnionIn(succs: seq<nat>, liveIn: seq<set<nat>>): set<nat>
    requires forall k :: 0 <= k < |succs| ==> succs[k] < |liveIn|
  {
    if succs == [] then {} else UnionIn(succs[..|succs| - 1], liveIn) + liveIn[succs[|succs| - 1]]
  }

  lemma {:induction false} UnionInHas(succs: seq<nat>, liveIn: seq<set<nat>>, s: nat, x: nat)
    requires forall k :: 0 <= k < |succs| ==> succs[k] < |liveIn|
    requires s in succs && x in liveIn[s]
    ensures x in UnionIn(succs, liveIn)
  {
    if s != succs[|succs| - 1] {
      UnionInHas(succs[..|succs| - 1], liveIn, s, x);
    }
  }

  lemma {:induction false} UnionInFrom(succs: seq<nat>, liveIn: seq<set<nat>>, x: nat)
    requires forall k :: 0 <= k < |succs| ==> succs[k] < |liveIn|
    requires x in UnionIn(succs, liveIn)
    ensures exists s :: s in succs && s < |liveIn| && x in liveIn[s]
  {
    var last := succs[|succs| - 1];
    if x in liveIn[last] {
      assert last in succs;
    } else {
      UnionInFrom(succs[..|succs| - 1], liveIn, x);
    }
  }

  /** Growing one row grows the union, and leaves it alone if the row is no successor. */
  lemma {:induction false} UnionInGrows(succs: seq<nat>, liveIn: seq<set<nat>>, i: nat, s: set<nat>)
    requires i < |liveIn| && liveIn[i] <= s
    requires forall k :: 0 <= k < |succs| ==> succs[k] < |liveIn|
    ensures UnionIn(succs, liveIn) <= UnionIn(succs, liveIn[i := s])
    ensures i !in succs ==> UnionIn(succs, liveIn) == UnionIn(succs, liveIn[i := s])
  {
    if succs != [] {
      UnionInGrows(succs[..|succs| - 1], liveIn, i, s);
    }
  }

  /** One row per block of everything the worklist keeps. */
  datatype Tables = Tables(uses: seq<set<nat>>, defs: seq<set<nat>>, liveIn: seq<set<nat>>, liveOut: seq<set<nat>>)

  ghost predicate Shaped(body: Body, t: Tables) {
    |t.uses| == |t.defs| == |t.liveIn| == |t.liveOut| == |body.blocks| && Closed(body)
  }

  ghost predicate Summarised(body: Body, t: Tables) {
    && Shaped(body, t)
    && (forall b: nat, x: nat :: b < |body.blocks| ==> (x in t.uses[b] <==> ExposedFrom(body, b, 0, x)))
    && (forall b: nat, x: nat :: b < |body.blocks| ==> (x in t.defs[b] <==> WrittenFrom(body, b, 0, x)))
  }

  ghost predicate SolvesAt(body: Body, b: nat, t: Tables)
    requires Shaped(body, t) && b < |body.blocks|
  {
    && t.liveOut[b] == UnionIn(Succs(body, b), t.liveIn)
    && t.liveIn[b] == t.uses[b] + (t.liveOut[b] - t.defs[b])
  }

  ghost predicate GrowsAt(body: Body, b: nat, t: Tables)
    requires Shaped(body, t) && b < |body.blocks|
  {
    && t.liveOut[b] <= UnionIn(Succs(body, b), t.liveIn)
    && t.liveIn[b] <= t.uses[b] + (t.liveOut[b] - t.defs[b])
  }

  /** Every row is within capacity and below its equation, and every block that is
      not pending satisfies its equations. */
  ghost predicate Settling(body: Body, t: Tables, cap: nat, pending: set<nat>) {
    && Shaped(body, t) && AllBelow(t.liveIn, cap) && AllBelow(t.liveOut, cap)
    && (forall b: nat :: b < |body.blocks| ==> GrowsAt(body, b, t))
    && (forall b: nat :: b < |body.blocks| && b !in pending ==> SolvesAt(body, b, t))
  }

  /** Every row contains only live locals. */
  ghost predicate Sound(body: Body, t: Tables) {
    && Shaped(body, t)
    && (forall b: nat, x: nat :: b < |body.blocks| && x in t.liveIn[b] ==> LiveAt(body, Point(b, 0), x))
    && (forall b: nat, x: nat :: b < |body.blocks| && x in t.liveOut[b] ==> LiveOnExit(body, b, x))
  }

  // ----- capacity -----

  /** Bit x fits the capacity: x is declared, or some definition reaches that high. */
  ghost predicate Tracked(body: Body, x: Local) {
    x < |body.locals| || exists p :: IsPoint(body, p) && WrittenAt(body, p).Some? && x <= WrittenAt(body, p).value
  }

  /** No read makes the bit sets panic on insertion. */
  ghost predicate ReadsTracked(body: Body) {
    forall p, x :: IsPoint(body, p) && ReadsLocal(body, p, x) ==> Tracked(body, x)
  }

  method LocalCapacity(body: Body) returns (cap: nat)
    ensures forall x: nat :: x < cap <==> Tracked(body, x)
  {
    cap := |body.locals|;
    for b := 0 to |body.blocks|
      invariant |body.locals| <= cap
      invariant forall x: nat :: x < cap ==> Tracked(body, x)
      invariant forall p :: IsPoint(body, p) && p.block < b && WrittenAt(body, p).Some? ==>
        WrittenAt(body, p).value < cap
    {
      var bb := body.blocks[b];
      for i := 0 to |bb.stmts|
        invariant |body.locals| <= cap
        invariant forall x: nat :: x < cap ==> Tracked(body, x)
        invariant forall p ::
          IsPoint(body, p) && WrittenAt(body, p).Some? && (p.block < b || (p.block == b && p.index < i)) ==>
            WrittenAt(body, p).value < cap
      {
        if bb.stmts[i].Assign? && cap < bb.stmts[i].dest.local + 1 {
          assert WrittenAt(body, Point(b, i)) == Some(bb.stmts[i].dest.local);
          cap := bb.stmts[i].dest.local + 1;
        }
      }
      if bb.term.Call? && cap < bb.term.destination.local + 1 {
        assert WrittenAt(body, Point(b, |bb.stmts|)) == Some(bb.term.destination.local);
        cap := bb.term.destination.local + 1;
      }
    }
  }

  /** Adds the locals of ps that are not defined yet. */
  method CollectUses(ps: seq<Place>, uses: set<nat>, defs: set<nat>) returns (r: set<nat>)
    ensures forall x :: x in r <==> x in uses || (Mentions(ps, x) && x !in defs)
  {
    r := uses;
    for i := 0 to |ps|
      invariant forall x :: x in r <==> x in uses || (Mentions(ps[..i], x) && x !in defs)
    {
      assert forall x :: Mentions(ps[..i + 1], x) <==> Mentions(ps[..i], x) || ps[i].local == x by {
        assert ps[..i + 1] == ps[..i] + [ps[i]];
        forall x ensures Mentions(ps[..i + 1], x) <==> Mentions(ps[..i], x) || ps[i].local == x {
          assert ps[..i + 1][i].local == ps[i].local;
        }
      }
      if ps[i].local !in defs { r := r + {ps[i].local}; }
    }
    assert ps[..|ps|] == ps;
  }

  ghost predicate UsedBefore(body: Body, b: nat, i: nat, x: Local)
    requires b < |body.blocks| && i <= |body.blocks[b].stmts| + 1
  {
    exists k: nat :: k < i && ExposedBy(body, b, 0, k, x)
  }

  ghost predicate WrittenBefore(body: Body, b: nat, i: nat, x: Local)
    requires b < |body.blocks| && i <= |body.blocks[b].stmts| + 1
  {
    exists k: nat :: k < i && Writes(body, Point(b, k), x)
  }

  lemma UsedStep(body: Body, b: nat, i: nat, x: Local)
    requires b < |body.blocks| && i <= |body.blocks[b].stmts|
    ensures UsedBefore(body, b, i + 1, x) <==>
      UsedBefore(body, b, i, x) || (ReadsLocal(body, Point(b, i), x) && !WrittenBefore(body, b, i, x))
  {
    assert Unwritten(body, b, 0, i, x) <==> !WrittenBefore(body, b, i, x);
    assert ExposedBy(body, b, 0, i, x) <==> ReadsLocal(body, Point(b, i), x) && !WrittenBefore(body, b, i, x);
    if UsedBefore(body, b, i + 1, x) {
      var k: nat :| k < i + 1 && ExposedBy(body, b, 0, k, x);
      assert k == i || UsedBefore(body, b, i, x);
    }
  }

  lemma WrittenBeforeStep(body: Body, b: nat, i: nat, x: Local)
    requires b < |body.blocks| && i <= |body.blocks[b].stmts|
    ensures WrittenBefore(body, b, i + 1, x) <==> WrittenBefore(body, b, i, x) || Writes(body, Point(b, i), x)
  {
    if WrittenBefore(body, b, i + 1, x) {
      var k: nat :| k < i + 1 && Writes(body, Point(b, k), x);
    }
  }

  lemma SummaryStep(body: Body, b: nat, i: nat)
    requires b < |body.blocks| && i <= |body.blocks[b].stmts|
    ensures forall x: nat :: UsedBefore(body, b, i + 1, x) <==>
      UsedBefore(body, b, i, x) || (ReadsLocal(body, Point(b, i), x) && !WrittenBefore(body, b, i, x))
    ensures forall x: nat ::
      WrittenBefore(body, b, i + 1, x) <==> WrittenBefore(body, b, i, x) || Writes(body, Point(b, i), x)
  {
    forall x: nat ensures UsedBefore(body, b, i + 1, x) <==>
      UsedBefore(body, b, i, x) || (ReadsLocal(body, Point(b, i), x) && !WrittenBefore(body, b, i, x))
    { UsedStep(body, b, i, x); }
    forall x: nat { WrittenBeforeStep(body, b, i, x); }
  }

  /** A summarised local fits the capacity, so no insertion panics. */
  lemma SummaryTracked(body: Body, b: nat, x: Local)
    requires b < |body.blocks| && ReadsTracked(body)
    requires ExposedFrom(body, b, 0, x) || WrittenFrom(body, b, 0, x)
    ensures Tracked(body, x)
  {
    if ExposedFrom(body, b, 0, x) {
      var k: nat :| k <= |body.blocks[b].stmts| && ExposedBy(body, b, 0, k, x);
      assert IsPoint(body, Point(b, k));
    } else {
      var k: nat :| k <= |body.blocks[b].stmts| && Writes(body, Point(b, k), x);
      assert IsPoint(body, Point(b, k)) && WrittenAt(body, Point(b, k)).value == x;
    }
  }

  /** The forward pass over one block: upward-exposed reads and definitions. */
  method BlockSummary(body: Body, b: nat) returns (uses: set<nat>, defs: set<nat>)
    requires b < |body.blocks|
    ensures forall x: nat :: x in uses <==> ExposedFrom(body, b, 0, x)
    ensures forall x: nat :: x in defs <==> WrittenFrom(body, b, 0, x)
  {
    var bb := body.blocks[b];
    var n := |bb.stmts|;
    uses, defs := {}, {};
    for i := 0 to n
      invariant forall x: nat :: x in uses <==> UsedBefore(body, b, i, x)
      invariant forall x: nat :: x in defs <==> WrittenBefore(body, b, i, x)
    {
      SummaryStep(body, b, i);
      if bb.stmts[i].Assign? {
        uses := CollectUses(RvalueReads(bb.stmts[i].rvalue), uses, defs);
        defs := defs + {bb.stmts[i].dest.local};
      }
    }
    SummaryStep(body, b, n);
    uses := CollectUses(TerminatorReads(bb.term), uses, defs);
    if bb.term.Call? { defs := defs + {bb.term.destination.local}; }
    assert forall x: nat :: UsedBefore(body, b, n + 1, x) <==> ExposedFrom(body, b, 0, x);
    assert forall x: nat :: WrittenBefore(body, b, n + 1, x) <==> WrittenFrom(body, b, 0, x);
  }

  // ----- the worklist -----

  /** Liveness on exit of every block, exactly. */
  method ComputeLiveness(body: Body) returns (liveOut: seq<set<nat>>)
    requires Closed(body) && ReadsTracked(body)
    ensures |liveOut| == |body.blocks|
    ensures forall b: nat, x: nat :: b < |body.blocks| ==> (x in liveOut[b] <==> LiveOnExit(body, b, x))
  {
    var n := |body.blocks|;
    var cap := LocalCapacity(body);
    var uses, defs := BlockSummaries(body);
    var preds := Predecessors(body);
    var liveIn: seq<set<nat>> := seq(n, i => {});
    liveOut := seq(n, i => {});
    var worklist, inWorklist := AllBlocks(n);
    InitialInv(body, Tables(uses, defs, liveIn, liveOut), cap, inWorklist);
    hide Inv, IsQueue, Missing, ArePreds, Tracked, ReadsTracked;

    while worklist != []
      invariant IsQueue(worklist, inWorklist, n)
      invariant Inv(body, Tables(uses, defs, liveIn, liveOut), cap, inWorklist)
      decreases Missing(liveIn, cap) + Missing(liveOut, cap), |worklist|
    {
      var bi;
      bi, worklist, inWorklist := Pop(worklist, inWorklist, n);

      var newOut := UnionOfSuccessors(body, bi, liveIn);
      var newIn := uses[bi] + (newOut - defs[bi]);
      Recompute(body, bi, Tables(uses, defs, liveIn, liveOut), newIn, newOut, cap, inWorklist, preds[bi]);
      if newIn != liveIn[bi] || newOut != liveOut[bi] {
        RowsProgress(body, bi, Tables(uses, defs, liveIn, liveOut), newIn, newOut, cap, inWorklist + {bi});
        liveIn := liveIn[bi := newIn];
        liveOut := liveOut[bi := newOut];
        ghost var pending := inWorklist;
        worklist, inWorklist := Enqueue(preds[bi], worklist, inWorklist, n);
        assert inWorklist == pending + (set c | c in preds[bi]);
      }
    }
    SolutionExact(body, Tables(uses, defs, liveIn, liveOut), cap);
  }

  method BlockSummaries(body: Body) returns (uses: seq<set<nat>>, defs: seq<set<nat>>)
    ensures |uses| == |defs| == |body.blocks|
    ensures forall b: nat, x: nat :: b < |body.blocks| ==> (x in uses[b] <==> ExposedFrom(body, b, 0, x))
    ensures forall b: nat, x: nat :: b < |body.blocks| ==> (x in defs[b] <==> WrittenFrom(body, b, 0, x))
  {
    hide ExposedFrom, WrittenFrom;
    uses, defs := [], [];
    for b := 0 to |body.blocks|
      invariant |uses| == |defs| == b
      invariant forall c: nat, x: nat :: c < b ==> (x in uses[c] <==> ExposedFrom(body, c, 0, x))
      invariant forall c: nat, x: nat :: c < b ==> (x in defs[c] <==> WrittenFrom(body, c, 0, x))
    {
      var u, d := BlockSummary(body, b);
      uses, defs := uses + [u], defs + [d];
    }
  }

  method UnionOfSuccessors(body: Body, b: nat, liveIn: seq<set<nat>>) returns (r: set<nat>)
    requires Closed(body) && b < |body.blocks| == |liveIn|
    ensures r == UnionIn(Succs(body, b), liveIn)
  {
    r := {};
    var succs := Succs(body, b);
    for k := 0 to |succs|
      invariant r == UnionIn(succs[..k], liveIn)
    {
      assert succs[..k + 1][..k] == succs[..k];
      r := r + liveIn[succs[k]];
    }
    assert succs[..|succs|] == succs;
  }

  /** A recomputed row contains only live locals. */
  lemma RowsStaySound(body: Body, b: nat, t: Tables, newIn: set<nat>, newOut: set<nat>, cap: nat)
    requires b < |body.blocks| && Summarised(body, t) && Sound(body, t)
    requires newOut == UnionIn(Succs(body, b), t.liveIn)
    requires newIn == t.uses[b] + (newOut - t.defs[b])
    ensures Sound(body, t.(liveIn := t.liveIn[b := newIn], liveOut := t.liveOut[b := newOut]))
  {
    forall x: nat | x in newOut ensures LiveOnExit(body, b, x) {
      UnionInFrom(Succs(body, b), t.liveIn, x);
    }
    forall x: nat | x in newIn ensures LiveAt(body, Point(b, 0), x) {
      BlockTransfer(body, b, 0, x);
    }
  }

  lemma RowsBelow(body: Body, b: nat, t: Tables, newIn: set<nat>, newOut: set<nat>, cap: nat)
    requires b < |body.blocks| && Summarised(body, t) && AllBelow(t.liveIn, cap)
    requires ReadsTracked(body) && forall x: nat :: x < cap <==> Tracked(body, x)
    requires newOut == UnionIn(Succs(body, b), t.liveIn)
    requires newIn == t.uses[b] + (newOut - t.defs[b])
    ensures Below(newIn, cap) && Below(newOut, cap)
  {
    forall x: nat | x in newOut ensures x < cap {
      UnionInFrom(Succs(body, b), t.liveIn, x);
      var s :| s in Succs(body, b) && s < |t.liveIn| && x in t.liveIn[s];
      assert Below(t.liveIn[s], cap);
    }
    forall x: nat | x in t.uses[b] ensures x < cap { SummaryTracked(body, b, x); }
  }

  /** Recomputing the rows of b settles b and unsettles at most its predecessors. */
  lemma RowsSettle(body: Body, b: nat, t: Tables, newIn: set<nat>, newOut: set<nat>, cap: nat, pending: set<nat>,
                   preds: seq<nat>, t': Tables)
    requires b < |body.blocks| && Settling(body, t, cap, pending + {b})
    requires newOut == UnionIn(Succs(body, b), t.liveIn) && newIn == t.uses[b] + (newOut - t.defs[b])
    requires Below(newIn, cap) && Below(newOut, cap)
    requires forall c: nat :: c in preds <==> c < |body.blocks| && b in Succs(body, c)
    requires t' == t.(liveIn := t.liveIn[b := newIn], liveOut := t.liveOut[b := newOut])
    ensures t' == t ==> Settling(body, t, cap, pending)
    ensures Settling(body, t', cap, pending + (set c | c in preds))
  {
    assert GrowsAt(body, b, t);
    forall c: nat | c < |body.blocks|
      ensures GrowsAt(body, c, t')
      ensures c !in pending && c !in preds ==> SolvesAt(body, c, t')
    {
      assert GrowsAt(body, c, t) && (c != b && c !in pending ==> SolvesAt(body, c, t));
      UnionInGrows(Succs(body, c), t.liveIn, b, newIn);
    }
  }

  /** Recomputing the rows of b sets at least one more bit if anything changes. */
  lemma RowsProgress(body: Body, b: nat, t: Tables, newIn: set<nat>, newOut: set<nat>, cap: nat, pending: set<nat>)
    requires b < |body.blocks| && Settling(body, t, cap, pending)
    requires newOut == UnionIn(Succs(body, b), t.liveIn) && newIn == t.uses[b] + (newOut - t.defs[b])
    requires newIn != t.liveIn[b] || newOut != t.liveOut[b]
    ensures Missing(t.liveIn[b := newIn], cap) + Missing(t.liveOut[b := newOut], cap)
      < Missing(t.liveIn, cap) + Missing(t.liveOut, cap)
    ensures 0 <= Missing(t.liveIn, cap) + Missing(t.liveOut, cap)
  {
    MissingNonNegative(t.liveIn, cap);
    MissingNonNegative(t.liveOut, cap);
    assert GrowsAt(body, b, t);
    MissingShrinks(t.liveIn, b, newIn, cap);
    MissingShrinks(t.liveOut, b, newOut, cap);
  }

  ghost predicate Inv(body: Body, t: Tables, cap: nat, pending: set<nat>) {
    Summarised(body, t) && Settling(body, t, cap, pending) && Sound(body, t)
  }

  lemma InitialInv(body: Body, t: Tables, cap: nat, pending: set<nat>)
    requires Summarised(body, t) && forall b: nat :: b < |body.blocks| ==> b in pending
    requires forall b: nat :: b < |body.blocks| ==> t.liveIn[b] == {} && t.liveOut[b] == {}
    ensures Inv(body, t, cap, pending)
  {
  }

  /** One iteration of the worklist keeps the invariant and makes progress. */
  lemma Recompute(body: Body, b: nat, t: Tables, newIn: set<nat>, newOut: set<nat>, cap: nat, pending: set<nat>,
                  preds: seq<nat>)
    requires b < |body.blocks| && Inv(body, t, cap, pending + {b})
    requires ReadsTracked(body) && forall x: nat :: x < cap <==> Tracked(body, x)
    requires newOut == UnionIn(Succs(body, b), t.liveIn) && newIn == t.uses[b] + (newOut - t.defs[b])
    requires forall c: nat :: c in preds <==> c < |body.blocks| && b in Succs(body, c)
    ensures newIn == t.liveIn[b] && newOut == t.liveOut[b] ==> Inv(body, t, cap, pending)
    ensures Inv(body, t.(liveIn := t.liveIn[b := newIn], liveOut := t.liveOut[b := newOut]), cap,
                pending + (set c | c in preds))
  {
    var t' := t.(liveIn := t.liveIn[b := newIn], liveOut := t.liveOut[b := newOut]);
    RowsStaySound(body, b, t, newIn, newOut, cap);
    RowsBelow(body, b, t, newIn, newOut, cap);
    RowsSettle(body, b, t, newIn, newOut, cap, pending, preds, t');
    assert newIn == t.liveIn[b] && newOut == t.liveOut[b] ==> t' == t;
  }

  /** Any table that satisfies the block equations covers every live path. */
  lemma {:induction false} PathCovered(body: Body, path: seq<Point>, x: Local, t: Tables, cap: nat)
    requires Summarised(body, t) && Settling(body, t, cap, {})
    requires LivePath(body, path, x)
    ensures Transfer(body, path[0].block, path[0].index, x, x in t.liveOut[path[0].block])
  {
    hide ReadsLocal, Writes, ExposedFrom;
    var p := path[0];
    ExposedStep(body, p.block, p.index, x);
    WrittenStep(body, p.block, p.index, x);
    if |path| > 1 {
      var q := path[1];
      assert path[1..][0] == q;
      PathCovered(body, path[1..], x, t, cap);
      if p.index == |body.blocks[p.block].stmts| {
        assert SolvesAt(body, q.block, t) && SolvesAt(body, p.block, t);
        assert x in t.liveIn[q.block];
        UnionInHas(Succs(body, p.block), t.liveIn, q.block, x);
        assert !WrittenFrom(body, p.block, p.index + 1, x);
      }
    }
  }

  /** A sound solution of the block equations is exactly liveness on exit. */
  lemma SolutionExact(body: Body, t: Tables, cap: nat)
    requires Summarised(body, t) && Settling(body, t, cap, {}) && Sound(body, t)
    ensures forall b: nat, x: nat :: b < |body.blocks| ==> (x in t.liveOut[b] <==> LiveOnExit(body, b, x))
  {
    forall b: nat, x: nat | b < |body.blocks| ensures x in t.liveOut[b] <==> LiveOnExit(body, b, x) {
      assert SolvesAt(body, b, t);
      if LiveOnExit(body, b, x) {
        var s :| s in Succs(body, b) && LiveAt(body, Point(s, 0), x);
        var path :| LivePath(body, path, x) && path[0] == Point(s, 0);
        PathCovered(body, path, x, t, cap);
        assert SolvesAt(body, s, t);
        UnionInHas(Succs(body, b), t.liveIn, s, x);
      }
    }
  }
}

/** Per-statement liveness inside one block (liveness.rs, compute_stmt_liveness):
    how the backward scan relates to the forward block summary and to liveness. */
module StmtLiveness {
  import opened Mir
  import opened Liveness

  function LocalsOf(ps: seq<Place>): (r: set<nat>)
    ensures forall x: nat :: x in r <==> Mentions(ps, x)
  {
    set i | 0 <= i < |ps| :: ps[i].local
  }

  /** Liveness before one statement from liveness after it. */
  function StepBack(s: Statement, live: set<nat>): set<nat> {
    match s
    case Assign(p, rv) => (live - {p.local}) + LocalsOf(RvalueReads(rv))
    case StorageDead(l) => live - {l}
    case StorageLive(_) => live
    case Nop => live
  }

  function Back(stmts: seq<Statement>, live: set<nat>): set<nat> {
    if stmts == [] then live else StepBack(stmts[0], Back(stmts[1..], live))
  }

  method Gen(ps: seq<Place>, live: set<nat>) returns (r: set<nat>)
    ensures r == live + LocalsOf(ps)
  {
    r := CollectUses(ps, live, {});
  }

  /** The backward loop: row i is the scan of the statements from i on. */
  method ComputeStmtLiveness(stmts: seq<Statement>, liveOut: set<nat>) returns (rows: seq<set<nat>>)
    ensures |rows| == |stmts| + 1
    ensures forall i: nat :: i <= |stmts| ==> rows[i] == Back(stmts[i..], liveOut)
  {
    var n := |stmts|;
    rows := seq(n + 1, i => {});
    rows := rows[n := liveOut];
    for i := n downto 0
      invariant |rows| == n + 1
      invariant forall k: nat :: i <= k <= n ==> rows[k] == Back(stmts[k..], liveOut)
    {
      var current := rows[i + 1];
      match stmts[i] {
        case Assign(p, rv) =>
          current := Gen(RvalueReads(rv), current - {p.local});
        case StorageDead(l) => current := current - {l};
        case StorageLive(_) =>
        case Nop =>
      }
      assert stmts[i..][1..] == stmts[i + 1..];
      rows := rows[i := current];
    }
  }

  // ----- the forward summary against the backward scan -----

  /** Reads before a write, writes, and locals whose storage dies before any
      assignment touches them, accumulated forward. */
  datatype Summary = Summary(uses: set<nat>, defs: set<nat>, dead: set<nat>)

  function Forward(stmts: seq<Statement>): Summary {
    if stmts == [] then Summary({}, {}, {}) else
    var s, before := stmts[|stmts| - 1], Forward(stmts[..|stmts| - 1]);
    match s
    case Assign(p, rv) =>
      Summary(before.uses + (LocalsOf(RvalueReads(rv)) - before.defs), before.defs + {p.local}, before.dead)
    case StorageDead(l) => before.(dead := before.dead + ({l} - before.uses - before.defs))
    case StorageLive(_) => before
    case Nop => before
  }

  lemma {:induction false} BackSnoc(stmts: seq<Statement>, s: Statement, live: set<nat>)
    ensures Back(stmts + [s], live) == Back(stmts, StepBack(s, live))
  {
    if stmts == [] {
      assert (stmts + [s])[1..] == [];
    } else {
      BackSnoc(stmts[1..], s, live);
      assert (stmts + [s])[1..] == stmts[1..] + [s];
    }
  }

  /** On every block and every set, the backward scan is the forward summary's
      transfer minus the locals whose storage dies untouched. */
  lemma {:induction false} ScanIsSummary(stmts: seq<Statement>, live: set<nat>)
    ensures var f := Forward(stmts);
            Back(stmts, live) == (f.uses + (live - f.defs)) - f.dead
  {
    if stmts != [] {
      var init, s := stmts[..|stmts| - 1], stmts[|stmts| - 1];
      assert stmts == init + [s];
      BackSnoc(init, s, live);
      ScanIsSummary(init, StepBack(s, live));
    }
  }

  /** No local dies untouched, or every one that does is later assigned without
      being read first. */
  predicate DeathsHarmless(stmts: seq<Statement>) {
    var f := Forward(stmts);
    f.dead <= f.defs - f.uses
  }

  /** The scan and the summary agree on every set exactly for harmless blocks. */
  lemma ScanAgreesIffHarmless(stmts: seq<Statement>)
    ensures (forall live :: Back(stmts, live) == Forward(stmts).uses + (live - Forward(stmts).defs))
            <==> DeathsHarmless(stmts)
  {
    var f := Forward(stmts);
    if DeathsHarmless(stmts) {
      forall live ensures Back(stmts, live) == f.uses + (live - f.defs) { ScanIsSummary(stmts, live); }
    } else {
      var l :| l in f.dead && l !in f.defs - f.uses;
      ScanIsSummary(stmts, {l});
      assert l !in Back(stmts, {l}) && l in f.uses + ({l} - f.defs);
    }
  }

  /** A storage death before a read separates the two. */
  lemma DeathBeforeReadDisagrees()
    ensures var stmts := [StorageDead(1), Assign(Place(0, []), Use(Copy(Place(1, []))))];
            Back(stmts, {}) == {} && Forward(stmts).uses == {1}
  {
    var a, d := Assign(Place(0, []), Use(Copy(Place(1, [])))), StorageDead(1);
    assert [d, a][1..] == [a] && [a][1..] == [];
    assert [d, a][..1] == [d] && [d][..0] == [];
    assert Mentions([Place(1, [])], 1) by { assert [Place(1, [])][0].local == 1; }
    assert LocalsOf([Place(1, [])]) == {1};
    assert Back([a], {}) == {1};
    assert Forward([d]).uses == {} && Forward([d]).defs == {};
  }

  /** The forward fold is the block summary of the worklist, up to its terminator. */
  lemma {:induction false} FoldIsSummary(body: Body, b: nat, i: nat)
    requires b < |body.blocks| && i <= |body.blocks[b].stmts|
    ensures forall x: nat :: x in Forward(body.blocks[b].stmts[..i]).uses <==> UsedBefore(body, b, i, x)
    ensures forall x: nat :: x in Forward(body.blocks[b].stmts[..i]).defs <==> WrittenBefore(body, b, i, x)
  {
    if i > 0 {
      var stmts := body.blocks[b].stmts;
      FoldIsSummary(body, b, i - 1);
      SummaryStep(body, b, i - 1);
      assert stmts[..i][..i - 1] == stmts[..i - 1] && stmts[..i][i - 1] == stmts[i - 1];
    }
  }

  /** Liveness before a terminator from liveness on exit. */
  function TermBack(t: Terminator, out: set<nat>): set<nat> {
    LocalsOf(TerminatorReads(t)) + (if t.Call? then out - {t.destination.local} else out)
  }

  /** Scanning back from the terminator's own transfer gives the block's live-in
      equation of the worklist. */
  lemma ScanGivesLiveIn(body: Body, b: nat, out: set<nat>, x: nat)
    requires b < |body.blocks| && DeathsHarmless(body.blocks[b].stmts)
    ensures x in Back(body.blocks[b].stmts, TermBack(body.blocks[b].term, out)) <==> Transfer(body, b, 0, x, x in out)
  {
    var stmts := body.blocks[b].stmts;
    var n := |stmts|;
    FoldIsSummary(body, b, n);
    assert stmts[..n] == stmts;
    ScanIsSummary(stmts, TermBack(body.blocks[b].term, out));
    UsedStep(body, b, n, x);
    WrittenBeforeStep(body, b, n, x);
    assert UsedBefore(body, b, n + 1, x) <==> ExposedFrom(body, b, 0, x);
    assert WrittenBefore(body, b, n + 1, x) <==> WrittenFrom(body, b, 0, x);
  }

  // ----- the rows against path liveness -----

  lemma LiveAtTerminator(body: Body, b: nat, out: set<nat>, x: nat)
    requires b < |body.blocks| && (x in out <==> LiveOnExit(body, b, x))
    ensures LiveAt(body, Point(b, |body.blocks[b].stmts|), x) <==> x in TermBack(body.blocks[b].term, out)
  {
    var p := Point(b, |body.blocks[b].stmts|);
    if LiveAt(body, p, x) {
      LiveUnfold(body, p, x);
      if !ReadsLocal(body, p, x) {
        var q :| Flows(body, p, q) && LiveAt(body, q, x);
        assert q == Point(q.block, 0);
      }
    } else {
      if ReadsLocal(body, p, x) { LiveHere(body, p, x); }
      if LiveOnExit(body, b, x) && !Writes(body, p, x) {
        var s :| s in Succs(body, b) && LiveAt(body, Point(s, 0), x);
        LiveAhead(body, p, Point(s, 0), x);
      }
    }
  }

  lemma LiveAtStatement(body: Body, b: nat, i: nat, after: set<nat>, x: nat)
    requires b < |body.blocks| && i < |body.blocks[b].stmts|
    requires x in after <==> LiveAt(body, Point(b, i + 1), x)
    ensures LiveAt(body, Point(b, i), x)
      <==> x in if body.blocks[b].stmts[i].StorageDead? then after else StepBack(body.blocks[b].stmts[i], after)
  {
    var p, q := Point(b, i), Point(b, i + 1);
    if LiveAt(body, p, x) {
      LiveUnfold(body, p, x);
    } else {
      if ReadsLocal(body, p, x) { LiveHere(body, p, x); }
      if LiveAt(body, q, x) && !Writes(body, p, x) { LiveAhead(body, p, q, x); }
    }
  }

  /** The terminator changes nothing: what it reads is live on exit anyway, and a
      call destination is not live on exit unless the call reads it. */
  ghost predicate TerminatorTransparent(t: Terminator, out: set<nat>) {
    && LocalsOf(TerminatorReads(t)) <= out
    && (t.Call? && t.destination.local in out ==> Mentions(TerminatorReads(t), t.destination.local))
  }

  ghost predicate RowsExact(body: Body, b: nat, out: set<nat>)
    requires b < |body.blocks|
  {
    forall i: nat, x: nat :: i <= |body.blocks[b].stmts| ==>
      (x in Back(body.blocks[b].stmts[i..], out) <==> LiveAt(body, Point(b, i), x))
  }

  /** Statement i, if a storage death, is of a local that the row after it does not hold. */
  predicate DiesUnused(stmts: seq<Statement>, out: set<nat>, i: nat)
    requires i < |stmts|
  {
    stmts[i].StorageDead? ==> stmts[i].local !in Back(stmts[i + 1..], out)
  }

  lemma {:induction false} RowExact(body: Body, b: nat, out: set<nat>, i: nat, x: nat)
    requires b < |body.blocks| && i <= |body.blocks[b].stmts|
    requires forall k: nat :: k < |body.blocks[b].stmts| ==> DiesUnused(body.blocks[b].stmts, out, k)
    requires x in out <==> LiveOnExit(body, b, x)
    requires TerminatorTransparent(body.blocks[b].term, out)
    ensures x in Back(body.blocks[b].stmts[i..], out) <==> LiveAt(body, Point(b, i), x)
    decreases |body.blocks[b].stmts| - i
  {
    var stmts := body.blocks[b].stmts;
    if i == |stmts| {
      LiveAtTerminator(body, b, out, x);
    } else {
      RowExact(body, b, out, i + 1, x);
      assert stmts[i..][1..] == stmts[i + 1..];
      LiveAtStatement(body, b, i, Back(stmts[i + 1..], out), x);
      assert DiesUnused(stmts, out, i);
    }
  }

  /** Where the rows are exact, a local that dies is not live after its death. */
  lemma ExactRowsDie(body: Body, b: nat, out: set<nat>, i: nat)
    requires b < |body.blocks| && i < |body.blocks[b].stmts| && RowsExact(body, b, out)
    ensures DiesUnused(body.blocks[b].stmts, out, i)
  {
    var stmts := body.blocks[b].stmts;
    if stmts[i].StorageDead? {
      var l := stmts[i].local;
      assert l in Back(stmts[i + 1..], out) <==> LiveAt(body, Point(b, i + 1), l);
      assert l in Back(stmts[i..], out) <==> LiveAt(body, Point(b, i), l);
      LiveAtStatement(body, b, i, Back(stmts[i + 1..], out), l);
      assert stmts[i..][1..] == stmts[i + 1..];
    }
  }

  /** The rows computed from liveness on exit are the locals live before each point exactly
      when the terminator changes nothing, because the scan starts from the exit set without
      the terminator's own effect, and no local is in a row when its storage dies. */
  lemma RowsExactIff(body: Body, b: nat, out: set<nat>)
    requires b < |body.blocks|
    requires forall x: nat :: x in out <==> LiveOnExit(body, b, x)
    ensures RowsExact(body, b, out) <==>
      (&& TerminatorTransparent(body.blocks[b].term, out)
       && forall i: nat :: i < |body.blocks[b].stmts| ==> DiesUnused(body.blocks[b].stmts, out, i))
  {
    var stmts, t := body.blocks[b].stmts, body.blocks[b].term;
    var n := |stmts|;
    if RowsExact(body, b, out) {
      forall i: nat | i < n ensures DiesUnused(stmts, out, i) { ExactRowsDie(body, b, out, i); }
      forall x: nat ensures x in out <==> x in TermBack(t, out) {
        LiveAtTerminator(body, b, out, x);
        assert x in Back(stmts[n..], out) <==> LiveAt(body, Point(b, n), x);
      }
      assert TermBack(t, out) == out;
    }
    if TerminatorTransparent(t, out) && forall i: nat :: i < n ==> DiesUnused(stmts, out, i) {
      forall i: nat, x: nat | i <= n
        ensures x in Back(stmts[i..], out) <==> LiveAt(body, Point(b, i), x)
      {
        RowExact(body, b, out, i, x);
      }
    }
  }

  /** Block 0 only asserts local 1, block 1 returns. */
  function Asserting(): Body {
    Body([BasicBlock([], Assert(Copy(Place(1, [])), true, 1, None)), BasicBlock([], Return)], [BOOL, BOOL], 1)
  }

  /** Nothing is live on exit of block 0, so its only row is empty, but local 1 is live
      before the assertion that reads it. */
  lemma AssertedLocalMissed()
    ensures forall x: nat :: !LiveOnExit(Asserting(), 0, x)
    ensures LiveAt(Asserting(), Point(0, 0), 1) && !RowsExact(Asserting(), 0, {})
  {
    var body := Asserting();
    forall x: nat ensures !LiveOnExit(body, 0, x) {
      if LiveAt(body, Point(1, 0), x) { LiveUnfold(body, Point(1, 0), x); }
    }
    assert ReadsAt(body, Point(0, 0))[0] == Place(1, []);
    LiveHere(body, Point(0, 0), 1);
    assert 1 !in Back(body.blocks[0].stmts[0..], {});
  }
}

/** What the move tables and rows say, in terms of places and statements. */
module MoveMeaning {
  import opened Mir
  import opened Reads
  import opened MovePaths
  import opened MoveDataflow
  import opened MoveEffects

  // ----- the node of a place -----

  /** A step a node is kept for, and the step it is kept as: of an element counted from
      the front only the offset matters. */
  predicate KeptAs(e: Proj, k: Proj) {
    match e
    case Field(f) => k == Field(f)
    case Downcast(v) => k == Downcast(v)
    case ConstantIndex(o, _, fromEnd) => !fromEnd && k == ConstantIndex(o, 0, false)
    case Index(_) => false
    case Deref => false
    case Subslice(_, _, _) => false
  }

  /** The path of a node follows the steps, of which indexing by a local is left out. */
  predicate Follows(steps: seq<Proj>, path: seq<Proj>) {
    if steps == [] then path == []
    else if steps[0].Index? then Follows(steps[1..], path)
    else path != [] && KeptAs(steps[0], path[0]) && Follows(steps[1..], path[1..])
  }

  /** Why a lookup goes no further than node i: dereferences, subslices, elements counted
      from the end, and fields without a node of their own. */
  ghost predicate EndsAt(ar: Arena, i: nat, e: Proj)
    requires i < |ar.paths|
  {
    match e
    case Deref => true
    case Subslice(_, _, _) => true
    case ConstantIndex(_, _, fromEnd) => fromEnd
    case Field(f) =>
      var p := ar.paths[i].place;
      !HasPlace(ar, Place(p.local, p.projection + [Field(f)]))
    case Downcast(_) => false
    case Index(_) => false
  }

  lemma {:induction false} FollowsTracked(steps: seq<Proj>)
    requires forall j: nat :: j < |steps| ==> !Opaque(steps[j])
    ensures Follows(steps, Tracked(steps))
  {
    if steps != [] {
      FollowsTracked(steps[1..]);
      assert !Opaque(steps[0]);
      assert Tracked(steps) == (if Skipped(steps[0]) then [] else [Normal(steps[0])]) + Tracked(steps[1..]);
      if !Skipped(steps[0]) { assert Tracked(steps)[1..] == Tracked(steps[1..]); }
    }
  }

  lemma NoFieldNode(ar: Arena, i: nat, f: nat)
    requires Valid(ar) && i < |ar.paths|
    requires ChildPos(ar, ar.paths[i].children, Field(f)) == |ar.paths[i].children|
    ensures var p := ar.paths[i].place; !HasPlace(ar, Place(p.local, p.projection + [Field(f)]))
  {
    var p := ar.paths[i].place;
    var q := Place(p.local, p.projection + [Field(f)]);
    if HasPlace(ar, q) {
      var n: nat :| n < |ar.paths| && ar.paths[n].place == q;
      ParentIs(ar, i, n, Field(f));
    }
  }

  lemma ParentIs(ar: Arena, i: nat, n: nat, e: Proj)
    requires Valid(ar) && i < |ar.paths| && n < |ar.paths|
    requires ar.paths[n].place == Place(ar.paths[i].place.local, ar.paths[i].place.projection + [e])
    ensures n in ar.paths[i].children && Last(ar.paths[n]) == Some(Normal(e))
  {
    assert ParentOk(ar, n);
    var proj := ar.paths[n].place.projection;
    assert proj[..|proj| - 1] == ar.paths[i].place.projection && proj[|proj| - 1] == e;
    PlacesUnique(ar, ar.paths[n].parent.value, i);
  }

  /** Node i follows the first k steps, and the next one ends the lookup. */
  ghost predicate FollowedTo(ar: Arena, proj: seq<Proj>, i: nat, k: nat)
    requires i < |ar.paths|
  {
    && k <= |proj| && Follows(proj[..k], ar.paths[i].place.projection)
    && (k < |proj| ==> EndsAt(ar, i, proj[k]))
  }

  /** The node a lookup returns is that of the longest part of the place it can follow. */
  lemma NodeOfPlace(ar: Arena, place: Place)
    requires Valid(ar)
    ensures var (ar', r) := Lookup(ar, place);
      && (r.Some? <==> place.local < |ar.roots| && ar.roots[place.local].Some?)
      && (r.Some? ==>
        && r.value < |ar'.paths| && ar'.paths[r.value].place.local == place.local
        && exists k: nat :: FollowedTo(ar', place.projection, r.value, k))
  {
    hide Lookup, Valid;
    LookupGood(ar, place);
    var (ar', r) := Lookup(ar, place);
    if r.Some? {
      var root, proj := FindRoot(ar, place.local).value, place.projection;
      var k: nat :| Reaches(ar', root, proj, r.value, k);
      FollowsTracked(proj[..k]);
      assert [] + Tracked(proj[..k]) == Tracked(proj[..k]);
      if k < |proj| && proj[k].Field? && !Opaque(proj[k]) { NoFieldNode(ar', r.value, proj[k].field); }
      assert FollowedTo(ar', proj, r.value, k);
    }
  }

  // ----- taking and renewing -----

  /** A node, or one directly below it. */
  predicate AtOrBelow(ar: Arena, node: Option<nat>, x: nat) {
    node.Some? && node.value < |ar.paths| && (x == node.value || x in ar.paths[node.value].children)
  }

  /** The statement moves a place out whose node is x or directly above it: an operand moved
      whose type is not Copy. */
  ghost predicate MovesOut(c: Ctx, s: Statement, x: nat)
    requires Good(c)
  {
    s.Assign? && exists i: nat, p ::
      OperandAt(s.rvalue, i, Move(p)) && !c.isCopy(p) && AtOrBelow(c.ar, Lookup(c.ar, p).1, x)
  }

  /** The statement ends the storage of the local. */
  predicate Buries(c: Ctx, s: Statement, x: nat) {
    s.StorageDead? && AtOrBelow(c.ar, FindRoot(c.ar, s.local), x)
  }

  /** The statement assigns the place or starts the storage of the local. */
  predicate Renews(c: Ctx, s: Statement, x: nat)
    requires Good(c)
  {
    || (s.Assign? && AtOrBelow(c.ar, Lookup(c.ar, s.dest).1, x))
    || (s.StorageLive? && AtOrBelow(c.ar, FindRoot(c.ar, s.local), x))
  }

  ghost predicate Takes(c: Ctx, s: Statement, x: nat, deadOnly: bool)
    requires Good(c)
  {
    Buries(c, s, x) || (!deadOnly && MovesOut(c, s, x))
  }

  // ----- one statement -----

  lemma FamilyIs(c: Ctx, node: Option<nat>, x: nat)
    requires node.Some? && node.value < |c.ar.paths|
    ensures x in Family(c.ar, node.value) <==> AtOrBelow(c.ar, node, x)
  {
  }

  lemma {:induction false} MovesAllIff(os: seq<Operand>, p: Place)
    ensures p in MovesAll(os) <==> exists i: nat :: i < |os| && os[i] == Move(p)
  {
    if os != [] {
      MovesAllIff(os[1..], p);
      assert forall i: nat :: i < |os[1..]| ==> os[1..][i] == os[i + 1];
      assert forall i: nat :: 0 < i < |os| ==> os[i] == os[1..][i - 1];
    }
  }

  /** The moved operands of an rvalue, by position. */
  lemma RvalueMovesIff(rv: Rvalue, p: Place)
    ensures p in RvalueMoves(rv) <==> exists i: nat :: OperandAt(rv, i, Move(p))
  {
    match rv {
      case Use(o) => assert OperandAt(rv, 0, o);
      case UnaryOp(_, o) => assert OperandAt(rv, 0, o);
      case Cast(o, _) => assert OperandAt(rv, 0, o);
      case Repeat(o, _) => assert OperandAt(rv, 0, o);
      case BinaryOp(_, l, r) => assert OperandAt(rv, 0, l) && OperandAt(rv, 1, r);
      case Aggregate(os) =>
        MovesAllIff(os, p);
        assert forall i: nat :: i < |os| ==> OperandAt(rv, i, os[i]);
      case _ =>
    }
  }

  /** A place among ps is moved out. */
  ghost predicate SomeMoved(c: Ctx, ps: seq<Place>, x: nat)
    requires Good(c)
  {
    exists p :: p in ps && !c.isCopy(p) && AtOrBelow(c.ar, Lookup(c.ar, p).1, x)
  }

  lemma ReplayOne(live: set<nat>, e: Effect, deadOnly: bool)
    ensures Replay(live, [e], deadOnly)
      == if e.Init? then live - e.nodes else if e.Died? || !deadOnly then live + e.nodes else live
    ensures Inits([e]) == (if e.Init? then e.nodes else {})
    ensures Gens([e], deadOnly) == if e.Died? || (e.Gone? && !deadOnly) then e.nodes else {}
  {
    assert [e][..0] == [];
    assert Replay(live, [e][..0], deadOnly) == live && Inits([e][..0]) == {} && Gens([e][..0], deadOnly) == {};
  }

  lemma {:induction false} GoneIs(c: Ctx, ps: seq<Place>, live: set<nat>, deadOnly: bool, x: nat)
    requires Good(c)
    ensures x in Replay(live, GoneOf(c, ps), deadOnly) <==> x in live || (!deadOnly && SomeMoved(c, ps, x))
    ensures x in Gens(GoneOf(c, ps), deadOnly) <==> !deadOnly && SomeMoved(c, ps, x)
    ensures Inits(GoneOf(c, ps)) == {}
    decreases |ps|
  {
    hide Valid, Family, Lookup;
    if ps != [] {
      var p, rest := ps[0], GoneOf(c, ps[1..]);
      var t := Touch(c, p);
      var here := if !c.isCopy(p) && t.Some? then [Gone(t.value)] else [];
      assert SomeMoved(c, ps, x) <==>
        (!c.isCopy(p) && AtOrBelow(c.ar, Lookup(c.ar, p).1, x)) || SomeMoved(c, ps[1..], x);
      if here != [] {
        FamilyIs(c, Lookup(c.ar, p).1, x);
        ReplayOne(live, here[0], deadOnly);
        SummaryAppend(here, rest, deadOnly);
        GoneIs(c, ps[1..], Replay(live, here, deadOnly), deadOnly, x);
      } else {
        assert [] + rest == rest;
        GoneIs(c, ps[1..], live, deadOnly, x);
      }
    }
  }

  lemma SomeMovedIff(c: Ctx, s: Statement, x: nat)
    requires Good(c) && s.Assign?
    ensures SomeMoved(c, RvalueMoves(s.rvalue), x) <==> MovesOut(c, s, x)
  {
    hide Good, Lookup, RvalueMoves, OperandAt;
    forall p ensures p in RvalueMoves(s.rvalue) <==> exists i: nat :: OperandAt(s.rvalue, i, Move(p)) {
      RvalueMovesIff(s.rvalue, p);
    }
  }

  lemma InitIs(c: Ctx, node: Option<nat>, fam: Option<set<nat>>, live: set<nat>, deadOnly: bool, x: nat)
    requires Good(c)
    requires fam == if node.Some? && node.value < |c.ar.paths| then Some(Family(c.ar, node.value)) else None
    ensures x in Replay(live, InitOf(fam), deadOnly) <==> x in live && !AtOrBelow(c.ar, node, x)
    ensures x in Inits(InitOf(fam)) <==> AtOrBelow(c.ar, node, x)
    ensures Gens(InitOf(fam), deadOnly) == {}
  {
    hide Good, Family;
    if fam.Some? {
      ReplayOne(live, Init(fam.value), deadOnly);
      FamilyIs(c, node, x);
    }
  }

  /** The effects of one statement, on places: a node is gone afterwards exactly if the
      statement takes it, or it was gone and the statement does not renew it. */
  lemma StmtIs(c: Ctx, s: Statement, live: set<nat>, deadOnly: bool, x: nat)
    requires Good(c)
    ensures x in Replay(live, StmtEffects(c, s), deadOnly) <==>
      Takes(c, s, x, deadOnly) || (x in live && !Renews(c, s, x))
    ensures x in Gens(StmtEffects(c, s), deadOnly) <==> Takes(c, s, x, deadOnly)
    ensures x in Inits(StmtEffects(c, s)) <==> Renews(c, s, x)
  {
    hide Valid, Family, Lookup, GoneOf, RvalueMoves, SomeMoved, AtOrBelow, FindRoot, InitOf;
    match s {
      case Assign(p, rv) =>
        var first, rest := InitOf(Touch(c, p)), GoneOf(c, RvalueMoves(rv));
        InitIs(c, Lookup(c.ar, p).1, Touch(c, p), live, deadOnly, x);
        GoneIs(c, RvalueMoves(rv), Replay(live, first, deadOnly), deadOnly, x);
        SummaryAppend(first, rest, deadOnly);
        SomeMovedIff(c, s, x);
      case StorageLive(l) => InitIs(c, FindRoot(c.ar, l), RootFamily(c, l), live, deadOnly, x);
      case StorageDead(l) =>
        var f := RootFamily(c, l);
        if f.Some? {
          ReplayOne(live, Died(f.value), deadOnly);
          FamilyIs(c, FindRoot(c.ar, l), x);
        } else {
          NoFamily(c, l, x);
        }
      case Nop =>
    }
  }

  lemma NoFamily(c: Ctx, l: Local, x: nat)
    requires Good(c) && RootFamily(c, l).None?
    ensures !AtOrBelow(c.ar, FindRoot(c.ar, l), x)
  {
  }

  /** The statement rows, on places. */
  lemma RowIs(c: Ctx, stmts: seq<Statement>, i: nat, live: set<nat>, deadOnly: bool, x: nat)
    requires Good(c) && i < |stmts|
    ensures x in RowAt(c, stmts, i + 1, live, deadOnly) <==>
      Takes(c, stmts[i], x, deadOnly) || (x in RowAt(c, stmts, i, live, deadOnly) && !Renews(c, stmts[i], x))
  {
    hide Good, RowAt, Takes, Renews, StmtEffects;
    RowStep(c, stmts, i, live, deadOnly);
    StmtIs(c, stmts[i], RowAt(c, stmts, i, live, deadOnly), deadOnly, x);
  }

  // ----- blocks and paths -----

  /** Some statement of the block takes the node. */
  ghost predicate BlockTakes(c: Ctx, bb: BasicBlock, x: nat, deadOnly: bool)
    requires Good(c)
  {
    exists i: nat :: i < |bb.stmts| && Takes(c, bb.stmts[i], x, deadOnly)
  }

  /** Some statement of the block renews the node, or its call does. */
  ghost predicate BlockRenews(c: Ctx, bb: BasicBlock, x: nat)
    requires Good(c)
  {
    || (exists i: nat :: i < |bb.stmts| && Renews(c, bb.stmts[i], x))
    || (bb.term.Call? && AtOrBelow(c.ar, Lookup(c.ar, bb.term.destination).1, x))
  }

  lemma {:induction false} StmtsAre(c: Ctx, stmts: seq<Statement>, x: nat, deadOnly: bool)
    requires Good(c)
    ensures x in Gens(StmtsEffects(c, stmts), deadOnly) <==>
      exists i: nat :: i < |stmts| && Takes(c, stmts[i], x, deadOnly)
    ensures x in Inits(StmtsEffects(c, stmts)) <==> exists i: nat :: i < |stmts| && Renews(c, stmts[i], x)
  {
    hide Good, Takes, Renews, StmtEffects;
    if stmts != [] {
      var init, s := stmts[..|stmts| - 1], stmts[|stmts| - 1];
      StmtsAre(c, init, x, deadOnly);
      StmtIs(c, s, {}, deadOnly, x);
      SummaryAppend(StmtsEffects(c, init), StmtEffects(c, s), deadOnly);
      assert forall i: nat :: i < |init| ==> init[i] == stmts[i];
    }
  }

  lemma BlockIs(c: Ctx, bb: BasicBlock, x: nat, deadOnly: bool)
    requires Good(c)
    ensures x in Gens(BlockEffects(c, bb), deadOnly) <==> BlockTakes(c, bb, x, deadOnly)
    ensures x in Inits(BlockEffects(c, bb)) <==> BlockRenews(c, bb, x)
  {
    hide Valid, StmtsEffects, Takes, Renews, Gens, Inits, AtOrBelow, Lookup, InitOf, Family;
    StmtsAre(c, bb.stmts, x, deadOnly);
    NoEffects(deadOnly);
    if bb.term.Call? {
      var p := bb.term.destination;
      InitIs(c, Lookup(c.ar, p).1, Touch(c, p), {}, deadOnly, x);
      SummaryAppend(StmtsEffects(c, bb.stmts), InitOf(Touch(c, p)), deadOnly);
    } else {
      SummaryAppend(StmtsEffects(c, bb.stmts), [], deadOnly);
    }
  }

  lemma NoEffects(deadOnly: bool)
    ensures Gens([], deadOnly) == {} && Inits([]) == {}
  {
  }

  /** A path of blocks that starts where the node is taken, follows the edges of the body
      without coming back to the entry, and nowhere renews the node. */
  ghost predicate CarriesGone(c: Ctx, body: Body, path: seq<nat>, x: nat, deadOnly: bool)
    requires Good(c)
  {
    && path != [] && (forall i: nat :: i < |path| ==> path[i] < |body.blocks|)
    && BlockTakes(c, body.blocks[path[0]], x, deadOnly)
    && (forall i: nat :: i < |path| ==> !BlockRenews(c, body.blocks[path[i]], x))
    && (forall i: nat :: 0 < i < |path| ==> path[i] != 0 && LeadsTo(body.blocks[path[i - 1]].term, path[i]))
  }

  /** The gen and kill sets of a flow are those of the body's blocks. */
  ghost predicate FlowOf(c: Ctx, body: Body, f: Flow, deadOnly: bool)
    requires Good(c)
  {
    && Shaped(body, f)
    && forall b: nat :: b < |body.blocks| ==>
         && f.gen[b] == Gens(BlockEffects(c, body.blocks[b]), deadOnly)
         && f.kill[b] == Inits(BlockEffects(c, body.blocks[b]))
  }

  /** A path carries a node exactly if it does without its last block and goes on. */
  lemma CarriesSnoc(c: Ctx, body: Body, init: seq<nat>, b: nat, x: nat, deadOnly: bool)
    requires Good(c)
    ensures CarriesGone(c, body, init + [b], x, deadOnly) <==>
      && b < |body.blocks| && !BlockRenews(c, body.blocks[b], x)
      && if init == [] then BlockTakes(c, body.blocks[b], x, deadOnly)
         else CarriesGone(c, body, init, x, deadOnly) && b != 0 && LeadsTo(body.blocks[init[|init| - 1]].term, b)
  {
    hide Good, BlockTakes, BlockRenews, LeadsTo;
    var path := init + [b];
    assert forall i: nat :: i < |init| ==> path[i] == init[i];
    assert path[|init|] == b;
    if CarriesGone(c, body, path, x, deadOnly) {
      assert path[|init|] < |body.blocks| && !BlockRenews(c, body.blocks[path[|init|]], x);
      if init != [] {
        forall i: nat | i < |init| ensures init[i] < |body.blocks| && !BlockRenews(c, body.blocks[init[i]], x) {
          assert path[i] < |body.blocks| && !BlockRenews(c, body.blocks[path[i]], x);
        }
        forall i: nat | 0 < i < |init| ensures init[i] != 0 && LeadsTo(body.blocks[init[i - 1]].term, init[i]) {
          assert path[i] != 0 && LeadsTo(body.blocks[path[i - 1]].term, path[i]);
        }
        assert path[|init|] != 0 && LeadsTo(body.blocks[path[|init| - 1]].term, path[|init|]);
      }
    }
  }

  lemma {:induction false} CarriesIff(c: Ctx, body: Body, f: Flow, path: seq<nat>, x: nat, deadOnly: bool)
    requires Good(c) && FlowOf(c, body, f, deadOnly)
    ensures Carries(body, f, path, x) <==> CarriesGone(c, body, path, x, deadOnly)
    decreases |path|
  {
    hide Good, BlockTakes, BlockRenews, BlockEffects, Gens, Inits, LeadsTo, CarriesGone, Successors;
    if path == [] {
      EmptyCarries(c, body, x, deadOnly);
    } else {
      var b, init := path[|path| - 1], path[..|path| - 1];
      assert path == init + [b];
      CarriesSnoc(c, body, init, b, x, deadOnly);
      CarriesIff(c, body, f, init, x, deadOnly);
      if b < |body.blocks| { BlockIs(c, body.blocks[b], x, deadOnly); }
      if init != [] && init[|init| - 1] < |body.blocks| { SuccessorsIff(body.blocks[init[|init| - 1]].term, b); }
    }
  }

  lemma EmptyCarries(c: Ctx, body: Body, x: nat, deadOnly: bool)
    requires Good(c)
    ensures !CarriesGone(c, body, [], x, deadOnly)
  {
  }

  /** The node is carried from where it is taken to the end of the block. */
  ghost predicate GoneAtEnd(c: Ctx, body: Body, b: nat, x: nat, deadOnly: bool)
    requires Good(c)
  {
    exists path :: CarriesGone(c, body, path, x, deadOnly) && path[|path| - 1] == b
  }

  /** A least table says that a node is gone at the end of a block exactly if a path of
      blocks leads there from one that takes it, and no block on it renews it. */
  lemma GoneAtEndIff(c: Ctx, body: Body, f: Flow, b: nat, x: nat, deadOnly: bool)
    requires Good(c) && FlowOf(c, body, f, deadOnly) && Least(body, f) && b < |body.blocks|
    ensures x in f.outs[b] <==> GoneAtEnd(c, body, b, x, deadOnly)
  {
    hide Good, FlowOf, BlockTakes, BlockRenews, LeadsTo;
    if x in f.outs[b] {
      var path :| Carries(body, f, path, x) && path[|path| - 1] == b;
      CarriesIff(c, body, f, path, x, deadOnly);
      assert CarriesGone(c, body, path, x, deadOnly) && path[|path| - 1] == b;
    }
    if GoneAtEnd(c, body, b, x, deadOnly) {
      var path :| CarriesGone(c, body, path, x, deadOnly) && path[|path| - 1] == b;
      CarriesIff(c, body, f, path, x, deadOnly);
      assert CarriedOut(body, f, b, x);
    }
  }

  /** The tables a body gets, on places and paths. */
  method MovedAndDead(c: Ctx, body: Body) returns (moved: Flow, dead: Flow)
    requires Closed(body) && BodyOk(c, body)
    ensures |moved.outs| == |dead.outs| == |body.blocks|
    ensures forall b: nat, x: nat :: b < |body.blocks| ==> (x in moved.outs[b] <==> GoneAtEnd(c, body, b, x, false))
    ensures forall b: nat, x: nat :: b < |body.blocks| ==> (x in dead.outs[b] <==> GoneAtEnd(c, body, b, x, true))
  {
    hide Good, GoneAtEnd, Least, Gens, Inits, BlockEffects;
    moved, dead := ComputeMoveDataflow(c, body);
    TablesShaped(body, moved);
    TablesShaped(body, dead);
    forall b: nat, x: nat | b < |body.blocks|
      ensures x in moved.outs[b] <==> GoneAtEnd(c, body, b, x, false)
      ensures x in dead.outs[b] <==> GoneAtEnd(c, body, b, x, true)
    {
      GoneAtEndIff(c, body, moved, b, x, false);
      GoneAtEndIff(c, body, dead, b, x, true);
    }
  }

  lemma TablesShaped(body: Body, f: Flow)
    requires Least(body, f)
    ensures Shaped(body, f)
  {
  }
}

/** The move effects of statements (move_analysis.rs): their block summaries, their
    replay, and when the two agree. */
module MoveEffects {
  import opened Mir
  import opened Bits
  import opened MovePaths
  import opened MoveDataflow

  // ----- effects -----

  /** An effect on a node and its direct children: initialised, moved out, or moved
      out with its storage gone. */
  datatype Effect = Init(nodes: set<nat>) | Gone(nodes: set<nat>) | Died(nodes: set<nat>)

  function Family(ar: Arena, i: nat): set<nat>
    requires i < |ar.paths|
  {
    {i} + set j | 0 <= j < |ar.paths[i].children| :: ar.paths[i].children[j]
  }

  /** The node of a place the arena already tracks completely. */
  function NodeOf(ar: Arena, place: Place): Option<nat>
    requires Valid(ar)
  {
    Lookup(ar, place).1
  }

  /** A lookup that adds no path, for which the bit sets would have no room. */
  ghost predicate Resolved(ar: Arena, place: Place)
    requires Valid(ar)
  {
    Lookup(ar, place).0 == ar
  }

  function Moves(o: Operand): seq<Place> {
    if o.Move? then [o.place] else []
  }

  function MovesAll(os: seq<Operand>): seq<Place> {
    if os == [] then [] else Moves(os[0]) + MovesAll(os[1..])
  }

  /** The operands an rvalue moves, in order. */
  function RvalueMoves(rv: Rvalue): seq<Place> {
    match rv
    case Use(o) => Moves(o)
    case BinaryOp(_, l, r) => Moves(l) + Moves(r)
    case UnaryOp(_, o) => Moves(o)
    case Aggregate(os) => MovesAll(os)
    case Cast(o, _) => Moves(o)
    case Repeat(o, _) => Moves(o)
    case _ => []
  }

  /** The arena, and which places have a Copy type. */
  datatype Ctx = Ctx(ar: Arena, isCopy: Place -> bool)

  ghost predicate Good(c: Ctx) { Valid(c.ar) }

  ghost predicate PlaceOk(c: Ctx, p: Place)
    requires Good(c)
  {
    Resolved(c.ar, p)
  }

  /** Every place a statement looks up is tracked already. */
  ghost predicate StmtOk(c: Ctx, s: Statement)
    requires Good(c)
  {
    s.Assign? ==> PlaceOk(c, s.dest) && forall p :: p in RvalueMoves(s.rvalue) && !c.isCopy(p) ==> PlaceOk(c, p)
  }

  function Touch(c: Ctx, place: Place): Option<set<nat>>
    requires Good(c)
  {
    match NodeOf(c.ar, place)
    case None => None
    case Some(i) => if i < |c.ar.paths| then Some(Family(c.ar, i)) else None
  }

  function RootFamily(c: Ctx, l: Local): Option<set<nat>>
    requires Good(c)
  {
    match FindRoot(c.ar, l)
    case None => None
    case Some(i) => if i < |c.ar.paths| then Some(Family(c.ar, i)) else None
  }

  function InitOf(o: Option<set<nat>>): seq<Effect> { if o.Some? then [Init(o.value)] else [] }

  function GoneOf(c: Ctx, ps: seq<Place>): seq<Effect>
    requires Good(c)
  {
    if ps == [] then [] else
    var t := Touch(c, ps[0]);
    (if !c.isCopy(ps[0]) && t.Some? then [Gone(t.value)] else []) + GoneOf(c, ps[1..])
  }

  /** The destination is initialised first, then the operands are moved out. */
  function StmtEffects(c: Ctx, s: Statement): seq<Effect>
    requires Good(c)
  {
    match s
    case Assign(p, rv) => InitOf(Touch(c, p)) + GoneOf(c, RvalueMoves(rv))
    case StorageLive(l) => InitOf(RootFamily(c, l))
    case StorageDead(l) => var f := RootFamily(c, l); if f.Some? then [Died(f.value)] else []
    case Nop => []
  }

  function StmtsEffects(c: Ctx, stmts: seq<Statement>): seq<Effect>
    requires Good(c)
  {
    if stmts == [] then [] else StmtsEffects(c, stmts[..|stmts| - 1]) + StmtEffects(c, stmts[|stmts| - 1])
  }

  /** The statements of a block, then the initialisation of a call's destination. */
  function BlockEffects(c: Ctx, bb: BasicBlock): seq<Effect>
    requires Good(c)
  {
    StmtsEffects(c, bb.stmts) + (if bb.term.Call? then InitOf(Touch(c, bb.term.destination)) else [])
  }

  // ----- summaries and replay -----

  function Inits(es: seq<Effect>): set<nat> {
    if es == [] then {} else Inits(es[..|es| - 1]) + (if es[|es| - 1].Init? then es[|es| - 1].nodes else {})
  }

  /** What the moved flow generates, or only the storage deaths for the dead flow. */
  function Gens(es: seq<Effect>, deadOnly: bool): set<nat> {
    if es == [] then {} else
    var e := es[|es| - 1];
    Gens(es[..|es| - 1], deadOnly) + (if e.Died? || (e.Gone? && !deadOnly) then e.nodes else {})
  }

  function Replay(live: set<nat>, es: seq<Effect>, deadOnly: bool): set<nat> {
    if es == [] then live else
    var e, before := es[|es| - 1], Replay(live, es[..|es| - 1], deadOnly);
    if e.Init? then before - e.nodes
    else if e.Died? || !deadOnly then before + e.nodes
    else before
  }

  /** The nodes whose last effect takes them away. */
  function LastTaken(es: seq<Effect>, deadOnly: bool): set<nat> {
    if es == [] then {} else
    var e, before := es[|es| - 1], LastTaken(es[..|es| - 1], deadOnly);
    if e.Init? then before - e.nodes
    else if e.Died? || !deadOnly then before + e.nodes
    else before
  }

  /** On every block and every incoming set: replay is the block summary plus the
      nodes last taken away. */
  lemma {:induction false} ReplayIsSummary(live: set<nat>, es: seq<Effect>, deadOnly: bool)
    ensures Replay(live, es, deadOnly) == ((live + Gens(es, deadOnly)) - Inits(es)) + LastTaken(es, deadOnly)
    ensures LastTaken(es, deadOnly) <= Gens(es, deadOnly)
  {
    if es != [] { ReplayIsSummary(live, es[..|es| - 1], deadOnly); }
  }

  /** No node is initialised and then, as its last effect, taken away. */
  predicate NoMoveAfterInit(es: seq<Effect>, deadOnly: bool) {
    LastTaken(es, deadOnly) !! Inits(es)
  }

  /** For each incoming set, replay gives the block summary exactly on such blocks. */
  lemma ReplayAgreesIff(live: set<nat>, es: seq<Effect>, deadOnly: bool)
    ensures Replay(live, es, deadOnly) == (live + Gens(es, deadOnly)) - Inits(es) <==> NoMoveAfterInit(es, deadOnly)
  {
    ReplayIsSummary(live, es, deadOnly);
    if !NoMoveAfterInit(es, deadOnly) {
      var x :| x in LastTaken(es, deadOnly) && x in Inits(es);
      assert x in Replay(live, es, deadOnly) && x !in (live + Gens(es, deadOnly)) - Inits(es);
    }
  }

  lemma {:induction false} SummaryAppend(a: seq<Effect>, b: seq<Effect>, deadOnly: bool)
    ensures Inits(a + b) == Inits(a) + Inits(b) && Gens(a + b, deadOnly) == Gens(a, deadOnly) + Gens(b, deadOnly)
    ensures forall live :: Replay(live, a + b, deadOnly) == Replay(Replay(live, a, deadOnly), b, deadOnly)
    decreases |b|
  {
    if b == [] {
      assert a + b == a;
    } else {
      assert (a + b)[..|a + b| - 1] == a + b[..|b| - 1];
      SummaryAppend(a, b[..|b| - 1], deadOnly);
    }
  }

  // ----- the per-block collection -----

  ghost predicate StmtsOk(c: Ctx, stmts: seq<Statement>)
    requires Good(c)
  {
    forall i: nat :: i < |stmts| ==> StmtOk(c, stmts[i])
  }

  ghost predicate BodyOk(c: Ctx, body: Body) {
    Good(c) && forall b: nat :: b < |body.blocks| ==>
      && StmtsOk(c, body.blocks[b].stmts)
      && (body.blocks[b].term.Call? ==> PlaceOk(c, body.blocks[b].term.destination))
  }

  lemma FamilyBelow(ar: Arena, i: nat)
    requires Valid(ar) && i < |ar.paths|
    ensures Below(Family(ar, i), |ar.paths|)
  {
    assert ChildrenOk(ar, i);
  }

  ghost predicate EffectsBelow(es: seq<Effect>, cap: nat) {
    forall i: nat :: i < |es| ==> Below(es[i].nodes, cap)
  }

  lemma {:induction false} GensBelow(es: seq<Effect>, deadOnly: bool, cap: nat)
    requires EffectsBelow(es, cap)
    ensures Below(Gens(es, deadOnly), cap)
  {
    if es != [] { GensBelow(es[..|es| - 1], deadOnly, cap); }
  }

  lemma {:induction false} GoneBelow(c: Ctx, ps: seq<Place>)
    requires Good(c)
    ensures EffectsBelow(GoneOf(c, ps), |c.ar.paths|)
  {
    if ps != [] {
      GoneBelow(c, ps[1..]);
      var i := NodeOf(c.ar, ps[0]);
      if i.Some? && i.value < |c.ar.paths| { FamilyBelow(c.ar, i.value); }
    }
  }

  lemma StmtBelow(c: Ctx, s: Statement)
    requires Good(c)
    ensures EffectsBelow(StmtEffects(c, s), |c.ar.paths|)
  {
    match s {
      case Assign(p, rv) =>
        GoneBelow(c, RvalueMoves(rv));
        var i := NodeOf(c.ar, p);
        if i.Some? && i.value < |c.ar.paths| { FamilyBelow(c.ar, i.value); }
      case StorageLive(l) =>
        var i := FindRoot(c.ar, l);
        if i.Some? && i.value < |c.ar.paths| { FamilyBelow(c.ar, i.value); }
      case StorageDead(l) =>
        var i := FindRoot(c.ar, l);
        if i.Some? && i.value < |c.ar.paths| { FamilyBelow(c.ar, i.value); }
      case Nop =>
    }
  }

  lemma {:induction false} StmtsBelow(c: Ctx, stmts: seq<Statement>)
    requires Good(c)
    ensures EffectsBelow(StmtsEffects(c, stmts), |c.ar.paths|)
  {
    if stmts != [] {
      StmtsBelow(c, stmts[..|stmts| - 1]);
      StmtBelow(c, stmts[|stmts| - 1]);
    }
  }

  lemma BlockBelow(c: Ctx, bb: BasicBlock)
    requires Good(c)
    ensures EffectsBelow(BlockEffects(c, bb), |c.ar.paths|)
  {
    StmtsBelow(c, bb.stmts);
    if bb.term.Call? {
      var i := NodeOf(c.ar, bb.term.destination);
      if i.Some? && i.value < |c.ar.paths| { FamilyBelow(c.ar, i.value); }
    }
  }

  /** The four bit sets of a block, accumulated effect by effect. */
  method Collect(es: seq<Effect>) returns (moves: set<nat>, inits: set<nat>, deads: set<nat>, deadInits: set<nat>)
    ensures moves == Gens(es, false) && deads == Gens(es, true) && inits == deadInits == Inits(es)
  {
    moves, inits, deads, deadInits := {}, {}, {}, {};
    for i := 0 to |es|
      invariant moves == Gens(es[..i], false) && deads == Gens(es[..i], true) && inits == deadInits == Inits(es[..i])
    {
      assert es[..i + 1][..i] == es[..i] && es[..i + 1][i] == es[i];
      match es[i] {
        case Init(f) => inits, deadInits := inits + f, deadInits + f;
        case Gone(f) => moves := moves + f;
        case Died(f) => moves, deads := moves + f, deads + f;
      }
    }
    assert es[..|es|] == es;
  }

  /** The gen and kill sets of block b are those of its effects. */
  ghost predicate Collected(c: Ctx, body: Body, b: nat, moves: set<nat>, deads: set<nat>, inits: set<nat>)
    requires Good(c) && b < |body.blocks|
  {
    var es := BlockEffects(c, body.blocks[b]);
    moves == Gens(es, false) && deads == Gens(es, true) && inits == Inits(es)
  }

  method CollectBlocks(c: Ctx, body: Body)
    returns (moves: seq<set<nat>>, inits: seq<set<nat>>, deads: seq<set<nat>>, deadInits: seq<set<nat>>)
    requires Good(c) && BodyOk(c, body)
    ensures |moves| == |inits| == |deads| == |deadInits| == |body.blocks| && inits == deadInits
    ensures AllBelow(moves, |c.ar.paths|) && AllBelow(deads, |c.ar.paths|)
    ensures forall b: nat :: b < |body.blocks| ==> Collected(c, body, b, moves[b], deads[b], inits[b])
  {
    hide Good, BodyOk, BlockEffects, Gens, Inits, EffectsBelow;
    moves, inits, deads, deadInits := [], [], [], [];
    for b := 0 to |body.blocks|
      invariant |moves| == |inits| == |deads| == |deadInits| == b && inits == deadInits
      invariant AllBelow(moves, |c.ar.paths|) && AllBelow(deads, |c.ar.paths|)
      invariant forall k: nat :: k < b ==> Collected(c, body, k, moves[k], deads[k], inits[k])
    {
      var es := BlockEffects(c, body.blocks[b]);
      BlockBelow(c, body.blocks[b]);
      GensBelow(es, false, |c.ar.paths|);
      GensBelow(es, true, |c.ar.paths|);
      var m, i, d, di := Collect(es);
      moves, inits, deads, deadInits := moves + [m], inits + [i], deads + [d], deadInits + [di];
    }
  }

  /** The moved and dead tables of a body: the least solutions of the equations of
      its blocks' effects. */
  method ComputeMoveDataflow(c: Ctx, body: Body) returns (moved: Flow, dead: Flow)
    requires Closed(body) && BodyOk(c, body)
    ensures Least(body, moved) && Least(body, dead) && dead.kill == moved.kill
    ensures forall b: nat :: b < |body.blocks| ==> Collected(c, body, b, moved.gen[b], dead.gen[b], moved.kill[b])
  {
    var moves, inits, deads, deadInits := CollectBlocks(c, body);
    moved, dead := Solve(body, moves, inits, deads, deadInits, |c.ar.paths|);
  }

  /** The row before statement i of a block entered with live. */
  function RowAt(c: Ctx, stmts: seq<Statement>, i: nat, live: set<nat>, deadOnly: bool): set<nat>
    requires Good(c) && i <= |stmts|
  {
    Replay(live, StmtsEffects(c, stmts[..i]), deadOnly)
  }

  lemma RowStep(c: Ctx, stmts: seq<Statement>, i: nat, live: set<nat>, deadOnly: bool)
    requires Good(c) && i < |stmts|
    ensures RowAt(c, stmts, i + 1, live, deadOnly)
      == Replay(RowAt(c, stmts, i, live, deadOnly), StmtEffects(c, stmts[i]), deadOnly)
  {
    assert stmts[..i + 1][..i] == stmts[..i] && stmts[..i + 1][i] == stmts[i];
    SummaryAppend(StmtsEffects(c, stmts[..i]), StmtEffects(c, stmts[i]), deadOnly);
  }

  lemma RowStart(c: Ctx, stmts: seq<Statement>, movedIn: set<nat>, deadIn: set<nat>)
    requires Good(c)
    ensures RowAt(c, stmts, 0, movedIn, false) == movedIn && RowAt(c, stmts, 0, deadIn, true) == deadIn
  {
  }

  /** Replaying a block's statements from its incoming rows. */
  method ComputeStmtMoved(c: Ctx, stmts: seq<Statement>, movedIn: set<nat>, deadIn: set<nat>)
    returns (moved: seq<set<nat>>, dead: seq<set<nat>>)
    requires Good(c) && StmtsOk(c, stmts)
    ensures |moved| == |dead| == |stmts| + 1
    ensures forall i: nat :: i <= |stmts| ==> moved[i] == RowAt(c, stmts, i, movedIn, false)
    ensures forall i: nat :: i <= |stmts| ==> dead[i] == RowAt(c, stmts, i, deadIn, true)
  {
    hide RowAt, Replay, StmtEffects, Good, StmtsOk;
    RowStart(c, stmts, movedIn, deadIn);
    moved, dead := [movedIn], [deadIn];
    for i := 0 to |stmts|
      invariant |moved| == |dead| == i + 1
      invariant forall k: nat :: k <= i ==> moved[k] == RowAt(c, stmts, k, movedIn, false)
      invariant forall k: nat :: k <= i ==> dead[k] == RowAt(c, stmts, k, deadIn, true)
    {
      var m, d := Apply(StmtEffects(c, stmts[i]), moved[i], dead[i]);
      RowStep(c, stmts, i, movedIn, false);
      RowStep(c, stmts, i, deadIn, true);
      moved, dead := moved + [m], dead + [d];
    }
  }

  method Apply(es: seq<Effect>, moved: set<nat>, dead: set<nat>) returns (m: set<nat>, d: set<nat>)
    ensures m == Replay(moved, es, false) && d == Replay(dead, es, true)
  {
    m, d := moved, dead;
    for i := 0 to |es|
      invariant m == Replay(moved, es[..i], false) && d == Replay(dead, es[..i], true)
    {
      assert es[..i + 1][..i] == es[..i] && es[..i + 1][i] == es[i];
      match es[i] {
        case Init(f) => m, d := m - f, d - f;
        case Gone(f) => m := m + f;
        case Died(f) => m, d := m + f, d + f;
      }
    }
    assert es[..|es|] == es;
  }

  /** The statement rows of a block, closed by its call's initialisation, end in the
      block's outgoing row exactly when no node's last effect is a move after an
      initialisation. */
  lemma ReplayMeetsTable(c: Ctx, body: Body, moved: Flow, b: nat, deadOnly: bool)
    requires Good(c) && b < |body.blocks| && Solves(body, moved)
    requires moved.gen[b] == Gens(BlockEffects(c, body.blocks[b]), deadOnly)
    requires moved.kill[b] == Inits(BlockEffects(c, body.blocks[b]))
    ensures var bb := body.blocks[b];
      var stmts := Replay(moved.ins[b], StmtsEffects(c, bb.stmts), deadOnly);
      var end := if bb.term.Call? then Replay(stmts, InitOf(Touch(c, bb.term.destination)), deadOnly) else stmts;
      && moved.outs[b] <= end
      && (end == moved.outs[b] <==> NoMoveAfterInit(BlockEffects(c, bb), deadOnly))
  {
    var bb := body.blocks[b];
    var tail := if bb.term.Call? then InitOf(Touch(c, bb.term.destination)) else [];
    SummaryAppend(StmtsEffects(c, bb.stmts), tail, deadOnly);
    ReplayIsSummary(moved.ins[b], BlockEffects(c, bb), deadOnly);
    ReplayAgreesIff(moved.ins[b], BlockEffects(c, bb), deadOnly);
    assert MoveDataflow.SolvesAt(body, moved, b);
  }

  // ----- a move the tables forget -----

  /** Two locals without fields. */
  function TwoLocals(): Arena {
    Arena([MovePath(Place(0, []), None, []), MovePath(Place(1, []), None, [])], [Some(0), Some(1)])
  }

  lemma TwoLocalsValid()
    ensures Valid(TwoLocals())
    ensures Family(TwoLocals(), 0) == {0} && Family(TwoLocals(), 1) == {1}
  {
    var ar := TwoLocals();
    assert forall l: nat :: l < |ar.roots| ==> RootOk(ar, l);
    assert forall i: nat :: i < |ar.paths| ==> ParentOk(ar, i) && ChildrenOk(ar, i);
  }

  /** `_0 = const; _1 = move _0` in one block: the statement rows say _0 is moved at
      the end, the block's outgoing row says it is not, so a later block may use it. */
  lemma MoveAfterInitForgotten()
    ensures var c := Ctx(TwoLocals(), p => false);
      var set0 := Assign(Place(0, []), Use(Constant(Const(CUnit, 0))));
      var move0 := Assign(Place(1, []), Use(Move(Place(0, []))));
      && Good(c)
      && 0 in Replay({}, StmtsEffects(c, [set0, move0]), false)
      && 0 !in ({} + Gens(StmtsEffects(c, [set0, move0]), false)) - Inits(StmtsEffects(c, [set0, move0]))
  {
    TwoLocalsValid();
    var c := Ctx(TwoLocals(), p => false);
    var set0 := Assign(Place(0, []), Use(Constant(Const(CUnit, 0))));
    var move0 := Assign(Place(1, []), Use(Move(Place(0, []))));
    assert [set0, move0][..1] == [set0] && [set0][..0] == [];
    assert [Place(0, [])][1..] == [];
    assert GoneOf(c, [Place(0, [])]) == [Gone({0})];
    assert StmtEffects(c, set0) == [Init({0})];
    assert StmtEffects(c, move0) == [Init({1}), Gone({0})];
    assert StmtsEffects(c, [set0]) == [Init({0})];
    var es := StmtsEffects(c, [set0, move0]);
    assert es == [Init({0}), Init({1}), Gone({0})];
    assert es[..2] == [Init({0}), Init({1})] && es[..2][..1] == [Init({0})] && [Init({0})][..0] == [];
    assert Inits([Init({0})]) == {0};
    assert Inits(es[..2]) == {0, 1};
  }
}

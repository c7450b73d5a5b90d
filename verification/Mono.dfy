/** Monomorphization (crates/glyim-lower/src/mono.rs): which instances a program
    needs, collected by a queue that discovers items while it scans bodies. */
module Mono {
  import opened Mir

  datatype Item =
    | FnItem(def: nat, substs: Substs)
    | ConstItem(def: nat, substs: Substs)
    | StaticItem(def: nat)
    | DropGlue(ty: Ty)

  /** The empty substitution. */
  const EMPTY: Substs := 0

  /** What the collector asks of an attached type context. */
  datatype TyCtx = TyCtx(
    resolveMethod: (nat, Ty, nat) -> Option<nat>,
    fnTy: nat -> Ty,
    fnSubsts: Ty -> Option<Substs>,
    hasParam: Substs -> bool)

  /** The callbacks of a collection. A body is looked up by definition and substitution,
      drop glue by type. */
  datatype World = World(bodyOf: (nat, Substs) -> Body, glueOf: Ty -> Body, ctx: Option<TyCtx>)

  datatype ItemData = ItemData(item: Item, body: Body)

  const DUMMY: Body := Body([BasicBlock([], Unreachable)], [UNIT], 0)

  // ----- devirtualisation -----

  function ReceiverTy(args: seq<Operand>, locals: seq<Ty>): Option<Ty> {
    if args == [] then None else
    match args[0]
    case Constant(c) => Some(c.ty)
    case Copy(p) => if p.local < |locals| then Some(locals[p.local]) else None
    case Move(p) => if p.local < |locals| then Some(locals[p.local]) else None
  }

  function DirectBlock(ctx: TyCtx, locals: seq<Ty>, bb: BasicBlock): BasicBlock {
    if bb.term.Call? && bb.term.func.Constant? && bb.term.func.const_.kind.CVirtualMethod? then
      var k := bb.term.func.const_.kind;
      var recv := ReceiverTy(bb.term.args, locals);
      if recv.None? then bb else
      match ctx.resolveMethod(k.traitDef, recv.value, k.methodName)
      case None => bb
      case Some(f) => bb.(term := bb.term.(func := Constant(Const(CFn(f, EMPTY), ctx.fnTy(f)))))
    else bb
  }

  function Direct(ctx: Option<TyCtx>, body: Body): Body {
    if ctx.None? then body else
    body.(blocks := seq(|body.blocks|, b requires 0 <= b < |body.blocks| =>
                          DirectBlock(ctx.value, body.locals, body.blocks[b])))
  }

  /** Replaces every virtual callee that can be resolved, block by block. */
  method Devirtualize(ctx: Option<TyCtx>, body: Body) returns (r: Body)
    ensures r == Direct(ctx, body)
  {
    r := body;
    if ctx.None? { return; }
    for b := 0 to |body.blocks|
      invariant r.locals == body.locals && r.argCount == body.argCount && |r.blocks| == |body.blocks|
      invariant forall k: nat :: k < b ==> r.blocks[k] == DirectBlock(ctx.value, body.locals, body.blocks[k])
      invariant forall k: nat :: b <= k < |body.blocks| ==> r.blocks[k] == body.blocks[k]
    {
      r := r.(blocks := r.blocks[b := DirectBlock(ctx.value, r.locals, r.blocks[b])]);
    }
  }

  function BodyFor(w: World, item: Item): Body {
    Direct(w.ctx, match item
                  case FnItem(d, s) => w.bodyOf(d, s)
                  case ConstItem(d, s) => w.bodyOf(d, s)
                  case StaticItem(_) => DUMMY
                  case DropGlue(t) => w.glueOf(t))
  }

  // ----- the references of a body, in scanning order -----

  function OperandRefs(ctx: Option<TyCtx>, o: Operand): seq<Item> {
    if o.Constant? && o.const_.kind.CFn? && ctx.None? then [FnItem(o.const_.kind.def, o.const_.kind.substs)] else []
  }

  function OperandsRefs(ctx: Option<TyCtx>, os: seq<Operand>): seq<Item> {
    if os == [] then [] else OperandsRefs(ctx, os[..|os| - 1]) + OperandRefs(ctx, os[|os| - 1])
  }

  function RvalueRefs(ctx: Option<TyCtx>, rv: Rvalue): seq<Item> {
    match rv
    case Use(o) => OperandRefs(ctx, o)
    case BinaryOp(_, l, r) => OperandRefs(ctx, l) + OperandRefs(ctx, r)
    case UnaryOp(_, o) => OperandRefs(ctx, o)
    case Aggregate(os) => OperandsRefs(ctx, os)
    case Cast(o, _) => OperandRefs(ctx, o)
    case Repeat(o, _) => OperandRefs(ctx, o)
    case _ => []
  }

  function StmtsRefs(ctx: Option<TyCtx>, stmts: seq<Statement>): seq<Item> {
    if stmts == [] then [] else
    StmtsRefs(ctx, stmts[..|stmts| - 1]) +
    (if stmts[|stmts| - 1].Assign? then RvalueRefs(ctx, stmts[|stmts| - 1].rvalue) else [])
  }

  /** The substitution a direct call instantiates its callee with: the one in the
      callee's type, unless that still has a parameter in it. */
  function Instance(ctx: Option<TyCtx>, ty: Ty): Substs {
    if ctx.None? then EMPTY else
    match ctx.value.fnSubsts(ty)
    case None => EMPTY
    case Some(s) => if ctx.value.hasParam(s) then EMPTY else s
  }

  function CalleeRefs(ctx: Option<TyCtx>, func: Operand): seq<Item> {
    if func.Constant? && func.const_.kind.CFn? then [FnItem(func.const_.kind.def, Instance(ctx, func.const_.ty))]
    else []
  }

  function TermRefs(ctx: Option<TyCtx>, t: Terminator): seq<Item> {
    match t
    case Call(f, args, _, _, _) => CalleeRefs(ctx, f) + OperandRefs(ctx, f) + OperandsRefs(ctx, args)
    case SwitchInt(d, _, _, _) => OperandRefs(ctx, d)
    case Assert(c, _, _, _) => OperandRefs(ctx, c)
    case _ => []
  }

  function BlocksRefs(ctx: Option<TyCtx>, blocks: seq<BasicBlock>): seq<Item> {
    if blocks == [] then [] else
    var bb := blocks[|blocks| - 1];
    BlocksRefs(ctx, blocks[..|blocks| - 1]) + (StmtsRefs(ctx, bb.stmts) + TermRefs(ctx, bb.term))
  }

  /** The locals a body drops, in block order. */
  function Dropped(blocks: seq<BasicBlock>): seq<Local> {
    if blocks == [] then [] else
    var t := blocks[|blocks| - 1].term;
    Dropped(blocks[..|blocks| - 1]) + if t.Drop? then [t.dropPlace.local] else []
  }

  function Glue(locals: seq<Ty>, dropped: seq<Local>): seq<Item> {
    if dropped == [] then [] else
    var l := dropped[|dropped| - 1];
    Glue(locals, dropped[..|dropped| - 1]) + if l < |locals| then [DropGlue(locals[l])] else []
  }

  function BodyRefs(ctx: Option<TyCtx>, body: Body): seq<Item> {
    BlocksRefs(ctx, body.blocks) + Glue(body.locals, Dropped(body.blocks))
  }

  function Refs(w: World, item: Item): seq<Item> {
    BodyRefs(w.ctx, BodyFor(w, item))
  }

  // ----- what must be collected -----

  /** A chain of references from one item to the next. */
  ghost predicate Chain(w: World, path: seq<Item>) {
    path != [] && forall i: nat :: i + 1 < |path| ==> path[i + 1] in Refs(w, path[i])
  }

  ghost predicate Reachable(w: World, roots: set<Item>, x: Item) {
    exists path :: Chain(w, path) && path[0] in roots && path[|path| - 1] == x
  }

  ghost predicate ClosedUniverse(w: World, universe: set<Item>) {
    forall x, r :: x in universe && r in Refs(w, x) ==> r in universe
  }

  lemma RootReachable(w: World, roots: set<Item>, x: Item)
    requires x in roots
    ensures Reachable(w, roots, x)
  {
    assert Chain(w, [x]) && [x][0] in roots && [x][|[x]| - 1] == x;
  }

  lemma RefReachable(w: World, roots: set<Item>, x: Item, r: Item)
    requires Reachable(w, roots, x) && r in Refs(w, x)
    ensures Reachable(w, roots, r)
  {
    hide Refs;
    var path :| Chain(w, path) && path[0] in roots && path[|path| - 1] == x;
    var longer := path + [r];
    assert Chain(w, longer) && longer[0] in roots && longer[|longer| - 1] == r;
  }

  lemma MoreRoots(w: World, roots: set<Item>, more: set<Item>, x: Item)
    requires Reachable(w, roots, x) && roots <= more
    ensures Reachable(w, more, x)
  {
    var path :| Chain(w, path) && path[0] in roots && path[|path| - 1] == x;
  }

  /** A set that holds the roots and is closed under references holds all that is
      reachable. */
  lemma {:induction false} ChainStays(w: World, items: set<Item>, path: seq<Item>)
    requires Chain(w, path) && path[0] in items && ClosedUniverse(w, items)
    ensures path[|path| - 1] in items
    decreases |path|
  {
    hide Refs;
    if |path| > 1 {
      assert path[0 + 1] in Refs(w, path[0]);
      forall i: nat | i + 1 < |path[1..]| ensures path[1..][i + 1] in Refs(w, path[1..][i]) {
        assert path[i + 1 + 1] in Refs(w, path[i + 1]);
      }
      ChainStays(w, items, path[1..]);
    }
  }

  // ----- the collector -----

  /** The references worth queueing. */
  function Unseen(refs: seq<Item>, known: set<Item>): seq<Item> {
    if refs == [] then [] else
    Unseen(refs[..|refs| - 1], known) + if refs[|refs| - 1] in known then [] else [refs[|refs| - 1]]
  }

  lemma {:induction false} UnseenAppend(a: seq<Item>, b: seq<Item>, known: set<Item>)
    ensures Unseen(a + b, known) == Unseen(a, known) + Unseen(b, known)
    decreases |b|
  {
    if b == [] {
      assert a + b == a;
    } else {
      UnseenAppend(a, b[..|b| - 1], known);
      assert (a + b)[..|a + b| - 1] == a + b[..|b| - 1];
    }
  }

  lemma {:induction false} UnseenHas(refs: seq<Item>, known: set<Item>, x: Item)
    ensures x in Unseen(refs, known) <==> x in refs && x !in known
  {
    if refs != [] {
      UnseenHas(refs[..|refs| - 1], known, x);
      assert refs == refs[..|refs| - 1] + [refs[|refs| - 1]];
    }
  }

  lemma UnseenNone(known: set<Item>)
    ensures Unseen([], known) == []
  {
  }

  lemma UnseenOne(item: Item, known: set<Item>)
    ensures Unseen([item], known) == if item in known then [] else [item]
  {
    assert [item][..0] == [];
  }

  /** Items and cache name each other: every item once, at its cached index, with the
      body it was scanned in. */
  ghost predicate Indexed(w: World, items: seq<ItemData>, seen: set<Item>, cache: map<Item, nat>, ctx: Option<TyCtx>) {
    && seen == cache.Keys && ctx == w.ctx
    && (forall i: nat :: i < |items| ==> items[i].item in cache && cache[items[i].item] == i)
    && (forall x :: x in cache ==> cache[x] < |items| && items[cache[x]].item == x)
    && (forall i: nat :: i < |items| ==> items[i].body == BodyFor(w, items[i].item))
  }

  /** What is seen or queued is reachable; the roots and the references of what is
      seen are seen or queued. */
  ghost predicate Frontier(w: World, roots: set<Item>, seen: set<Item>, queue: seq<Item>) {
    && (forall x :: x in seen ==> Reachable(w, roots, x))
    && (forall x :: x in queue ==> Reachable(w, roots, x))
    && (forall x :: x in roots ==> x in seen || x in queue)
    && (forall x, r :: x in seen && r in Refs(w, x) ==> r in seen || r in queue)
  }

  lemma IndexedKnows(w: World, items: seq<ItemData>, seen: set<Item>, cache: map<Item, nat>, ctx: Option<TyCtx>)
    requires Indexed(w, items, seen, cache, ctx)
    ensures seen == cache.Keys
  {
  }

  /** A queued item that is already seen may be dropped. */
  lemma DropSeen(w: World, roots: set<Item>, seen: set<Item>, queue: seq<Item>)
    requires queue != [] && Frontier(w, roots, seen, queue) && queue[0] in seen
    ensures Frontier(w, roots, seen, queue[1..])
  {
    hide Refs, Reachable;
    assert forall x :: x in queue ==> x == queue[0] || x in queue[1..];
  }

  /** Seeing the first queued item and queueing its unseen references. */
  lemma SeeNext(w: World, roots: set<Item>, seen: set<Item>, queue: seq<Item>, queue': seq<Item>)
    requires queue != [] && Frontier(w, roots, seen, queue)
    requires queue' == queue[1..] + Unseen(Refs(w, queue[0]), seen + {queue[0]})
    ensures Frontier(w, roots, seen + {queue[0]}, queue')
    ensures forall x :: x in queue' ==> x in queue[1..] || x in Refs(w, queue[0])
  {
    hide Refs, Reachable, Unseen;
    var item := queue[0];
    assert forall x :: x in queue ==> x == item || x in queue[1..];
    forall x ensures x in Unseen(Refs(w, item), seen + {item}) <==> x in Refs(w, item) && x !in seen + {item} {
      UnseenHas(Refs(w, item), seen + {item}, x);
    }
    forall x | x in Refs(w, item) ensures Reachable(w, roots, x) { RefReachable(w, roots, item, x); }
  }

  class Collector {
    var items: seq<ItemData>
    var queue: seq<Item>
    var seen: set<Item>
    var cache: map<Item, nat>
    var dropLocals: seq<Local>
    var ctx: Option<TyCtx>

    constructor ()
      ensures items == [] && queue == [] && seen == {} && cache == map[] && ctx == None
    {
      items, queue, seen, cache, dropLocals, ctx := [], [], {}, map[], [], None;
    }

    method WithTyCtx(c: TyCtx)
      modifies this`ctx
      ensures ctx == Some(c)
    {
      ctx := Some(c);
    }

    ghost function Known(): set<Item>
      reads this
    {
      seen + cache.Keys
    }

    /** Queueing the unseen ones of refs, and nothing else. */
    twostate predicate Queued(refs: seq<Item>)
      reads this
    {
      && queue == old(queue) + Unseen(refs, old(Known())) && dropLocals == old(dropLocals)
    }

    method Enqueue(item: Item)
      modifies this`queue
      ensures Queued([item])
    {
      UnseenOne(item, Known());
      if item !in seen && item !in cache { queue := queue + [item]; }
    }

    method ScanOperand(o: Operand)
      modifies this`queue
      ensures Queued(OperandRefs(ctx, o))
    {
      hide Unseen;
      UnseenNone(Known());
      if o.Constant? && o.const_.kind.CFn? && ctx.None? {
        Enqueue(FnItem(o.const_.kind.def, o.const_.kind.substs));
      }
    }

    method ScanOperands(os: seq<Operand>)
      modifies this`queue
      ensures Queued(OperandsRefs(ctx, os))
    {
      hide OperandRefs, Unseen;
      UnseenNone(Known());
      for i := 0 to |os|
        invariant Queued(OperandsRefs(ctx, os[..i]))
      {
        assert os[..i + 1][..i] == os[..i];
        UnseenAppend(OperandsRefs(ctx, os[..i]), OperandRefs(ctx, os[i]), Known());
        ScanOperand(os[i]);
      }
      assert os[..|os|] == os;
    }

    method ScanRvalue(rv: Rvalue)
      modifies this`queue
      ensures Queued(RvalueRefs(ctx, rv))
    {
      hide OperandRefs, OperandsRefs, Unseen;
      UnseenNone(Known());
      match rv {
        case Use(o) => ScanOperand(o);
        case BinaryOp(_, l, r) =>
          UnseenAppend(OperandRefs(ctx, l), OperandRefs(ctx, r), Known());
          ScanOperand(l);
          ScanOperand(r);
        case UnaryOp(_, o) => ScanOperand(o);
        case Aggregate(os) => ScanOperands(os);
        case Cast(o, _) => ScanOperand(o);
        case Repeat(o, _) => ScanOperand(o);
        case _ =>
      }
    }

    method ScanStatements(stmts: seq<Statement>)
      modifies this`queue
      ensures Queued(StmtsRefs(ctx, stmts))
    {
      hide RvalueRefs, Unseen;
      UnseenNone(Known());
      for i := 0 to |stmts|
        invariant Queued(StmtsRefs(ctx, stmts[..i]))
      {
        assert stmts[..i + 1][..i] == stmts[..i];
        if stmts[i].Assign? {
          UnseenAppend(StmtsRefs(ctx, stmts[..i]), RvalueRefs(ctx, stmts[i].rvalue), Known());
          ScanRvalue(stmts[i].rvalue);
        } else {
          assert StmtsRefs(ctx, stmts[..i]) + [] == StmtsRefs(ctx, stmts[..i]);
        }
      }
      assert stmts[..|stmts|] == stmts;
    }

    method ScanCall(f: Operand, args: seq<Operand>)
      modifies this`queue
      ensures Queued(CalleeRefs(ctx, f) + OperandRefs(ctx, f) + OperandsRefs(ctx, args))
    {
      hide OperandRefs, OperandsRefs, Unseen, Instance;
      UnseenNone(Known());
      UnseenAppend(CalleeRefs(ctx, f), OperandRefs(ctx, f), Known());
      UnseenAppend(CalleeRefs(ctx, f) + OperandRefs(ctx, f), OperandsRefs(ctx, args), Known());
      if f.Constant? && f.const_.kind.CFn? {
        Enqueue(FnItem(f.const_.kind.def, Instance(ctx, f.const_.ty)));
      }
      ScanOperand(f);
      ScanOperands(args);
    }

    method ScanTerminator(t: Terminator)
      modifies this`queue, this`dropLocals
      ensures queue == old(queue) + Unseen(TermRefs(ctx, t), Known())
      ensures dropLocals == old(dropLocals) + if t.Drop? then [t.dropPlace.local] else []
    {
      hide OperandRefs, OperandsRefs, CalleeRefs, Unseen;
      UnseenNone(Known());
      match t {
        case Call(f, args, _, _, _) => ScanCall(f, args);
        case Drop(p, _, _) => dropLocals := dropLocals + [p.local];
        case SwitchInt(d, _, _, _) => ScanOperand(d);
        case Assert(c, _, _, _) => ScanOperand(c);
        case _ =>
      }
    }

    method ScanBlocks(blocks: seq<BasicBlock>)
      requires dropLocals == []
      modifies this`queue, this`dropLocals
      ensures queue == old(queue) + Unseen(BlocksRefs(ctx, blocks), Known()) && dropLocals == Dropped(blocks)
    {
      hide StmtsRefs, TermRefs, Unseen;
      UnseenNone(Known());
      ghost var was := queue;
      for b := 0 to |blocks|
        invariant queue == was + Unseen(BlocksRefs(ctx, blocks[..b]), Known()) && dropLocals == Dropped(blocks[..b])
      {
        var bb := blocks[b];
        assert blocks[..b + 1][..b] == blocks[..b];
        UnseenAppend(StmtsRefs(ctx, bb.stmts), TermRefs(ctx, bb.term), Known());
        UnseenAppend(BlocksRefs(ctx, blocks[..b]), StmtsRefs(ctx, bb.stmts) + TermRefs(ctx, bb.term), Known());
        ScanStatements(bb.stmts);
        ScanTerminator(bb.term);
      }
      assert blocks[..|blocks|] == blocks;
    }

    method QueueGlue(locals: seq<Ty>, pending: seq<Local>)
      modifies this`queue
      ensures Queued(Glue(locals, pending))
    {
      hide Unseen;
      UnseenNone(Known());
      for i := 0 to |pending|
        invariant Queued(Glue(locals, pending[..i]))
      {
        assert pending[..i + 1][..i] == pending[..i];
        if pending[i] < |locals| {
          UnseenAppend(Glue(locals, pending[..i]), [DropGlue(locals[pending[i]])], Known());
          Enqueue(DropGlue(locals[pending[i]]));
        } else {
          assert Glue(locals, pending[..i]) + [] == Glue(locals, pending[..i]);
        }
      }
      assert pending[..|pending|] == pending;
    }

    /** Queues every reference of the body that is not yet known. */
    method ScanBodyForRefs(body: Body)
      modifies this`queue, this`dropLocals
      ensures queue == old(queue) + Unseen(BodyRefs(ctx, body), Known()) && dropLocals == []
    {
      hide Unseen, BlocksRefs, Glue, Dropped;
      dropLocals := [];
      ScanBlocks(body.blocks);
      var pending := dropLocals;
      dropLocals := [];
      UnseenAppend(BlocksRefs(ctx, body.blocks), Glue(body.locals, pending), Known());
      QueueGlue(body.locals, pending);
    }
  
    // ----- collection -----

    /** Between collections: exactly what the roots given so far reach. */
    ghost predicate Collected(w: World, roots: set<Item>)
      reads this
    {
      && Indexed(w, items, seen, cache, ctx) && queue == []
      && forall x :: x in cache <==> Reachable(w, roots, x)
    }

    /** One new item: its body is scanned and it gets the next index. */
    method Process(w: World, item: Item)
      requires Indexed(w, items, seen, cache, ctx) && item !in seen
      modifies this
      ensures Indexed(w, items, seen, cache, ctx) && seen == old(seen) + {item} && old(items) <= items
      ensures queue == old(queue) + Unseen(Refs(w, item), seen)
    {
      hide Refs, Unseen, BodyFor, BodyRefs;
      seen := seen + {item};
      var raw := match item
        case FnItem(d, s) => w.bodyOf(d, s)
        case ConstItem(d, s) => w.bodyOf(d, s)
        case StaticItem(_) => DUMMY
        case DropGlue(t) => w.glueOf(t);
      var body := Devirtualize(ctx, raw);
      BodyOfItem(w, item, body);
      assert Known() == seen;
      ScanBodyForRefs(body);
      cache := cache[item := |items|];
      items := items + [ItemData(item, body)];
    }

    /** Queues the roots that are not known yet. */
    method QueueStart(start: seq<Item>)
      requires queue == []
      modifies this`queue
      ensures queue == Unseen(start, Known())
    {
      hide Unseen;
      UnseenNone(Known());
      for i := 0 to |start|
        invariant queue == Unseen(start[..i], Known())
      {
        assert start[..i + 1] == start[..i] + [start[i]];
        UnseenAppend(start[..i], [start[i]], Known());
        UnseenOne(start[i], Known());
        if !(start[i] in cache || start[i] in seen) { queue := queue + [start[i]]; }
      }
      assert start[..|start|] == start;
    }

    /** Works the queue off. */
    method Drain(w: World, ghost roots: set<Item>, ghost universe: set<Item>)
      requires Indexed(w, items, seen, cache, ctx) && Frontier(w, roots, seen, queue) && ClosedUniverse(w, universe)
      requires forall x :: x in queue ==> x in universe
      modifies this
      ensures Indexed(w, items, seen, cache, ctx) && Frontier(w, roots, seen, queue)
      ensures queue == [] && old(items) <= items
    {
      hide Refs, Indexed, Frontier, Unseen;
      while queue != []
        invariant Indexed(w, items, seen, cache, ctx) && Frontier(w, roots, seen, queue) && old(items) <= items
        invariant forall x :: x in queue ==> x in universe
        decreases |universe - seen|, |queue|
      {
        var item := queue[0];
        ghost var before := queue;
        queue := queue[1..];
        IndexedKnows(w, items, seen, cache, ctx);
        if item in seen || item in cache {
          DropSeen(w, roots, seen, before);
          continue;
        }
        UnseenShrinks(universe, seen, item);
        ghost var known := seen;
        Process(w, item);
        SeeNext(w, roots, known, before, queue);
      }
    }

    /** Adds what the given roots reach. On a universe of items closed under references
        this terminates, and the collection is again exactly what all roots reach. */
    method Collect(w: World, start: seq<Item>, ghost roots: set<Item>, ghost universe: set<Item>)
      requires Collected(w, roots)
      requires ClosedUniverse(w, universe) && (forall x :: x in start ==> x in universe)
      modifies this
      ensures Collected(w, roots + Elements(start)) && old(items) <= items
    {
      hide Refs, Reachable, Unseen, BodyFor, Elements, ClosedUniverse, Frontier;
      ghost var all := roots + Elements(start);
      assert Known() == seen;
      QueueStart(start);
      StartFrontier(w, roots, start, seen, queue);
      Drain(w, all, universe);
      SeenIsReachable(w, seen, all);
    }
  }

  /** A new collector holds what no roots reach, whichever context is attached. */
  lemma NothingYet(c: Collector, w: World)
    requires c.items == [] && c.queue == [] && c.seen == {} && c.cache == map[] && c.ctx == w.ctx
    ensures c.Collected(w, {})
  {
  }

  ghost function Elements(start: seq<Item>): set<Item> {
    set x | x in start
  }

  /** Once nothing is queued, the seen items are exactly the reachable ones. */
  lemma SeenIsReachable(w: World, seen: set<Item>, roots: set<Item>)
    requires Frontier(w, roots, seen, [])
    ensures forall x :: x in seen <==> Reachable(w, roots, x)
  {
    hide Refs, Reachable;
    forall x | Reachable(w, roots, x) ensures x in seen { FrontierDone(w, seen, roots, x); }
  }

  lemma StartFrontier(w: World, roots: set<Item>, start: seq<Item>, seen: set<Item>, queue: seq<Item>)
    requires forall x :: x in seen <==> Reachable(w, roots, x)
    requires queue == Unseen(start, seen)
    ensures Frontier(w, roots + Elements(start), seen, queue) && forall x :: x in queue ==> x in start
  {
    hide Refs, Reachable, Unseen;
    var all := roots + Elements(start);
    forall x ensures x in queue <==> x in start && x !in seen { UnseenHas(start, seen, x); }
    forall x | x in seen ensures Reachable(w, all, x) { MoreRoots(w, roots, all, x); }
    forall x | x in start ensures Reachable(w, all, x) {
      assert x in all;
      RootReachable(w, all, x);
    }
    forall x | x in roots ensures x in seen { RootReachable(w, roots, x); }
    forall x, r | x in seen && r in Refs(w, x) ensures r in seen { RefReachable(w, roots, x, r); }
  }

  lemma FrontierDone(w: World, seen: set<Item>, roots: set<Item>, x: Item)
    requires roots <= seen && ClosedUniverse(w, seen) && Reachable(w, roots, x)
    ensures x in seen
  {
    hide Refs, ClosedUniverse;
    var path :| Chain(w, path) && path[0] in roots && path[|path| - 1] == x;
    ChainStays(w, seen, path);
  }

  lemma UnseenShrinks(universe: set<Item>, seen: set<Item>, item: Item)
    requires item in universe && item !in seen
    ensures |universe - (seen + {item})| < |universe - seen|
  {
    assert universe - (seen + {item}) == (universe - seen) - {item};
  }

  lemma BodyOfItem(w: World, item: Item, body: Body)
    requires body == Direct(w.ctx, match item
                                   case FnItem(d, s) => w.bodyOf(d, s)
                                   case ConstItem(d, s) => w.bodyOf(d, s)
                                   case StaticItem(_) => DUMMY
                                   case DropGlue(t) => w.glueOf(t))
    ensures body == BodyFor(w, item) && Refs(w, item) == BodyRefs(w.ctx, body)
  {
  }

  // ----- what the code generator relies on -----

  lemma {:induction false} BlockRefs(ctx: Option<TyCtx>, blocks: seq<BasicBlock>, b: nat, r: Item)
    requires b < |blocks| && r in TermRefs(ctx, blocks[b].term)
    ensures r in BlocksRefs(ctx, blocks)
  {
    hide StmtsRefs, TermRefs;
    if b < |blocks| - 1 { BlockRefs(ctx, blocks[..|blocks| - 1], b, r); }
  }

  lemma {:induction false} DroppedHas(blocks: seq<BasicBlock>, b: nat)
    requires b < |blocks| && blocks[b].term.Drop?
    ensures blocks[b].term.dropPlace.local in Dropped(blocks)
  {
    if b < |blocks| - 1 { DroppedHas(blocks[..|blocks| - 1], b); }
  }

  lemma {:induction false} GlueHas(locals: seq<Ty>, dropped: seq<Local>, l: Local)
    requires l in dropped && l < |locals|
    ensures DropGlue(locals[l]) in Glue(locals, dropped)
  {
    if l != dropped[|dropped| - 1] {
      assert dropped == dropped[..|dropped| - 1] + [dropped[|dropped| - 1]];
      GlueHas(locals, dropped[..|dropped| - 1], l);
    }
  }

  /** Whatever a reachable item's body calls directly is reachable in the instance that
      its call names, and so is the glue of every declared local it drops. */
  lemma CalleesReachable(w: World, roots: set<Item>, x: Item, b: nat)
    requires Reachable(w, roots, x) && b < |BodyFor(w, x).blocks|
    ensures var t := BodyFor(w, x).blocks[b].term;
      && (t.Call? && t.func.Constant? && t.func.const_.kind.CFn? ==>
            Reachable(w, roots, FnItem(t.func.const_.kind.def, Instance(w.ctx, t.func.const_.ty))))
      && (t.Drop? && t.dropPlace.local < |BodyFor(w, x).locals| ==>
            Reachable(w, roots, DropGlue(BodyFor(w, x).locals[t.dropPlace.local])))
  {
    hide Reachable, BodyFor, Instance, BlocksRefs, Glue, Dropped;
    var body := BodyFor(w, x);
    var t := body.blocks[b].term;
    if t.Call? && t.func.Constant? && t.func.const_.kind.CFn? {
      var callee := FnItem(t.func.const_.kind.def, Instance(w.ctx, t.func.const_.ty));
      assert CalleeRefs(w.ctx, t.func) == [callee];
      assert callee in TermRefs(w.ctx, t);
      BlockRefs(w.ctx, body.blocks, b, callee);
      RefReachable(w, roots, x, callee);
    }
    if t.Drop? && t.dropPlace.local < |body.locals| {
      var glue := DropGlue(body.locals[t.dropPlace.local]);
      DroppedHas(body.blocks, b);
      GlueHas(body.locals, Dropped(body.blocks), t.dropPlace.local);
      RefReachable(w, roots, x, glue);
    }
  }

  // ----- exactly what a body refers to -----

  /** A function constant, which counts as a reference only without a type context. */
  predicate Names(ctx: Option<TyCtx>, o: Operand, r: Item) {
    ctx.None? && o.Constant? && o.const_.kind.CFn? && r == FnItem(o.const_.kind.def, o.const_.kind.substs)
  }

  /** The operands that are scanned for function constants. */
  function Scanned(rv: Rvalue): seq<Operand> {
    match rv
    case Use(o) => [o]
    case BinaryOp(_, l, r) => [l, r]
    case UnaryOp(_, o) => [o]
    case Aggregate(os) => os
    case Cast(o, _) => [o]
    case Repeat(o, _) => [o]
    case _ => []
  }

  function ScannedAtEnd(t: Terminator): seq<Operand> {
    match t
    case Call(f, args, _, _, _) => [f] + args
    case SwitchInt(d, _, _, _) => [d]
    case Assert(c, _, _, _) => [c]
    case _ => []
  }

  ghost predicate SomeNames(ctx: Option<TyCtx>, os: seq<Operand>, r: Item) {
    exists i: nat :: i < |os| && Names(ctx, os[i], r)
  }

  /** The instance that a direct call of a function constant names. */
  predicate Calls(ctx: Option<TyCtx>, t: Terminator, r: Item) {
    && t.Call? && t.func.Constant? && t.func.const_.kind.CFn?
    && r == FnItem(t.func.const_.kind.def, Instance(ctx, t.func.const_.ty))
  }

  ghost predicate BlockNames(ctx: Option<TyCtx>, bb: BasicBlock, r: Item) {
    || Calls(ctx, bb.term, r) || SomeNames(ctx, ScannedAtEnd(bb.term), r)
    || exists i: nat :: i < |bb.stmts| && StmtNames(ctx, bb.stmts[i], r)
  }

  ghost predicate StmtNames(ctx: Option<TyCtx>, s: Statement, r: Item) {
    s.Assign? && SomeNames(ctx, Scanned(s.rvalue), r)
  }

  predicate DropsDeclared(body: Body, t: Terminator, r: Item) {
    t.Drop? && t.dropPlace.local < |body.locals| && r == DropGlue(body.locals[t.dropPlace.local])
  }

  lemma {:induction false} OperandsRefsIff(ctx: Option<TyCtx>, os: seq<Operand>, r: Item)
    ensures r in OperandsRefs(ctx, os) <==> SomeNames(ctx, os, r)
  {
    if os != [] {
      var init := os[..|os| - 1];
      OperandsRefsIff(ctx, init, r);
      assert forall i: nat :: i < |init| ==> init[i] == os[i];
    }
  }

  lemma RvalueRefsIff(ctx: Option<TyCtx>, rv: Rvalue, r: Item)
    ensures r in RvalueRefs(ctx, rv) <==> SomeNames(ctx, Scanned(rv), r)
  {
    match rv {
      case Aggregate(os) => OperandsRefsIff(ctx, os, r);
      case BinaryOp(_, a, b) => assert Names(ctx, Scanned(rv)[0], r) || !Names(ctx, a, r); assert Scanned(rv)[1] == b;
      case Use(o) => assert Scanned(rv)[0] == o;
      case UnaryOp(_, o) => assert Scanned(rv)[0] == o;
      case Cast(o, _) => assert Scanned(rv)[0] == o;
      case Repeat(o, _) => assert Scanned(rv)[0] == o;
      case _ =>
    }
  }

  lemma TermRefsIff(ctx: Option<TyCtx>, t: Terminator, r: Item)
    ensures r in TermRefs(ctx, t) <==> Calls(ctx, t, r) || SomeNames(ctx, ScannedAtEnd(t), r)
  {
    hide Instance;
    var os := ScannedAtEnd(t);
    match t {
      case Call(f, args, _, _, _) =>
        OperandsRefsIff(ctx, args, r);
        assert os[0] == f && forall i: nat :: i < |args| ==> os[i + 1] == args[i];
        assert SomeNames(ctx, os, r) <==> Names(ctx, f, r) || SomeNames(ctx, args, r) by {
          if SomeNames(ctx, args, r) {
            var i: nat :| i < |args| && Names(ctx, args[i], r);
            assert Names(ctx, os[i + 1], r);
          }
          if SomeNames(ctx, os, r) {
            var i: nat :| i < |os| && Names(ctx, os[i], r);
            assert i > 0 ==> os[i] == args[i - 1];
          }
        }
      case SwitchInt(d, _, _, _) => assert os[0] == d;
      case Assert(c, _, _, _) => assert os[0] == c;
      case _ =>
    }
  }

  lemma {:induction false} StmtsRefsIff(ctx: Option<TyCtx>, stmts: seq<Statement>, r: Item)
    ensures r in StmtsRefs(ctx, stmts) <==> exists i: nat :: i < |stmts| && StmtNames(ctx, stmts[i], r)
  {
    hide RvalueRefs, SomeNames;
    if stmts != [] {
      var init, s := stmts[..|stmts| - 1], stmts[|stmts| - 1];
      StmtsRefsIff(ctx, init, r);
      if s.Assign? { RvalueRefsIff(ctx, s.rvalue, r); }
      assert forall i: nat :: i < |init| ==> init[i] == stmts[i];
    }
  }

  lemma {:induction false} BlocksRefsIff(ctx: Option<TyCtx>, blocks: seq<BasicBlock>, r: Item)
    ensures r in BlocksRefs(ctx, blocks) <==> exists b: nat :: b < |blocks| && BlockNames(ctx, blocks[b], r)
  {
    hide StmtsRefs, TermRefs, SomeNames, Calls, StmtNames;
    if blocks != [] {
      var init, bb := blocks[..|blocks| - 1], blocks[|blocks| - 1];
      BlocksRefsIff(ctx, init, r);
      StmtsRefsIff(ctx, bb.stmts, r);
      TermRefsIff(ctx, bb.term, r);
      assert r in StmtsRefs(ctx, bb.stmts) + TermRefs(ctx, bb.term) <==> BlockNames(ctx, bb, r);
      assert forall b: nat :: b < |init| ==> init[b] == blocks[b];
    }
  }

  lemma {:induction false} DroppedFrom(blocks: seq<BasicBlock>, l: Local)
    requires l in Dropped(blocks)
    ensures exists b: nat :: b < |blocks| && blocks[b].term.Drop? && blocks[b].term.dropPlace.local == l
  {
    var init := blocks[..|blocks| - 1];
    if l in Dropped(init) {
      DroppedFrom(init, l);
      var b: nat :| b < |init| && init[b].term.Drop? && init[b].term.dropPlace.local == l;
      assert blocks[b] == init[b];
    }
  }

  lemma {:induction false} GlueFrom(locals: seq<Ty>, dropped: seq<Local>, r: Item)
    requires r in Glue(locals, dropped)
    ensures exists l: Local :: l in dropped && l < |locals| && r == DropGlue(locals[l])
  {
    var init, last := dropped[..|dropped| - 1], dropped[|dropped| - 1];
    if r in Glue(locals, init) {
      GlueFrom(locals, init, r);
    } else {
      assert last in dropped;
    }
  }

  /** A body refers to exactly: the instances its direct calls name, the glue of the
      declared locals it drops, and, only without a type context, every function constant
      among the operands that are scanned. */
  lemma RefsExact(ctx: Option<TyCtx>, body: Body, r: Item)
    ensures r in BodyRefs(ctx, body) <==>
      (|| (exists b: nat :: b < |body.blocks| && BlockNames(ctx, body.blocks[b], r))
       || (exists b: nat :: b < |body.blocks| && DropsDeclared(body, body.blocks[b].term, r)))
  {
    hide BlocksRefs, BlockNames, Dropped, Glue;
    BlocksRefsIff(ctx, body.blocks, r);
    var dropped := Dropped(body.blocks);
    if r in Glue(body.locals, dropped) {
      GlueFrom(body.locals, dropped, r);
      var l: Local :| l in dropped && l < |body.locals| && r == DropGlue(body.locals[l]);
      DroppedFrom(body.blocks, l);
      var b: nat :| b < |body.blocks| && body.blocks[b].term.Drop? && body.blocks[b].term.dropPlace.local == l;
      assert DropsDeclared(body, body.blocks[b].term, r);
    }
    forall b: nat | b < |body.blocks| && DropsDeclared(body, body.blocks[b].term, r)
      ensures r in Glue(body.locals, dropped)
    {
      DroppedHas(body.blocks, b);
      GlueHas(body.locals, dropped, body.blocks[b].term.dropPlace.local);
    }
  }

  /** With a type context attached, a function used as a value is no reference: only direct
      calls and drops are. */
  lemma OnlyCallsWithContext(ctx: TyCtx, body: Body, r: Item)
    ensures r in BodyRefs(Some(ctx), body) <==>
      exists b: nat :: b < |body.blocks| &&
        (Calls(Some(ctx), body.blocks[b].term, r) || DropsDeclared(body, body.blocks[b].term, r))
  {
    hide BodyRefs, Calls, DropsDeclared;
    RefsExact(Some(ctx), body, r);
  }
}

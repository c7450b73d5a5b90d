/** Which callee a virtual call gets, and what items refer to, on their bodies as given. */
module MonoLaws {
  import opened Mir
  import opened Mono

  /** The type of an operand: a constant's own, or that of the local its place starts at. */
  predicate TypeIs(o: Operand, locals: seq<Ty>, t: Ty) {
    || (o.Constant? && t == o.const_.ty)
    || (!o.Constant? && o.place.local < |locals| && t == locals[o.place.local])
  }

  /** A call of a method named by its trait. */
  predicate NamesMethod(t: Terminator, tr: nat, name: nat) {
    t.Call? && t.func.Constant? && t.func.const_.kind == CVirtualMethod(tr, name)
  }

  /** The call names a method that the type of its first argument implements by f. */
  ghost predicate Resolves(ctx: TyCtx, locals: seq<Ty>, t: Terminator, f: nat) {
    exists tr, name, ty ::
      NamesMethod(t, tr, name) && t.args != [] && TypeIs(t.args[0], locals, ty)
      && ctx.resolveMethod(tr, ty, name) == Some(f)
  }

  /** The same call of a function constant. */
  predicate NowCalls(t: Terminator, t': Terminator, f: nat, ty: Ty) {
    t.Call? && t' == t.(func := Constant(Const(CFn(f, EMPTY), ty)))
  }

  /** A call that resolves becomes the same call of the implementation; every other block
      stays as it is. */
  lemma CalleeChosen(ctx: TyCtx, locals: seq<Ty>, bb: BasicBlock)
    ensures var bb' := DirectBlock(ctx, locals, bb);
      && bb'.stmts == bb.stmts
      && (forall f :: Resolves(ctx, locals, bb.term, f) ==> NowCalls(bb.term, bb'.term, f, ctx.fnTy(f)))
      && ((forall f :: !Resolves(ctx, locals, bb.term, f)) ==> bb'.term == bb.term)
  {
    var t := bb.term;
    if t.Call? && t.func.Constant? && t.func.const_.kind.CVirtualMethod? && t.args != [] {
      var k, o := t.func.const_.kind, t.args[0];
      assert NamesMethod(t, k.traitDef, k.methodName);
      if o.Constant? || o.place.local < |locals| {
        var ty := if o.Constant? then o.const_.ty else locals[o.place.local];
        assert TypeIs(o, locals, ty);
        var r := ctx.resolveMethod(k.traitDef, ty, k.methodName);
        assert r.Some? ==> Resolves(ctx, locals, t, r.value);
      }
    }
  }

  // ----- what an item refers to -----

  /** The substitution of a callee of the given type: the one in the type if it has no
      parameter left, and the empty one otherwise. */
  ghost predicate Concrete(ctx: TyCtx, ty: Ty, s: Substs) {
    if exists u :: ctx.fnSubsts(ty) == Some(u) && !ctx.hasParam(u) then
      ctx.fnSubsts(ty) == Some(s)
    else s == EMPTY
  }

  lemma InstanceIs(ctx: TyCtx, ty: Ty, s: Substs)
    ensures s == Instance(Some(ctx), ty) <==> Concrete(ctx, ty, s)
  {
  }

  /** The body an item is given: a function's or constant's own, the glue of a type, and
      for a static one that does nothing. */
  predicate Gets(w: World, x: Item, raw: Body) {
    || (x.FnItem? && raw == w.bodyOf(x.def, x.substs))
    || (x.ConstItem? && raw == w.bodyOf(x.def, x.substs))
    || (x.DropGlue? && raw == w.glueOf(x.ty))
    || (x.StaticItem? && raw == Body([BasicBlock([], Unreachable)], [UNIT], 0))
  }

  /** A direct call of a function constant. */
  predicate NamesFunction(t: Terminator, f: nat, ty: Ty) {
    t.Call? && t.func.Constant? && t.func.const_.kind.CFn? && t.func.const_.kind.def == f && t.func.const_.ty == ty
  }

  /** A block of the body as given refers to r: it calls a function, it calls a method that
      resolves to one, or it drops a declared local. */
  ghost predicate RefersTo(ctx: TyCtx, raw: Body, t: Terminator, r: Item) {
    || (exists f, ty :: NamesFunction(t, f, ty) && r.FnItem? && r.def == f && Concrete(ctx, ty, r.substs))
    || (exists f :: Resolves(ctx, raw.locals, t, f) && r.FnItem? && r.def == f && Concrete(ctx, ctx.fnTy(f), r.substs))
    || (t.Drop? && t.dropPlace.local < |raw.locals| && r == DropGlue(raw.locals[t.dropPlace.local]))
  }

  lemma CallsIff(ctx: TyCtx, t: Terminator, r: Item)
    ensures Calls(Some(ctx), t, r) <==>
      exists f, ty :: NamesFunction(t, f, ty) && r.FnItem? && r.def == f && Concrete(ctx, ty, r.substs)
  {
    hide Concrete, Instance;
    if t.Call? && t.func.Constant? && t.func.const_.kind.CFn? {
      var f, ty := t.func.const_.kind.def, t.func.const_.ty;
      assert NamesFunction(t, f, ty);
      if r.FnItem? { InstanceIs(ctx, ty, r.substs); }
    }
  }

  lemma BlockRefersIff(ctx: TyCtx, raw: Body, bb: BasicBlock, r: Item)
    ensures var t := DirectBlock(ctx, raw.locals, bb).term;
      Calls(Some(ctx), t, r) || DropsDeclared(raw, t, r) <==> RefersTo(ctx, raw, bb.term, r)
  {
    hide DirectBlock, Concrete, Resolves, Calls;
    var t, t' := bb.term, DirectBlock(ctx, raw.locals, bb).term;
    CalleeChosen(ctx, raw.locals, bb);
    CallsIff(ctx, t', r);
    if f :| Resolves(ctx, raw.locals, t, f) {
      MethodOnly(ctx, raw.locals, t, f);
      assert NamesFunction(t', f, ctx.fnTy(f));
    }
  }

  /** A call that names a method does not name a function. */
  lemma MethodOnly(ctx: TyCtx, locals: seq<Ty>, t: Terminator, f: nat)
    requires Resolves(ctx, locals, t, f)
    ensures t.Call? && t.func.Constant? && t.func.const_.kind.CVirtualMethod?
  {
  }

  /** With a type context, an item refers to exactly what its body as given calls or
      drops: the functions it names, the implementations its method calls resolve to, each
      in the instance of its type, and the glue of the locals it drops. */
  lemma ItemRefersIff(w: World, x: Item, raw: Body, r: Item)
    requires w.ctx.Some? && Gets(w, x, raw)
    ensures r in Refs(w, x) <==> exists b: nat :: b < |raw.blocks| && RefersTo(w.ctx.value, raw, raw.blocks[b].term, r)
  {
    hide BodyRefs, RefersTo, Calls, DropsDeclared, DirectBlock;
    var ctx, body := w.ctx.value, BodyFor(w, x);
    assert body.locals == raw.locals && |body.blocks| == |raw.blocks|;
    OnlyCallsWithContext(ctx, body, r);
    forall b: nat | b < |raw.blocks|
      ensures Calls(Some(ctx), body.blocks[b].term, r) || DropsDeclared(body, body.blocks[b].term, r)
        <==> RefersTo(ctx, raw, raw.blocks[b].term, r)
    {
      BlockRefersIff(ctx, raw, raw.blocks[b], r);
      SameDrops(raw, body, body.blocks[b].term, r);
    }
  }

  lemma SameDrops(raw: Body, body: Body, t: Terminator, r: Item)
    requires raw.locals == body.locals
    ensures DropsDeclared(raw, t, r) <==> DropsDeclared(body, t, r)
  {
  }

  /** The implementation that a method call of a reachable item resolves to is reachable. */
  lemma ResolvedReachable(w: World, roots: set<Item>, x: Item, raw: Body, b: nat, f: nat, s: Substs)
    requires w.ctx.Some? && Gets(w, x, raw) && Reachable(w, roots, x) && b < |raw.blocks|
    requires Resolves(w.ctx.value, raw.locals, raw.blocks[b].term, f) && Concrete(w.ctx.value, w.ctx.value.fnTy(f), s)
    ensures Reachable(w, roots, FnItem(f, s))
  {
    hide Resolves, Concrete, Refs, Reachable;
    var r := FnItem(f, s);
    assert RefersTo(w.ctx.value, raw, raw.blocks[b].term, r);
    ItemRefersIff(w, x, raw, r);
    RefReachable(w, roots, x, r);
  }

  // ----- the order of references -----

  lemma {:induction false} OperandsBefore(ctx: Option<TyCtx>, os: seq<Operand>, k: nat)
    requires k <= |os|
    ensures OperandsRefs(ctx, os[..k]) <= OperandsRefs(ctx, os)
    decreases |os|
  {
    hide OperandRefs;
    if k < |os| {
      assert os[..|os| - 1][..k] == os[..k];
      OperandsBefore(ctx, os[..|os| - 1], k);
    } else {
      assert os[..k] == os;
    }
  }

  lemma {:induction false} StmtsBefore(ctx: Option<TyCtx>, stmts: seq<Statement>, i: nat)
    requires i <= |stmts|
    ensures StmtsRefs(ctx, stmts[..i]) <= StmtsRefs(ctx, stmts)
    decreases |stmts|
  {
    hide RvalueRefs;
    if i < |stmts| {
      assert stmts[..|stmts| - 1][..i] == stmts[..i];
      StmtsBefore(ctx, stmts[..|stmts| - 1], i);
    } else {
      assert stmts[..i] == stmts;
    }
  }

  lemma {:induction false} BlocksBefore(ctx: Option<TyCtx>, blocks: seq<BasicBlock>, b: nat)
    requires b <= |blocks|
    ensures BlocksRefs(ctx, blocks[..b]) <= BlocksRefs(ctx, blocks)
    decreases |blocks|
  {
    hide StmtsRefs, TermRefs;
    if b < |blocks| {
      assert blocks[..|blocks| - 1][..b] == blocks[..b];
      BlocksBefore(ctx, blocks[..|blocks| - 1], b);
    } else {
      assert blocks[..b] == blocks;
    }
  }

  /** The two operands of an operation, left first. */
  lemma ScannedInOrder(ctx: Option<TyCtx>, rv: Rvalue)
    ensures RvalueRefs(ctx, rv) == OperandsRefs(ctx, Scanned(rv))
  {
    hide OperandRefs;
    match rv {
      case BinaryOp(_, l, r) =>
        assert [l, r][..1] == [l] && [l][..0] == [];
        assert OperandsRefs(ctx, [l]) == OperandsRefs(ctx, [l][..0]) + OperandRefs(ctx, l);
        assert OperandsRefs(ctx, [l, r]) == OperandsRefs(ctx, [l, r][..1]) + OperandRefs(ctx, r);
      case Use(o) => OneScanned(ctx, o);
      case UnaryOp(_, o) => OneScanned(ctx, o);
      case Cast(o, _) => OneScanned(ctx, o);
      case Repeat(o, _) => OneScanned(ctx, o);
      case _ =>
    }
  }

  lemma OneScanned(ctx: Option<TyCtx>, o: Operand)
    ensures OperandsRefs(ctx, [o]) == OperandRefs(ctx, o)
  {
    assert [o][..0] == [];
    assert OperandsRefs(ctx, [o]) == OperandsRefs(ctx, [o][..0]) + OperandRefs(ctx, o);
  }

  lemma PrefixUnder<T>(a: seq<T>, b: seq<T>, c: seq<T>)
    requires b <= c
    ensures a + b <= a + c
  {
  }

  lemma PrefixChain<T>(a: seq<T>, b: seq<T>, c: seq<T>)
    requires a <= b && b <= c
    ensures a <= c
  {
  }

  /** The references of a body come in the order of its blocks, in a block in that of its
      statements, and in a statement in that of its operands: those before operand k of
      statement i of block b are the first ones. */
  lemma RefsInOrder(ctx: Option<TyCtx>, body: Body, b: nat, i: nat, k: nat)
    requires b < |body.blocks| && i < |body.blocks[b].stmts| && body.blocks[b].stmts[i].Assign?
    requires k <= |Scanned(body.blocks[b].stmts[i].rvalue)|
    ensures var stmts := body.blocks[b].stmts;
      BlocksRefs(ctx, body.blocks[..b])
        + (StmtsRefs(ctx, stmts[..i]) + OperandsRefs(ctx, Scanned(stmts[i].rvalue)[..k]))
        <= BodyRefs(ctx, body)
  {
    hide BlocksRefs, StmtsRefs, OperandsRefs, RvalueRefs, TermRefs, Scanned, Glue, Dropped;
    var bb, before := body.blocks[b], BlocksRefs(ctx, body.blocks[..b]);
    var os, first := Scanned(bb.stmts[i].rvalue), StmtsRefs(ctx, bb.stmts[..i]);
    OperandsBefore(ctx, os, k);
    ScannedInOrder(ctx, bb.stmts[i].rvalue);
    StmtLast(ctx, bb.stmts, i);
    StmtsBefore(ctx, bb.stmts, i + 1);
    PrefixUnder(first, OperandsRefs(ctx, os[..k]), OperandsRefs(ctx, os));
    PrefixChain(first + OperandsRefs(ctx, os[..k]), StmtsRefs(ctx, bb.stmts[..i + 1]), StmtsRefs(ctx, bb.stmts));
    BlockRefsFirst(ctx, body, b);
    PrefixUnder(before, first + OperandsRefs(ctx, os[..k]), StmtsRefs(ctx, bb.stmts));
    PrefixUnder(before, StmtsRefs(ctx, bb.stmts), StmtsRefs(ctx, bb.stmts) + TermRefs(ctx, bb.term));
  }

  lemma StmtLast(ctx: Option<TyCtx>, stmts: seq<Statement>, i: nat)
    requires i < |stmts| && stmts[i].Assign?
    ensures StmtsRefs(ctx, stmts[..i + 1]) == StmtsRefs(ctx, stmts[..i]) + RvalueRefs(ctx, stmts[i].rvalue)
  {
    hide RvalueRefs;
    assert stmts[..i + 1][..i] == stmts[..i];
  }

  /** A block's statements come before its terminator, and drop glue comes last. */
  lemma BlockRefsFirst(ctx: Option<TyCtx>, body: Body, b: nat)
    requires b < |body.blocks|
    ensures BlocksRefs(ctx, body.blocks[..b])
      + (StmtsRefs(ctx, body.blocks[b].stmts) + TermRefs(ctx, body.blocks[b].term))
      <= BlocksRefs(ctx, body.blocks) <= BodyRefs(ctx, body)
  {
    hide StmtsRefs, TermRefs, Glue, Dropped;
    BlocksBefore(ctx, body.blocks, b + 1);
    assert body.blocks[..b + 1][..b] == body.blocks[..b];
  }
}

/** Forward moved/dead dataflow over move paths (move_analysis.rs): the worklist
    computes the least solution of its block equations, which is exactly what block
    paths carry. */
module MoveDataflow {
  import opened Mir
  import opened Bits

  // ----- the generic forward flow -----

  /** One gen/kill analysis: out = (in + gen) - kill, in = union of the predecessors'
      out, and nothing flows into block 0. */
  datatype Flow = Flow(gen: seq<set<nat>>, kill: seq<set<nat>>, ins: seq<set<nat>>, outs: seq<set<nat>>)

  ghost predicate Shaped(body: Body, f: Flow) {
    |f.gen| == |f.kill| == |f.ins| == |f.outs| == |body.blocks| && Closed(body)
  }

  ghost predicate Feeds(body: Body, outs: seq<set<nat>>, b: nat, x: nat)
    requires |outs| == |body.blocks|
  {
    b != 0 && exists p: nat :: p < |body.blocks| && b in Succs(body, p) && x in outs[p]
  }

  ghost predicate SolvesAt(body: Body, f: Flow, b: nat)
    requires Shaped(body, f) && b < |body.blocks|
  {
    && (forall x: nat :: x in f.ins[b] <==> Feeds(body, f.outs, b, x))
    && f.outs[b] == (f.ins[b] + f.gen[b]) - f.kill[b]
  }

  ghost predicate GrowsAt(body: Body, f: Flow, b: nat)
    requires Shaped(body, f) && b < |body.blocks|
  {
    && (forall x: nat :: x in f.ins[b] ==> Feeds(body, f.outs, b, x))
    && f.outs[b] <= (f.ins[b] + f.gen[b]) - f.kill[b]
  }

  ghost predicate Solves(body: Body, f: Flow) {
    Shaped(body, f) && forall b: nat :: b < |body.blocks| ==> SolvesAt(body, f, b)
  }

  /** x is generated by the first block of the path, survives it and every later
      block, and the path does not re-enter block 0. */
  ghost predicate Carries(body: Body, f: Flow, path: seq<nat>, x: nat)
    requires Shaped(body, f)
  {
    if path == [] then false else
    var b, init := path[|path| - 1], path[..|path| - 1];
    && b < |body.blocks| && x !in f.kill[b]
    && if init == [] then x in f.gen[b]
       else Carries(body, f, init, x) && b != 0 && b in Succs(body, init[|init| - 1])
  }

  ghost predicate CarriedOut(body: Body, f: Flow, b: nat, x: nat)
    requires Shaped(body, f)
  {
    exists path :: Carries(body, f, path, x) && path[|path| - 1] == b
  }

  lemma CarriesStart(body: Body, f: Flow, b: nat, x: nat)
    requires Shaped(body, f) && b < |body.blocks| && x in f.gen[b] && x !in f.kill[b]
    ensures CarriedOut(body, f, b, x)
  {
    assert [b][..0] == [];
    assert Carries(body, f, [b], x);
  }

  lemma CarriesOn(body: Body, f: Flow, p: nat, b: nat, x: nat)
    requires Shaped(body, f) && p < |body.blocks| && CarriedOut(body, f, p, x)
    requires b < |body.blocks| && b in Succs(body, p) && b != 0 && x !in f.kill[b]
    ensures CarriedOut(body, f, b, x)
  {
    var path :| Carries(body, f, path, x) && path[|path| - 1] == p;
    assert (path + [b])[..|path + [b]| - 1] == path;
    assert Carries(body, f, path + [b], x);
  }

  /** Every solution of the equations contains what a path carries. */
  lemma {:induction false} CarriedInSolution(body: Body, f: Flow, s: Flow, path: seq<nat>, x: nat)
    requires Shaped(body, f) && Solves(body, s) && s.gen == f.gen && s.kill == f.kill && Carries(body, f, path, x)
    ensures path[|path| - 1] < |body.blocks| && x in s.outs[path[|path| - 1]]
  {
    var b, init := path[|path| - 1], path[..|path| - 1];
    assert SolvesAt(body, s, b);
    if init != [] {
      CarriedInSolution(body, f, s, init, x);
      assert Feeds(body, s.outs, b, x);
    }
  }

  // ----- the invariant of the worklist -----

  ghost predicate Settling(body: Body, f: Flow, cap: nat, pending: set<nat>) {
    && Shaped(body, f) && AllBelow(f.ins, cap) && AllBelow(f.outs, cap)
    && (forall b: nat :: b < |body.blocks| ==> GrowsAt(body, f, b))
    && (forall b: nat :: b < |body.blocks| && b !in pending ==> SolvesAt(body, f, b))
  }

  ghost predicate Sound(body: Body, f: Flow) {
    && Shaped(body, f)
    && (forall b: nat, x: nat :: b < |body.blocks| && x in f.outs[b] ==> CarriedOut(body, f, b, x))
  }

  /** A recomputed row of block b. */
  ghost predicate NewRow(body: Body, f: Flow, b: nat, newIn: set<nat>, newOut: set<nat>)
    requires Shaped(body, f) && b < |body.blocks|
  {
    (forall x: nat :: x in newIn <==> Feeds(body, f.outs, b, x)) && newOut == (newIn + f.gen[b]) - f.kill[b]
  }

  function Store(f: Flow, b: nat, newIn: set<nat>, newOut: set<nat>): Flow
    requires b < |f.ins| && b < |f.outs|
  {
    f.(ins := f.ins[b := newIn], outs := f.outs[b := newOut])
  }

  lemma RowGrows(body: Body, f: Flow, b: nat, newIn: set<nat>, newOut: set<nat>, cap: nat, pending: set<nat>)
    requires b < |body.blocks| && Settling(body, f, cap, pending) && NewRow(body, f, b, newIn, newOut)
    requires Below(f.gen[b], cap)
    ensures f.ins[b] <= newIn && f.outs[b] <= newOut && Below(newIn, cap) && Below(newOut, cap)
  {
    assert GrowsAt(body, f, b);
    forall x | x in newIn ensures x < cap {
      var p: nat :| p < |body.blocks| && b in Succs(body, p) && x in f.outs[p];
      assert Below(f.outs[p], cap);
    }
  }

  lemma FeedsGrows(body: Body, outs: seq<set<nat>>, b: nat, row: set<nat>, c: nat, x: nat)
    requires |outs| == |body.blocks| && b < |outs| && outs[b] <= row
    ensures Feeds(body, outs, c, x) ==> Feeds(body, outs[b := row], c, x)
    ensures c !in Succs(body, b) ==> (Feeds(body, outs, c, x) <==> Feeds(body, outs[b := row], c, x))
  {
    if Feeds(body, outs, c, x) {
      var p: nat :| p < |body.blocks| && c in Succs(body, p) && x in outs[p];
      assert x in outs[b := row][p];
    }
    if c !in Succs(body, b) && Feeds(body, outs[b := row], c, x) {
      var p: nat :| p < |body.blocks| && c in Succs(body, p) && x in outs[b := row][p];
      assert x in outs[p];
    }
  }

  lemma RowSettles(body: Body, f: Flow, b: nat, newIn: set<nat>, newOut: set<nat>, cap: nat, pending: set<nat>,
                   f': Flow)
    requires b < |body.blocks| && Settling(body, f, cap, pending + {b}) && NewRow(body, f, b, newIn, newOut)
    requires f.ins[b] <= newIn && f.outs[b] <= newOut && Below(newIn, cap) && Below(newOut, cap)
    requires f' == Store(f, b, newIn, newOut)
    ensures f' == f ==> Settling(body, f, cap, pending)
    ensures Settling(body, f', cap, pending + (set c | c in Succs(body, b)))
  {
    forall c: nat | c < |body.blocks|
      ensures GrowsAt(body, f', c) && (c !in pending && c !in Succs(body, b) ==> SolvesAt(body, f', c))
    {
      assert GrowsAt(body, f, c) && (c != b && c !in pending ==> SolvesAt(body, f, c));
      forall x: nat
        ensures Feeds(body, f.outs, c, x) ==> Feeds(body, f'.outs, c, x)
        ensures c !in Succs(body, b) ==> (Feeds(body, f.outs, c, x) <==> Feeds(body, f'.outs, c, x))
      {
        FeedsGrows(body, f.outs, b, newOut, c, x);
      }
    }
  }

  lemma RowSound(body: Body, f: Flow, b: nat, newIn: set<nat>, newOut: set<nat>)
    requires b < |body.blocks| && Sound(body, f) && NewRow(body, f, b, newIn, newOut)
    ensures Sound(body, Store(f, b, newIn, newOut))
  {
    var f' := Store(f, b, newIn, newOut);
    forall c: nat, x: nat | c < |body.blocks| && x in f'.outs[c] ensures CarriedOut(body, f', c, x) {
      if c == b {
        if x in newIn {
          var p: nat :| p < |body.blocks| && b in Succs(body, p) && x in f.outs[p];
          CarriesOn(body, f, p, b, x);
        } else {
          CarriesStart(body, f, b, x);
        }
      }
      assert CarriedOut(body, f, c, x);
      var path :| Carries(body, f, path, x) && path[|path| - 1] == c;
      CarriesSame(body, f, f', path, x);
    }
  }

  lemma {:induction false} CarriesSame(body: Body, f: Flow, f': Flow, path: seq<nat>, x: nat)
    requires Shaped(body, f) && Shaped(body, f') && f.gen == f'.gen && f.kill == f'.kill && Carries(body, f, path, x)
    ensures Carries(body, f', path, x)
  {
    if path[..|path| - 1] != [] { CarriesSame(body, f, f', path[..|path| - 1], x); }
  }

  lemma RowProgress(body: Body, f: Flow, b: nat, newIn: set<nat>, newOut: set<nat>, cap: nat)
    requires Shaped(body, f) && b < |body.blocks| && AllBelow(f.ins, cap) && AllBelow(f.outs, cap)
    requires f.ins[b] <= newIn && f.outs[b] <= newOut
    ensures var f' := Store(f, b, newIn, newOut);
      && 0 <= Missing(f.ins, cap) + Missing(f.outs, cap)
      && Missing(f'.ins, cap) + Missing(f'.outs, cap) <= Missing(f.ins, cap) + Missing(f.outs, cap)
      && (newIn != f.ins[b] || newOut != f.outs[b] ==>
          Missing(f'.ins, cap) + Missing(f'.outs, cap) < Missing(f.ins, cap) + Missing(f.outs, cap))
  {
    MissingNonNegative(f.ins, cap);
    MissingNonNegative(f.outs, cap);
    MissingShrinks(f.ins, b, newIn, cap);
    MissingShrinks(f.outs, b, newOut, cap);
  }

  /** A sound solution: exact over paths, and below every other solution. */
  ghost predicate Least(body: Body, f: Flow) {
    && Solves(body, f)
    && (forall b: nat, x: nat :: b < |body.blocks| ==> (x in f.outs[b] <==> CarriedOut(body, f, b, x)))
    && (forall s: Flow :: Solves(body, s) && s.gen == f.gen && s.kill == f.kill ==>
        forall b: nat :: b < |body.blocks| ==> f.ins[b] <= s.ins[b] && f.outs[b] <= s.outs[b])
  }

  lemma SettledIsLeast(body: Body, f: Flow, cap: nat)
    requires Settling(body, f, cap, {}) && Sound(body, f)
    ensures Least(body, f)
  {
    forall b: nat, x: nat | b < |body.blocks| && CarriedOut(body, f, b, x) ensures x in f.outs[b] {
      var path :| Carries(body, f, path, x) && path[|path| - 1] == b;
      CarriedInSolution(body, f, f, path, x);
    }
    forall s: Flow | Solves(body, s) && s.gen == f.gen && s.kill == f.kill
      ensures forall b: nat :: b < |body.blocks| ==> f.ins[b] <= s.ins[b] && f.outs[b] <= s.outs[b]
    {
      forall b: nat, x: nat | b < |body.blocks| && x in f.outs[b] ensures x in s.outs[b] {
        var path :| Carries(body, f, path, x) && path[|path| - 1] == b;
        CarriedInSolution(body, f, s, path, x);
      }
      forall b: nat, x: nat | b < |body.blocks| && x in f.ins[b] ensures x in s.ins[b] {
        assert SolvesAt(body, f, b) && SolvesAt(body, s, b);
        var p: nat :| p < |body.blocks| && b in Succs(body, p) && x in f.outs[p];
        assert x in s.outs[p];
      }
    }
  }

  // ----- the worklist over the moved and the dead flow together -----

  method NewIn(body: Body, b: nat, preds: seq<nat>, outs: seq<set<nat>>) returns (r: set<nat>)
    requires b < |body.blocks| == |outs| && ArePreds(body, b, preds)
    ensures forall x: nat :: x in r <==> Feeds(body, outs, b, x)
  {
    r := {};
    if b != 0 {
      for k := 0 to |preds|
        invariant forall x: nat :: x in r <==> exists p: nat :: p in preds[..k] && p in preds && x in outs[p]
      {
        assert preds[..k + 1] == preds[..k] + [preds[k]] && preds[k] in preds;
        r := r + outs[preds[k]];
      }
      assert preds[..|preds|] == preds;
    }
  }

  ghost predicate Inv(body: Body, f: Flow, cap: nat, pending: set<nat>) {
    Settling(body, f, cap, pending) && Sound(body, f) && AllBelow(f.gen, cap)
  }

  lemma Recompute(body: Body, f: Flow, b: nat, newIn: set<nat>, newOut: set<nat>, cap: nat, pending: set<nat>)
    requires b < |body.blocks| && Inv(body, f, cap, pending + {b}) && NewRow(body, f, b, newIn, newOut)
    ensures var f' := Store(f, b, newIn, newOut);
      && (f' == f ==> Inv(body, f, cap, pending))
      && Inv(body, f', cap, pending + (set c | c in Succs(body, b)))
  {
    assert Below(f.gen[b], cap);
    RowGrows(body, f, b, newIn, newOut, cap, pending + {b});
    RowSettles(body, f, b, newIn, newOut, cap, pending, Store(f, b, newIn, newOut));
    RowSound(body, f, b, newIn, newOut);
  }

  function Left(f: Flow, cap: nat): int { Missing(f.ins, cap) + Missing(f.outs, cap) }

  lemma Progress(body: Body, f: Flow, b: nat, newIn: set<nat>, newOut: set<nat>, cap: nat, pending: set<nat>)
    requires b < |body.blocks| && Inv(body, f, cap, pending) && NewRow(body, f, b, newIn, newOut)
    ensures 0 <= Left(f, cap) && Left(Store(f, b, newIn, newOut), cap) <= Left(f, cap)
    ensures newIn != f.ins[b] || newOut != f.outs[b] ==> Left(Store(f, b, newIn, newOut), cap) < Left(f, cap)
  {
    assert Below(f.gen[b], cap);
    RowGrows(body, f, b, newIn, newOut, cap, pending);
    RowProgress(body, f, b, newIn, newOut, cap);
  }

  /** Both tables, from their gen and kill sets. */
  method Solve(body: Body, moves: seq<set<nat>>, inits: seq<set<nat>>, deads: seq<set<nat>>,
               deadInits: seq<set<nat>>, cap: nat)
    returns (moved: Flow, dead: Flow)
    requires Closed(body) && |moves| == |inits| == |deads| == |deadInits| == |body.blocks|
    requires AllBelow(moves, cap) && AllBelow(deads, cap)
    ensures moved.gen == moves && moved.kill == inits && Least(body, moved)
    ensures dead.gen == deads && dead.kill == deadInits && Least(body, dead)
  {
    var n := |body.blocks|;
    var preds := Predecessors(body);
    var none: seq<set<nat>> := seq(n, i => {});
    moved, dead := Flow(moves, inits, none, none), Flow(deads, deadInits, none, none);
    var worklist, inWorklist := AllBlocks(n);

    while worklist != []
      invariant IsQueue(worklist, inWorklist, n)
      invariant moved.gen == moves && moved.kill == inits && dead.gen == deads && dead.kill == deadInits
      invariant Inv(body, moved, cap, inWorklist) && Inv(body, dead, cap, inWorklist)
      decreases Left(moved, cap) + Left(dead, cap), |worklist|
    {
      var b;
      b, worklist, inWorklist := Pop(worklist, inWorklist, n);
      var changed;
      ghost var pending := inWorklist;
      moved, dead, changed := Visit(body, moved, dead, b, preds[b], cap, pending);
      if changed {
        SuccsInside(body, b);
        worklist, inWorklist := Enqueue(Succs(body, b), worklist, inWorklist, n);
        assert inWorklist == pending + (set c | c in Succs(body, b));
      }
    }
    SettledIsLeast(body, moved, cap);
    SettledIsLeast(body, dead, cap);
  }

  /** Recompute both rows of one block and store them if either changed. */
  method Visit(body: Body, moved: Flow, dead: Flow, b: nat, preds: seq<nat>, cap: nat, ghost pending: set<nat>)
    returns (moved': Flow, dead': Flow, changed: bool)
    requires b < |body.blocks| && ArePreds(body, b, preds)
    requires Inv(body, moved, cap, pending + {b}) && Inv(body, dead, cap, pending + {b})
    ensures moved'.gen == moved.gen && moved'.kill == moved.kill && dead'.gen == dead.gen && dead'.kill == dead.kill
    ensures var pending' := if changed then pending + (set c | c in Succs(body, b)) else pending;
      Inv(body, moved', cap, pending') && Inv(body, dead', cap, pending')
    ensures 0 <= Left(moved, cap) && 0 <= Left(dead, cap)
    ensures if changed then Left(moved', cap) + Left(dead', cap) < Left(moved, cap) + Left(dead, cap)
            else moved' == moved && dead' == dead
  {
    var movedIn := NewIn(body, b, preds, moved.outs);
    var movedOut := (movedIn + moved.gen[b]) - moved.kill[b];
    var deadIn := NewIn(body, b, preds, dead.outs);
    var deadOut := (deadIn + dead.gen[b]) - dead.kill[b];
    Recompute(body, moved, b, movedIn, movedOut, cap, pending);
    Recompute(body, dead, b, deadIn, deadOut, cap, pending);
    Progress(body, moved, b, movedIn, movedOut, cap, pending + {b});
    Progress(body, dead, b, deadIn, deadOut, cap, pending + {b});
    changed := movedIn != moved.ins[b] || movedOut != moved.outs[b] || deadIn != dead.ins[b] || deadOut != dead.outs[b];
    if changed {
      moved', dead' := Store(moved, b, movedIn, movedOut), Store(dead, b, deadIn, deadOut);
    } else {
      moved', dead' := moved, dead;
      assert Store(moved, b, movedIn, movedOut) == moved && Store(dead, b, deadIn, deadOut) == dead;
    }
  }

  lemma SuccsInside(body: Body, b: nat)
    requires Closed(body) && b < |body.blocks|
    ensures forall c: nat :: c in Succs(body, b) ==> c < |body.blocks|
  {
  }
}

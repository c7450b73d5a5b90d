/** Drop elaboration at the end of a function body
    (crates/glyim-lower/src/builder.rs). */
module DropChain {
  import opened Mir

  /** Values of locals; an absent one reads as 0. */
  type Env = map<Local, nat>

  function Get(env: Env, l: Local): nat { if l in env then env[l] else 0 }

  // ----- running a chain of drops -----

  /** The locals dropped on the way from block b to a return, if it is reached within n
      blocks without leaving the blocks from lo on. */
  function Trace(blocks: seq<BasicBlock>, lo: nat, env: Env, b: BlockId, n: nat): Option<seq<Local>>
    decreases n
  {
    if n == 0 || b < lo || b >= |blocks| then None else
    match blocks[b].term
    case Return => Some([])
    case Goto(t) => Trace(blocks, lo, env, t, n - 1)
    case SwitchInt(Copy(p), _, arms, o) =>
      if p.projection != [] then None else Trace(blocks, lo, env, Chosen(arms, o, Get(env, p.local)), n - 1)
    case Drop(p, t, _) =>
      if p.projection != [] then None else
      var rest := Trace(blocks, lo, env, t, n - 1);
      if rest.None? then None else Some([p.local] + rest.value)
    case _ => None
  }

  ghost predicate Leads(blocks: seq<BasicBlock>, lo: nat, env: Env, b: BlockId, drops: seq<Local>) {
    exists n: nat :: Trace(blocks, lo, env, b, n) == Some(drops)
  }

  /** Changing blocks below lo or adding blocks at the end changes no trace above lo. */
  lemma {:induction false} TraceFramed(blocks: seq<BasicBlock>, blocks': seq<BasicBlock>, lo: nat, env: Env,
                                       b: BlockId, n: nat)
    requires |blocks| <= |blocks'| && Trace(blocks, lo, env, b, n).Some?
    requires forall k: nat :: lo <= k < |blocks| ==> blocks'[k] == blocks[k]
    ensures Trace(blocks', lo, env, b, n) == Trace(blocks, lo, env, b, n)
    decreases n
  {
    match blocks[b].term {
      case Goto(t) => TraceFramed(blocks, blocks', lo, env, t, n - 1);
      case SwitchInt(Copy(p), _, arms, o) =>
        TraceFramed(blocks, blocks', lo, env, Chosen(arms, o, Get(env, p.local)), n - 1);
      case Drop(_, t, _) => TraceFramed(blocks, blocks', lo, env, t, n - 1);
      case _ =>
    }
  }

  lemma {:induction false} TraceLower(blocks: seq<BasicBlock>, lo: nat, env: Env, b: BlockId, n: nat)
    requires Trace(blocks, lo, env, b, n).Some?
    ensures Trace(blocks, 0, env, b, n) == Trace(blocks, lo, env, b, n)
    decreases n
  {
    match blocks[b].term {
      case Goto(t) => TraceLower(blocks, lo, env, t, n - 1);
      case SwitchInt(Copy(p), _, arms, o) => TraceLower(blocks, lo, env, Chosen(arms, o, Get(env, p.local)), n - 1);
      case Drop(_, t, _) => TraceLower(blocks, lo, env, t, n - 1);
      case _ =>
    }
  }

  /** The walk is deterministic: a second bound that suffices gives the same drops. */
  lemma {:induction false} TraceUnique(blocks: seq<BasicBlock>, lo: nat, env: Env, b: BlockId, n: nat, k: nat)
    requires Trace(blocks, lo, env, b, n).Some? && Trace(blocks, lo, env, b, k).Some?
    ensures Trace(blocks, lo, env, b, n) == Trace(blocks, lo, env, b, k)
    decreases n
  {
    match blocks[b].term {
      case Goto(t) => TraceUnique(blocks, lo, env, t, n - 1, k - 1);
      case SwitchInt(Copy(p), _, arms, o) =>
        TraceUnique(blocks, lo, env, Chosen(arms, o, Get(env, p.local)), n - 1, k - 1);
      case Drop(_, t, _) => TraceUnique(blocks, lo, env, t, n - 1, k - 1);
      case _ =>
    }
  }

  // ----- what must be dropped -----

  /** The locals below n that need dropping here: neither the return place nor a
      parameter, and of a type with a destructor. */
  function Droppable(locals: seq<Ty>, argCount: nat, needsDrop: Ty -> bool, n: nat): seq<Local>
    requires n <= |locals|
  {
    if n == 0 then [] else
    Droppable(locals, argCount, needsDrop, n - 1) +
    if n - 1 != 0 && n - 1 > argCount && needsDrop(locals[n - 1]) then [n - 1] else []
  }

  predicate Kept(flags: map<Local, Local>, env: Env, l: Local) {
    l !in flags || Get(env, flags[l]) == 1
  }

  /** Those whose flag, if they have one, is set. */
  function KeptOf(order: seq<Local>, flags: map<Local, Local>, env: Env): seq<Local> {
    if order == [] then [] else
    (if Kept(flags, env, order[0]) then [order[0]] else []) + KeptOf(order[1..], flags, env)
  }

  ghost predicate Ascending(s: seq<Local>) {
    forall i: nat, j: nat :: i < j < |s| ==> s[i] < s[j]
  }

  lemma {:induction false} DroppableIs(locals: seq<Ty>, argCount: nat, needsDrop: Ty -> bool, n: nat)
    requires n <= |locals|
    ensures var ds := Droppable(locals, argCount, needsDrop, n);
      Ascending(ds) && forall l: Local :: l in ds <==> 0 < l < n && l > argCount && needsDrop(locals[l])
  {
    if n > 0 {
      DroppableIs(locals, argCount, needsDrop, n - 1);
      var init := Droppable(locals, argCount, needsDrop, n - 1);
      assert forall i: nat :: i < |init| ==> init[i] in init;
    }
  }

  lemma {:induction false} KeptIs(order: seq<Local>, flags: map<Local, Local>, env: Env)
    requires Ascending(order)
    ensures var ks := KeptOf(order, flags, env);
      Ascending(ks) && forall l: Local :: l in ks <==> l in order && Kept(flags, env, l)
  {
    if order != [] {
      var rest := order[1..];
      KeptIs(rest, flags, env);
      var ks := KeptOf(rest, flags, env);
      assert forall l: Local :: l in order <==> l == order[0] || l in rest;
      forall i: nat | i < |ks| ensures order[0] < ks[i] {
        assert ks[i] in rest;
      }
    }
  }

  /** The drops of a whole body: each local that needs it exactly once, iff it has no flag
      or its flag is set, and in the order of declaration. */
  lemma DropsExact(locals: seq<Ty>, argCount: nat, needsDrop: Ty -> bool, flags: map<Local, Local>, env: Env)
    ensures var drops := KeptOf(Droppable(locals, argCount, needsDrop, |locals|), flags, env);
      && Ascending(drops)
      && forall l: Local :: l in drops <==>
           0 < l < |locals| && l > argCount && needsDrop(locals[l]) && (l in flags ==> Get(env, flags[l]) == 1)
  {
    DroppableIs(locals, argCount, needsDrop, |locals|);
    KeptIs(Droppable(locals, argCount, needsDrop, |locals|), flags, env);
  }

  // ----- the builder -----

  /** The bool constant an assignment stores. */
  function Flag(b: bool): Rvalue {
    Use(Constant(Const(CBool(b), BOOL)))
  }

  /** The flags after the flag assignments of a block. */
  function ExecFlags(stmts: seq<Statement>, env: Env): Env {
    if stmts == [] then env else
    var s := stmts[|stmts| - 1];
    var before := ExecFlags(stmts[..|stmts| - 1], env);
    if s.Assign? && s.dest.projection == [] && s.rvalue == Flag(true) then before[s.dest.local := 1]
    else if s.Assign? && s.dest.projection == [] && s.rvalue == Flag(false) then before[s.dest.local := 0]
    else before
  }

  /** The blocks with more statements at the end of the current one. */
  function WithStmts(blocks: seq<BasicBlock>, current: Option<BlockId>, more: seq<Statement>): seq<BasicBlock>
    requires current.Some? ==> current.value < |blocks|
  {
    if current.None? then blocks else
    blocks[current.value := blocks[current.value].(stmts := blocks[current.value].stmts + more)]
  }

  class MirBuilder {
    var blocks: seq<BasicBlock>
    var locals: seq<Ty>
    var argCount: nat
    var dropFlags: map<Local, Local>
    var currentBlock: Option<BlockId>
    const needsDrop: Ty -> bool

    constructor (returnTy: Ty, argCount: nat, needsDrop: Ty -> bool)
      ensures blocks == [] && locals == [returnTy] && this.argCount == argCount && dropFlags == map[]
      ensures currentBlock == None && this.needsDrop == needsDrop
    {
      blocks, locals, this.argCount, dropFlags, currentBlock := [], [returnTy], argCount, map[], None;
      this.needsDrop := needsDrop;
    }

    method NewBlock() returns (b: BlockId)
      modifies this`blocks
      ensures b == |old(blocks)| && blocks == old(blocks) + [BasicBlock([], Unreachable)]
    {
      b := |blocks|;
      blocks := blocks + [BasicBlock([], Unreachable)];
    }

    method AllocLocal(ty: Ty) returns (l: Local)
      modifies this`locals
      ensures l == |old(locals)| && locals == old(locals) + [ty]
    {
      l := |locals|;
      locals := locals + [ty];
    }

    method SetTerminator(b: BlockId, t: Terminator)
      requires b < |blocks|
      modifies this`blocks
      ensures blocks == old(blocks)[b := old(blocks)[b].(term := t)]
    {
      blocks := blocks[b := blocks[b].(term := t)];
    }

    /** Appends to the current block, if there is one. */
    method PushStmt(s: Statement)
      requires currentBlock.Some? ==> currentBlock.value < |blocks|
      modifies this`blocks
      ensures blocks == WithStmts(old(blocks), currentBlock, [s])
    {
      if currentBlock.Some? {
        var b := currentBlock.value;
        blocks := blocks[b := blocks[b].(stmts := blocks[b].stmts + [s])];
      }
    }

    method CollectDroppable() returns (order: seq<Local>)
      ensures order == Droppable(locals, argCount, needsDrop, |locals|)
    {
      order := [];
      for l := 0 to |locals|
        invariant order == Droppable(locals, argCount, needsDrop, l)
      {
        if l == 0 { continue; }
        if l <= argCount { continue; }
        if needsDrop(locals[l]) { order := order + [l]; }
      }
    }

    /** One link of the chain: a drop of l, behind a check of its flag if it has one. */
    method AddLink(l: Local, target: BlockId) returns (next: BlockId)
      modifies this`blocks
      ensures |old(blocks)| <= next < |blocks| && old(blocks) <= blocks
      ensures forall lo: nat, env, drops :: lo <= |old(blocks)| && Leads(old(blocks), lo, env, target, drops) ==>
        Leads(blocks, lo, env, next, (if Kept(dropFlags, env, l) then [l] else []) + drops)
    {
      ghost var before := blocks;
      var drop := NewBlock();
      SetTerminator(drop, Drop(Place(l, []), target, None));
      assert blocks == before + [BasicBlock([], Drop(Place(l, []), target, None))];
      next := drop;
      if l in dropFlags {
        var check := NewBlock();
        SetTerminator(check, SwitchInt(Copy(Place(dropFlags[l], [])), BOOL, [(1, drop)], target));
        assert blocks == before + [BasicBlock([], Drop(Place(l, []), target, None)),
                                   BasicBlock([], SwitchInt(Copy(Place(dropFlags[l], [])), BOOL, [(1, drop)], target))];
        next := check;
      }
      forall lo: nat, env, drops | lo <= |before| && Leads(before, lo, env, target, drops)
        ensures Leads(blocks, lo, env, next, (if Kept(dropFlags, env, l) then [l] else []) + drops)
      {
        LinkLeads(before, blocks, lo, env, target, drops, l, dropFlags);
      }
    }

    /** Ends the body in a chain of drops and a return. Whatever the flags are, the walk
        from the fall-through block returns after the drops that are due; of the earlier
        blocks only that one's terminator changes. */
    method ElaborateScopeDrops(fallThrough: BlockId)
      requires fallThrough < |blocks|
      modifies this`blocks, this`currentBlock
      ensures currentBlock == None && |old(blocks)| <= |blocks|
      ensures forall b: nat :: b < |old(blocks)| && b != fallThrough ==> blocks[b] == old(blocks)[b]
      ensures blocks[fallThrough].stmts == old(blocks)[fallThrough].stmts
      ensures ChainLeads(blocks, 0, fallThrough, Droppable(locals, argCount, needsDrop, |locals|), dropFlags)
    {
      hide Droppable, Leads, KeptOf, Kept, Trace;
      ghost var before := blocks;
      var order := CollectDroppable();
      currentBlock := None;
      if order == [] {
        SetTerminator(fallThrough, Return);
        ReturnLeads(blocks, 0, fallThrough, dropFlags);
        return;
      }
      var target := NewBlock();
      SetTerminator(target, Return);
      ReturnLeads(blocks, |before|, target, dropFlags);
      for k := |order| downto 0
        invariant before <= blocks && |before| <= target < |blocks| && currentBlock == None
        invariant k < |order| || order[k..] == []
        invariant ChainLeads(blocks, |before|, target, order[k..], dropFlags)
      {
        ghost var prev, was := blocks, target;
        target := AddLink(order[k], target);
        LinkExtends(prev, blocks, |before|, was, target, order, k, dropFlags);
      }
      assert order[0..] == order;
      ghost var built := blocks;
      SetTerminator(fallThrough, Goto(target));
      GotoLeads(built, blocks, |before|, fallThrough, target, order, dropFlags);
    }

    // ----- drop flags -----

    /** Every flag is a local of its own. */
    ghost predicate FlagsOk()
      reads this
    {
      && (currentBlock.Some? ==> currentBlock.value < |blocks|)
      && (forall m :: m in dropFlags ==> dropFlags[m] < |locals|)
      && (forall m, n :: m in dropFlags && n in dropFlags && dropFlags[m] == dropFlags[n] ==> m == n)
    }

    /** What the flag of m is when control leaves the current block. */
    ghost function FlagAt(env: Env, m: Local): nat
      requires FlagsOk() && currentBlock.Some? && m in dropFlags
      reads this
    {
      Get(ExecFlags(blocks[currentBlock.value].stmts, env), dropFlags[m])
    }

    /** The flag of a fresh droppable local starts set; a second registration of the same
        local changes nothing. */
    method RegisterDropFlagInit(l: Local)
      requires FlagsOk()
      modifies this`blocks, this`locals, this`dropFlags
      ensures FlagsOk() && |blocks| == |old(blocks)| && dropFlags.Keys == old(dropFlags).Keys + {l}
      ensures locals == old(locals) + if l in old(dropFlags) then [] else [BOOL]
      ensures currentBlock.Some? ==> forall env: Env, m :: m in dropFlags ==>
        FlagAt(env, m) == if m in old(dropFlags) then old(FlagAt(env, m)) else 1
      ensures blocks == if l in old(dropFlags) then old(blocks) else
        WithStmts(old(blocks), currentBlock, [StorageLive(dropFlags[l]), Assign(Place(dropFlags[l], []), Flag(true))])
    {
      if l in dropFlags { return; }
      var flag := AllocLocal(BOOL);
      dropFlags := dropFlags[l := flag];
      ghost var stmts := if currentBlock.Some? then blocks[currentBlock.value].stmts else [];
      PushStmt(StorageLive(flag));
      PushStmt(Assign(Place(flag, []), Flag(true)));
      if currentBlock.Some? {
        assert stmts + [StorageLive(flag)] + [Assign(Place(flag, []), Flag(true))]
          == stmts + [StorageLive(flag), Assign(Place(flag, []), Flag(true))];
        forall env ensures ExecFlags(blocks[currentBlock.value].stmts, env) == ExecFlags(stmts, env)[flag := 1] {
          ExecSnoc(stmts, StorageLive(flag), env);
          ExecSnoc(stmts + [StorageLive(flag)], Assign(Place(flag, []), Flag(true)), env);
        }
      }
    }

    /** A let-bound local: its storage starts here, and its flag if it needs dropping. */
    method BindLocal(ty: Ty)
      requires FlagsOk() && currentBlock.Some?
      modifies this`blocks, this`locals, this`dropFlags
      ensures FlagsOk() && |blocks| == |old(blocks)|
      ensures (locals, dropFlags.Keys) == Declare(old(locals), old(dropFlags).Keys, needsDrop, Bind(ty))
      ensures old(blocks[currentBlock.value].stmts) <= blocks[currentBlock.value].stmts
      ensures StorageLive(|old(locals)|) in blocks[currentBlock.value].stmts
      ensures forall env: Env, m :: m in dropFlags ==>
        FlagAt(env, m) == if m in old(dropFlags) then old(FlagAt(env, m)) else 1
    {
      var l := AllocLocal(ty);
      ghost var stmts := blocks[currentBlock.value].stmts;
      PushStmt(StorageLive(l));
      forall env ensures ExecFlags(blocks[currentBlock.value].stmts, env) == ExecFlags(stmts, env) {
        ExecSnoc(stmts, StorageLive(l), env);
      }
      if needsDrop(ty) { RegisterDropFlagInit(l); }
    }

    /** A binding or a temporary gets a local; a binding that needs dropping also a flag. */
    method Apply(a: Action, ghost done: seq<Action>)
      requires FlagsOk() && currentBlock.Some? && FlagsTell(done)
      modifies this`blocks, this`locals, this`dropFlags
      ensures FlagsOk() && FlagsTell(done + [a]) && |blocks| == |old(blocks)|
      ensures (locals, dropFlags.Keys) == Declare(old(locals), old(dropFlags).Keys, needsDrop, a)
      ensures old(blocks[currentBlock.value].stmts) <= blocks[currentBlock.value].stmts
      ensures a.Bind? ==> StorageLive(|old(locals)|) in blocks[currentBlock.value].stmts
    {
      match a {
        case Bind(ty) => BindLocal(ty);
        case Temporary(ty) =>
          var l := AllocLocal(ty);
          assert forall env: Env, m :: m in dropFlags ==> FlagAt(env, m) == old(FlagAt(env, m));
        case MoveOut(l) => RegisterPartialMove(l);
      }
    }

    /** A local that has been moved out of has a flag; a flag is set unless its local has
        been moved out of. */
    ghost predicate FlagsTell(done: seq<Action>)
      requires FlagsOk() && currentBlock.Some?
      reads this
    {
      && (forall m :: MovedOut(done, m) ==> m in dropFlags)
      && (forall env: Env, m :: m in dropFlags ==> FlagAt(env, m) == if MovedOut(done, m) then 0 else 1)
    }

    /** The drop-relevant part of lowering a body whose control flow is a straight line.
        Whatever the locals hold at first, running the body drops exactly the locals that
        need it and were never moved out of, each once. */
    method LowerBody(params: seq<Ty>, actions: seq<Action>) returns (entry: BlockId)
      requires blocks == [] && |locals| == 1 && dropFlags == map[] && argCount == |params|
      modifies this
      ensures entry < |blocks| && argCount == |params|
      ensures locals == Declared(old(locals) + params, needsDrop, actions).0
      ensures AllLive(blocks[entry].stmts, old(locals) + params, needsDrop, actions)
      ensures forall env: Env :: BodyDrops(blocks, entry, env, locals, argCount, needsDrop, actions)
    {
      entry := NewBlock();
      currentBlock := Some(entry);
      for i := 0 to |params|
        invariant currentBlock == Some(entry) && |blocks| == 1 && dropFlags == map[] && argCount == |params|
        invariant locals == old(locals) + params[..i]
        invariant forall l: nat :: 0 < l <= i ==> StorageLive(l) in blocks[entry].stmts
      {
        var l := AllocLocal(params[i]);
        PushStmt(StorageLive(l));
      }
      assert params[..|params|] == params && actions[..0] == [] && dropFlags.Keys == {};
      for i := 0 to |actions|
        invariant currentBlock == Some(entry) && |blocks| == 1 && argCount == |params| && FlagsOk()
        invariant FlagsTell(actions[..i])
        invariant (locals, dropFlags.Keys) == Declared(old(locals) + params, needsDrop, actions[..i])
        invariant AllLive(blocks[entry].stmts, old(locals) + params, needsDrop, actions[..i])
      {
        ghost var stmts := blocks[entry].stmts;
        assert actions[..i + 1] == actions[..i] + [actions[i]];
        Apply(actions[i], actions[..i]);
        MoreLive(stmts, blocks[entry].stmts, old(locals) + params, needsDrop, actions, i);
      }
      assert actions[..|actions|] == actions;
      ghost var stmts, flags := blocks[entry].stmts, dropFlags;
      assert forall env: Env, m :: m in flags ==>
        Get(ExecFlags(stmts, env), flags[m]) == if MovedOut(actions, m) then 0 else 1 by {
        forall env: Env, m | m in flags
          ensures Get(ExecFlags(stmts, env), flags[m]) == if MovedOut(actions, m) then 0 else 1
        {
          assert FlagAt(env, m) == Get(ExecFlags(stmts, env), flags[m]);
        }
      }
      ElaborateScopeDrops(entry);
      forall env: Env ensures BodyDrops(blocks, entry, env, locals, argCount, needsDrop, actions) {
        BodyDropsExactly(blocks, entry, env, locals, argCount, needsDrop, flags, actions);
      }
    }

    /** A move out of part of l clears its flag, which it gets now if it had none. */
    method RegisterPartialMove(l: Local)
      requires FlagsOk()
      modifies this`blocks, this`locals, this`dropFlags
      ensures FlagsOk() && |blocks| == |old(blocks)| && dropFlags.Keys == old(dropFlags).Keys + {l}
      ensures locals == old(locals) + if l in old(dropFlags) then [] else [BOOL]
      ensures currentBlock.Some? ==> forall env: Env, m :: m in dropFlags ==>
        FlagAt(env, m) == if m == l then 0 else old(FlagAt(env, m))
      ensures blocks == WithStmts(old(blocks), currentBlock, [Assign(Place(dropFlags[l], []), Flag(false))])
    {
      var flag: Local;
      if l in dropFlags {
        flag := dropFlags[l];
      } else {
        flag := AllocLocal(BOOL);
        dropFlags := dropFlags[l := flag];
      }
      ghost var stmts := if currentBlock.Some? then blocks[currentBlock.value].stmts else [];
      PushStmt(Assign(Place(flag, []), Flag(false)));
      if currentBlock.Some? {
        forall env ensures ExecFlags(blocks[currentBlock.value].stmts, env) == ExecFlags(stmts, env)[flag := 0] {
          ExecSnoc(stmts, Assign(Place(flag, []), Flag(false)), env);
        }
      }
    }
  }

  // ----- a whole body -----

  /** What the statements of a body do to the builder as far as drops are concerned. */
  datatype Action = Bind(ty: Ty) | Temporary(ty: Ty) | MoveOut(l: Local)

  /** The locals of a body and which of them have a flag, after one more action: a flag is
      a bool local of its own. */
  ghost function Declare(locals: seq<Ty>, flagged: set<Local>, needsDrop: Ty -> bool, a: Action):
    (seq<Ty>, set<Local>)
  {
    match a
    case Bind(ty) =>
      if needsDrop(ty) then Flagged(locals + [ty], flagged, |locals|) else (locals + [ty], flagged)
    case Temporary(ty) => (locals + [ty], flagged)
    case MoveOut(l) => Flagged(locals, flagged, l)
  }

  ghost function Flagged(locals: seq<Ty>, flagged: set<Local>, l: Local): (seq<Ty>, set<Local>) {
    (locals + (if l in flagged then [] else [BOOL]), flagged + {l})
  }

  ghost function Declared(first: seq<Ty>, needsDrop: Ty -> bool, actions: seq<Action>): (seq<Ty>, set<Local>) {
    if actions == [] then (first, {}) else
    var (locals, flagged) := Declared(first, needsDrop, actions[..|actions| - 1]);
    Declare(locals, flagged, needsDrop, actions[|actions| - 1])
  }

  /** The storage of every parameter and every binding is started. */
  ghost predicate AllLive(stmts: seq<Statement>, first: seq<Ty>, needsDrop: Ty -> bool, actions: seq<Action>) {
    && (forall l: nat :: 0 < l < |first| ==> StorageLive(l) in stmts)
    && forall k: nat :: k < |actions| && actions[k].Bind? ==>
         StorageLive(|Declared(first, needsDrop, actions[..k]).0|) in stmts
  }

  lemma MoreLive(stmts: seq<Statement>, stmts': seq<Statement>, first: seq<Ty>, needsDrop: Ty -> bool,
                 actions: seq<Action>, i: nat)
    requires i < |actions| && AllLive(stmts, first, needsDrop, actions[..i]) && stmts <= stmts'
    requires actions[i].Bind? ==> StorageLive(|Declared(first, needsDrop, actions[..i]).0|) in stmts'
    ensures AllLive(stmts', first, needsDrop, actions[..i + 1])
  {
    hide Declared;
    var upTo, more := actions[..i], actions[..i + 1];
    assert forall s :: s in stmts ==> s in stmts';
    forall k: nat | k < |more| && more[k].Bind?
      ensures StorageLive(|Declared(first, needsDrop, more[..k]).0|) in stmts'
    {
      assert more[..k] == actions[..k];
      if k < i { assert upTo[k] == more[k] && upTo[..k] == actions[..k]; }
    }
  }

  /** The local of action k, and where it is declared: behind those of the actions before. */
  lemma {:induction false} DeclaredAt(first: seq<Ty>, needsDrop: Ty -> bool, actions: seq<Action>, k: nat)
    requires k < |actions|
    ensures var at := |Declared(first, needsDrop, actions[..k]).0|;
      var locals := Declared(first, needsDrop, actions).0;
      && |first| <= at <= |locals| && first <= locals
      && (!actions[k].MoveOut? ==> at < |locals| && locals[at] == actions[k].ty)
    decreases |actions|
  {
    var init := actions[..|actions| - 1];
    if k < |init| {
      assert init[..k] == actions[..k];
      DeclaredAt(first, needsDrop, init, k);
    } else if k > 0 {
      assert actions[..k] == init;
      DeclaredAt(first, needsDrop, init, k - 1);
    } else {
      assert actions[..k] == [];
    }
  }

  /** So a binding that needs dropping is dropped exactly if it is not moved out of. */
  lemma BindingDropped(blocks: seq<BasicBlock>, entry: BlockId, env: Env, first: seq<Ty>, argCount: nat,
                       needsDrop: Ty -> bool, actions: seq<Action>, k: nat)
    requires entry < |blocks| && k < |actions| && actions[k].Bind? && |first| == argCount + 1
    requires BodyDrops(blocks, entry, env, Declared(first, needsDrop, actions).0, argCount, needsDrop, actions)
    ensures var at := |Declared(first, needsDrop, actions[..k]).0|;
      exists drops :: Leads(blocks, 0, ExecFlags(blocks[entry].stmts, env), entry, drops)
        && (at in drops <==> needsDrop(actions[k].ty) && !MovedOut(actions, at))
  {
    hide Leads, ExecFlags, MovedOut, Declared;
    DeclaredAt(first, needsDrop, actions, k);
  }

  ghost predicate MovedOut(actions: seq<Action>, l: Local) {
    MoveOut(l) in actions
  }

  /** Running from the entry block reaches a return and drops, once each and in the order
      of declaration, the locals that need it and were never moved out of. */
  ghost predicate BodyDrops(blocks: seq<BasicBlock>, entry: BlockId, env: Env, locals: seq<Ty>, argCount: nat,
                            needsDrop: Ty -> bool, actions: seq<Action>)
    requires entry < |blocks|
  {
    exists drops ::
      && Leads(blocks, 0, ExecFlags(blocks[entry].stmts, env), entry, drops) && Ascending(drops)
      && forall l: Local :: l in drops <==>
           0 < l < |locals| && l > argCount && needsDrop(locals[l]) && !MovedOut(actions, l)
  }

  lemma BodyDropsExactly(blocks: seq<BasicBlock>, entry: BlockId, env: Env, locals: seq<Ty>, argCount: nat,
                         needsDrop: Ty -> bool, flags: map<Local, Local>, actions: seq<Action>)
    requires entry < |blocks|
    requires ChainLeads(blocks, 0, entry, Droppable(locals, argCount, needsDrop, |locals|), flags)
    requires forall m :: MovedOut(actions, m) ==> m in flags
    requires forall m :: m in flags ==>
      Get(ExecFlags(blocks[entry].stmts, env), flags[m]) == if MovedOut(actions, m) then 0 else 1
    ensures BodyDrops(blocks, entry, env, locals, argCount, needsDrop, actions)
  {
    hide Leads, Droppable, KeptOf, ExecFlags, MovedOut;
    var env' := ExecFlags(blocks[entry].stmts, env);
    DropsExact(locals, argCount, needsDrop, flags, env');
    var drops := KeptOf(Droppable(locals, argCount, needsDrop, |locals|), flags, env');
    assert Leads(blocks, 0, env', entry, drops);
  }

  lemma ExecSnoc(stmts: seq<Statement>, s: Statement, env: Env)
    ensures ExecFlags(stmts + [s], env) ==
      if s.Assign? && s.dest.projection == [] && s.rvalue == Flag(true) then ExecFlags(stmts, env)[s.dest.local := 1]
      else if s.Assign? && s.dest.projection == [] && s.rvalue == Flag(false) then
        ExecFlags(stmts, env)[s.dest.local := 0]
      else ExecFlags(stmts, env)
  {
    assert (stmts + [s])[..|stmts|] == stmts;
  }

  /** From b the walk performs the drops of the order whose flags allow it, and returns. */
  ghost predicate ChainLeads(blocks: seq<BasicBlock>, lo: nat, b: BlockId, order: seq<Local>,
                             flags: map<Local, Local>)
  {
    forall env :: Leads(blocks, lo, env, b, KeptOf(order, flags, env))
  }

  lemma ReturnLeads(blocks: seq<BasicBlock>, lo: nat, b: BlockId, flags: map<Local, Local>)
    requires lo <= b < |blocks| && blocks[b].term == Return
    ensures ChainLeads(blocks, lo, b, [], flags)
  {
    forall env ensures Leads(blocks, lo, env, b, KeptOf([], flags, env)) {
      assert Trace(blocks, lo, env, b, 1) == Some([]);
    }
  }

  lemma LinkExtends(prev: seq<BasicBlock>, blocks: seq<BasicBlock>, lo: nat, was: BlockId, next: BlockId,
                    order: seq<Local>, k: nat, flags: map<Local, Local>)
    requires k < |order| && lo <= |prev| && ChainLeads(prev, lo, was, order[k + 1..], flags)
    requires forall lo: nat, env, drops :: lo <= |prev| && Leads(prev, lo, env, was, drops) ==>
      Leads(blocks, lo, env, next, (if Kept(flags, env, order[k]) then [order[k]] else []) + drops)
    ensures ChainLeads(blocks, lo, next, order[k..], flags)
  {
    hide Leads, Kept;
    forall env ensures Leads(blocks, lo, env, next, KeptOf(order[k..], flags, env)) {
      assert Leads(prev, lo, env, was, KeptOf(order[k + 1..], flags, env));
      assert order[k..][1..] == order[k + 1..];
    }
  }

  lemma GotoLeads(built: seq<BasicBlock>, blocks: seq<BasicBlock>, lo: nat, b: BlockId, target: BlockId,
                  order: seq<Local>, flags: map<Local, Local>)
    requires ChainLeads(built, lo, target, order, flags) && b < lo <= |built|
    requires blocks == built[b := built[b].(term := Goto(target))]
    ensures ChainLeads(blocks, 0, b, order, flags)
  {
    forall env ensures Leads(blocks, 0, env, b, KeptOf(order, flags, env)) {
      var n: nat :| Trace(built, lo, env, target, n) == Some(KeptOf(order, flags, env));
      TraceFramed(built, blocks, lo, env, target, n);
      TraceLower(blocks, lo, env, target, n);
      assert Trace(blocks, 0, env, b, n + 1) == Some(KeptOf(order, flags, env));
    }
  }

  lemma LinkLeads(before: seq<BasicBlock>, blocks: seq<BasicBlock>, lo: nat, env: Env, target: BlockId,
                  drops: seq<Local>, l: Local, flags: map<Local, Local>)
    requires lo <= |before| && Leads(before, lo, env, target, drops)
    requires var link := before + [BasicBlock([], Drop(Place(l, []), target, None))];
      blocks == if l in flags
                then link + [BasicBlock([], SwitchInt(Copy(Place(flags[l], [])), BOOL, [(1, |before|)], target))]
                else link
    ensures Leads(blocks, lo, env, |blocks| - 1, (if Kept(flags, env, l) then [l] else []) + drops)
  {
    var n: nat :| Trace(before, lo, env, target, n) == Some(drops);
    TraceFramed(before, blocks, lo, env, target, n);
    assert Trace(blocks, lo, env, |before|, n + 1) == Some([l] + drops);
    if l in flags {
      var v := Get(env, flags[l]);
      assert [(1, |before|)][1..] == [];
      assert Chosen([(1, |before|)], target, v) == if v == 1 then |before| else target;
      assert Trace(blocks, lo, env, |before| + 1, if v == 1 then n + 2 else n + 1)
        == if v == 1 then Some([l] + drops) else Some(drops);
      assert [] + drops == drops;
    }
  }
}

/** The peephole pass over decoded bytecode (crates/glyim-codegen/src/lib.rs). */
module Peephole {
  import opened Mir
  import opened Words
  import opened Vm
  import opened Bytecode

  const OP_LOAD_CONST: U8 := 0x01
  const OP_NEG: U8 := 0x10
  const OP_ASSERT: U8 := 0x21

  // ----- constant folding -----

  datatype Fold = Folded(v: I64) | NotFoldable | FoldPanics

  /** Division is folded only when defined; a remainder is folded unchecked and
      panics the compiler when it is not. */
  function FoldIntBinop(op: U8, a: I64, b: I64): Fold {
    match DecodeOp(op)
    case Some(Bin(bop)) =>
      if bop == Div && !Divides(a, b) then NotFoldable
      else if bop == Rem && !Divides(a, b) then FoldPanics
      else Folded(Binary(bop, a, b))
    case _ => NotFoldable
  }

  predicate IsFoldable(op: U8) {
    DecodeOp(op).Some? && DecodeOp(op).value.Bin?
  }

  /** The constant of a load, unless its operand is truncated. */
  function ConstOf(i: Instr): Option<I64> {
    if |i.operand| < 8 then None else Some(Wrap(FromBytes(i.operand[..8])))
  }

  predicate FoldsHere(instrs: seq<Instr>, flags: seq<bool>) {
    && |instrs| > 2 && instrs[0].op == OP_LOAD_CONST && instrs[1].op == OP_LOAD_CONST
    && |flags| > 1 && flags[0] && flags[1] && IsFoldable(instrs[2].op)
  }

  predicate CancelsHere(instrs: seq<Instr>) {
    |instrs| > 1 && instrs[0].op == OP_NEG && instrs[1].op == OP_NEG
  }

  /** The pass as a function; None when the compiler panics. */
  function Pass(instrs: seq<Instr>, flags: seq<bool>): Option<seq<Instr>>
    decreases |instrs|
  {
    if instrs == [] then Some([])
    else if instrs[0].op == OP_LOAD_CONST && ConstOf(instrs[0]).None? then None
    else if FoldsHere(instrs, flags) && ConstOf(instrs[1]).None? then None
    else
      var fold := if FoldsHere(instrs, flags)
        then FoldIntBinop(instrs[2].op, ConstOf(instrs[0]).value, ConstOf(instrs[1]).value) else NotFoldable;
      if fold.FoldPanics? then None
      else if fold.Folded? then Prepend(Instr(OP_LOAD_CONST, I64Bytes(fold.v)), Pass(instrs[3..], flags[2..]))
      else if CancelsHere(instrs) then Pass(instrs[2..], flags)
      else
        var left := if instrs[0].op == OP_LOAD_CONST && flags != [] then flags[1..] else flags;
        Prepend(instrs[0], Pass(instrs[1..], left))
  }

  function Prepend(i: Instr, r: Option<seq<Instr>>): Option<seq<Instr>> {
    if r.None? then None else Some([i] + r.value)
  }

  function Append(out: seq<Instr>, r: Option<seq<Instr>>): Option<seq<Instr>> {
    if r.None? then None else Some(out + r.value)
  }

  lemma AppendPrepend(out: seq<Instr>, i: Instr, r: Option<seq<Instr>>)
    ensures Append(out, Prepend(i, r)) == Append(out + [i], r)
  {
    if r.Some? { assert out + ([i] + r.value) == out + [i] + r.value; }
  }

  lemma AppendNothing(r: Option<seq<Instr>>)
    ensures Append([], r) == r
  {
    if r.Some? { assert [] + r.value == r.value; }
  }

  /** The loop over the decoded stream and the integer-flag record. */
  method Optimise(instrs: seq<Instr>, flags: seq<bool>) returns (r: Option<seq<Instr>>)
    ensures r == Pass(instrs, flags)
  {
    var out: seq<Instr> := [];
    var k, f := 0, 0;
    assert instrs[0..] == instrs && flags[0..] == flags;
    AppendNothing(Pass(instrs, flags));
    while k < |instrs|
      invariant k <= |instrs| && f <= |flags|
      invariant Pass(instrs, flags) == Append(out, Pass(instrs[k..], flags[f..]))
      decreases |instrs| - k
    {
      ghost var here, left := instrs[k..], flags[f..];
      assert here[1..] == instrs[k + 1..] && (f < |flags| ==> left[1..] == flags[f + 1..]);
      if instrs[k].op == OP_LOAD_CONST {
        var v := ConstOf(instrs[k]);
        if v.None? { return None; }
        var isInt := f < |flags| && flags[f];
        var f' := if f < |flags| then f + 1 else f;
        if isInt && k + 2 < |instrs| && instrs[k + 1].op == OP_LOAD_CONST
           && f' < |flags| && flags[f'] && IsFoldable(instrs[k + 2].op)
        {
          assert FoldsHere(here, left);
          var v2 := ConstOf(instrs[k + 1]);
          if v2.None? { return None; }
          var fold := FoldIntBinop(instrs[k + 2].op, v.value, v2.value);
          if fold.FoldPanics? { return None; }
          if fold.Folded? {
            assert here[3..] == instrs[k + 3..] && left[2..] == flags[f' + 1..];
            AppendPrepend(out, Instr(OP_LOAD_CONST, I64Bytes(fold.v)), Pass(instrs[k + 3..], flags[f' + 1..]));
            out, k, f := out + [Instr(OP_LOAD_CONST, I64Bytes(fold.v))], k + 3, f' + 1;
            continue;
          }
        } else {
          assert !FoldsHere(here, left);
        }
        AppendPrepend(out, instrs[k], Pass(instrs[k + 1..], flags[f'..]));
        out, k, f := out + [instrs[k]], k + 1, f';
      } else if instrs[k].op == OP_NEG && k + 1 < |instrs| && instrs[k + 1].op == OP_NEG {
        assert here[2..] == instrs[k + 2..];
        k := k + 2;
      } else {
        AppendPrepend(out, instrs[k], Pass(instrs[k + 1..], flags[f..]));
        out, k := out + [instrs[k]], k + 1;
      }
    }
    assert instrs[k..] == [] && out + [] == out;
    return Some(out);
  }

  // ----- where the pass acts -----

  function Loads(instrs: seq<Instr>): nat {
    if instrs == [] then 0 else (if instrs[0].op == OP_LOAD_CONST then 1 else 0) + Loads(instrs[1..])
  }

  function DropFlags(flags: seq<bool>, n: nat): seq<bool> {
    if n <= |flags| then flags[n..] else []
  }

  /** The flag record as the pass has it at position k: one flag per load before it used. */
  function FlagsAt(instrs: seq<Instr>, flags: seq<bool>, k: nat): seq<bool>
    requires k <= |instrs|
  {
    DropFlags(flags, Loads(instrs[..k]))
  }

  predicate TruncatedLoad(instrs: seq<Instr>, k: nat) {
    k < |instrs| && instrs[k].op == OP_LOAD_CONST && ConstOf(instrs[k]).None?
  }

  /** Two integer constants and an operation on them, from position k on. */
  predicate FoldSite(instrs: seq<Instr>, flags: seq<bool>, k: nat) {
    && k <= |instrs| && FoldsHere(instrs[k..], FlagsAt(instrs, flags, k))
    && ConstOf(instrs[k]).Some? && ConstOf(instrs[k + 1]).Some?
  }

  function FoldAt(instrs: seq<Instr>, flags: seq<bool>, k: nat): Fold
    requires FoldSite(instrs, flags, k)
  {
    FoldIntBinop(instrs[k + 2].op, ConstOf(instrs[k]).value, ConstOf(instrs[k + 1]).value)
  }

  /** A remainder of flagged constants by 0, or of the least word by -1. */
  predicate BadRemainder(instrs: seq<Instr>, flags: seq<bool>, k: nat) {
    && FoldSite(instrs, flags, k) && DecodeOp(instrs[k + 2].op) == Some(Bin(Rem))
    && !Divides(ConstOf(instrs[k]).value, ConstOf(instrs[k + 1]).value)
  }

  predicate PanicsAt(instrs: seq<Instr>, flags: seq<bool>, k: nat) {
    TruncatedLoad(instrs, k) || BadRemainder(instrs, flags, k)
  }

  lemma {:induction false} LoadsSplit(instrs: seq<Instr>, d: nat, k: nat)
    requires d + k <= |instrs|
    ensures Loads(instrs[..d + k]) == Loads(instrs[..d]) + Loads(instrs[d..][..k])
    decreases d
  {
    if d == 0 {
      assert instrs[d..][..k] == instrs[..d + k] && instrs[..0] == [];
    } else {
      LoadsSplit(instrs[1..], d - 1, k);
      assert instrs[..d + k][1..] == instrs[1..][..d - 1 + k] && instrs[..d][1..] == instrs[1..][..d - 1];
      assert instrs[1..][d - 1..] == instrs[d..];
    }
  }

  /** A position keeps its flags when the instructions before d are dropped with theirs. */
  lemma FlagsShift(instrs: seq<Instr>, flags: seq<bool>, d: nat, k: nat)
    requires d + k <= |instrs|
    ensures FlagsAt(instrs, flags, d + k) == FlagsAt(instrs[d..], FlagsAt(instrs, flags, d), k)
    ensures instrs[d..][k..] == instrs[d + k..]
  {
    LoadsSplit(instrs, d, k);
  }

  lemma SitesShift(instrs: seq<Instr>, flags: seq<bool>, d: nat, k: nat)
    requires d + k <= |instrs|
    ensures FoldSite(instrs, flags, d + k) <==> FoldSite(instrs[d..], FlagsAt(instrs, flags, d), k)
    ensures PanicsAt(instrs, flags, d + k) <==> PanicsAt(instrs[d..], FlagsAt(instrs, flags, d), k)
  {
    hide FoldsHere, FlagsAt, ConstOf, DecodeOp, Divides;
    FlagsShift(instrs, flags, d, k);
    if k < |instrs[d..]| { assert instrs[d..][k] == instrs[d + k]; }
    FoldsInside(instrs, FlagsAt(instrs, flags, d + k), d + k);
    FoldsInside(instrs[d..], FlagsAt(instrs[d..], FlagsAt(instrs, flags, d), k), k);
  }

  lemma FoldsInside(instrs: seq<Instr>, flags: seq<bool>, k: nat)
    requires k <= |instrs|
    ensures FoldsHere(instrs[k..], flags) ==> k + 2 < |instrs|
  {
  }

  /** How many instructions the pass takes at the head. */
  function Taken(instrs: seq<Instr>, flags: seq<bool>): (d: nat)
    requires instrs != []
    ensures 1 <= d <= |instrs|
  {
    if FoldSite(instrs, flags, 0) && FoldAt(instrs, flags, 0).Folded? then 3 else if CancelsHere(instrs) then 2 else 1
  }

  lemma FlagsAtHead(instrs: seq<Instr>, flags: seq<bool>)
    ensures FlagsAt(instrs, flags, 0) == flags && instrs[0..] == instrs
  {
    assert instrs[..0] == [];
  }

  lemma {:induction false} LoadsOne(instrs: seq<Instr>, d: nat)
    requires d < |instrs|
    ensures Loads(instrs[..d + 1]) == Loads(instrs[..d]) + if instrs[d].op == OP_LOAD_CONST then 1 else 0
  {
    LoadsSplit(instrs, d, 1);
    assert instrs[d..][..1] == [instrs[d]] && [instrs[d]][1..] == [];
    assert Loads([instrs[d]]) == if instrs[d].op == OP_LOAD_CONST then 1 else 0;
  }

  /** The flags left are those of the loads not taken. */
  lemma FlagsLeft(instrs: seq<Instr>, flags: seq<bool>)
    requires instrs != []
    ensures var d := Taken(instrs, flags);
      FlagsAt(instrs, flags, d) ==
        if d == 3 then flags[2..] else if d == 2 then flags
        else if instrs[0].op == OP_LOAD_CONST && flags != [] then flags[1..] else flags
  {
    hide ConstOf, FoldIntBinop;
    FlagsAtHead(instrs, flags);
    assert instrs[..0] == [];
    LoadsOne(instrs, 0);
    if |instrs| > 1 { LoadsOne(instrs, 1); }
    if |instrs| > 2 { LoadsOne(instrs, 2); }
  }

  /** One step of the pass. */
  lemma PassStep(instrs: seq<Instr>, flags: seq<bool>)
    requires instrs != []
    ensures FlagsAt(instrs, flags, 0) == flags && instrs[0..] == instrs
    ensures var d := Taken(instrs, flags);
      var rest := Pass(instrs[d..], FlagsAt(instrs, flags, d));
      Pass(instrs, flags) ==
        if PanicsAt(instrs, flags, 0) || (FoldsHere(instrs, flags) && PanicsAt(instrs, flags, 1)) then None
        else if d == 3 then Prepend(Instr(OP_LOAD_CONST, I64Bytes(FoldAt(instrs, flags, 0).v)), rest)
        else if d == 2 then rest
        else Prepend(instrs[0], rest)
  {
    hide ConstOf, FlagsAt, Divides, I64Bytes;
    FlagsAtHead(instrs, flags);
    FlagsLeft(instrs, flags);
    assert |instrs| > 1 && instrs[1].op != OP_LOAD_CONST ==> !PanicsAt(instrs, flags, 1) by {
      if |instrs| > 1 { FoldsInside(instrs, FlagsAt(instrs, flags, 1), 1); }
    }
    assert FoldsHere(instrs, flags) ==> !FoldSite(instrs, flags, 1);
  }

  /** What the pass takes at the head beyond its first instruction holds nothing to panic
      about. */
  lemma TakenIsQuiet(instrs: seq<Instr>, flags: seq<bool>, k: nat)
    requires instrs != [] && 0 < k < Taken(instrs, flags)
    ensures !PanicsAt(instrs, flags, k) && !FoldSite(instrs, flags, k)
  {
    hide ConstOf, FlagsAt, Divides;
    FlagsAtHead(instrs, flags);
  }

  /** The pass panics exactly if the stream holds a truncated constant or a remainder of
      flagged constants that is not defined. */
  lemma {:induction false} PanicsIff(instrs: seq<Instr>, flags: seq<bool>)
    ensures Pass(instrs, flags).None? <==> exists k: nat :: k < |instrs| && PanicsAt(instrs, flags, k)
    decreases |instrs|
  {
    hide Pass, FlagsAt, PanicsAt, Taken, FoldSite, FoldAt, FoldsHere;
    if instrs == [] {
      PassNothing(flags);
    } else {
      var d := Taken(instrs, flags);
      PassStep(instrs, flags);
      PanicsIff(instrs[d..], FlagsAt(instrs, flags, d));
      forall k: nat | k < |instrs| && PanicsAt(instrs, flags, k)
        ensures k == 0 || (d <= k && PanicsAt(instrs[d..], FlagsAt(instrs, flags, d), k - d))
      {
        if 0 < k < d { TakenIsQuiet(instrs, flags, k); }
        if d <= k { SitesShift(instrs, flags, d, k - d); }
      }
      forall k: nat | k < |instrs[d..]| && PanicsAt(instrs[d..], FlagsAt(instrs, flags, d), k)
        ensures PanicsAt(instrs, flags, d + k)
      {
        SitesShift(instrs, flags, d, k);
      }
      assert FoldsHere(instrs, flags) ==> 1 < |instrs| by { FoldsInside(instrs, flags, 0); }
    }
  }

  lemma PassNothing(flags: seq<bool>)
    ensures Pass([], flags) == Some([])
  {
  }

  // ----- the pass preserves meaning -----

  /** No executed negation meets a tuple. */
  ghost predicate NegatesNoTuple(instrs: seq<Instr>, cpu: Cpu) {
    instrs != [] && RunOne(instrs[0], cpu).Some? ==>
      && (instrs[0].op == OP_NEG && cpu.stack != [] ==> Top(cpu.stack).Int?)
      && NegatesNoTuple(instrs[1..], RunOne(instrs[0], cpu).value)
  }

  lemma RunLoad(i: Instr, cpu: Cpu)
    requires i.op == OP_LOAD_CONST && RunOne(i, cpu).Some?
    ensures ConstOf(i).Some? && RunOne(i, cpu) == Some(cpu.(stack := cpu.stack + [Int(ConstOf(i).value)]))
  {
    assert i.operand[0..8] == i.operand[..8];
  }

  lemma RunFolded(v: I64, cpu: Cpu)
    ensures RunOne(Instr(OP_LOAD_CONST, I64Bytes(v)), cpu) == Some(cpu.(stack := cpu.stack + [Int(v)]))
  {
    I64RoundTrip(v);
    assert I64Bytes(v)[0..8] == I64Bytes(v);
  }

  /** Two loads and an operation leave the folded constant. */
  lemma FoldRuns(instrs: seq<Instr>, flags: seq<bool>, cpu: Cpu, v: I64)
    requires FoldsHere(instrs, flags) && RunAll(instrs, cpu).Some?
    requires ConstOf(instrs[0]).Some? && ConstOf(instrs[1]).Some?
    requires FoldIntBinop(instrs[2].op, ConstOf(instrs[0]).value, ConstOf(instrs[1]).value) == Folded(v)
    ensures RunAll(instrs, cpu) == RunAll(instrs[3..], cpu.(stack := cpu.stack + [Int(v)]))
  {
    RunLoad(instrs[0], cpu);
    var c1 := RunOne(instrs[0], cpu).value;
    assert instrs[1..][0] == instrs[1] && instrs[1..][1..] == instrs[2..];
    assert instrs[2..][0] == instrs[2] && instrs[2..][1..] == instrs[3..];
    RunLoad(instrs[1], c1);
    var c2 := RunOne(instrs[1], c1).value;
    assert RunAll(instrs[2..], c2).Some?;
    assert c2.stack == cpu.stack + [Int(ConstOf(instrs[0]).value), Int(ConstOf(instrs[1]).value)];
    assert Pop(Pop(c2.stack)) == cpu.stack;
    assert RunOne(instrs[2], c2) == Some(cpu.(stack := cpu.stack + [Int(v)]));
  }

  lemma RunNeg(i: Instr, cpu: Cpu)
    requires i.op == OP_NEG && RunOne(i, cpu).Some?
    ensures cpu.stack != []
    ensures RunOne(i, cpu) == Some(cpu.(stack := Pop(cpu.stack) + [Int(Negate(AsInt(Top(cpu.stack))))]))
  {
  }

  /** Two negations are the identity exactly on a non-tuple. */
  lemma CancelExact(a: Instr, b: Instr, cpu: Cpu)
    requires a.op == OP_NEG && b.op == OP_NEG && RunOne(a, cpu).Some? && RunOne(b, RunOne(a, cpu).value).Some?
    ensures cpu.stack != []
    ensures RunOne(b, RunOne(a, cpu).value) == Some(cpu) <==> Top(cpu.stack).Int?
  {
    RunNeg(a, cpu);
    var s, c1 := cpu.stack, RunOne(a, cpu).value;
    RunNeg(b, c1);
    NegateTwice(AsInt(Top(s)));
    assert Pop(c1.stack) == Pop(s);
    var r := Pop(s) + [Int(AsInt(Top(s)))];
    assert RunOne(b, c1) == Some(cpu.(stack := r));
    if Top(s).Int? { assert r == s; } else { assert Top(r) != Top(s); }
  }

  /** What the pass leaves, if it does not panic, ends as the original does. */
  lemma {:induction false} PassedRuns(instrs: seq<Instr>, flags: seq<bool>, cpu: Cpu)
    requires RunAll(instrs, cpu).Some? && NegatesNoTuple(instrs, cpu) && Pass(instrs, flags).Some?
    ensures RunAll(Pass(instrs, flags).value, cpu) == RunAll(instrs, cpu)
    decreases |instrs|
  {
    if instrs != [] {
      var out := Pass(instrs, flags).value;
      var fold := if FoldsHere(instrs, flags)
        then FoldIntBinop(instrs[2].op, ConstOf(instrs[0]).value, ConstOf(instrs[1]).value) else NotFoldable;
      if fold.Folded? {
        var next := cpu.(stack := cpu.stack + [Int(fold.v)]);
        FoldRuns(instrs, flags, cpu, fold.v);
        NoTupleAfterFold(instrs, flags, cpu, fold.v);
        PassedRuns(instrs[3..], flags[2..], next);
        RunFolded(fold.v, cpu);
        assert out[1..] == Pass(instrs[3..], flags[2..]).value;
      } else if CancelsHere(instrs) {
        CancelExact(instrs[0], instrs[1], cpu);
        assert instrs[1..][0] == instrs[1] && instrs[1..][1..] == instrs[2..];
        PassedRuns(instrs[2..], flags, cpu);
      } else {
        var flags' := if instrs[0].op == OP_LOAD_CONST && flags != [] then flags[1..] else flags;
        PassedRuns(instrs[1..], flags', RunOne(instrs[0], cpu).value);
        assert out[0] == instrs[0] && out[1..] == Pass(instrs[1..], flags').value;
      }
    }
  }

  /** A sequence that runs has whole constants. */
  lemma {:induction false} RunsWhole(instrs: seq<Instr>, cpu: Cpu, k: nat)
    requires RunAll(instrs, cpu).Some?
    ensures !TruncatedLoad(instrs, k)
    decreases |instrs|
  {
    if k < |instrs| {
      if k == 0 {
        if instrs[0].op == OP_LOAD_CONST { RunLoad(instrs[0], cpu); }
      } else {
        RunsWhole(instrs[1..], RunOne(instrs[0], cpu).value, k - 1);
      }
    }
  }

  /** If the original runs, negates no tuple and holds no undefined remainder of flagged
      constants, the pass succeeds, and the rewritten sequence ends with the same stack,
      locals and memory. */
  lemma PassPreserves(instrs: seq<Instr>, flags: seq<bool>, cpu: Cpu)
    requires RunAll(instrs, cpu).Some? && NegatesNoTuple(instrs, cpu)
    requires forall k: nat :: k < |instrs| ==> !BadRemainder(instrs, flags, k)
    ensures Pass(instrs, flags).Some? && RunAll(Pass(instrs, flags).value, cpu) == RunAll(instrs, cpu)
  {
    hide Pass, RunAll, BadRemainder, TruncatedLoad, NegatesNoTuple;
    forall k: nat | k < |instrs| ensures !PanicsAt(instrs, flags, k) { RunsWhole(instrs, cpu, k); }
    PanicsIff(instrs, flags);
    PassedRuns(instrs, flags, cpu);
  }

  const REMAINDER: seq<Instr> := [Instr(0x01, I64Bytes(1)), Instr(0x01, I64Bytes(0)), Instr(0x06, [])]

  lemma RunsThree(a: Instr, b: Instr, c: Instr, cpu: Cpu, c1: Cpu, c2: Cpu, c3: Cpu)
    requires RunOne(a, cpu) == Some(c1) && RunOne(b, c1) == Some(c2) && RunOne(c, c2) == Some(c3)
    ensures RunAll([a, b, c], cpu) == Some(c3)
  {
    hide RunOne;
    assert [a, b, c][1..] == [b, c] && [b, c][1..] == [c] && [c][1..] == [];
    assert RunAll([], c3) == Some(c3);
    assert RunAll([c], c2) == Some(c3);
    assert RunAll([b, c], c1) == Some(c3);
  }

  lemma RemainderOfZero(cpu: Cpu)
    ensures RunOne(Instr(0x06, []), cpu.(stack := cpu.stack + [Int(1)] + [Int(0)]))
      == Some(cpu.(stack := cpu.stack + [Int(0)]))
  {
    var s := cpu.stack + [Int(1)] + [Int(0)];
    assert Pop(s) == cpu.stack + [Int(1)] && Pop(Pop(s)) == cpu.stack;
  }

  lemma ConstBack(v: I64)
    ensures ConstOf(Instr(0x01, I64Bytes(v))) == Some(v)
  {
    I64RoundTrip(v);
    assert I64Bytes(v)[..8] == I64Bytes(v);
  }

  /** LOAD_CONST 1; LOAD_CONST 0; REM, both flagged: the machine leaves 0, the pass
      panics. */
  lemma RemainderPanics(cpu: Cpu)
    ensures RunAll(REMAINDER, cpu) == Some(cpu.(stack := cpu.stack + [Int(0)]))
    ensures Pass(REMAINDER, [true, true]).None?
  {
    hide RunOne, I64Bytes, Pass, RunAll, ConstOf;
    var c1 := cpu.(stack := cpu.stack + [Int(1)]);
    RunFolded(1, cpu);
    RunFolded(0, c1);
    RemainderOfZero(cpu);
    RunsThree(REMAINDER[0], REMAINDER[1], REMAINDER[2], cpu, c1, c1.(stack := c1.stack + [Int(0)]),
              cpu.(stack := cpu.stack + [Int(0)]));
    ConstBack(1);
    ConstBack(0);
    FlagsAtHead(REMAINDER, [true, true]);
    assert FoldSite(REMAINDER, [true, true], 0);
    assert BadRemainder(REMAINDER, [true, true], 0);
    var zero: nat := 0;
    assert zero < |REMAINDER| && PanicsAt(REMAINDER, [true, true], zero);
    PanicsIff(REMAINDER, [true, true]);
  }

  lemma NoTupleAfterFold(instrs: seq<Instr>, flags: seq<bool>, cpu: Cpu, v: I64)
    requires FoldsHere(instrs, flags) && RunAll(instrs, cpu).Some? && NegatesNoTuple(instrs, cpu)
    requires ConstOf(instrs[0]).Some? && ConstOf(instrs[1]).Some?
    requires FoldIntBinop(instrs[2].op, ConstOf(instrs[0]).value, ConstOf(instrs[1]).value) == Folded(v)
    ensures NegatesNoTuple(instrs[3..], cpu.(stack := cpu.stack + [Int(v)]))
  {
    RunLoad(instrs[0], cpu);
    var c1 := RunOne(instrs[0], cpu).value;
    assert instrs[1..][0] == instrs[1] && instrs[1..][1..] == instrs[2..];
    assert instrs[2..][0] == instrs[2] && instrs[2..][1..] == instrs[3..];
    RunLoad(instrs[1], c1);
    var c2 := RunOne(instrs[1], c1).value;
    assert NegatesNoTuple(instrs[1..], c1) && RunAll(instrs[1..], c1).Some?;
    assert NegatesNoTuple(instrs[2..], c2) && RunAll(instrs[2..], c2).Some?;
    assert Pop(Pop(c2.stack)) == cpu.stack;
    assert RunOne(instrs[2], c2) == Some(cpu.(stack := cpu.stack + [Int(v)]));
  }

  /** On the machine: the code the pass leaves in place of a straight-line stretch
      takes it from the same stack, locals and memory to the same ones. */
  lemma OptimisedRunsSame(m: Module_, st: State, instrs: seq<Instr>, m': Module_, st': State, flags: seq<bool>)
    requires RunsNext(m, st, instrs) && RunAll(instrs, CpuOf(st)).Some? && NegatesNoTuple(instrs, CpuOf(st))
    requires forall k: nat :: k < |instrs| ==> !BadRemainder(instrs, flags, k)
    requires Pass(instrs, flags).Some? ==> RunsNext(m', st', Pass(instrs, flags).value) && CpuOf(st') == CpuOf(st)
    ensures Pass(instrs, flags).Some?
    ensures var out := Pass(instrs, flags).value;
      && Steps(m, st, |instrs|).Running? && Steps(m', st', |out|).Running?
      && Steps(m, st, |instrs|).st.frames != [] && Steps(m', st', |out|).st.frames != []
      && CpuOf(Steps(m, st, |instrs|).st) == CpuOf(Steps(m', st', |out|).st)
  {
    hide Step, RunOne, Encode;
    PassPreserves(instrs, flags, CpuOf(st));
    EncodedRuns(m, st, instrs);
    EncodedRuns(m', st', Pass(instrs, flags).value);
  }

  // ----- when the pass changes nothing -----

  predicate NegatedTwice(instrs: seq<Instr>, k: nat) {
    k + 1 < |instrs| && instrs[k].op == OP_NEG && instrs[k + 1].op == OP_NEG
  }

  /** The pass has something to do at k: two negations, or constants it can fold. */
  predicate ActsAt(instrs: seq<Instr>, flags: seq<bool>, k: nat) {
    NegatedTwice(instrs, k) || (FoldSite(instrs, flags, k) && FoldAt(instrs, flags, k).Folded?)
  }

  lemma ActsShift(instrs: seq<Instr>, flags: seq<bool>, d: nat, k: nat)
    requires d + k <= |instrs|
    ensures ActsAt(instrs, flags, d + k) <==> ActsAt(instrs[d..], FlagsAt(instrs, flags, d), k)
  {
    hide FlagsAt, ConstOf, FoldIntBinop, FoldsHere;
    SitesShift(instrs, flags, d, k);
    FoldsInside(instrs, FlagsAt(instrs, flags, d + k), d + k);
  }

  /** The pass never lengthens the code, and shortens it exactly if it acts somewhere. */
  lemma {:induction false} ShortensIff(instrs: seq<Instr>, flags: seq<bool>)
    requires Pass(instrs, flags).Some?
    ensures var out := Pass(instrs, flags).value;
      if exists k: nat :: k < |instrs| && ActsAt(instrs, flags, k)
      then |Encode(out)| < |Encode(instrs)| else out == instrs
    decreases |instrs|
  {
    hide Pass, FlagsAt, PanicsAt, FoldSite, FoldAt, FoldsHere, Encode, ActsAt;
    if instrs == [] {
      PassNothing(flags);
    } else {
      var d, out := Taken(instrs, flags), Pass(instrs, flags).value;
      PassStep(instrs, flags);
      var rest := Pass(instrs[d..], FlagsAt(instrs, flags, d)).value;
      ShortensIff(instrs[d..], FlagsAt(instrs, flags, d));
      ActsWhenTaken(instrs, flags);
      EncodeTaken(instrs, flags, rest);
      forall k: nat | 0 < k < |instrs|
        ensures d == 1 ==> (ActsAt(instrs, flags, k) <==> ActsAt(instrs[1..], FlagsAt(instrs, flags, 1), k - 1))
      {
        ActsShift(instrs, flags, 1, k - 1);
      }
      if d == 1 {
        assert forall k: nat :: k < |instrs[1..]| ==>
          (ActsAt(instrs[1..], FlagsAt(instrs, flags, 1), k) <==> ActsAt(instrs, flags, k + 1));
      }
    }
  }

  lemma ActsWhenTaken(instrs: seq<Instr>, flags: seq<bool>)
    requires instrs != []
    ensures ActsAt(instrs, flags, 0) <==> Taken(instrs, flags) > 1
  {
    hide FlagsAt, ConstOf, FoldIntBinop;
  }

  lemma EncodeCons(i: Instr, rest: seq<Instr>)
    ensures |Encode([i] + rest)| == 1 + |i.operand| + |Encode(rest)|
  {
    assert ([i] + rest)[1..] == rest;
  }

  /** The bytes taken at the head against the bytes written for them. */
  lemma EncodeTaken(instrs: seq<Instr>, flags: seq<bool>, rest: seq<Instr>)
    requires instrs != []
    ensures var d := Taken(instrs, flags);
      && (d == 1 ==> instrs == [instrs[0]] + instrs[1..] && |Encode(instrs)| == |Encode([instrs[0]] + instrs[1..])|)
      && (d == 1 ==> |Encode([instrs[0]] + rest)| - |Encode(rest)| == |Encode(instrs)| - |Encode(instrs[1..])|)
      && (d == 2 ==> |Encode(instrs)| > |Encode(instrs[2..])|)
      && (d == 3 ==>
            var folded := Instr(OP_LOAD_CONST, I64Bytes(FoldAt(instrs, flags, 0).v));
            |Encode(instrs)| - |Encode(instrs[3..])| > |Encode([folded] + rest)| - |Encode(rest)|)
  {
    hide Encode, FoldIntBinop, FlagsAt;
    var d := Taken(instrs, flags);
    assert instrs == [instrs[0]] + instrs[1..];
    EncodeCons(instrs[0], instrs[1..]);
    EncodeCons(instrs[0], rest);
    if d >= 2 {
      assert instrs[1..] == [instrs[1]] + instrs[2..];
      EncodeCons(instrs[1], instrs[2..]);
    }
    if d == 3 {
      assert instrs[2..] == [instrs[2]] + instrs[3..];
      EncodeCons(instrs[2], instrs[3..]);
      EncodeCons(Instr(OP_LOAD_CONST, I64Bytes(FoldAt(instrs, flags, 0).v)), rest);
    }
  }

  /** On a fixed-width stream with whole constants and defined remainders, the pass leaves
      the bytes alone exactly if no two neighbouring instructions, as decoded, are both
      negations and no flagged constants can be folded. */
  lemma BytesKeptIff(bc: seq<U8>, flags: seq<bool>)
    requires FixedWidth(bc) && forall k: nat :: k < |Decode(bc)| ==> !PanicsAt(Decode(bc), flags, k)
    ensures Pass(Decode(bc), flags).Some?
    ensures Encode(Pass(Decode(bc), flags).value) == bc
      <==> forall k: nat :: k < |Decode(bc)| ==> !ActsAt(Decode(bc), flags, k)
  {
    hide Pass, Decode, Encode, PanicsAt, ActsAt, FixedWidth;
    PanicsIff(Decode(bc), flags);
    ShortensIff(Decode(bc), flags);
    EncodeDecode(bc);
  }

  /** Without flags only negations count. */
  lemma UnflaggedActs(instrs: seq<Instr>, k: nat)
    ensures ActsAt(instrs, [], k) <==> NegatedTwice(instrs, k)
  {
    hide ConstOf, FoldIntBinop;
  }

  lemma UnflaggedPanics(instrs: seq<Instr>, k: nat)
    ensures PanicsAt(instrs, [], k) <==> TruncatedLoad(instrs, k)
  {
    hide ConstOf, Divides;
  }

  /** Without flags, a fixed-width stream with whole constants is left alone exactly if no
      two neighbouring instructions, as decoded, are both negations. */
  lemma UnflaggedKeptIff(bc: seq<U8>)
    requires FixedWidth(bc) && forall k: nat :: k < |Decode(bc)| ==> !TruncatedLoad(Decode(bc), k)
    ensures Pass(Decode(bc), []).Some?
    ensures Encode(Pass(Decode(bc), []).value) == bc
      <==> forall k: nat :: k < |Decode(bc)| ==> !NegatedTwice(Decode(bc), k)
  {
    hide Pass, Decode, Encode, PanicsAt, ActsAt, FixedWidth, NegatedTwice, TruncatedLoad;
    var instrs := Decode(bc);
    forall k: nat | k < |instrs| ensures !PanicsAt(instrs, [], k) { UnflaggedPanics(instrs, k); }
    forall k: nat | k < |instrs| ensures ActsAt(instrs, [], k) <==> NegatedTwice(instrs, k) {
      UnflaggedActs(instrs, k);
    }
    BytesKeptIff(bc, []);
  }

  // ----- decoding and encoding again -----

  /** Operand bytes the decoder takes for the opcodes of one fixed width. */
  function Width(op: U8): nat {
    if op == OP_LOAD_CONST then 8
    else if op == 0x16 || op == 0x17 || op == 0x1A || op == 0x19 || op == 0x1F || op == 0x1E then 4
    else if op == 0x1C then 1
    else 0
  }

  /** AGGREGATE, CALL, CALL_INDIRECT and SWITCH_INT. */
  predicate Variable(op: U8) { op == 0x1D || op == 0x1B || op == 0x22 || op == 0x20 }

  function Take(bc: seq<U8>, i: nat, n: nat): seq<U8>
    requires i <= |bc|
  {
    if i + n <= |bc| then bc[i..i + n] else bc[i..]
  }

  /** The operand of ASSERT is taken as one byte and four bytes, both from its start. */
  function OperandAt(bc: seq<U8>, i: nat, op: U8): seq<U8>
    requires i <= |bc|
  {
    if op == OP_ASSERT then Take(bc, i, 1) + Take(bc, i, 4) else Take(bc, i, Width(op))
  }

  function Decode(bc: seq<U8>): seq<Instr>
    decreases |bc|
  {
    if bc == [] then [] else
    var operand := OperandAt(bc, 1, bc[0]);
    [Instr(bc[0], operand)] + (if 1 + |operand| >= |bc| then [] else Decode(bc[1 + |operand|..]))
  }

  /** No opcode met while decoding is ASSERT or of variable length. */
  predicate FixedWidth(bc: seq<U8>)
    decreases |bc|
  {
    bc != [] ==>
      && bc[0] != OP_ASSERT && !Variable(bc[0])
      && var n := 1 + |OperandAt(bc, 1, bc[0])|; (n >= |bc| || FixedWidth(bc[n..]))
  }

  lemma OperandIsSlice(bc: seq<U8>)
    requires bc != [] && bc[0] != OP_ASSERT
    ensures var n := 1 + |OperandAt(bc, 1, bc[0])|;
      n <= |bc| && bc == [bc[0]] + OperandAt(bc, 1, bc[0]) + bc[n..]
  {
  }

  /** On fixed-width streams, truncated or not, encoding undoes decoding. */
  lemma {:induction false} EncodeDecode(bc: seq<U8>)
    requires FixedWidth(bc)
    ensures Encode(Decode(bc)) == bc
    decreases |bc|
  {
    hide OperandAt, Variable;
    if bc != [] {
      var operand := OperandAt(bc, 1, bc[0]);
      var n := 1 + |operand|;
      OperandIsSlice(bc);
      var rest := if n >= |bc| then [] else Decode(bc[n..]);
      if n < |bc| { EncodeDecode(bc[n..]); }
      assert Encode(rest) == bc[n..];
      assert Decode(bc) == [Instr(bc[0], operand)] + rest && Decode(bc)[1..] == rest;
    }
  }

  /** An ASSERT survives decoding and encoding only if every byte of its target equals
      its expected byte; any other target is corrupted even without an optimisation. */
  lemma AssertReencoded(expected: U8, target: seq<U8>)
    requires |target| == 4
    ensures var bc := [OP_ASSERT, expected] + target;
      Encode(Decode(bc)) == bc <==> forall k :: 0 <= k < 4 ==> target[k] == expected
  {
    var bc := [OP_ASSERT, expected] + target;
    var operand := [expected, expected, target[0], target[1], target[2]];
    assert Take(bc, 1, 1) == [expected] && Take(bc, 1, 4) == [expected, target[0], target[1], target[2]];
    assert OperandAt(bc, 1, OP_ASSERT) == operand;
    assert Decode(bc) == [Instr(OP_ASSERT, operand)];
    assert Decode(bc)[1..] == [];
    assert Encode(Decode(bc)) == [OP_ASSERT] + operand;
    assert bc == [OP_ASSERT, expected, target[0], target[1], target[2], target[3]];
  }

  lemma DecodeBare(op: U8, rest: seq<U8>)
    requires Width(op) == 0 && op != OP_ASSERT
    ensures Decode([op] + rest) == [Instr(op, [])] + Decode(rest)
  {
    var bc := [op] + rest;
    assert bc[1..] == rest && Take(bc, 1, 0) == [];
    assert rest == [] ==> Decode(rest) == [];
  }

  lemma PassKeeps(i: Instr, rest: seq<Instr>)
    requires i.op != OP_LOAD_CONST && i.op != OP_NEG && Pass(rest, []).Some?
    ensures Pass([i] + rest, []) == Some([i] + Pass(rest, []).value)
  {
    assert ([i] + rest)[1..] == rest;
  }

  lemma PassCancels(a: Instr, b: Instr, rest: seq<Instr>)
    requires a.op == OP_NEG && b.op == OP_NEG
    ensures Pass([a, b] + rest, []) == Pass(rest, [])
  {
    assert ([a, b] + rest)[2..] == rest;
  }

  lemma EncodeBare(op: U8, rest: seq<Instr>)
    ensures Encode([Instr(op, [])] + rest) == [op] + Encode(rest)
  {
    assert ([Instr(op, [])] + rest)[1..] == rest;
  }

  lemma DecodeEmpty()
    ensures Decode([]) == [] && Pass([], []) == Some([]) && Encode([]) == []
  {
  }

  lemma AddressBytes()
    ensures U32Bytes(0x1010) == [0x10, 0x10, 0x00, 0x00]
  {
    assert U32Bytes(0x1010) == [0x10] + ToBytes(0x10, 3) && ToBytes(0x10, 3) == [0x10] + ToBytes(0, 2);
    assert ToBytes(0, 2) == [0] + ToBytes(0, 1) && ToBytes(0, 1) == [0] + [];
  }

  lemma AddressDecoded()
    ensures Decode([0x29, 0x10, 0x10, 0x00, 0x00])
      == [Instr(0x29, []), Instr(OP_NEG, []), Instr(OP_NEG, []), Instr(0x00, []), Instr(0x00, [])]
  {
    hide Decode;
    DecodeEmpty();
    DecodeBare(0x00, []);
    DecodeBare(0x00, [0x00]);
    DecodeBare(0x10, [0x00, 0x00]);
    DecodeBare(0x10, [0x10, 0x00, 0x00]);
    DecodeBare(0x29, [0x10, 0x10, 0x00, 0x00]);
    var z, neg, addr := Instr(0x00, []), Instr(OP_NEG, []), Instr(0x29, []);
    assert [0x00] + [] == [0x00] && [z] + [] == [z];
    assert [0x00] + [0x00] == [0x00, 0x00] && [z] + [z] == [z, z];
    assert [0x10] + [0x00, 0x00] == [0x10, 0x00, 0x00] && [neg] + [z, z] == [neg, z, z];
    assert [0x10] + [0x10, 0x00, 0x00] == [0x10, 0x10, 0x00, 0x00] && [neg] + [neg, z, z] == [neg, neg, z, z];
    assert [0x29] + [0x10, 0x10, 0x00, 0x00] == [0x29, 0x10, 0x10, 0x00, 0x00];
    assert [addr] + [neg, neg, z, z] == [addr, neg, neg, z, z];
  }

  lemma AddressPassed()
    ensures Pass([Instr(0x29, []), Instr(OP_NEG, []), Instr(OP_NEG, []), Instr(0x00, []), Instr(0x00, [])], [])
      == Some([Instr(0x29, []), Instr(0x00, []), Instr(0x00, [])])
  {
    hide Pass;
    var z, neg, addr := Instr(0x00, []), Instr(OP_NEG, []), Instr(0x29, []);
    DecodeEmpty();
    PassKeeps(z, []);
    assert [z] + [] == [z];
    PassKeeps(z, [z]);
    assert [z] + [z] == [z, z];
    PassCancels(neg, neg, [z, z]);
    assert [neg, neg] + [z, z] == [neg, neg, z, z];
    PassKeeps(addr, [neg, neg, z, z]);
    assert [addr] + [neg, neg, z, z] == [addr, neg, neg, z, z] && [addr] + [z, z] == [addr, z, z];
  }

  /** LOAD_LOCAL_ADDR is decoded without its operand, so the pass takes the bytes of
      local 0x1010 for two negations and deletes them. */
  lemma AddressOperandDeleted()
    ensures var bc := [0x29] + U32Bytes(0x1010);
      Pass(Decode(bc), []).Some? && Encode(Pass(Decode(bc), []).value) == [0x29, 0x00, 0x00]
  {
    hide Decode, Pass, Encode;
    AddressBytes();
    AddressDecoded();
    AddressPassed();
    assert [0x29] + U32Bytes(0x1010) == [0x29, 0x10, 0x10, 0x00, 0x00];
    var z := Instr(0x00, []);
    DecodeEmpty();
    EncodeBare(0x00, []);
    assert [z] + [] == [z] && [0x00] + [] == [0x00];
    EncodeBare(0x00, [z]);
    assert [z] + [z] == [z, z] && [0x00] + [0x00] == [0x00, 0x00];
    EncodeBare(0x29, [z, z]);
    assert [Instr(0x29, [])] + [z, z] == [Instr(0x29, []), z, z];
    assert [0x29] + [0x00, 0x00] == [0x29, 0x00, 0x00];
  }
}

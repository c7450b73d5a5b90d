/** Tables of bit sets of one fixed capacity, the termination measure every worklist
    over such tables uses (the number of bits still unset), and the worklist itself. */
module Bits {

  ghost predicate Below(s: set<nat>, cap: nat) {
    forall x :: x in s ==> x < cap
  }

  ghost predicate AllBelow(t: seq<set<nat>>, cap: nat) {
    forall i :: 0 <= i < |t| ==> Below(t[i], cap)
  }

  function Missing(t: seq<set<nat>>, cap: nat): int {
    if t == [] then 0 else cap - |t[0]| + Missing(t[1..], cap)
  }

  lemma {:induction false} CardinalityBelow(s: set<nat>, cap: nat)
    requires Below(s, cap)
    ensures |s| <= cap
  {
    if cap == 0 {
      assert s == {};
    } else {
      CardinalityBelow(s - {cap - 1}, cap - 1);
      assert s <= (s - {cap - 1}) + {cap - 1};
      if cap - 1 in s { assert s == (s - {cap - 1}) + {cap - 1}; } else { assert s == s - {cap - 1}; }
    }
  }

  lemma ProperSubsetSmaller(a: set<nat>, b: set<nat>)
    requires a <= b
    ensures |a| <= |b| && (a != b ==> |a| < |b|)
  {
    assert b == a + (b - a);
  }

  lemma {:induction false} MissingNonNegative(t: seq<set<nat>>, cap: nat)
    requires AllBelow(t, cap)
    ensures Missing(t, cap) >= 0
  {
    if t != [] {
      CardinalityBelow(t[0], cap);
      MissingNonNegative(t[1..], cap);
    }
  }

  /** Growing one row never adds unset bits, and removes one if the row changed. */
  lemma {:induction false} MissingShrinks(t: seq<set<nat>>, i: nat, s: set<nat>, cap: nat)
    requires i < |t| && t[i] <= s
    ensures Missing(t[i := s], cap) <= Missing(t, cap)
    ensures t[i] != s ==> Missing(t[i := s], cap) < Missing(t, cap)
  {
    if i == 0 {
      ProperSubsetSmaller(t[0], s);
      assert t[0 := s][1..] == t[1..];
    } else {
      MissingShrinks(t[1..], i - 1, s, cap);
      assert t[i := s][1..] == t[1..][i - 1 := s];
    }
  }

  /** The worklist holds blocks of the body, none twice, and the bit set mirrors it. */
  ghost predicate IsQueue(worklist: seq<nat>, inWorklist: set<nat>, n: nat) {
    && (forall b: nat :: b in worklist <==> b in inWorklist)
    && (forall b: nat :: b in inWorklist ==> b < n)
    && (forall i: nat, j: nat :: i < j < |worklist| ==> worklist[i] != worklist[j])
  }

  /** The worklist every analysis starts from: all blocks, in order. */
  method AllBlocks(n: nat) returns (worklist: seq<nat>, inWorklist: set<nat>)
    ensures IsQueue(worklist, inWorklist, n) && forall b: nat :: b < n ==> b in inWorklist
  {
    worklist, inWorklist := [], {};
    for i := 0 to n
      invariant IsQueue(worklist, inWorklist, n)
      invariant forall b: nat :: b in inWorklist <==> b < i
    {
      worklist, inWorklist := worklist + [i], inWorklist + {i};
    }
  }

  method Pop(worklist: seq<nat>, inWorklist: set<nat>, n: nat)
    returns (b: nat, worklist': seq<nat>, inWorklist': set<nat>)
    requires worklist != [] && IsQueue(worklist, inWorklist, n)
    ensures b in inWorklist && b < n
    ensures IsQueue(worklist', inWorklist', n) && |worklist'| < |worklist|
    ensures inWorklist' == inWorklist - {b} && inWorklist == inWorklist' + {b}
  {
    b := worklist[|worklist| - 1];
    assert b in worklist;
    worklist' := worklist[..|worklist| - 1];
    inWorklist' := inWorklist - {b};
  }

  /** Pushes the blocks that are not queued yet. */
  method Enqueue(bs: seq<nat>, worklist: seq<nat>, inWorklist: set<nat>, n: nat)
    returns (worklist': seq<nat>, inWorklist': set<nat>)
    requires IsQueue(worklist, inWorklist, n)
    requires forall b: nat :: b in bs ==> b < n
    ensures IsQueue(worklist', inWorklist', n)
    ensures forall b: nat :: b in inWorklist' <==> b in inWorklist || b in bs
  {
    worklist', inWorklist' := worklist, inWorklist;
    for k := 0 to |bs|
      invariant IsQueue(worklist', inWorklist', n)
      invariant forall b: nat :: b in inWorklist' <==> b in inWorklist || b in bs[..k]
    {
      assert bs[..k + 1] == bs[..k] + [bs[k]] && bs[k] in bs;
      if bs[k] !in inWorklist' {
        inWorklist' := inWorklist' + {bs[k]};
        worklist' := worklist' + [bs[k]];
      }
    }
    assert bs[..|bs|] == bs;
  }
}

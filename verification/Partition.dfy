/** Codegen unit partitioning (crates/glyim-lower/src/partition.rs). An item is
    represented by the module it comes from. */
module Partition {
  type Group = seq<nat>

  ghost predicate Ascending(s: seq<nat>) {
    forall i: nat, j: nat :: i < j < |s| ==> s[i] < s[j]
  }

  // ----- sorting -----

  function Insert(x: nat, s: seq<nat>): seq<nat> {
    if s == [] || x <= s[0] then [x] + s else [s[0]] + Insert(x, s[1..])
  }

  /** The sorted rearrangement. */
  function Sort(s: seq<nat>): seq<nat> {
    if s == [] then [] else Insert(s[|s| - 1], Sort(s[..|s| - 1]))
  }

  lemma {:induction false} InsertHas(x: nat, s: seq<nat>, y: nat)
    ensures y in Insert(x, s) <==> y == x || y in s
  {
    if s != [] && x > s[0] {
      InsertHas(x, s[1..], y);
      assert s == [s[0]] + s[1..];
    }
  }

  lemma {:induction false} InsertAscending(x: nat, s: seq<nat>)
    requires Ascending(s) && x !in s
    ensures Ascending(Insert(x, s))
  {
    if s != [] && x > s[0] {
      var rest, r := s[1..], Insert(x, s[1..]);
      InsertAscending(x, rest);
      forall i: nat | i < |r| ensures s[0] < r[i] {
        InsertHas(x, rest, r[i]);
        assert r[i] in r;
      }
    }
  }

  lemma {:induction false} SortHas(s: seq<nat>, y: nat)
    ensures y in Sort(s) <==> y in s
  {
    if s != [] {
      SortHas(s[..|s| - 1], y);
      InsertHas(s[|s| - 1], Sort(s[..|s| - 1]), y);
      assert s == s[..|s| - 1] + [s[|s| - 1]];
    }
  }

  /** Without duplicates, sorting gives strictly ascending numbers. */
  lemma {:induction false} SortAscending(s: seq<nat>)
    requires forall i: nat, j: nat :: i < j < |s| ==> s[i] != s[j]
    ensures Ascending(Sort(s))
  {
    if s != [] {
      var init, x := s[..|s| - 1], s[|s| - 1];
      SortAscending(init);
      SortHas(init, x);
      InsertAscending(x, Sort(init));
    }
  }

  /** Sorting what ascends changes nothing. */
  lemma {:induction false} SortSorted(s: seq<nat>)
    requires Ascending(s)
    ensures Sort(s) == s
  {
    if s != [] {
      var init := s[..|s| - 1];
      SortSorted(init);
      InsertLast(s[|s| - 1], init);
      assert s == init + [s[|s| - 1]];
    }
  }

  lemma {:induction false} InsertLast(x: nat, s: seq<nat>)
    requires Ascending(s) && forall i: nat :: i < |s| ==> s[i] < x
    ensures Insert(x, s) == s + [x]
  {
    if s != [] {
      InsertLast(x, s[1..]);
      assert s == [s[0]] + s[1..];
    }
  }

  // ----- grouping by module -----

  /** The indices below n of the items of one module. */
  function OfModule(modules: seq<nat>, m: nat, n: nat): Group
    requires n <= |modules|
  {
    if n == 0 then [] else OfModule(modules, m, n - 1) + if modules[n - 1] == m then [n - 1] else []
  }

  /** The modules of the first n items, in ascending order. */
  function Keys(modules: seq<nat>, n: nat): seq<nat>
    requires n <= |modules|
  {
    if n == 0 then [] else
    var ks := Keys(modules, n - 1);
    if modules[n - 1] in ks then ks else Insert(modules[n - 1], ks)
  }

  function GroupsOf(modules: seq<nat>): seq<Group> {
    var ks := Keys(modules, |modules|);
    seq(|ks|, k requires 0 <= k < |ks| => OfModule(modules, ks[k], |modules|))
  }

  lemma {:induction false} OfModuleIs(modules: seq<nat>, m: nat, n: nat)
    requires n <= |modules|
    ensures Ascending(OfModule(modules, m, n))
    ensures forall i: nat :: i in OfModule(modules, m, n) <==> i < n && modules[i] == m
  {
    if n > 0 {
      OfModuleIs(modules, m, n - 1);
      var init := OfModule(modules, m, n - 1);
      assert forall i: nat :: i < |init| ==> init[i] in init;
    }
  }

  lemma {:induction false} KeysAre(modules: seq<nat>, n: nat)
    requires n <= |modules|
    ensures Ascending(Keys(modules, n))
    ensures forall m: nat :: m in Keys(modules, n) <==> exists i: nat :: i < n && modules[i] == m
  {
    if n > 0 {
      KeysAre(modules, n - 1);
      var ks, m := Keys(modules, n - 1), modules[n - 1];
      forall y: nat ensures y in Insert(m, ks) <==> y == m || y in ks { InsertHas(m, ks, y); }
      if m !in ks { InsertAscending(m, ks); }
    }
  }

  // ----- merging -----

  /** The first of the smallest groups. */
  function Smallest(gs: seq<Group>): (r: nat)
    requires gs != []
    ensures r < |gs|
    ensures forall k: nat :: k < |gs| ==> |gs[r]| <= |gs[k]| && (k < r ==> |gs[r]| < |gs[k]|)
  {
    if |gs| == 1 then 0 else
    var r := Smallest(gs[..|gs| - 1]);
    if |gs[|gs| - 1]| < |gs[r]| then |gs| - 1 else r
  }

  /** The last of the largest groups. */
  function Largest(gs: seq<Group>): (r: nat)
    requires gs != []
    ensures r < |gs|
    ensures forall k: nat :: k < |gs| ==> |gs[k]| <= |gs[r]| && (k > r ==> |gs[k]| < |gs[r]|)
  {
    if |gs| == 1 then 0 else
    var r := Largest(gs[..|gs| - 1]);
    if |gs[|gs| - 1]| >= |gs[r]| then |gs| - 1 else r
  }

  function Remove(gs: seq<Group>, a: nat): (r: seq<Group>)
    requires a < |gs|
    ensures |r| == |gs| - 1
  {
    gs[..a] + gs[a + 1..]
  }

  /** Where group b ends up once group a is gone. */
  function Shift(a: nat, b: nat): nat
    requires a != b
  {
    if b > a then b - 1 else b
  }

  /** Group a moved into group b. */
  function Merge(gs: seq<Group>, a: nat, b: nat): (r: seq<Group>)
    requires a < |gs| && b < |gs| && a != b
    ensures |r| == |gs| - 1
  {
    var rest, t := Remove(gs, a), Shift(a, b);
    rest[t := Sort(rest[t] + gs[a])]
  }

  /** The only group that is both smallest and largest is a single one. */
  lemma OneGroup(gs: seq<Group>)
    requires gs != []
    ensures Smallest(gs) == Largest(gs) <==> |gs| == 1
  {
  }

  function MergeDown(gs: seq<Group>, max: nat): seq<Group>
    decreases |gs|
  {
    if |gs| <= max || |gs| <= 1 then gs else
    OneGroup(gs);
    MergeDown(Merge(gs, Smallest(gs), Largest(gs)), max)
  }

  // ----- the partitioner -----

  /** Adds an index to the group of its key, creating the group in key order. */
  method AddTo(keys: seq<nat>, groups: seq<Group>, key: nat, idx: nat) returns (keys': seq<nat>, groups': seq<Group>)
    requires |keys| == |groups| && Ascending(keys)
    ensures Added(key, idx, keys, groups, keys', groups')
  {
    var p := 0;
    while p < |keys| && keys[p] < key
      invariant p <= |keys| && forall k: nat :: k < p ==> keys[k] < key
    {
      p := p + 1;
    }
    if p < |keys| && keys[p] == key {
      keys', groups' := keys, groups[p := groups[p] + [idx]];
    } else {
      keys', groups' := keys[..p] + [key] + keys[p..], groups[..p] + [[idx]] + groups[p..];
      InsertAt(key, keys, p);
      assert key !in keys;
    }
  }

  lemma {:induction false} InsertAt(x: nat, s: seq<nat>, p: nat)
    requires p <= |s| && (forall k: nat :: k < p ==> s[k] < x) && (p < |s| ==> x <= s[p])
    ensures Insert(x, s) == s[..p] + [x] + s[p..]
  {
    if p > 0 {
      InsertAt(x, s[1..], p - 1);
      assert s[..p] == [s[0]] + s[1..][..p - 1] && s[1..][p - 1..] == s[p..];
    }
  }

  /** What is collected after the first i items. */
  ghost predicate Collected(modules: seq<nat>, i: nat, keys: seq<nat>, groups: seq<Group>) {
    && i <= |modules| && |keys| == |groups| && keys == Keys(modules, i)
    && forall k: nat :: k < |keys| ==> groups[k] == OfModule(modules, keys[k], i)
  }

  /** What adding index i to the group of its module does. */
  ghost predicate Added(m: nat, i: nat, ks: seq<nat>, gs: seq<Group>, keys: seq<nat>, groups: seq<Group>) {
    && |ks| == |gs| && |keys| == |groups| && keys == (if m in ks then ks else Insert(m, ks))
    && (forall k: nat :: k < |keys| && keys[k] == m && m in ks ==> k < |gs| && groups[k] == gs[k] + [i])
    && (forall k: nat :: k < |keys| && keys[k] == m && m !in ks ==> groups[k] == [i])
    && (forall k: nat, j: nat :: k < |keys| && j < |ks| && keys[k] == ks[j] != m ==> groups[k] == gs[j])
  }

  lemma AddedCollects(modules: seq<nat>, i: nat, ks: seq<nat>, gs: seq<Group>, keys: seq<nat>, groups: seq<Group>)
    requires i < |modules| && Collected(modules, i, ks, gs) && Added(modules[i], i, ks, gs, keys, groups)
    ensures Collected(modules, i + 1, keys, groups)
  {
    hide Insert;
    var m := modules[i];
    KeysAre(modules, i);
    forall k: nat | k < |keys| ensures groups[k] == OfModule(modules, keys[k], i + 1) {
      if keys[k] != m {
        InsertHas(m, ks, keys[k]);
        assert keys[k] in keys;
        var j: nat :| j < |ks| && ks[j] == keys[k];
      } else if m !in ks {
        NoneOfModule(modules, m, i);
      }
    }
  }

  /** One group per module, in the order of the modules. */
  method GroupByModule(modules: seq<nat>) returns (groups: seq<Group>)
    ensures groups == GroupsOf(modules)
  {
    hide Added;
    var keys: seq<nat> := [];
    groups := [];
    for i := 0 to |modules|
      invariant Collected(modules, i, keys, groups)
    {
      KeysAre(modules, i);
      ghost var ks, gs := keys, groups;
      keys, groups := AddTo(keys, groups, modules[i], i);
      AddedCollects(modules, i, ks, gs, keys, groups);
    }
  }

  lemma {:induction false} NoneOfModule(modules: seq<nat>, m: nat, n: nat)
    requires n <= |modules| && forall i: nat :: i < n ==> modules[i] != m
    ensures OfModule(modules, m, n) == []
  {
    if n > 0 { NoneOfModule(modules, m, n - 1); }
  }

  /** Sorts every group; they are sorted already. */
  method SortGroups(modules: seq<nat>, byModule: seq<Group>) returns (groups: seq<Group>)
    requires byModule == GroupsOf(modules)
    ensures groups == byModule
  {
    hide Sort;
    groups := [];
    for k := 0 to |byModule|
      invariant groups == byModule[..k]
    {
      OfModuleIs(modules, Keys(modules, |modules|)[k], |modules|);
      SortSorted(byModule[k]);
      groups := groups + [Sort(byModule[k])];
    }
  }

  /** Moves the smallest group into the largest. */
  method MergeOnce(groups: seq<Group>) returns (merged: seq<Group>, stuck: bool)
    requires groups != []
    ensures stuck <==> |groups| == 1
    ensures merged == if stuck then groups else (OneGroup(groups); Merge(groups, Smallest(groups), Largest(groups)))
  {
    hide Sort, Smallest, Largest;
    OneGroup(groups);
    var smallest := FindSmallest(groups);
    var largest := FindLargest(groups);
    if smallest == largest { return groups, true; }
    var moved := groups[smallest];
    merged := groups[..smallest] + groups[smallest + 1..];
    var target := if largest > smallest then largest - 1 else largest;
    merged, stuck := merged[target := Sort(merged[target] + moved)], false;
  }

  /** Partitions items, given by their modules, into at most maxCgus groups, or one. */
  method Partition(modules: seq<nat>, maxCgus: nat) returns (groups: seq<Group>)
    ensures groups == MergeDown(GroupsOf(modules), maxCgus)
  {
    hide GroupsOf, Merge, Smallest, Largest;
    if modules == [] {
      NoGroups();
      return [];
    }
    var byModule := GroupByModule(modules);
    groups := SortGroups(modules, byModule);
    while |groups| > maxCgus
      invariant MergeDown(groups, maxCgus) == MergeDown(GroupsOf(modules), maxCgus)
      decreases |groups|
    {
      var merged, stuck := MergeOnce(groups);
      if stuck { break; }
      OneGroup(groups);
      groups := merged;
    }
  }

  lemma NoGroups()
    ensures GroupsOf([]) == []
  {
  }

  method FindSmallest(gs: seq<Group>) returns (r: nat)
    requires gs != []
    ensures r == Smallest(gs)
  {
    r := 0;
    for k := 1 to |gs|
      invariant r == Smallest(gs[..k])
    {
      assert gs[..k + 1][..k] == gs[..k];
      if |gs[k]| < |gs[r]| { r := k; }
    }
    assert gs[..|gs|] == gs;
  }

  method FindLargest(gs: seq<Group>) returns (r: nat)
    requires gs != []
    ensures r == Largest(gs)
  {
    r := 0;
    for k := 1 to |gs|
      invariant r == Largest(gs[..k])
    {
      assert gs[..k + 1][..k] == gs[..k];
      if |gs[k]| >= |gs[r]| { r := k; }
    }
    assert gs[..|gs|] == gs;
  }

  // ----- what a partition is -----

  ghost predicate GroupOk(modules: seq<nat>, g: Group) {
    && g != [] && Ascending(g) && (forall i: nat :: i in g ==> i < |modules|)
    && forall i: nat, j: nat :: i in g && i < |modules| && j < |modules| && modules[i] == modules[j] ==> j in g
  }

  /** Non-empty ascending groups that hold every item exactly once and no module in part. */
  ghost predicate IsPartition(modules: seq<nat>, gs: seq<Group>) {
    && (forall g: nat :: g < |gs| ==> GroupOk(modules, gs[g]))
    && (forall i: nat :: i < |modules| ==> Grouped(gs, i))
    && (forall g: nat, h: nat :: g < h < |gs| ==> Disjoint(gs[g], gs[h]))
  }

  ghost predicate Grouped(gs: seq<Group>, i: nat) {
    exists g: nat :: g < |gs| && i in gs[g]
  }

  ghost predicate Disjoint(g: Group, h: Group) {
    forall i: nat :: i in g ==> i !in h
  }

  /** Which group of gs the k-th group was before group a was removed. */
  function Before(a: nat, k: nat): nat { if k < a then k else k + 1 }

  lemma MergeAt(gs: seq<Group>, a: nat, b: nat, k: nat)
    requires a < |gs| && b < |gs| && a != b && k < |gs| - 1
    ensures Before(a, Shift(a, b)) == b
    ensures Merge(gs, a, b)[k] == if k == Shift(a, b) then Sort(gs[b] + gs[a]) else gs[Before(a, k)]
  {
  }

  lemma MergedGroup(modules: seq<nat>, g: Group, h: Group)
    requires GroupOk(modules, g) && GroupOk(modules, h) && Disjoint(g, h)
    ensures GroupOk(modules, Sort(g + h)) && forall i: nat :: i in Sort(g + h) <==> i in g || i in h
  {
    var s := g + h;
    forall i: nat ensures i in Sort(s) <==> i in s { SortHas(s, i); }
    forall i: nat, j: nat | i < j < |s| ensures s[i] != s[j] {
      if i < |g| <= j { assert s[i] in g && s[j] in h; }
    }
    SortAscending(s);
    assert s[0] in s;
    if Sort(s) == [] { SortHas(s, s[0]); }
  }

  lemma DisjointSymmetric(gs: seq<Group>, modules: seq<nat>, g: nat, h: nat)
    requires IsPartition(modules, gs) && g < |gs| && h < |gs| && g != h
    ensures Disjoint(gs[g], gs[h])
  {
    if g < h { assert Disjoint(gs[g], gs[h]); } else { assert Disjoint(gs[h], gs[g]); }
  }

  lemma MergeKeeps(modules: seq<nat>, gs: seq<Group>, a: nat, b: nat)
    requires IsPartition(modules, gs) && a < |gs| && b < |gs| && a != b
    ensures IsPartition(modules, Merge(gs, a, b))
  {
    hide GroupOk, Merge;
    var ms, t := Merge(gs, a, b), Shift(a, b);
    DisjointSymmetric(gs, modules, b, a);
    MergedGroup(modules, gs[b], gs[a]);
    forall k: nat | k < |ms| ensures GroupOk(modules, ms[k]) { MergeAt(gs, a, b, k); }
    forall i: nat | i < |modules| ensures Grouped(ms, i) { StillGrouped(modules, gs, a, b, i); }
    forall k: nat, l: nat | k < l < |ms| ensures Disjoint(ms[k], ms[l]) { StillDisjoint(modules, gs, a, b, k, l); }
  }

  lemma StillGrouped(modules: seq<nat>, gs: seq<Group>, a: nat, b: nat, i: nat)
    requires a < |gs| && b < |gs| && a != b && Grouped(gs, i)
    ensures Grouped(Merge(gs, a, b), i)
  {
    hide Merge;
    var g: nat :| g < |gs| && i in gs[g];
    var k := if g == a then Shift(a, b) else Shift(a, g);
    MergeAt(gs, a, b, k);
    SortHas(gs[b] + gs[a], i);
    assert i in Merge(gs, a, b)[k];
  }

  lemma StillDisjoint(modules: seq<nat>, gs: seq<Group>, a: nat, b: nat, k: nat, l: nat)
    requires IsPartition(modules, gs) && a < |gs| && b < |gs| && a != b && k < l < |gs| - 1
    ensures Disjoint(Merge(gs, a, b)[k], Merge(gs, a, b)[l])
  {
    hide Merge, GroupOk;
    MergeAt(gs, a, b, k);
    MergeAt(gs, a, b, l);
    var g, h := Before(a, k), Before(a, l);
    DisjointSymmetric(gs, modules, g, h);
    DisjointSymmetric(gs, modules, a, g);
    DisjointSymmetric(gs, modules, a, h);
    forall i: nat ensures i in Sort(gs[b] + gs[a]) <==> i in gs[b] || i in gs[a] { SortHas(gs[b] + gs[a], i); }
  }

  lemma GroupsPartition(modules: seq<nat>)
    ensures IsPartition(modules, GroupsOf(modules))
  {
    var gs, ks, n := GroupsOf(modules), Keys(modules, |modules|), |modules|;
    KeysAre(modules, n);
    forall g: nat | g < |gs|
      ensures GroupOk(modules, gs[g]) && forall i: nat :: i in gs[g] <==> i < n && modules[i] == ks[g]
    {
      OfModuleIs(modules, ks[g], n);
      assert ks[g] in ks;
    }
    forall i: nat | i < n ensures Grouped(gs, i) {
      assert modules[i] in ks;
      var g: nat :| g < |ks| && ks[g] == modules[i];
      assert i in gs[g];
    }
    forall g: nat, h: nat | g < h < |gs| ensures Disjoint(gs[g], gs[h]) { }
  }

  lemma {:induction false} MergeDownPartition(modules: seq<nat>, gs: seq<Group>, max: nat)
    requires IsPartition(modules, gs)
    ensures IsPartition(modules, MergeDown(gs, max))
    ensures |MergeDown(gs, max)| == Min(|gs|, Max(1, max))
    decreases |gs|
  {
    hide IsPartition, Merge, Smallest, Largest;
    if |gs| > max && |gs| > 1 {
      OneGroup(gs);
      MergeKeeps(modules, gs, Smallest(gs), Largest(gs));
      MergeDownPartition(modules, Merge(gs, Smallest(gs), Largest(gs)), max);
    }
  }

  function Min(x: nat, y: nat): nat { if x < y then x else y }

  function Max(x: nat, y: nat): nat { if x < y then y else x }

  ghost function ModuleSet(modules: seq<nat>): set<nat> { set m | m in modules }

  lemma {:induction false} DistinctLength(s: seq<nat>)
    requires Ascending(s)
    ensures |ModuleSet(s)| == |s|
  {
    if s != [] {
      var init, x := s[..|s| - 1], s[|s| - 1];
      DistinctLength(init);
      assert ModuleSet(s) == ModuleSet(init) + {x};
    } else {
      assert ModuleSet(s) == {};
    }
  }

  /** For every list of items the result is a partition of their indices that splits no
      module, with as many groups as there are modules, up to the limit, which counts as
      one if it is none. */
  lemma PartitionExact(modules: seq<nat>, max: nat)
    ensures IsPartition(modules, MergeDown(GroupsOf(modules), max))
    ensures |MergeDown(GroupsOf(modules), max)| == Min(|ModuleSet(modules)|, Max(1, max))
  {
    hide MergeDown, IsPartition;
    GroupsPartition(modules);
    MergeDownPartition(modules, GroupsOf(modules), max);
    KeysAre(modules, |modules|);
    var ks := Keys(modules, |modules|);
    DistinctLength(ks);
    assert ModuleSet(ks) == ModuleSet(modules);
  }
}

/** The arena of move paths (move_analysis.rs, MovePathArena): a trie over places
    that lookups extend on demand. */
module MovePaths {
  import opened Mir

  datatype MovePath = MovePath(place: Place, parent: Option<nat>, children: seq<nat>)

  /** The arena as a value: its nodes, and the root node of each local. */
  datatype Arena = Arena(paths: seq<MovePath>, roots: seq<Option<nat>>)

  // ----- lookup as a function -----

  /** The element a step is tracked under: the length hint of a constant index is
      not part of its identity. */
  function Normal(e: Proj): Proj {
    if e.ConstantIndex? then ConstantIndex(e.offset, 0, e.indexFromEnd) else e
  }

  /** Steps that never leave the current path, and steps a lookup stops at. */
  predicate Skipped(e: Proj) { e.Index? }

  predicate Opaque(e: Proj) {
    e.Deref? || e.Subslice? || (e.ConstantIndex? && e.indexFromEnd)
  }

  /** Steps that own a node: fields, variants and elements counted from the front. */
  predicate Key(e: Proj) {
    e.Field? || e.Downcast? || (e.ConstantIndex? && !e.indexFromEnd && e.minLength == 0)
  }

  function Last(p: MovePath): Option<Proj> {
    var proj := p.place.projection;
    if proj == [] then None else Some(Normal(proj[|proj| - 1]))
  }

  /** The position of the first child tracked under e, or the number of children. */
  function ChildPos(ar: Arena, children: seq<nat>, e: Proj): (k: nat)
    ensures k <= |children|
    ensures k < |children| ==> children[k] < |ar.paths| && Last(ar.paths[children[k]]) == Some(e)
    ensures forall j: nat :: j < k && children[j] < |ar.paths| ==> Last(ar.paths[children[j]]) != Some(e)
  {
    if children == [] then 0
    else if children[0] < |ar.paths| && Last(ar.paths[children[0]]) == Some(e) then 0
    else 1 + ChildPos(ar, children[1..], e)
  }

  function AddChild(ar: Arena, at: nat, e: Proj): Arena
    requires at < |ar.paths|
  {
    var p := ar.paths[at];
    var node := MovePath(Place(p.place.local, p.place.projection + [e]), Some(at), []);
    Arena(ar.paths[at := p.(children := p.children + [|ar.paths|])] + [node], ar.roots)
  }

  function Walk(ar: Arena, at: nat, proj: seq<Proj>): (Arena, nat)
    requires at < |ar.paths|
    decreases |proj|
  {
    if proj == [] || Opaque(proj[0]) then (ar, at)
    else if Skipped(proj[0]) then Walk(ar, at, proj[1..])
    else
      var e := Normal(proj[0]);
      var children := ar.paths[at].children;
      var k := ChildPos(ar, children, e);
      if k < |children| then Walk(ar, children[k], proj[1..])
      else if e.Field? then (ar, at)
      else Walk(AddChild(ar, at, e), |ar.paths|, proj[1..])
  }

  function FindRoot(ar: Arena, local: Local): Option<nat> {
    if local < |ar.roots| then ar.roots[local] else None
  }

  function Lookup(ar: Arena, place: Place): (Arena, Option<nat>)
    requires Valid(ar)
  {
    match FindRoot(ar, place.local)
    case None => (ar, None)
    case Some(r) =>
      assert RootOk(ar, place.local);
      var (ar', i) := Walk(ar, r, place.projection);
      (ar', Some(i))
  }

  // ----- the trie -----

  ghost predicate RootOk(ar: Arena, l: nat)
    requires l < |ar.roots|
  {
    ar.roots[l].Some? ==>
      var r := ar.roots[l].value;
      r < |ar.paths| && ar.paths[r].place == Place(l, []) && ar.paths[r].parent == None
  }

  /** A node below another extends it by one key and is listed by it; a node below
      none is the root of its local. */
  ghost predicate ParentOk(ar: Arena, i: nat)
    requires i < |ar.paths|
  {
    var n := ar.paths[i];
    match n.parent
    case None => n.place.projection == [] && FindRoot(ar, n.place.local) == Some(i)
    case Some(p) =>
      && p < i && n.place.local == ar.paths[p].place.local && i in ar.paths[p].children
      && n.place.projection != [] && Key(n.place.projection[|n.place.projection| - 1])
      && n.place.projection[..|n.place.projection| - 1] == ar.paths[p].place.projection
  }

  ghost predicate ChildrenOk(ar: Arena, i: nat)
    requires i < |ar.paths|
  {
    var cs := ar.paths[i].children;
    && (forall j: nat :: j < |cs| ==> cs[j] < |ar.paths| && ar.paths[cs[j]].parent == Some(i))
    && (forall j: nat, k: nat :: j < k < |cs| ==> Last(ar.paths[cs[j]]) != Last(ar.paths[cs[k]]))
  }

  ghost predicate Valid(ar: Arena) {
    && (forall l: nat :: l < |ar.roots| ==> RootOk(ar, l))
    && (forall i: nat :: i < |ar.paths| ==> ParentOk(ar, i))
    && (forall i: nat :: i < |ar.paths| ==> ChildrenOk(ar, i))
  }

  /** Lookups only append: nodes keep their index, place and parent, and child lists
      only grow at the end. */
  ghost predicate Extends(ar: Arena, ar': Arena) {
    && ar'.roots == ar.roots && |ar.paths| <= |ar'.paths|
    && (forall i: nat :: i < |ar.paths| ==>
      && ar'.paths[i].place == ar.paths[i].place && ar'.paths[i].parent == ar.paths[i].parent
      && ar.paths[i].children <= ar'.paths[i].children)
  }

  lemma ExtendsTransitive(a: Arena, b: Arena, c: Arena)
    requires Extends(a, b) && Extends(b, c)
    ensures Extends(a, c)
  {
    forall i: nat | i < |a.paths| ensures a.paths[i].children <= c.paths[i].children {
      assert a.paths[i].children <= b.paths[i].children <= c.paths[i].children;
    }
  }

  /** Distinct nodes are distinct places. */
  lemma {:induction false} PlacesUnique(ar: Arena, i: nat, j: nat)
    requires Valid(ar) && i < |ar.paths| && j < |ar.paths| && ar.paths[i].place == ar.paths[j].place
    ensures i == j
    decreases i
  {
    assert ParentOk(ar, i) && ParentOk(ar, j);
    if ar.paths[i].parent.Some? {
      var p, q := ar.paths[i].parent.value, ar.paths[j].parent.value;
      PlacesUnique(ar, p, q);
      var cs := ar.paths[p].children;
      assert ChildrenOk(ar, p);
      var x: nat :| x < |cs| && cs[x] == i;
      var y: nat :| y < |cs| && cs[y] == j;
    }
  }

  lemma AddChildExtends(ar: Arena, at: nat, e: Proj)
    requires at < |ar.paths|
    ensures Extends(ar, AddChild(ar, at, e))
  {
  }

  lemma AddChildParents(ar: Arena, at: nat, e: Proj, i: nat)
    requires Valid(ar) && at < |ar.paths| && Key(e) && i <= |ar.paths|
    ensures ParentOk(AddChild(ar, at, e), i)
  {
    var ar', n := AddChild(ar, at, e), |ar.paths|;
    if i < n {
      assert ParentOk(ar, i);
      if ar.paths[i].parent.Some? {
        var p := ar.paths[i].parent.value;
        assert i in ar.paths[p].children ==> i in ar'.paths[p].children;
      }
    } else {
      var proj, cs := ar.paths[at].place.projection, ar.paths[at].children;
      assert (proj + [e])[..|proj + [e]| - 1] == proj;
      assert (cs + [n])[|cs|] == n;
    }
  }

  lemma AddChildChildren(ar: Arena, at: nat, e: Proj, i: nat)
    requires Valid(ar) && at < |ar.paths| && Key(e) && i <= |ar.paths|
    requires ChildPos(ar, ar.paths[at].children, e) == |ar.paths[at].children|
    ensures ChildrenOk(AddChild(ar, at, e), i)
  {
    hide RootOk, ParentOk;
    var ar', n := AddChild(ar, at, e), |ar.paths|;
    if i < n {
      assert ChildrenOk(ar, i);
      if i == at {
        var cs := ar.paths[at].children;
        assert Last(ar'.paths[n]) == Some(e);
        assert forall j: nat :: j < |cs| ==> cs[j] < n && Last(ar'.paths[cs[j]]) == Last(ar.paths[cs[j]]);
      }
    }
  }

  lemma AddChildValid(ar: Arena, at: nat, e: Proj)
    requires Valid(ar) && at < |ar.paths| && Key(e)
    requires ChildPos(ar, ar.paths[at].children, e) == |ar.paths[at].children|
    ensures Valid(AddChild(ar, at, e))
  {
    hide ParentOk, ChildrenOk;
    var ar' := AddChild(ar, at, e);
    forall l: nat | l < |ar'.roots| ensures RootOk(ar', l) { assert RootOk(ar, l); }
    forall i: nat | i < |ar'.paths| ensures ParentOk(ar', i) { AddChildParents(ar, at, e, i); }
    forall i: nat | i < |ar'.paths| ensures ChildrenOk(ar', i) { AddChildChildren(ar, at, e, i); }
  }

  // ----- what a lookup returns -----

  function Tracked(proj: seq<Proj>): seq<Proj> {
    if proj == [] then []
    else if Skipped(proj[0]) then Tracked(proj[1..])
    else [Normal(proj[0])] + Tracked(proj[1..])
  }

  /** A lookup of proj below node at ends at node i, having used k steps: it stops at
      the end, at an opaque step, or at a field without a node. */
  ghost predicate Reaches(ar: Arena, at: nat, proj: seq<Proj>, i: nat, k: nat)
    requires at < |ar.paths|
  {
    && k <= |proj| && i < |ar.paths| && (forall j: nat :: j < k ==> !Opaque(proj[j]))
    && ar.paths[i].place == Place(ar.paths[at].place.local, ar.paths[at].place.projection + Tracked(proj[..k]))
    && (k == |proj| || Opaque(proj[k]) ||
        (proj[k].Field? && ChildPos(ar, ar.paths[i].children, proj[k]) == |ar.paths[i].children|))
  }

  lemma TrackedStep(proj: seq<Proj>, k: nat)
    requires 0 < |proj| && k < |proj|
    ensures Tracked(proj[..k + 1]) == (if Skipped(proj[0]) then [] else [Normal(proj[0])]) + Tracked(proj[1..][..k])
  {
    assert proj[..k + 1][1..] == proj[1..][..k];
  }

  lemma ChildPlace(ar: Arena, at: nat, k: nat, e: Proj)
    requires Valid(ar) && at < |ar.paths| && k < |ar.paths[at].children|
    requires ar.paths[at].children[k] < |ar.paths| && Last(ar.paths[ar.paths[at].children[k]]) == Some(e)
    ensures ar.paths[ar.paths[at].children[k]].place
      == Place(ar.paths[at].place.local, ar.paths[at].place.projection + [e])
  {
    var c := ar.paths[at].children[k];
    assert ChildrenOk(ar, at) && ParentOk(ar, c);
    var proj := ar.paths[c].place.projection;
    assert proj == proj[..|proj| - 1] + [proj[|proj| - 1]];
  }

  /** A walk keeps the trie, only appends, and ends where the steps lead. */
  lemma {:induction false} WalkGood(ar: Arena, at: nat, proj: seq<Proj>) returns (k: nat)
    requires Valid(ar) && at < |ar.paths|
    ensures var (ar', i) := Walk(ar, at, proj);
      Valid(ar') && Extends(ar, ar') && Reaches(ar', at, proj, i, k)
    decreases |proj|
  {
    hide Valid, ChildPos;
    if proj == [] || Opaque(proj[0]) {
      k := 0;
    } else if Skipped(proj[0]) {
      var j := WalkGood(ar, at, proj[1..]);
      k := j + 1;
      TrackedStep(proj, j);
    } else {
      var e := Normal(proj[0]);
      var children := ar.paths[at].children;
      var c := ChildPos(ar, children, e);
      if c < |children| {
        ChildPlace(ar, at, c, e);
        var j := WalkGood(ar, children[c], proj[1..]);
        k := j + 1;
        TrackedStep(proj, j);
      } else if e.Field? {
        k := 0;
      } else {
        var ar1 := AddChild(ar, at, e);
        AddChildValid(ar, at, e);
        AddChildExtends(ar, at, e);
        var j := WalkGood(ar1, |ar.paths|, proj[1..]);
        k := j + 1;
        TrackedStep(proj, j);
        ExtendsTransitive(ar, ar1, Walk(ar, at, proj).0);
      }
    }
  }

  lemma ChildPosUnique(ar: Arena, at: nat, e: Proj, k: nat)
    requires Valid(ar) && at < |ar.paths| && k < |ar.paths[at].children|
    requires ar.paths[at].children[k] < |ar.paths| && Last(ar.paths[ar.paths[at].children[k]]) == Some(e)
    ensures ChildPos(ar, ar.paths[at].children, e) == k
  {
    assert ChildrenOk(ar, at);
    var c := ChildPos(ar, ar.paths[at].children, e);
  }

  /** Walking again changes nothing and ends at the same node. */
  lemma {:induction false} WalkIdempotent(ar: Arena, at: nat, proj: seq<Proj>)
    requires Valid(ar) && at < |ar.paths|
    ensures var (ar', i) := Walk(ar, at, proj);
      at < |ar'.paths| && Walk(ar', at, proj) == (ar', i)
    decreases |proj|
  {
    var (ar', i) := Walk(ar, at, proj);
    var _ := WalkGood(ar, at, proj);
    if proj == [] || Opaque(proj[0]) {
    } else if Skipped(proj[0]) {
      WalkIdempotent(ar, at, proj[1..]);
    } else {
      var e := Normal(proj[0]);
      var children := ar.paths[at].children;
      var c := ChildPos(ar, children, e);
      if c < |children| {
        var _ := WalkGood(ar, children[c], proj[1..]);
        WalkIdempotent(ar, children[c], proj[1..]);
        assert ar'.paths[at].children[c] == children[c];
        ChildPosUnique(ar', at, e, c);
      } else if !e.Field? {
        var ar1 := AddChild(ar, at, e);
        AddChildValid(ar, at, e);
        var _ := WalkGood(ar1, |ar.paths|, proj[1..]);
        WalkIdempotent(ar1, |ar.paths|, proj[1..]);
        assert ar1.paths[at].children[|children|] == |ar.paths|;
        assert ar'.paths[at].children[|children|] == |ar.paths|;
        ChildPosUnique(ar', at, e, |children|);
      }
    }
  }

  /** Looking a place up keeps the trie, only appends, fails only for a local without
      a root, and otherwise returns the node of a tracked prefix of the place. */
  lemma LookupGood(ar: Arena, place: Place)
    requires Valid(ar)
    ensures var (ar', r) := Lookup(ar, place);
      && Valid(ar') && Extends(ar, ar') && (r.None? <==> FindRoot(ar, place.local).None?)
      && (r.Some? ==>
        && FindRoot(ar, place.local).value < |ar'.paths|
        && ar'.paths[FindRoot(ar, place.local).value].place == Place(place.local, [])
        && exists k: nat :: Reaches(ar', FindRoot(ar, place.local).value, place.projection, r.value, k))
  {
    var root := FindRoot(ar, place.local);
    if root.Some? {
      assert RootOk(ar, place.local);
      var k := WalkGood(ar, root.value, place.projection);
      assert Reaches(Lookup(ar, place).0, root.value, place.projection, Lookup(ar, place).1.value, k);
    }
  }

  /** A second lookup of the same place returns the same index and changes nothing. */
  lemma LookupIdempotent(ar: Arena, place: Place)
    requires Valid(ar)
    ensures var (ar', r) := Lookup(ar, place);
      Valid(ar') && Lookup(ar', place) == (ar', r)
  {
    LookupGood(ar, place);
    var root := FindRoot(ar, place.local);
    if root.Some? {
      assert RootOk(ar, place.local);
      WalkIdempotent(ar, root.value, place.projection);
    }
  }

  // ----- building the arena -----

  function AddRoot(ar: Arena, l: nat): Arena
    requires l < |ar.roots|
  {
    Arena(ar.paths + [MovePath(Place(l, []), None, [])], ar.roots[l := Some(|ar.paths|)])
  }

  lemma AddRootValid(ar: Arena, l: nat)
    requires Valid(ar) && l < |ar.roots| && ar.roots[l].None?
    ensures Valid(AddRoot(ar, l))
  {
    var ar' := AddRoot(ar, l);
    forall m: nat | m < |ar'.roots| ensures RootOk(ar', m) { assert RootOk(ar, m); }
    forall i: nat | i < |ar'.paths| ensures ParentOk(ar', i) && ChildrenOk(ar', i) {
      if i < |ar.paths| { assert ParentOk(ar, i) && ChildrenOk(ar, i); }
    }
  }

  class MovePathArena {
    var paths: seq<MovePath>
    var rootIndex: seq<Option<nat>>

    ghost function Value(): Arena
      reads this
    {
      Arena(paths, rootIndex)
    }

    constructor (numLocals: nat)
      ensures Value() == Arena([], seq(numLocals, i => None)) && Valid(Value())
    {
      paths := [];
      rootIndex := seq(numLocals, i => None);
    }

    /** The first child of node at tracked under e. */
    method ChildOf(at: nat, e: Proj) returns (r: Option<nat>)
      requires Valid(Value()) && at < |paths|
      ensures var cs := paths[at].children;
        var k := ChildPos(Value(), cs, e);
        r == if k < |cs| then Some(cs[k]) else None
    {
      var cs := paths[at].children;
      assert cs[0..] == cs && ChildrenOk(Value(), at);
      for j := 0 to |cs|
        invariant ChildPos(Value(), cs, e) == j + ChildPos(Value(), cs[j..], e)
      {
        assert cs[j..][1..] == cs[j + 1..];
        if Last(paths[cs[j]]) == Some(e) { return Some(cs[j]); }
      }
      return None;
    }

    method Find(place: Place) returns (r: Option<nat>)
      requires Valid(Value())
      modifies this
      ensures (Value(), r) == Lookup(old(Value()), place)
      ensures Valid(Value()) && Extends(old(Value()), Value())
    {
      LookupGood(Value(), place);
      if place.local >= |rootIndex| || rootIndex[place.local].None? { return None; }
      assert RootOk(Value(), place.local);
      var current: nat := rootIndex[place.local].value;
      var proj := place.projection;
      ghost var goal := Walk(Value(), current, proj);
      assert proj[0..] == proj;
      for i := 0 to |proj|
        invariant Valid(Value()) && current < |paths| && paths[current].place.local == place.local
        invariant Walk(Value(), current, proj[i..]) == goal
      {
        assert proj[i..][1..] == proj[i + 1..];
        if Opaque(proj[i]) { return Some(current); }
        if !Skipped(proj[i]) {
          var e := Normal(proj[i]);
          var child := ChildOf(current, e);
          if child.Some? {
            assert ChildrenOk(Value(), current) && ParentOk(Value(), child.value);
            current := child.value;
          } else if e.Field? {
            return Some(current);
          } else {
            AddChildValid(Value(), current, e);
            var p := paths[current];
            var node := MovePath(Place(place.local, p.place.projection + [e]), Some(current), []);
            var n := |paths|;
            paths := paths[current := p.(children := p.children + [n])] + [node];
            current := n;
          }
        }
      }
      return Some(current);
    }
  }

  /** The arena of a body: one root per local, and below it one node per field of
      its type. */
  ghost predicate Covers(ar: Arena, counts: seq<Option<nat>>, upTo: nat) {
    && |ar.roots| == |counts|
    && (forall l: nat :: l < |counts| ==> (ar.roots[l].Some? <==> l < upTo))
    && (forall l: nat, f: nat :: l < upTo && l < |counts| && counts[l].Some? && f < counts[l].value ==>
          HasPlace(ar, Place(l, [Field(f)])))
    && (forall i: nat :: i < |ar.paths| ==> Planned(ar.paths[i].place, counts))
  }

  ghost predicate HasPlace(ar: Arena, p: Place) {
    exists i: nat :: i < |ar.paths| && ar.paths[i].place == p
  }

  ghost predicate Planned(p: Place, counts: seq<Option<nat>>) {
    p.local < |counts| && (p.projection == [] ||
      (counts[p.local].Some? && exists f: nat :: f < counts[p.local].value && p.projection == [Field(f)]))
  }

  /** The children of a root are exactly its first f fields, in order. */
  ghost predicate FieldsListed(ar: Arena, root: nat, l: nat, f: nat)
    requires root < |ar.paths|
  {
    var cs := ar.paths[root].children;
    |cs| == f && forall j: nat :: j < f ==> cs[j] < |ar.paths| && ar.paths[cs[j]].place == Place(l, [Field(j)])
  }

  lemma HasPlaceExtends(ar: Arena, ar': Arena, p: Place)
    requires HasPlace(ar, p) && |ar.paths| <= |ar'.paths|
    requires forall i: nat :: i < |ar.paths| ==> ar'.paths[i].place == ar.paths[i].place
    ensures HasPlace(ar', p)
  {
    var i: nat :| i < |ar.paths| && ar.paths[i].place == p;
    assert ar'.paths[i].place == p;
  }

  /** counts gives the number of fields of each local's type, where it has any. */
  method BuildMovePaths(counts: seq<Option<nat>>) returns (arena: MovePathArena)
    ensures fresh(arena) && Valid(arena.Value()) && Covers(arena.Value(), counts, |counts|)
  {
    hide Valid, HasPlace, Planned;
    arena := new MovePathArena(|counts|);
    EmptyValid(arena.Value());
    for l := 0 to |counts|
      invariant fresh(arena) && Valid(arena.Value()) && Covers(arena.Value(), counts, l)
    {
      ghost var before := arena.Value();
      AddRootValid(before, l);
      var root := |arena.paths|;
      arena.paths := arena.paths + [MovePath(Place(l, []), None, [])];
      arena.rootIndex := arena.rootIndex[l := Some(root)];
      assert arena.Value() == AddRoot(before, l);
      RootPlanned(l, counts);
      if counts[l].Some? { AddFields(arena, root, l, counts); }
      forall m: nat, g: nat | m < l && counts[m].Some? && g < counts[m].value
        ensures HasPlace(arena.Value(), Place(m, [Field(g)]))
      {
        HasPlaceExtends(before, arena.Value(), Place(m, [Field(g)]));
      }
    }
  }

  lemma EmptyValid(ar: Arena)
    requires ar.paths == [] && forall l: nat :: l < |ar.roots| ==> ar.roots[l] == None
    ensures Valid(ar)
  {
  }

  lemma RootPlanned(l: nat, counts: seq<Option<nat>>)
    requires l < |counts|
    ensures Planned(Place(l, []), counts)
  {
  }

  lemma FieldPlanned(l: nat, f: nat, counts: seq<Option<nat>>)
    requires l < |counts| && counts[l].Some? && f < counts[l].value
    ensures Planned(Place(l, [Field(f)]), counts)
  {
  }

  /** One node below the root for each field of the local's type. */
  method AddFields(arena: MovePathArena, root: nat, l: nat, counts: seq<Option<nat>>)
    requires Valid(arena.Value()) && l < |counts| && counts[l].Some?
    requires root < |arena.paths| && arena.paths[root].place == Place(l, []) && arena.paths[root].children == []
    requires forall i: nat :: i < |arena.paths| ==> Planned(arena.paths[i].place, counts)
    modifies arena
    ensures Valid(arena.Value()) && arena.rootIndex == old(arena.rootIndex) && |old(arena.paths)| <= |arena.paths|
    ensures forall i: nat :: i < |old(arena.paths)| ==> arena.paths[i].place == old(arena.paths)[i].place
    ensures forall i: nat :: i < |arena.paths| ==> Planned(arena.paths[i].place, counts)
    ensures forall g: nat :: g < counts[l].value ==> HasPlace(arena.Value(), Place(l, [Field(g)]))
  {
    hide Valid, Planned;
    ghost var before := arena.paths;
    for f := 0 to counts[l].value
      invariant Valid(arena.Value()) && arena.rootIndex == old(arena.rootIndex)
      invariant root < |arena.paths| && |before| <= |arena.paths|
      invariant forall i: nat :: i < |before| ==> arena.paths[i].place == before[i].place
      invariant FieldsListed(arena.Value(), root, l, f)
      invariant forall i: nat :: i < |arena.paths| ==> Planned(arena.paths[i].place, counts)
    {
      FieldPlanned(l, f, counts);
      AddField(arena, root, l, f, counts);
    }
    forall g: nat | g < counts[l].value ensures HasPlace(arena.Value(), Place(l, [Field(g)])) {
      assert arena.paths[arena.paths[root].children[g]].place == Place(l, [Field(g)]);
    }
  }

  method AddField(arena: MovePathArena, root: nat, l: nat, f: nat, ghost counts: seq<Option<nat>>)
    requires Valid(arena.Value()) && root < |arena.paths| && arena.paths[root].place == Place(l, [])
    requires FieldsListed(arena.Value(), root, l, f)
    modifies arena
    ensures Valid(arena.Value()) && arena.Value() == AddChild(old(arena.Value()), root, Field(f))
  {
    var p := arena.paths[root];
    ghost var ar := arena.Value();
    var k := ChildPos(ar, p.children, Field(f));
    AddChildValid(ar, root, Field(f));
    var node := MovePath(Place(l, [Field(f)]), Some(root), []);
    arena.paths := arena.paths[root := p.(children := p.children + [|arena.paths|])] + [node];
    assert p.place.projection + [Field(f)] == [Field(f)];
  }

  // ----- which lookups add a path to the arena of a body -----

  /** From a node with the given number of fields below it, and nothing below those, the
      walk meets a variant or an element counted from the front before it stops. */
  predicate Grows(proj: seq<Proj>, fields: nat)
    decreases |proj|
  {
    if proj == [] || Opaque(proj[0]) then false
    else if Skipped(proj[0]) then Grows(proj[1..], fields)
    else if proj[0].Field? then proj[0].field < fields && Grows(proj[1..], 0)
    else true
  }

  /** Below a node lie exactly its first fields, and nothing below those. */
  ghost predicate OnlyFields(ar: Arena, at: nat, fields: nat)
    requires at < |ar.paths|
  {
    var cs := ar.paths[at].children;
    && (forall e: Proj :: ChildPos(ar, cs, e) < |cs| <==> e.Field? && e.field < fields)
    && (forall j: nat :: j < |cs| ==> cs[j] < |ar.paths| && ar.paths[cs[j]].children == [])
  }

  lemma LeafOnlyFields(ar: Arena, at: nat)
    requires at < |ar.paths| && ar.paths[at].children == []
    ensures OnlyFields(ar, at, 0)
  {
  }

  /** A walk that adds a child does not end in the same arena. */
  lemma AddingGrows(ar: Arena, at: nat, e: Proj, rest: seq<Proj>)
    requires Valid(ar) && at < |ar.paths| && Key(e) && ChildPos(ar, ar.paths[at].children, e) == |ar.paths[at].children|
    ensures Walk(AddChild(ar, at, e), |ar.paths|, rest).0 != ar
  {
    hide Valid;
    AddChildValid(ar, at, e);
    var k := WalkGood(AddChild(ar, at, e), |ar.paths|, rest);
  }

  lemma {:induction false} WalkGrowsIff(ar: Arena, at: nat, proj: seq<Proj>, fields: nat)
    requires Valid(ar) && at < |ar.paths| && OnlyFields(ar, at, fields)
    ensures Walk(ar, at, proj).0 != ar <==> Grows(proj, fields)
    decreases |proj|
  {
    hide Valid, ChildPos;
    if proj != [] && !Opaque(proj[0]) {
      var e, cs := Normal(proj[0]), ar.paths[at].children;
      var k := ChildPos(ar, cs, e);
      if Skipped(proj[0]) {
        WalkGrowsIff(ar, at, proj[1..], fields);
      } else if k < |cs| {
        LeafOnlyFields(ar, cs[k]);
        WalkGrowsIff(ar, cs[k], proj[1..], 0);
      } else if !e.Field? {
        AddingGrows(ar, at, e, proj[1..]);
      }
    }
  }

  /** In the arena of a body, a root has its fields below it and nothing else. */
  lemma CoveredChild(ar: Arena, counts: seq<Option<nat>>, l: nat, r: nat, j: nat)
    requires Valid(ar) && Covers(ar, counts, |counts|) && l < |counts|
    requires r < |ar.paths| && ar.paths[r].place == Place(l, []) && j < |ar.paths[r].children|
    ensures var c := ar.paths[r].children[j];
      && c < |ar.paths| && ar.paths[c].children == [] && counts[l].Some?
      && exists f: nat :: f < counts[l].value && ar.paths[c].place == Place(l, [Field(f)])
  {
    hide Valid, HasPlace;
    ChildExtends(ar, r, j);
    var c := ar.paths[r].children[j];
    assert Planned(ar.paths[c].place, counts);
    if |ar.paths[c].children| > 0 { ChildExtends(ar, c, 0); }
  }

  /** A child lies one step below its node. */
  lemma ChildExtends(ar: Arena, at: nat, j: nat)
    requires Valid(ar) && at < |ar.paths| && j < |ar.paths[at].children|
    ensures var c := ar.paths[at].children[j];
      && c < |ar.paths| && ar.paths[c].place.local == ar.paths[at].place.local
      && |ar.paths[c].place.projection| == |ar.paths[at].place.projection| + 1
  {
    assert ChildrenOk(ar, at);
    assert ParentOk(ar, ar.paths[at].children[j]);
  }

  lemma CoveredField(ar: Arena, counts: seq<Option<nat>>, l: nat, r: nat, f: nat)
    requires Valid(ar) && Covers(ar, counts, |counts|) && l < |counts| && ar.roots[l] == Some(r)
    requires r < |ar.paths| && counts[l].Some? && f < counts[l].value
    ensures ChildPos(ar, ar.paths[r].children, Field(f)) < |ar.paths[r].children|
  {
    assert HasPlace(ar, Place(l, [Field(f)]));
    var i: nat :| i < |ar.paths| && ar.paths[i].place == Place(l, [Field(f)]);
    assert ParentOk(ar, i);
    var p := ar.paths[i].parent.value;
    assert ParentOk(ar, p);
    var j: nat :| j < |ar.paths[r].children| && ar.paths[r].children[j] == i;
    ChildPosUnique(ar, r, Field(f), j);
  }

  lemma RootOnlyFields(ar: Arena, counts: seq<Option<nat>>, l: nat, r: nat)
    requires Valid(ar) && Covers(ar, counts, |counts|) && l < |counts| && ar.roots[l] == Some(r)
    ensures r < |ar.paths| && OnlyFields(ar, r, if counts[l].Some? then counts[l].value else 0)
  {
    assert RootOk(ar, l);
    hide Valid, Covers, ChildPos;
    var cs, n := ar.paths[r].children, if counts[l].Some? then counts[l].value else 0;
    forall j: nat | j < |cs| ensures cs[j] < |ar.paths| && ar.paths[cs[j]].children == [] {
      CoveredChild(ar, counts, l, r, j);
    }
    forall e: Proj ensures ChildPos(ar, cs, e) < |cs| <==> e.Field? && e.field < n {
      if ChildPos(ar, cs, e) < |cs| { CoveredChild(ar, counts, l, r, ChildPos(ar, cs, e)); }
      if e.Field? && e.field < n { CoveredField(ar, counts, l, r, e.field); }
    }
  }

  /** In the arena built for a body, a lookup adds a path exactly if, before it stops, it
      meets a variant or an element counted from the front. The bit sets are sized before
      the lookups, so such a place does not fit them. */
  lemma LookupGrowsIff(ar: Arena, counts: seq<Option<nat>>, place: Place)
    requires Valid(ar) && Covers(ar, counts, |counts|)
    ensures Lookup(ar, place).0 != ar <==>
      place.local < |counts| &&
      Grows(place.projection, if counts[place.local].Some? then counts[place.local].value else 0)
  {
    hide Valid, OnlyFields;
    var l := place.local;
    if l < |counts| {
      var r := ar.roots[l].value;
      RootOnlyFields(ar, counts, l, r);
      WalkGrowsIff(ar, r, place.projection, if counts[l].Some? then counts[l].value else 0);
    }
  }
}

/** The structural place-overlap test (visitor.rs, places_conflict) against an
    access-path semantics of places. */
module PlaceConflict {
  import opened Mir

  // ----- the test -----

  datatype Verdict = Go | Apart | Clash

  /** What the scan decides from one pair of elements at the same depth. */
  function Compare(x: Proj, y: Proj): Verdict {
    match (x, y)
    case (Deref, Deref) => Go
    case (Field(f), Field(g)) => if f == g then Go else Apart
    case (Downcast(v), Downcast(w)) => if v == w then Go else Apart
    case (Index(l), Index(m)) => if l == m then Go else Apart
    case (ConstantIndex(o, _, e), ConstantIndex(p, _, f)) =>
      if e || f then Clash else if o != p then Apart else Go
    case (Field(_), Index(_)) => Apart
    case (Index(_), Field(_)) => Apart
    case (Subslice(f, t, e), Subslice(g, u, h)) =>
      if e || h then Clash else if f < u && g < t then Go else Apart
    case (Subslice(f, t, e), ConstantIndex(o, _, h)) =>
      if e || h then Clash else if f <= o < t then Go else Apart
    case (ConstantIndex(o, _, h), Subslice(f, t, e)) =>
      if e || h then Clash else if f <= o < t then Go else Apart
    case _ => Clash
  }

  function Overlap(a: seq<Proj>, b: seq<Proj>): bool {
    if a == [] || b == [] then true else
    match Compare(a[0], b[0])
    case Go => Overlap(a[1..], b[1..])
    case Apart => false
    case Clash => true
  }

  /** The early-return scan over the common depth of two places. */
  method PlacesConflict(a: Place, b: Place) returns (r: bool)
    ensures r == (a.local == b.local && Overlap(a.projection, b.projection))
  {
    if a.local != b.local { return false; }
    var p, q := a.projection, b.projection;
    var common := if |p| < |q| then |p| else |q|;
    assert p[0..] == p && q[0..] == q;
    for i := 0 to common
      invariant Overlap(p, q) == Overlap(p[i..], q[i..])
    {
      assert p[i..][1..] == p[i + 1..] && q[i..][1..] == q[i + 1..];
      match Compare(p[i], q[i]) {
        case Go =>
        case Apart => return false;
        case Clash => return true;
      }
    }
    return true;
  }

  lemma {:induction false} OverlapSymmetric(a: seq<Proj>, b: seq<Proj>)
    ensures Overlap(a, b) == Overlap(b, a)
  {
    if a != [] && b != [] {
      assert Compare(a[0], b[0]) == Compare(b[0], a[0]);
      OverlapSymmetric(a[1..], b[1..]);
    }
  }

  /** Extending a place can only lose a conflict. */
  lemma {:induction false} OverlapShrinks(a: seq<Proj>, more: seq<Proj>, b: seq<Proj>)
    requires Overlap(a + more, b)
    ensures Overlap(a, b)
  {
    if a != [] && b != [] && Compare(a[0], b[0]) == Go {
      assert (a + more)[1..] == a[1..] + more;
      OverlapShrinks(a[1..], more, b[1..]);
    }
  }

  // ----- what places denote -----

  /** One step into memory. A field and an element of the same number are the same
      step: arrays are also projected by Field. */
  datatype Step = Through | Part(k: nat) | Variant(v: nat)

  type Path = seq<Step>

  /** Where a projection leads: a value, or the elements [lo, hi) of a sequence. */
  datatype Loc = At(path: Path) | Window(path: Path, lo: nat, hi: nat)

  /** A memory state as far as projections can see it. */
  datatype Memory = Memory(index: Local -> nat, length: Path -> nat)

  function Minus(a: nat, b: nat): nat { if a < b then 0 else a - b }

  function Base(loc: Loc): nat { if loc.At? then 0 else loc.lo }

  function End(m: Memory, loc: Loc): nat { if loc.At? then m.length(loc.path) else loc.hi }

  function Project(m: Memory, loc: Loc, e: Proj): Loc {
    match e
    case Deref => At(loc.path + [Through])
    case Field(f) => At(loc.path + [Part(Base(loc) + f)])
    case Index(l) => At(loc.path + [Part(Base(loc) + m.index(l))])
    case Downcast(v) => At(loc.path + [Variant(v)])
    case ConstantIndex(o, _, fromEnd) =>
      At(loc.path + [Part(if fromEnd then Minus(End(m, loc), o) else Base(loc) + o)])
    case Subslice(f, t, fromEnd) =>
      Window(loc.path, Base(loc) + f, if fromEnd then Minus(End(m, loc), t) else Base(loc) + t)
  }

  function Locate(m: Memory, loc: Loc, proj: seq<Proj>): Loc
    decreases |proj|
  {
    if proj == [] then loc else Locate(m, Project(m, loc, proj[0]), proj[1..])
  }

  /** The access paths a location covers: everything at or below it. */
  predicate Covers(loc: Loc, path: Path) {
    loc.path <= path &&
    (loc.Window? ==> |path| > |loc.path| && path[|loc.path|].Part? && loc.lo <= path[|loc.path|].k < loc.hi)
  }

  ghost predicate Disjoint(x: Loc, y: Loc) {
    forall path :: !(Covers(x, path) && Covers(y, path))
  }

  predicate Empty(loc: Loc) { loc.Window? && loc.lo >= loc.hi }

  /** A step into a window of elements. */
  predicate Into(step: Step, loc: Loc)
    requires loc.Window?
  {
    step.Part? && loc.lo <= step.k < loc.hi
  }

  /** The steps that two locations resolve to tell them apart: one is empty, they differ at
      a common depth, one leaves the other's window, or their windows do not meet. */
  predicate StepsDiffer(x: Loc, y: Loc) {
    var n, k := |x.path|, |y.path|;
    || Empty(x) || Empty(y)
    || (exists i: nat :: i < n && i < k && x.path[i] != y.path[i])
    || (x.Window? && n < k && !Into(y.path[n], x))
    || (y.Window? && k < n && !Into(x.path[k], y))
    || (x.Window? && y.Window? && n == k && (x.hi <= y.lo || y.hi <= x.lo))
  }

  /** A path below both locations, if their steps do not differ. */
  function Common(x: Loc, y: Loc): Path
    requires !StepsDiffer(x, y)
  {
    if |x.path| > |y.path| then Below(x)
    else if |y.path| > |x.path| then Below(y)
    else if x.Window? && y.Window? then x.path + [Part(if x.lo < y.lo then y.lo else x.lo)]
    else if x.Window? then Below(x) else Below(y)
  }

  function Below(x: Loc): Path { if x.Window? then x.path + [Part(x.lo)] else x.path }

  /** Two locations are disjoint exactly if the steps they resolve to differ. */
  lemma DisjointIff(x: Loc, y: Loc)
    ensures Disjoint(x, y) <==> StepsDiffer(x, y)
  {
    if StepsDiffer(x, y) {
      forall path ensures !(Covers(x, path) && Covers(y, path)) { DifferentSteps(x, y, path); }
    } else {
      var c := Common(x, y);
      assert forall i: nat :: i < |x.path| && i < |y.path| ==> x.path[i] == y.path[i];
      assert Covers(x, c) && Covers(y, c);
    }
  }

  lemma DifferentSteps(x: Loc, y: Loc, path: Path)
    requires StepsDiffer(x, y)
    ensures !(Covers(x, path) && Covers(y, path))
  {
    assert x.path <= path ==> forall i: nat :: i < |x.path| ==> path[i] == x.path[i];
    assert y.path <= path ==> forall i: nat :: i < |y.path| ==> path[i] == y.path[i];
  }

  /** Subslice occurs only as the last element. */
  predicate SubsliceLast(proj: seq<Proj>) {
    forall i: nat :: i + 1 < |proj| ==> !proj[i].Subslice?
  }

  /** Memory really separates a pair the test calls disjoint: only the pairs whose
      element number is read from a local need it to. */
  predicate Separates(m: Memory, x: Proj, y: Proj) {
    match (x, y)
    case (Index(l), Index(k)) => m.index(l) != m.index(k)
    case (Field(f), Index(l)) => f != m.index(l)
    case (Index(l), Field(f)) => f != m.index(l)
    case _ => true
  }

  /** The depth at which the scan decides. */
  function Decider(a: seq<Proj>, b: seq<Proj>): (k: nat)
    requires !Overlap(a, b)
    ensures k < |a| && k < |b| && Compare(a[k], b[k]) == Apart
  {
    if Compare(a[0], b[0]) == Go then 1 + Decider(a[1..], b[1..]) else 0
  }

  lemma {:induction false} LocateExtends(m: Memory, loc: Loc, proj: seq<Proj>, path: Path)
    requires loc.At? && SubsliceLast(proj) && Covers(Locate(m, loc, proj), path)
    ensures Covers(loc, path)
    decreases |proj|
  {
    if proj != [] {
      var next := Project(m, loc, proj[0]);
      if |proj| == 1 {
        assert proj[1..] == [] && Locate(m, loc, proj) == next;
      } else {
        assert forall i: nat :: i + 1 < |proj[1..]| ==> proj[1..][i] == proj[i + 1];
        assert SubsliceLast(proj[1..]);
        LocateExtends(m, next, proj[1..], path);
      }
    }
  }

  /** A deeper place covers no path its prefix does not. */
  lemma {:induction false} PrefixCovers(m: Memory, loc: Loc, proj: seq<Proj>, k: nat, path: Path)
    requires loc.At? && SubsliceLast(proj) && k <= |proj| && Covers(Locate(m, loc, proj), path)
    ensures Covers(Locate(m, loc, proj[..k]), path)
    decreases |proj|
  {
    if k == 0 {
      LocateExtends(m, loc, proj, path);
    } else if |proj| == 1 {
      assert proj[..k] == proj;
    } else {
      assert SubsliceLast(proj[1..]) by { assert forall i: nat :: i + 1 < |proj[1..]| ==> proj[1..][i] == proj[i + 1]; }
      PrefixCovers(m, Project(m, loc, proj[0]), proj[1..], k - 1, path);
      assert proj[..k][1..] == proj[1..][..k - 1];
    }
  }

  lemma ApartIffSeparated(m: Memory, loc: Loc, x: Proj, y: Proj)
    requires loc.At? && Compare(x, y) == Apart
    ensures Disjoint(Project(m, loc, x), Project(m, loc, y)) <==> Separates(m, x, y)
  {
    var p, q := Project(m, loc, x), Project(m, loc, y);
    if !Separates(m, x, y) {
      assert p == q && Covers(p, p.path) && Covers(q, p.path);
    } else {
      assert forall path :: Covers(p, path) && p.At? ==> path[|loc.path|] == p.path[|loc.path|];
      assert forall path :: Covers(q, path) && q.At? ==> path[|loc.path|] == q.path[|loc.path|];
    }
  }

  lemma {:induction false} DecidedPrefix(m: Memory, loc: Loc, a: seq<Proj>, b: seq<Proj>)
    requires loc.At? && !Overlap(a, b) && SubsliceLast(a) && SubsliceLast(b)
    ensures var k := Decider(a, b);
      Disjoint(Locate(m, loc, a[..k + 1]), Locate(m, loc, b[..k + 1])) <==> Separates(m, a[k], b[k])
    decreases |a|
  {
    var k := Decider(a, b);
    if k == 0 {
      ApartIffSeparated(m, loc, a[0], b[0]);
      assert a[..1][1..] == [] && b[..1][1..] == [];
    } else {
      assert SubsliceLast(a[1..]) by { assert forall i: nat :: i + 1 < |a[1..]| ==> a[1..][i] == a[i + 1]; }
      assert SubsliceLast(b[1..]) by { assert forall i: nat :: i + 1 < |b[1..]| ==> b[1..][i] == b[i + 1]; }
      assert !a[0].Subslice? && !b[0].Subslice?;
      assert Project(m, loc, a[0]) == Project(m, loc, b[0]);
      DecidedPrefix(m, Project(m, loc, a[0]), a[1..], b[1..]);
      assert a[..k + 1][1..] == a[1..][..k] && b[..k + 1][1..] == b[1..][..k];
    }
  }

  /** "No conflict" means disjoint in every memory that separates the deciding
      elements, and the two prefixes up to there are disjoint in no other memory. */
  lemma NoConflictExact(m: Memory, a: Place, b: Place)
    requires a.local == b.local && !Overlap(a.projection, b.projection)
    requires SubsliceLast(a.projection) && SubsliceLast(b.projection)
    ensures var k := Decider(a.projection, b.projection);
      && (Disjoint(Locate(m, At([]), a.projection[..k + 1]), Locate(m, At([]), b.projection[..k + 1]))
          <==> Separates(m, a.projection[k], b.projection[k]))
      && (Separates(m, a.projection[k], b.projection[k])
          ==> Disjoint(Locate(m, At([]), a.projection), Locate(m, At([]), b.projection)))
  {
    var p, q := a.projection, b.projection;
    var k := Decider(p, q);
    DecidedPrefix(m, At([]), p, q);
    if Separates(m, p[k], q[k]) {
      forall path ensures !(Covers(Locate(m, At([]), p), path) && Covers(Locate(m, At([]), q), path)) {
        if Covers(Locate(m, At([]), p), path) && Covers(Locate(m, At([]), q), path) {
          PrefixCovers(m, At([]), p, k + 1, path);
          PrefixCovers(m, At([]), q, k + 1, path);
          assert false;
        }
      }
    }
  }

  /** For whole places, subslices anywhere, index locals with any values: a verdict of no
      conflict is wrong exactly if the steps the two places resolve to do not differ. */
  lemma VerdictWrongIff(m: Memory, a: Place, b: Place)
    requires a.local == b.local
    ensures var x, y := Locate(m, At([]), a.projection), Locate(m, At([]), b.projection);
      !Overlap(a.projection, b.projection) && !Disjoint(x, y) <==>
        !StepsDiffer(x, y) && exists k: nat :: FirstApart(a.projection, b.projection, k)
  {
    DisjointIff(Locate(m, At([]), a.projection), Locate(m, At([]), b.projection));
    OverlapIff(a.projection, b.projection);
  }

  /** The projections go on together up to k and are called disjoint there. */
  predicate FirstApart(a: seq<Proj>, b: seq<Proj>, k: nat) {
    k < |a| && k < |b| && Compare(a[k], b[k]) == Apart && forall i: nat :: i < k ==> Compare(a[i], b[i]) == Go
  }

  lemma {:induction false} OverlapIff(a: seq<Proj>, b: seq<Proj>)
    ensures !Overlap(a, b) <==> exists k: nat :: FirstApart(a, b, k)
  {
    if a != [] && b != [] {
      if Compare(a[0], b[0]) == Apart { assert FirstApart(a, b, 0); }
      if Compare(a[0], b[0]) == Go {
        OverlapIff(a[1..], b[1..]);
        if !Overlap(a, b) {
          var k: nat :| FirstApart(a[1..], b[1..], k);
          assert forall i: nat :: 0 < i <= k ==> a[i] == a[1..][i - 1] && b[i] == b[1..][i - 1];
          assert FirstApart(a, b, k + 1);
        }
        if exists k: nat :: FirstApart(a, b, k) {
          var k: nat :| FirstApart(a, b, k);
          assert forall i: nat :: i < |a[1..]| && i < |b[1..]| ==> a[1..][i] == a[i + 1] && b[1..][i] == b[i + 1];
          assert FirstApart(a[1..], b[1..], k - 1);
        }
      }
    }
  }

  /** Two index locals with the same value: reported disjoint, the same element. */
  lemma EqualIndicesMissed(m: Memory)
    requires m.index(1) == m.index(2)
    ensures !Overlap([Index(1)], [Index(2)])
    ensures Locate(m, At([]), [Index(1)]) == Locate(m, At([]), [Index(2)])
  {
    assert [Index(1)][1..] == [] && [Index(2)][1..] == [];
  }

  lemma LocateTwo(m: Memory, loc: Loc, x: Proj, y: Proj)
    ensures Locate(m, loc, [x, y]) == Project(m, Project(m, loc, x), y)
  {
    assert [x, y][1..] == [y] && [y][1..] == [];
    assert Locate(m, Project(m, loc, x), [y]) == Project(m, Project(m, loc, x), y);
  }

  /** Elements of overlapping subslices: reported disjoint, the same element. */
  lemma NestedSubsliceMissed(m: Memory)
    ensures var a := [Subslice(0, 3, false), ConstantIndex(1, 0, false)];
            var b := [Subslice(1, 4, false), ConstantIndex(0, 0, false)];
            !Overlap(a, b) && Locate(m, At([]), a) == Locate(m, At([]), b)
  {
    var a := [Subslice(0, 3, false), ConstantIndex(1, 0, false)];
    var b := [Subslice(1, 4, false), ConstantIndex(0, 0, false)];
    assert a[1..] == [a[1]] && b[1..] == [b[1]] && [a[1]][1..] == [] && [b[1]][1..] == [];
    LocateTwo(m, At([]), a[0], a[1]);
    LocateTwo(m, At([]), b[0], b[1]);
    assert a == [a[0], a[1]] && b == [b[0], b[1]];
  }

  /** A conflict found by reaching the end of a place is real: without subslices
      one place covers the other. */
  lemma {:induction false} PrefixConflictIsReal(m: Memory, loc: Loc, a: seq<Proj>, b: seq<Proj>)
    requires loc.At? && |a| <= |b|
    requires forall i: nat :: i < |a| ==> Compare(a[i], b[i]) == Go && !a[i].Subslice? && !b[i].Subslice?
    requires SubsliceLast(b)
    ensures Overlap(a, b) && Overlap(b, a)
    ensures forall path :: Covers(Locate(m, loc, b), path) ==> Covers(Locate(m, loc, a), path)
    decreases |a|
  {
    if a == [] {
      forall path | Covers(Locate(m, loc, b), path) ensures Covers(loc, path) { LocateExtends(m, loc, b, path); }
    } else {
      assert Project(m, loc, a[0]) == Project(m, loc, b[0]);
      assert forall i: nat :: i < |a[1..]| ==> a[1..][i] == a[i + 1];
      assert forall i: nat :: i < |b[1..]| ==> b[1..][i] == b[i + 1];
      PrefixConflictIsReal(m, Project(m, loc, a[0]), a[1..], b[1..]);
      OverlapSymmetric(a, b);
    }
  }

  // ----- a conflict is real -----

  /** An element counted from the front, and a subslice counted from the front. */
  predicate FrontElement(e: Proj) { e.ConstantIndex? && !e.indexFromEnd }

  predicate FrontSlice(e: Proj) { e.Subslice? && !e.sliceFromEnd }

  /** The pairs of kinds the test decides. On all others it gives up and answers conflict:
      elements and subslices counted from the end, and any other two different kinds. */
  predicate Decidable(x: Proj, y: Proj) {
    || (x.Deref? && y.Deref?) || (x.Field? && y.Field?) || (x.Downcast? && y.Downcast?)
    || (x.Index? && y.Index?) || (x.Field? && y.Index?) || (x.Index? && y.Field?)
    || ((FrontElement(x) || FrontSlice(x)) && (FrontElement(y) || FrontSlice(y)))
  }

  /** Every pair at a common depth is of decidable kinds. */
  predicate AllDecidable(a: seq<Proj>, b: seq<Proj>) {
    forall k: nat :: k < |a| && k < |b| ==> Decidable(a[k], b[k])
  }

  /** Different index locals hold different values, and no index local the number of a
      field it meets. */
  predicate IndicesDiffer(m: Memory, x: Proj, y: Proj) {
    && (x.Index? && y.Index? && x.index != y.index ==> m.index(x.index) != m.index(y.index))
    && (x.Field? && y.Index? ==> x.field != m.index(y.index))
    && (x.Index? && y.Field? ==> y.field != m.index(x.index))
  }

  lemma TailDecidable(a: seq<Proj>, b: seq<Proj>)
    requires a != [] && b != [] && AllDecidable(a, b) && SubsliceLast(a) && SubsliceLast(b)
    ensures Decidable(a[0], b[0]) && AllDecidable(a[1..], b[1..]) && SubsliceLast(a[1..]) && SubsliceLast(b[1..])
  {
    assert forall i: nat :: i < |a[1..]| ==> a[1..][i] == a[i + 1];
    assert forall i: nat :: i < |b[1..]| ==> b[1..][i] == b[i + 1];
  }

  /** Extending a place from an element stays at or below it. */
  lemma {:induction false} LocateBelow(m: Memory, loc: Loc, proj: seq<Proj>)
    requires loc.At? && SubsliceLast(proj)
    ensures loc.path <= Locate(m, loc, proj).path
    decreases |proj|
  {
    if |proj| > 1 {
      assert forall i: nat :: i + 1 < |proj[1..]| ==> proj[1..][i] == proj[i + 1];
      LocateBelow(m, Project(m, loc, proj[0]), proj[1..]);
    } else if |proj| == 1 {
      assert proj[1..] == [] && Locate(m, loc, proj) == Project(m, loc, proj[0]);
    }
  }

  /** A location and one at or below it differ only if one is empty. */
  lemma BelowMeets(x: Loc, y: Loc)
    requires x.At? && x.path <= y.path
    ensures StepsDiffer(x, y) <==> Empty(y)
  {
    assert forall i: nat :: i < |x.path| ==> x.path[i] == y.path[i];
  }

  lemma StepsDifferSymmetric(x: Loc, y: Loc)
    ensures StepsDiffer(x, y) == StepsDiffer(y, x)
  {
    if StepsDiffer(x, y) && exists i: nat :: i < |x.path| && i < |y.path| && x.path[i] != y.path[i] {
      var i: nat :| i < |x.path| && i < |y.path| && x.path[i] != y.path[i];
      assert y.path[i] != x.path[i];
    }
    if StepsDiffer(y, x) && exists i: nat :: i < |y.path| && i < |x.path| && y.path[i] != x.path[i] {
      var i: nat :| i < |y.path| && i < |x.path| && y.path[i] != x.path[i];
      assert x.path[i] != y.path[i];
    }
  }

  /** A window and what lies at or below one of its elements. */
  lemma WindowMeets(w: Loc, y: Loc)
    requires w.Window? && |y.path| > |w.path| && w.path <= y.path && Into(y.path[|w.path|], w)
    ensures StepsDiffer(w, y) <==> Empty(y)
  {
    assert forall i: nat :: i < |w.path| ==> w.path[i] == y.path[i];
  }

  lemma LocateOne(m: Memory, loc: Loc, e: Proj)
    ensures Locate(m, loc, [e]) == Project(m, loc, e)
  {
    assert [e][1..] == [];
  }

  /** A subslice against an element inside it and what lies below that. */
  lemma SliceMeetsElement(m: Memory, loc: Loc, x: Proj, b: seq<Proj>)
    requires loc.At? && FrontSlice(x) && b != [] && FrontElement(b[0]) && x.from <= b[0].offset < x.to
    requires SubsliceLast(b)
    ensures StepsDiffer(Project(m, loc, x), Locate(m, loc, b)) <==> Empty(Locate(m, loc, b))
  {
    var w, at := Project(m, loc, x), Project(m, loc, b[0]);
    assert forall i: nat :: i + 1 < |b[1..]| ==> b[1..][i] == b[i + 1];
    LocateBelow(m, at, b[1..]);
    var y := Locate(m, loc, b);
    assert y == Locate(m, at, b[1..]) && at.path[|loc.path|] == Part(b[0].offset);
    assert y.path[|loc.path|] == at.path[|loc.path|];
    WindowMeets(w, y);
  }

  lemma SlicesMeet(m: Memory, loc: Loc, x: Proj, y: Proj)
    requires loc.At? && FrontSlice(x) && FrontSlice(y) && x.from < y.to && y.from < x.to
    ensures var v, w := Project(m, loc, x), Project(m, loc, y);
      StepsDiffer(v, w) <==> Empty(v) || Empty(w)
  {
  }

  /** Where all pairs are decidable, a conflict is real in every memory: the places share
      an access path unless one of them denotes none. */
  lemma {:induction false} ConflictMeets(m: Memory, loc: Loc, a: seq<Proj>, b: seq<Proj>)
    requires loc.At? && Overlap(a, b) && AllDecidable(a, b) && SubsliceLast(a) && SubsliceLast(b)
    ensures var x, y := Locate(m, loc, a), Locate(m, loc, b);
      StepsDiffer(x, y) <==> Empty(x) || Empty(y)
    decreases |a|
  {
    if a == [] {
      LocateBelow(m, loc, b);
      BelowMeets(loc, Locate(m, loc, b));
    } else if b == [] {
      LocateBelow(m, loc, a);
      BelowMeets(loc, Locate(m, loc, a));
      StepsDifferSymmetric(loc, Locate(m, loc, a));
    } else {
      TailDecidable(a, b);
      if a[0].Subslice? {
        SliceFirst(m, loc, a, b);
      } else if b[0].Subslice? {
        OverlapSymmetric(a, b);
        SliceFirst(m, loc, b, a);
        StepsDifferSymmetric(Locate(m, loc, a), Locate(m, loc, b));
      } else {
        assert Project(m, loc, a[0]) == Project(m, loc, b[0]);
        ConflictMeets(m, Project(m, loc, a[0]), a[1..], b[1..]);
      }
    }
  }

  lemma SliceFirst(m: Memory, loc: Loc, a: seq<Proj>, b: seq<Proj>)
    requires loc.At? && a != [] && b != [] && a[0].Subslice? && Decidable(a[0], b[0]) && Overlap(a, b)
    requires SubsliceLast(a) && SubsliceLast(b)
    ensures var x, y := Locate(m, loc, a), Locate(m, loc, b);
      StepsDiffer(x, y) <==> Empty(x) || Empty(y)
  {
    assert a == [a[0]];
    LocateOne(m, loc, a[0]);
    if b[0].Subslice? {
      assert b == [b[0]];
      LocateOne(m, loc, b[0]);
      SlicesMeet(m, loc, a[0], b[0]);
    } else {
      SliceMeetsElement(m, loc, a[0], b);
    }
  }

  /** The verdict is exact for places of decidable pairs, subslices last, that denote
      something in a memory whose indices differ: conflict exactly if they share an access
      path. */
  lemma ConflictIff(m: Memory, a: Place, b: Place)
    requires a.local == b.local && AllDecidable(a.projection, b.projection)
    requires SubsliceLast(a.projection) && SubsliceLast(b.projection)
    requires !Empty(Locate(m, At([]), a.projection)) && !Empty(Locate(m, At([]), b.projection))
    requires forall k: nat :: k < |a.projection| && k < |b.projection| ==>
      IndicesDiffer(m, a.projection[k], b.projection[k])
    ensures Overlap(a.projection, b.projection)
      <==> !Disjoint(Locate(m, At([]), a.projection), Locate(m, At([]), b.projection))
  {
    var x, y := Locate(m, At([]), a.projection), Locate(m, At([]), b.projection);
    DisjointIff(x, y);
    if Overlap(a.projection, b.projection) {
      ConflictMeets(m, At([]), a.projection, b.projection);
    } else {
      NoConflictExact(m, a, b);
      assert IndicesDiffer(m, a.projection[Decider(a.projection, b.projection)],
                           b.projection[Decider(a.projection, b.projection)]);
    }
  }

  /** Where a pair is not decidable, the test answers conflict as soon as it meets it. */
  lemma GivesUp(a: seq<Proj>, b: seq<Proj>, k: nat)
    requires k < |a| && k < |b| && !Decidable(a[k], b[k]) && forall i: nat :: i < k ==> Compare(a[i], b[i]) == Go
    ensures Overlap(a, b)
  {
    OverlapIff(a, b);
  }
}

/** Layouts exactly: scalars by their bits, aggregates as the least layouts there are. */
module LayoutExact {
  import opened Words
  import opened Align
  import opened Layout
  import opened LayoutLaws
  import opened LayoutBackend

  // ----- types without parts -----

  /** The bits of a scalar: of an address, those of the target. */
  function BitWidth(tgt: Target, w: Width): nat {
    match w
    case Byte => 8
    case Two => 16
    case Four => 32
    case Eight => 64
    case Pointer => if tgt.Narrow? then 32 else 64
  }

  /** A scalar takes its bits and is aligned to its own size; a fat pointer is two
      addresses one after the other; never and unit take nothing; the others have none. */
  lemma LeavesExact(tgt: Target, w: Width)
    ensures var r := LayoutOf(tgt, Scalar(w));
      && r.Ok? && 8 * r.value.size == BitWidth(tgt, w) && r.value.align == r.value.size
      && r.value.shape == Primitive && r.value.variants == Single
    ensures var r := LayoutOf(tgt, FatPointer);
      && r.Ok? && 4 * r.value.size == BitWidth(tgt, Pointer) && 2 * r.value.align == r.value.size
      && r.value.shape.Arbitrary? && |r.value.shape.offsets| == 2 && r.value.variants == Single
      && r.value.shape.offsets[0] == 0 && r.value.shape.offsets[1] == r.value.align
    ensures LayoutOf(tgt, Never) == Ok(Layout(0, 1, Primitive, Single))
    ensures LayoutOf(tgt, Unit) == LayoutOf(tgt, Tuple([])) == LayoutOf(tgt, Struct([]))
    ensures LayoutOf(tgt, Slice) == Err(Unsized) && LayoutOf(tgt, Unresolved) == LayoutOf(tgt, Enum([]))
  {
    EmptyPacked();
  }

  // ----- parts -----

  ghost predicate FirstFails(tgt: Target, ts: seq<Type>, i: nat, e: Error) {
    i < |ts| && LayoutOf(tgt, ts[i]) == Err(e) && forall j: nat :: j < i ==> LayoutOf(tgt, ts[j]).Ok?
  }

  /** Every part gets its own layout, in order, or the first failure is reported. */
  lemma {:induction false} PartsInOrder(tgt: Target, ts: seq<Type>)
    ensures LayoutsOf(tgt, ts).Ok? ==>
      forall i: nat :: i < |ts| ==> LayoutOf(tgt, ts[i]) == Ok(LayoutsOf(tgt, ts).value[i])
    ensures LayoutsOf(tgt, ts).Err? ==> exists i: nat :: FirstFails(tgt, ts, i, LayoutsOf(tgt, ts).error)
    decreases |ts|
  {
    hide LayoutOf, FirstFails;
    if ts != [] {
      var init := ts[..|ts| - 1];
      PartsInOrder(tgt, init);
      assert forall j: nat :: j < |init| ==> init[j] == ts[j];
      var r, last := LayoutsOf(tgt, init), LayoutOf(tgt, ts[|ts| - 1]);
      if r.Err? {
        var i: nat :| FirstFails(tgt, init, i, r.error);
        FailsInLonger(tgt, ts, i, r.error);
        assert LayoutsOf(tgt, ts) == r;
      } else if last.Err? {
        FailsLast(tgt, ts, last.error);
        assert LayoutsOf(tgt, ts) == Err(last.error);
      }
    }
  }

  lemma FailsInLonger(tgt: Target, ts: seq<Type>, i: nat, e: Error)
    requires ts != [] && FirstFails(tgt, ts[..|ts| - 1], i, e)
    ensures FirstFails(tgt, ts, i, e)
  {
    hide LayoutOf;
    var init := ts[..|ts| - 1];
    assert forall j: nat :: j < |init| ==> init[j] == ts[j];
  }

  lemma FailsLast(tgt: Target, ts: seq<Type>, e: Error)
    requires ts != [] && LayoutOf(tgt, ts[|ts| - 1]) == Err(e)
    requires forall j: nat :: j < |ts| - 1 ==> LayoutOf(tgt, ts[j]).Ok?
    ensures FirstFails(tgt, ts, |ts| - 1, e)
  {
  }

  /** Every variant is packed from the layouts of its own fields. */
  lemma {:induction false} VariantsInOrder(tgt: Target, vs: seq<Variant>)
    ensures VariantsOf(tgt, vs).Ok? <==> forall i: nat :: i < |vs| ==> LayoutsOf(tgt, vs[i].fields).Ok?
    ensures VariantsOf(tgt, vs).Ok? ==> forall i: nat :: i < |vs| ==>
      VariantsOf(tgt, vs).value[i] == Packed(LayoutsOf(tgt, vs[i].fields).value)
    decreases |vs|
  {
    hide LayoutsOf, Packed;
    if vs != [] {
      var init := vs[..|vs| - 1];
      VariantsInOrder(tgt, init);
      assert forall i: nat :: i < |init| ==> init[i] == vs[i];
    }
  }

  // ----- nothing smaller -----

  lemma {:induction false} MaxAlignLeast(ls: seq<Layout>, a: nat)
    requires a > 0 && forall i: nat :: i < |ls| ==> ls[i].align <= a
    ensures MaxAlign(ls) <= a
    decreases |ls|
  {
    if ls != [] { MaxAlignLeast(ls[..|ls| - 1], a); }
  }

  lemma {:induction false} MaxSizeLeast(ls: seq<Layout>, n: nat)
    requires forall i: nat :: i < |ls| ==> ls[i].size <= n
    ensures MaxSize(ls) <= n
    decreases |ls|
  {
    if ls != [] { MaxSizeLeast(ls[..|ls| - 1], n); }
  }

  /** A size that is a multiple of a coarser alignment and at least x is at least x
      rounded up. */
  lemma RoundedLeast(x: nat, a: nat, l: Layout)
    requires WellFormed(l) && IsPow2(a) && a <= l.align && x <= l.size
    ensures a > 0 && Up(x, a) <= l.size
  {
    hide Up, IsPow2;
    AlignedDown(l.size, a, l.align);
    UpLeast(x, a, l.size);
  }

  /** The fields before i end no later than any placement puts field i. */
  lemma {:induction false} EndLeast(ls: seq<Layout>, l: Layout, i: nat)
    requires Placed(l, ls) && i <= |ls|
    ensures End(ls[..i]) <= if i < |ls| then l.shape.offsets[i] else l.size
    decreases i
  {
    hide Up;
    if i > 0 {
      var k := i - 1;
      EndLeast(ls, l, k);
      assert ls[..i][..k] == ls[..k];
      UpLeast(End(ls[..k]), ls[k].align, l.shape.offsets[k]);
    }
  }

  /** No placement of the fields in this order, aligned and disjoint, is smaller, is less
      aligned, or puts any field earlier. */
  lemma PackedLeast(ls: seq<Layout>, l: Layout)
    requires AllWellFormed(ls) && Fits(ls) && WellFormed(l) && Placed(l, ls)
    ensures Packed(ls).size <= l.size && Packed(ls).align <= l.align
    ensures forall i: nat :: i < |ls| ==> Packed(ls).shape.offsets[i] <= l.shape.offsets[i]
  {
    hide AlignTo, Up, IsPow2, Pack, End, WellFormed;
    PackExact(ls);
    MaxAlignIs(ls);
    Positive(l);
    MaxAlignLeast(ls, l.align);
    EndLeast(ls, l, |ls|);
    assert ls[..|ls|] == ls;
    AlignToRoundsUp(End(ls), MaxAlign(ls));
    RoundedLeast(End(ls), MaxAlign(ls), l);
    forall i: nat | i < |ls| ensures Packed(ls).shape.offsets[i] <= l.shape.offsets[i] {
      EndLeast(ls, l, i);
      UpLeast(End(ls[..i]), ls[i].align, l.shape.offsets[i]);
    }
  }

  lemma Positive(l: Layout)
    ensures l.align > 0
  {
  }

  /** No union of the members is smaller or less aligned. */
  lemma UnionLeast(ls: seq<Layout>, l: Layout)
    requires AllWellFormed(ls) && MaxSize(ls) + MaxAlign(ls) <= TWO64 && WellFormed(l) && OverlaidIn(l, ls)
    ensures Overlaid(ls).size <= l.size && Overlaid(ls).align <= l.align
  {
    hide AlignTo, Up, IsPow2, WellFormed;
    MaxAlignIs(ls);
    MaxAlignLeast(ls, l.align);
    MaxSizeLeast(ls, l.size);
    AlignToRoundsUp(MaxSize(ls), MaxAlign(ls));
    RoundedLeast(MaxSize(ls), MaxAlign(ls), l);
  }

  lemma SmallPowers(t: nat)
    requires IsPow2(t) && t < 8
    ensures t == 1 || t == 2 || t == 4
  {
    var k: nat :| t == Pow2(k);
    assert Pow2(0) == 1 && Pow2(1) == 2 && Pow2(2) == 4 && Pow2(3) == 8;
    if k > 3 { PowMonotone(3, k); }
  }

  /** No smaller power of two of bytes tells n variants apart. */
  lemma TagLeast(n: nat, t: nat)
    requires IsPow2(t) && n <= Pow256(t)
    ensures TagBytes(n) <= t
  {
    hide IsPow2;
    if t < 8 {
      SmallPowers(t);
      assert Pow256(1) == 0x100 && Pow256(2) == 0x1_0000;
      assert Pow256(3) == 0x100_0000 && Pow256(4) == 0x1_0000_0000;
    }
  }

  /** Some start behind a tag of t bytes where the payload is aligned and inside. */
  ghost predicate HasRoom(size: nat, t: nat, v: Layout) {
    exists s: nat :: t <= s && s % v.align == 0 && s + v.size <= size
  }

  /** No tagged layout of the variants is smaller or less aligned, wherever it puts the
      payloads behind a tag at its start. */
  lemma TaggedLeast(vs: seq<Layout>, l: Layout, t: nat)
    requires AllWellFormed(vs) && |vs| > 1 && TaggedFits(vs) && WellFormed(l)
    requires IsPow2(t) && |vs| <= Pow256(t) && t <= l.align
    requires forall i: nat :: i < |vs| ==> vs[i].align <= l.align && HasRoom(l.size, t, vs[i])
    ensures Tagged(vs).size <= l.size && Tagged(vs).align <= l.align && Tagged(vs).variants.tagBytes <= t
  {
    hide AlignTo, Up, IsPow2, TagBytes, MaxEnd, TaggedEnd, WellFormed, Pow256;
    var tag := TagBytes(|vs|);
    TagLeast(|vs|, t);
    MaxAlignIs(vs);
    Positive(l);
    MaxAlignLeast(vs, l.align);
    MaxEndExact(tag, vs);
    forall j: nat | j < |vs| ensures PayloadEnd(tag, vs[j]) <= l.size {
      var s: nat :| t <= s && s % vs[j].align == 0 && s + vs[j].size <= l.size;
      UpLeast(tag, vs[j].align, s);
    }
    TaggedEndIs(tag, vs, l.size);
    AlignToRoundsUp(MaxEnd(tag, vs), Max(tag, MaxAlign(vs)));
    RoundedLeast(TaggedEnd(tag, vs), Max(tag, MaxAlign(vs)), l);
  }

  // ----- array counts -----

  /** The number a count stands for. */
  predicate Means(c: Count, v: int) {
    (c.UintCount? && v == c.n) || (c.IntCount? && v == c.i)
  }

  /** The simple computer lays an array out exactly if its count is a number of 64 bits and
      the whole fits; a count that is no number is an unknown type. */
  lemma ArrayLaidOutIff(tgt: Target, e: Type, c: Count, l: Layout)
    requires LayoutOf(tgt, e) == Ok(l) && WellFormed(l) && l.size + l.align <= TWO64
    ensures var r := LayoutOf(tgt, Array(e, c));
      && (r.Ok? <==> exists v: nat :: Means(c, v) && v < TWO64 && l.size * v < TWO64)
      && (r.Ok? ==> Means(c, r.value.shape.count) && Elements(r.value, l, r.value.shape.count))
      && (r == Err(UnknownType) <==> forall v: int :: !Means(c, v))
  {
    hide WellFormed, AlignTo, Elements;
    match c {
      case UintCount(n) => assert Means(c, n); if n < TWO64 { ArrayPlaced(l, n); }
      case IntCount(i) => assert Means(c, i); if 0 <= i < TWO64 { ArrayPlaced(l, i); }
      case OtherCount =>
    }
  }

  /** The backend takes the count modulo 2^64 and caps the size. */
  lemma BackendArray(tgt: Target, e: Type, c: Count, l: Layout, v: int, q: int, n: U64)
    requires Plain(e) && BackendOf(tgt, e) == Ok(l) && WellFormed(l) && l.size + l.align <= TWO64
    requires Means(c, v) && v == q * TWO64 + n
    ensures var r := BackendOf(tgt, Array(e, c));
      && r.Ok? && r.value.shape == Strided(l.size, n) && r.value.align == l.align && r.value.variants == Single
      && r.value.size == if l.size * n < TWO64 then l.size * n else TWO64 - 1
  {
    hide AlignTo, Up, IsPow2;
    AlignToRoundsUp(l.size, l.align);
    UpLeast(l.size, l.align, l.size);
    DivUnique(v, TWO64, q, n);
  }
}

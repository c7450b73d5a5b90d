/** Layouts are well formed. */
module LayoutLaws {
  import opened Words
  import opened Align
  import opened Layout

  ghost predicate WellFormed(l: Layout) {
    IsPow2(l.align) && l.size % l.align == 0
  }

  ghost predicate AllWellFormed(ls: seq<Layout>) {
    forall i: nat :: i < |ls| ==> WellFormed(ls[i])
  }

  // ----- without overflow -----

  /** Where the fields end in unbounded arithmetic. */
  function End(ls: seq<Layout>): nat {
    if ls == [] then 0 else Up(End(ls[..|ls| - 1]), ls[|ls| - 1].align) + ls[|ls| - 1].size
  }

  ghost predicate Fits(ls: seq<Layout>) {
    End(ls) + MaxAlign(ls) <= TWO64
  }

  /** Where the variants end behind their tag, in unbounded arithmetic. */
  function TaggedEnd(tag: nat, vs: seq<Layout>): nat {
    if vs == [] then 0 else
    Max(TaggedEnd(tag, vs[..|vs| - 1]), Up(tag, vs[|vs| - 1].align) + vs[|vs| - 1].size)
  }

  ghost predicate TaggedFits(vs: seq<Layout>) {
    var tag := TagBytes(|vs|);
    TaggedEnd(tag, vs) + Max(tag, MaxAlign(vs)) <= TWO64 && tag + MaxAlign(vs) <= TWO64
  }

  /** No size in the layout of t or of a type inside it overflows 64 bits. */
  ghost predicate NoOverflow(tgt: Target, t: Type)
    decreases t
  {
    match t
    case Tuple(ts) => AllNoOverflow(tgt, ts) && (LayoutsOf(tgt, ts).Ok? ==> Fits(LayoutsOf(tgt, ts).value))
    case Struct(ts) => AllNoOverflow(tgt, ts) && (LayoutsOf(tgt, ts).Ok? ==> Fits(LayoutsOf(tgt, ts).value))
    case Union(ts) =>
      && AllNoOverflow(tgt, ts)
      && (LayoutsOf(tgt, ts).Ok? ==>
            var ls := LayoutsOf(tgt, ts).value; MaxSize(ls) + MaxAlign(ls) <= TWO64)
    case Array(e, _) =>
      && NoOverflow(tgt, e)
      && (LayoutOf(tgt, e).Ok? ==> var l := LayoutOf(tgt, e).value; l.size + l.align <= TWO64)
    case Enum(vs) =>
      && VariantsNoOverflow(tgt, vs)
      && (VariantsOf(tgt, vs).Ok? && |vs| > 1 ==> TaggedFits(VariantsOf(tgt, vs).value))
    case _ => true
  }

  ghost predicate AllNoOverflow(tgt: Target, ts: seq<Type>)
    decreases ts
  {
    ts == [] || (AllNoOverflow(tgt, ts[..|ts| - 1]) && NoOverflow(tgt, ts[|ts| - 1]))
  }

  ghost predicate VariantsNoOverflow(tgt: Target, vs: seq<Variant>)
    decreases vs
  {
    vs == [] ||
    (&& VariantsNoOverflow(tgt, vs[..|vs| - 1]) && AllNoOverflow(tgt, vs[|vs| - 1].fields)
     && (LayoutsOf(tgt, vs[|vs| - 1].fields).Ok? ==> Fits(LayoutsOf(tgt, vs[|vs| - 1].fields).value)))
  }

  // ----- fields in order -----

  lemma {:induction false} MaxAlignIs(ls: seq<Layout>)
    requires AllWellFormed(ls)
    ensures IsPow2(MaxAlign(ls)) && forall i: nat :: i < |ls| ==> ls[i].align <= MaxAlign(ls)
  {
    if ls == [] {
      assert Pow2(0) == 1;
    } else {
      MaxAlignIs(ls[..|ls| - 1]);
    }
  }

  /** Packing in 64 bits is packing in unbounded arithmetic. */
  lemma {:induction false} PackExact(ls: seq<Layout>)
    requires AllWellFormed(ls) && Fits(ls)
    ensures var p := Pack(ls);
      && p.end == End(ls) && p.align == MaxAlign(ls)
      && forall i: nat :: i < |ls| ==> p.offsets[i] == Up(End(ls[..i]), ls[i].align)
  {
    hide AlignTo, Up, IsPow2;
    if ls != [] {
      var init, l := ls[..|ls| - 1], ls[|ls| - 1];
      UpMeans(End(init), l.align);
      PackExact(init);
      AlignToRoundsUp(End(init), l.align);
      forall i: nat | i < |ls| ensures Pack(ls).offsets[i] == Up(End(ls[..i]), ls[i].align) {
        if i < |init| { assert init[..i] == ls[..i]; } else { assert ls[..i] == init; }
      }
    }
  }

  lemma {:induction false} EndGrows(ls: seq<Layout>, i: nat)
    requires i < |ls|
    ensures End(ls[..i]) <= Up(End(ls[..i]), ls[i].align)
    ensures Up(End(ls[..i]), ls[i].align) + ls[i].size <= End(ls)
    decreases |ls|
  {
    hide Up;
    UpMeans(End(ls[..i]), ls[i].align);
    if i < |ls| - 1 {
      var init := ls[..|ls| - 1];
      assert init[..i] == ls[..i];
      EndGrows(init, i);
      UpMeans(End(init), ls[|ls| - 1].align);
    }
  }

  /** The fields lie aligned, in order, disjoint and inside. */
  ghost predicate Placed(l: Layout, fields: seq<Layout>) {
    && l.shape.Arbitrary? && |l.shape.offsets| == |fields|
    && (forall i: nat :: i < |fields| ==>
          l.shape.offsets[i] % fields[i].align == 0 && fields[i].align <= l.align
          && l.shape.offsets[i] + fields[i].size <= l.size)
    && (forall i: nat, j: nat :: i < j < |fields| ==> l.shape.offsets[i] + fields[i].size <= l.shape.offsets[j])
  }

  lemma PackedPlaced(ls: seq<Layout>)
    requires AllWellFormed(ls) && Fits(ls)
    ensures WellFormed(Packed(ls)) && Placed(Packed(ls), ls)
  {
    hide AlignTo, Up, IsPow2, Pack, End;
    PackExact(ls);
    MaxAlignIs(ls);
    var p, l := Pack(ls), Packed(ls);
    AlignToRoundsUp(p.end, p.align);
    UpMeans(p.end, p.align);
    forall i: nat | i < |ls|
      ensures p.offsets[i] % ls[i].align == 0 && p.offsets[i] + ls[i].size <= l.size && ls[i].align <= l.align
    {
      UpMeans(End(ls[..i]), ls[i].align);
      EndGrows(ls, i);
    }
    forall i: nat, j: nat | i < j < |ls| ensures p.offsets[i] + ls[i].size <= p.offsets[j] {
      EndGrows(ls[..j], i);
      assert ls[..j][..i] == ls[..i];
      EndGrows(ls, j);
    }
  }

  /** At every address aligned for the whole, every field is aligned for itself. */
  lemma AlignedAnywhere(l: Layout, fields: seq<Layout>, base: nat, i: nat)
    requires Placed(l, fields) && AllWellFormed(fields) && WellFormed(l) && i < |fields| && base % l.align == 0
    ensures (base + l.shape.offsets[i]) % fields[i].align == 0
  {
    hide IsPow2;
    AlignedDown(base, fields[i].align, l.align);
    SumMultiple(base, l.shape.offsets[i], fields[i].align);
  }

  // ----- unions, arrays -----

  /** Every member of a union lies at its start and inside. */
  ghost predicate OverlaidIn(l: Layout, fields: seq<Layout>) {
    && l.shape.Arbitrary? && |l.shape.offsets| == |fields|
    && forall i: nat :: i < |fields| ==>
         l.shape.offsets[i] == 0 && fields[i].align <= l.align && fields[i].size <= l.size
  }

  lemma {:induction false} MaxSizeIs(ls: seq<Layout>)
    ensures forall i: nat :: i < |ls| ==> ls[i].size <= MaxSize(ls)
  {
    if ls != [] { MaxSizeIs(ls[..|ls| - 1]); }
  }

  lemma UnionPlaced(ls: seq<Layout>)
    requires AllWellFormed(ls) && MaxSize(ls) + MaxAlign(ls) <= TWO64
    ensures WellFormed(Overlaid(ls)) && OverlaidIn(Overlaid(ls), ls)
  {
    hide AlignTo, Up, IsPow2;
    MaxAlignIs(ls);
    MaxSizeIs(ls);
    AlignToRoundsUp(MaxSize(ls), MaxAlign(ls));
    UpMeans(MaxSize(ls), MaxAlign(ls));
  }

  /** Elements one size apart, each aligned, together exactly the whole. */
  ghost predicate Elements(l: Layout, elem: Layout, n: U64) {
    && l.shape == Strided(elem.size, n) && l.size == elem.size * n && l.align == elem.align
    && forall i: nat :: i < n ==> Inside(l, elem, i)
  }

  ghost predicate Inside(l: Layout, elem: Layout, i: nat) {
    i * elem.size % elem.align == 0 && i * elem.size + elem.size <= l.size
  }

  lemma ArrayPlaced(elem: Layout, n: U64)
    requires WellFormed(elem) && elem.size + elem.align <= TWO64
    ensures Repeated(elem, n).Ok? <==> elem.size * n < TWO64
    ensures Repeated(elem, n).Ok? ==> WellFormed(Repeated(elem, n).value) && Elements(Repeated(elem, n).value, elem, n)
  {
    hide AlignTo, Up, IsPow2;
    AlignToRoundsUp(elem.size, elem.align);
    UpLeast(elem.size, elem.align, elem.size);
    ProductMultiple(elem.size, n, elem.align);
    if elem.size * n < TWO64 {
      var l := Repeated(elem, n).value;
      forall i: nat | i < n ensures Inside(l, elem, i) {
        ProductMultiple(elem.size, i, elem.align);
        ProductsKeepOrder(i + 1, n, elem.size);
        assert i * elem.size == elem.size * i && (i + 1) * elem.size == i * elem.size + elem.size;
      }
    }
  }

  // ----- enumerations -----

  /** Where the payload of a variant starts: behind the tag, aligned for the variant. */
  function PayloadStart(tag: U64, v: Layout): U64 {
    AlignTo(tag, v.align)
  }

  /** The tag can hold every variant index; every payload lies behind it, aligned and
      inside. */
  ghost predicate TaggedIn(l: Layout, vs: seq<Layout>) {
    && l.variants.Multiple? && l.variants.variants == vs
    && var tag := l.variants.tagBytes;
    && (|vs| <= TWO64 ==> |vs| <= Pow256(tag)) && tag <= l.size && tag <= l.align
    && forall i: nat :: i < |vs| ==> PayloadIn(l, tag, vs[i])
  }

  ghost predicate PayloadIn(l: Layout, tag: U64, v: Layout) {
    var start := PayloadStart(tag, v);
    tag <= start && start % v.align == 0 && start + v.size <= l.size && v.align <= l.align
  }

  lemma TagHolds(n: nat)
    requires n <= TWO64
    ensures n <= Pow256(TagBytes(n))
  {
    assert Pow256(1) == 0x100 && Pow256(2) == 0x1_0000;
    assert Pow256(3) == 0x100_0000 && Pow256(4) == 0x1_0000_0000;
    assert Pow256(5) == 0x100_0000_0000 && Pow256(6) == 0x1_0000_0000_0000;
    assert Pow256(7) == 0x100_0000_0000_0000 && Pow256(8) == TWO64;
  }

  lemma {:induction false} MaxEndExact(tag: Align, vs: seq<Layout>)
    requires AllWellFormed(vs) && TaggedEnd(tag, vs) < TWO64 && tag + MaxAlign(vs) <= TWO64
    ensures MaxEnd(tag, vs) == TaggedEnd(tag, vs)
    ensures forall i: nat :: i < |vs| ==>
      PayloadStart(tag, vs[i]) == Up(tag, vs[i].align) && Up(tag, vs[i].align) + vs[i].size <= TaggedEnd(tag, vs)
  {
    hide AlignTo, Up, IsPow2;
    if vs != [] {
      var init, v := vs[..|vs| - 1], vs[|vs| - 1];
      MaxEndExact(tag, init);
      AlignToRoundsUp(tag, v.align);
      forall i: nat | i < |vs|
        ensures PayloadStart(tag, vs[i]) == Up(tag, vs[i].align)
        ensures Up(tag, vs[i].align) + vs[i].size <= TaggedEnd(tag, vs)
      {
        if i < |init| { assert init[i] == vs[i]; }
      }
    }
  }

  lemma TaggedPlaced(vs: seq<Layout>)
    requires AllWellFormed(vs) && |vs| > 1 && TaggedFits(vs)
    ensures WellFormed(Tagged(vs)) && TaggedIn(Tagged(vs), vs)
  {
    hide AlignTo, Up, IsPow2, TagBytes, MaxEnd, TaggedEnd, Pow256;
    var tag := TagBytes(|vs|);
    var end, align := MaxEnd(tag, vs), Max(tag, MaxAlign(vs));
    MaxAlignIs(vs);
    MaxEndExact(tag, vs);
    AlignToRoundsUp(end, align);
    UpMeans(end, align);
    if |vs| <= TWO64 { TagHolds(|vs|); }
    forall i: nat | i < |vs| ensures PayloadIn(Tagged(vs), tag, vs[i]) {
      UpMeans(tag, vs[i].align);
    }
    assert PayloadIn(Tagged(vs), tag, vs[0]);
  }

  /** Where a payload ends when it is placed behind the tag on its own. */
  function PayloadEnd(tag: nat, v: Layout): nat {
    Up(tag, v.align) + v.size
  }

  lemma {:induction false} TaggedEndIs(tag: nat, vs: seq<Layout>, bound: nat)
    ensures TaggedEnd(tag, vs) <= bound <==> forall j: nat :: j < |vs| ==> PayloadEnd(tag, vs[j]) <= bound
  {
    hide Up;
    if vs != [] {
      var init := vs[..|vs| - 1];
      TaggedEndIs(tag, init, bound);
      assert forall j: nat :: j < |init| ==> init[j] == vs[j];
      assert vs[|vs| - 1] == vs[|init|];
    }
  }

  lemma MultiplesApart(x: nat, y: nat, a: nat)
    requires a > 0 && x % a == 0 && y % a == 0 && x < y
    ensures x + a <= y
  {
    var p, q := x / a, y / a;
    assert x == p * a && y == q * a;
    FactorLess(p, q, a);
    ProductsKeepOrder(p + 1, q, a);
    assert (p + 1) * a == p * a + a;
  }

  lemma UpSmall(t: nat, a: nat)
    requires 0 < t <= a
    ensures Up(t, a) == a
  {
    DivUnique(t + a - 1, a, 1, t - 1);
  }

  /** Behind a tag at least as large as every alignment, payloads follow at once. */
  lemma UpUnder(t: nat, a: nat)
    requires IsPow2(t) && IsPow2(a) && a <= t
    ensures a > 0 && Up(t, a) == t
  {
    PowDivides(a, t);
    UpLeast(t, a, t);
  }

  /** The multiple of a above e leaves room for a further s exactly if e passes the
      multiple of a above s. */
  lemma RoomAbove(e: nat, s: nat, a: nat)
    requires a > 0
    ensures a + s <= Up(e, a) <==> e > Up(s, a)
  {
    hide Up;
    UpMeans(e, a);
    UpMeans(s, a);
    if e > Up(s, a) {
      MultiplesApart(Up(s, a), Up(e, a), a);
    } else {
      UpLeast(e, a, Up(s, a));
    }
  }

  /** A tagged enumeration also records one payload offset for all variants, aligned for
      each of them. Variant i fits there exactly if the tag is no smaller than any
      alignment, or some variant ends past the size of i rounded up to the greatest
      alignment. */
  lemma SharedOffsetFitsIff(vs: seq<Layout>, i: nat)
    requires AllWellFormed(vs) && |vs| > 1 && TaggedFits(vs) && i < |vs|
    ensures Tagged(vs).shape.offsets[1] + vs[i].size <= Tagged(vs).size <==>
      (|| MaxAlign(vs) <= TagBytes(|vs|)
       || exists j: nat :: j < |vs| && PayloadEnd(TagBytes(|vs|), vs[j]) > Up(vs[i].size, MaxAlign(vs)))
  {
    hide AlignTo, Up, IsPow2, TagBytes, MaxEnd, TaggedEnd, MaxAlign;
    var tag, a := TagBytes(|vs|), MaxAlign(vs);
    MaxAlignIs(vs);
    MaxEndExact(tag, vs);
    AlignToRoundsUp(tag, a);
    AlignToRoundsUp(MaxEnd(tag, vs), Max(tag, a));
    if a <= tag {
      UpUnder(tag, a);
      UpUnder(tag, vs[i].align);
      UpMeans(MaxEnd(tag, vs), tag);
    } else {
      UpSmall(tag, a);
      RoomAbove(TaggedEnd(tag, vs), vs[i].size, a);
      TaggedEndIs(tag, vs, Up(vs[i].size, a));
    }
  }

  // ----- every type -----

  /** What the layout of a type says about the types inside it. */
  ghost predicate Shaped(tgt: Target, t: Type, l: Layout)
    requires LayoutOf(tgt, t) == Ok(l)
  {
    match t
    case Tuple(ts) => LayoutsOf(tgt, ts).Ok? && Placed(l, LayoutsOf(tgt, ts).value)
    case Struct(ts) => LayoutsOf(tgt, ts).Ok? && Placed(l, LayoutsOf(tgt, ts).value)
    case Union(ts) => LayoutsOf(tgt, ts).Ok? && OverlaidIn(l, LayoutsOf(tgt, ts).value)
    case Array(e, c) =>
      LayoutOf(tgt, e).Ok? && ArrayCount(c).Ok? && Elements(l, LayoutOf(tgt, e).value, ArrayCount(c).value)
    case Enum(vs) =>
      if |vs| == 1 then
        LayoutsOf(tgt, vs[0].fields).Ok? && Placed(l, LayoutsOf(tgt, vs[0].fields).value)
      else VariantsOf(tgt, vs).Ok? && TaggedIn(l, VariantsOf(tgt, vs).value)
    case _ => l.size <= 16
  }

  lemma OneVariant(tgt: Target, v: Variant)
    ensures VariantsOf(tgt, [v])
      == match LayoutsOf(tgt, v.fields) { case Err(e) => Err(e) case Ok(ls) => Ok([Packed(ls)]) }
  {
    assert [v][..0] == [];
    assert VariantsOf(tgt, [v][..0]) == Ok([]);
    if LayoutsOf(tgt, v.fields).Ok? {
      var l := Packed(LayoutsOf(tgt, v.fields).value);
      assert [] + [l] == [l];
    }
  }

  lemma ScalarWellFormed(tgt: Target, t: Type)
    requires t.Scalar? || t.Never? || t.Unit? || t.FatPointer?
    ensures WellFormed(LayoutOf(tgt, t).value) && LayoutOf(tgt, t).value.size <= 16
  {
    assert Pow2(0) == 1;
    assert Pow2(1) == 2;
    assert Pow2(2) == 4;
    assert Pow2(3) == 8;
  }

  /** By induction on types: alignments are powers of two that divide the sizes, fields
      are aligned, in order, disjoint and inside, elements fill their array, and every
      payload of a tagged enumeration has its place behind the tag. */
  lemma {:induction false} LayoutsWellFormed(tgt: Target, t: Type)
    requires NoOverflow(tgt, t) && LayoutOf(tgt, t).Ok?
    ensures WellFormed(LayoutOf(tgt, t).value) && Shaped(tgt, t, LayoutOf(tgt, t).value)
    decreases t
  {
    hide WellFormed, Packed, Overlaid, Tagged, Fits, TaggedFits, Placed, Elements, OverlaidIn, TaggedIn;
    match t {
      case Tuple(ts) =>
        AllLaidOut(tgt, ts);
        PackedPlaced(LayoutsOf(tgt, ts).value);
      case Struct(ts) =>
        AllLaidOut(tgt, ts);
        PackedPlaced(LayoutsOf(tgt, ts).value);
      case Union(ts) =>
        AllLaidOut(tgt, ts);
        UnionPlaced(LayoutsOf(tgt, ts).value);
      case Array(e, c) =>
        LayoutsWellFormed(tgt, e);
        ArrayPlaced(LayoutOf(tgt, e).value, ArrayCount(c).value);
      case Enum(vs) =>
        VariantsLaidOut(tgt, vs);
        var ls := VariantsOf(tgt, vs).value;
        if |vs| == 1 {
          OneVariant(tgt, vs[0]);
          assert vs == [vs[0]];
          AllLaidOut(tgt, vs[0].fields);
          PackedPlaced(LayoutsOf(tgt, vs[0].fields).value);
        } else {
          TaggedPlaced(ls);
        }
      case _ => ScalarWellFormed(tgt, t);
    }
  }

  lemma {:induction false} AllLaidOut(tgt: Target, ts: seq<Type>)
    requires AllNoOverflow(tgt, ts) && LayoutsOf(tgt, ts).Ok?
    ensures AllWellFormed(LayoutsOf(tgt, ts).value)
    decreases ts
  {
    hide WellFormed;
    if ts != [] {
      AllLaidOut(tgt, ts[..|ts| - 1]);
      LayoutsWellFormed(tgt, ts[|ts| - 1]);
    }
  }

  lemma {:induction false} VariantsLaidOut(tgt: Target, vs: seq<Variant>)
    requires VariantsNoOverflow(tgt, vs) && VariantsOf(tgt, vs).Ok?
    ensures AllWellFormed(VariantsOf(tgt, vs).value)
    decreases vs
  {
    hide WellFormed, Packed, Fits;
    if vs != [] {
      VariantsLaidOut(tgt, vs[..|vs| - 1]);
      AllLaidOut(tgt, vs[|vs| - 1].fields);
      PackedPlaced(LayoutsOf(tgt, vs[|vs| - 1].fields).value);
    }
  }
}

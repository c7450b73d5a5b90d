/** Type layouts (crates/glyim-layout/src/lib.rs). Enumerations are those that
    get a direct tag; niche encoding is not modelled. */
module Layout {
  import opened Words
  import opened Align

  datatype Width = Byte | Two | Four | Eight | Pointer

  datatype Count = UintCount(n: nat) | IntCount(i: int) | OtherCount

  datatype Variant = Variant(fields: seq<Type>)

  datatype Type =
    | Scalar(width: Width)
    | Never
    | Unit
    | FatPointer
    | Tuple(elems: seq<Type>)
    | Array(elem: Type, count: Count)
    | Struct(fields: seq<Type>)
    | Union(fields: seq<Type>)
    | Enum(variants: seq<Variant>)
    | Slice
    | Unresolved

  datatype Shape = Primitive | Strided(stride: U64, count: U64) | Arbitrary(offsets: seq<U64>)

  datatype Variants = Single | Multiple(tagBytes: U64, variants: seq<Layout>)

  datatype Layout = Layout(size: U64, align: Align, shape: Shape, variants: Variants)

  datatype Error = UnknownType | SizeOverflow | Unsized

  datatype Result<+T> = Ok(value: T) | Err(error: Error)

  /** Pointer size and alignment of a target. */
  datatype Target = Narrow | Wide {
    function Ptr(): U64 { if Narrow? then 4 else 8 }
  }

  const UNIT: Layout := Layout(0, 1, Arbitrary([]), Single)

  function Bytes(tgt: Target, w: Width): (r: Align)
    ensures r < 16
  {
    match w
    case Byte => 1 case Two => 2 case Four => 4 case Eight => 8
    case Pointer => tgt.Ptr()
  }

  function SatAdd(x: U64, y: U64): U64 {
    if x + y < TWO64 then x + y else TWO64 - 1
  }

  function Max(x: nat, y: nat): nat {
    if x < y then y else x
  }

  // ----- fields one after the other -----

  datatype Packing = Packing(offsets: seq<U64>, align: Align, end: U64)

  function Pack(ls: seq<Layout>): (p: Packing)
    ensures |p.offsets| == |ls|
  {
    if ls == [] then Packing([], 1, 0) else
    var p, l := Pack(ls[..|ls| - 1]), ls[|ls| - 1];
    var off := AlignTo(p.end, l.align);
    Packing(p.offsets + [off], Max(p.align, l.align), SatAdd(off, l.size))
  }

  function Packed(ls: seq<Layout>): Layout {
    var p := Pack(ls);
    Layout(AlignTo(p.end, p.align), p.align, Arbitrary(p.offsets), Single)
  }

  function MaxSize(ls: seq<Layout>): U64 {
    if ls == [] then 0 else Max(MaxSize(ls[..|ls| - 1]), ls[|ls| - 1].size)
  }

  function MaxAlign(ls: seq<Layout>): Align {
    if ls == [] then 1 else Max(MaxAlign(ls[..|ls| - 1]), ls[|ls| - 1].align)
  }

  function Overlaid(ls: seq<Layout>): Layout {
    Layout(AlignTo(MaxSize(ls), MaxAlign(ls)), MaxAlign(ls), Arbitrary(seq(|ls|, i => 0)), Single)
  }

  // ----- enumerations -----

  /** The size of the tag, which is also its alignment. */
  function TagBytes(n: nat): (r: Align)
    ensures IsPow2(r) && r <= 8
  {
    assert Pow2(1) == 2 && Pow2(2) == 4 && Pow2(3) == 8;
    assert Pow2(0) == 1;
    if n <= 0x100 then 1 else if n <= 0x1_0000 then 2 else if n <= 0x1_0000_0000 then 4 else 8
  }

  /** Where the largest variant ends when each is placed behind the tag. */
  function MaxEnd(tag: U64, vs: seq<Layout>): U64 {
    if vs == [] then 0 else
    var v := vs[|vs| - 1];
    Max(MaxEnd(tag, vs[..|vs| - 1]), SatAdd(AlignTo(tag, v.align), v.size))
  }

  function Tagged(vs: seq<Layout>): Layout {
    var tag := TagBytes(|vs|);
    var align := Max(tag, MaxAlign(vs));
    Layout(AlignTo(MaxEnd(tag, vs), align), align, Arbitrary([0, AlignTo(tag, MaxAlign(vs))]), Multiple(tag, vs))
  }

  // ----- all types -----

  function ArrayCount(c: Count): Result<U64> {
    match c
    case UintCount(n) => if n < TWO64 then Ok(n) else Err(SizeOverflow)
    case IntCount(i) => if 0 <= i < TWO64 then Ok(i) else Err(SizeOverflow)
    case OtherCount => Err(UnknownType)
  }

  function Repeated(l: Layout, n: U64): Result<Layout> {
    var stride := AlignTo(l.size, l.align);
    if stride * n < TWO64 then Ok(Layout(stride * n, l.align, Strided(stride, n), Single)) else Err(SizeOverflow)
  }

  function LayoutOf(tgt: Target, t: Type): Result<Layout>
    decreases t
  {
    match t
    case Scalar(w) => Ok(Layout(Bytes(tgt, w), Bytes(tgt, w), Primitive, Single))
    case Never => Ok(Layout(0, 1, Primitive, Single))
    case Unit => Ok(UNIT)
    case FatPointer => Ok(Layout(2 * tgt.Ptr(), tgt.Ptr(), Arbitrary([0, tgt.Ptr()]), Single))
    case Tuple(ts) => (
      match LayoutsOf(tgt, ts)
      case Err(e) => Err(e)
      case Ok(ls) => Ok(Packed(ls)))
    case Array(elem, c) => (
      match LayoutOf(tgt, elem)
      case Err(e) => Err(e)
      case Ok(l) =>
        match ArrayCount(c)
        case Err(e) => Err(e)
        case Ok(n) => Repeated(l, n))
    case Struct(ts) => (
      match LayoutsOf(tgt, ts)
      case Err(e) => Err(e)
      case Ok(ls) => Ok(Packed(ls)))
    case Union(ts) => (
      match LayoutsOf(tgt, ts)
      case Err(e) => Err(e)
      case Ok(ls) => Ok(Overlaid(ls)))
    case Enum(vs) =>
      if vs == [] then Err(UnknownType) else (
      match VariantsOf(tgt, vs)
      case Err(e) => Err(e)
      case Ok(ls) => Ok(if |vs| == 1 then ls[0] else Tagged(ls)))
    case Slice => Err(Unsized)
    case Unresolved => Err(UnknownType)
  }

  /** The layouts of all, or the first error. */
  function LayoutsOf(tgt: Target, ts: seq<Type>): (r: Result<seq<Layout>>)
    ensures r.Ok? ==> |r.value| == |ts|
    decreases ts
  {
    if ts == [] then Ok([]) else
    match LayoutsOf(tgt, ts[..|ts| - 1])
    case Err(e) => Err(e)
    case Ok(ls) =>
      match LayoutOf(tgt, ts[|ts| - 1])
      case Err(e) => Err(e)
      case Ok(l) => Ok(ls + [l])
  }

  function VariantsOf(tgt: Target, vs: seq<Variant>): (r: Result<seq<Layout>>)
    ensures r.Ok? ==> |r.value| == |vs|
    decreases vs
  {
    if vs == [] then Ok([]) else
    match VariantsOf(tgt, vs[..|vs| - 1])
    case Err(e) => Err(e)
    case Ok(ls) =>
      match LayoutsOf(tgt, vs[|vs| - 1].fields)
      case Err(e) => Err(e)
      case Ok(fs) => Ok(ls + [Packed(fs)])
  }

  // ----- the computer -----

  /** Struct, tuple and variant fields: lays each out and places it at once. */
  method ComputePacked(tgt: Target, ts: seq<Type>) returns (r: Result<Layout>)
    ensures r == match LayoutsOf(tgt, ts) { case Err(e) => Err(e) case Ok(ls) => Ok(Packed(ls)) }
    decreases ts, 0
  {
    hide AlignTo, SatAdd;
    var offsets: seq<U64>, align: Align, end: U64 := [], 1, 0;
    ghost var done: seq<Layout> := [];
    for i := 0 to |ts|
      invariant LayoutsOf(tgt, ts[..i]) == Ok(done) && Pack(done) == Packing(offsets, align, end)
    {
      var f := Compute(tgt, ts[i]);
      assert ts[..i + 1][..i] == ts[..i];
      if f.Err? {
        ErrStays(tgt, ts, i);
        return Err(f.error);
      }
      align := Max(align, f.value.align);
      end := AlignTo(end, f.value.align);
      offsets := offsets + [end];
      end := SatAdd(end, f.value.size);
      done := done + [f.value];
      assert done[..|done| - 1] == done[..i];
    }
    assert ts[..|ts|] == ts;
    r := Ok(Layout(AlignTo(end, align), align, Arbitrary(offsets), Single));
  }

  lemma {:induction false} ErrStays(tgt: Target, ts: seq<Type>, i: nat)
    requires i < |ts| && LayoutsOf(tgt, ts[..i + 1]).Err?
    ensures LayoutsOf(tgt, ts) == LayoutsOf(tgt, ts[..i + 1])
  {
    if i + 1 == |ts| {
      assert ts[..i + 1] == ts;
    } else {
      assert ts[..|ts| - 1][..i + 1] == ts[..i + 1];
      ErrStays(tgt, ts[..|ts| - 1], i);
    }
  }

  method ComputeUnion(tgt: Target, ts: seq<Type>) returns (r: Result<Layout>)
    ensures r == match LayoutsOf(tgt, ts) { case Err(e) => Err(e) case Ok(ls) => Ok(Overlaid(ls)) }
    decreases ts, 0
  {
    hide AlignTo;
    var offsets: seq<U64>, align: Align, size: U64 := [], 1, 0;
    ghost var done: seq<Layout> := [];
    for i := 0 to |ts|
      invariant LayoutsOf(tgt, ts[..i]) == Ok(done) && MaxSize(done) == size && MaxAlign(done) == align
      invariant offsets == seq(i, j => 0)
    {
      var f := Compute(tgt, ts[i]);
      assert ts[..i + 1][..i] == ts[..i];
      if f.Err? {
        ErrStays(tgt, ts, i);
        return Err(f.error);
      }
      align := Max(align, f.value.align);
      size := Max(size, f.value.size);
      offsets := offsets + [0];
      done := done + [f.value];
      assert done[..|done| - 1] == done[..i];
    }
    assert ts[..|ts|] == ts;
    r := Ok(Layout(AlignTo(size, align), align, Arbitrary(offsets), Single));
  }

  method ComputeEnum(tgt: Target, vs: seq<Variant>) returns (r: Result<Layout>)
    ensures r == LayoutOf(tgt, Enum(vs))
    decreases vs, 1
  {
    hide AlignTo, Packed;
    if vs == [] { return Err(UnknownType); }
    var layouts: seq<Layout> := [];
    for i := 0 to |vs|
      invariant VariantsOf(tgt, vs[..i]) == Ok(layouts)
    {
      var f := ComputePacked(tgt, vs[i].fields);
      assert vs[..i + 1][..i] == vs[..i];
      if f.Err? {
        VariantErrStays(tgt, vs, i);
        return Err(f.error);
      }
      layouts := layouts + [f.value];
    }
    assert vs[..|vs|] == vs;
    if |vs| == 1 { return Ok(layouts[0]); }
    var l := DirectTag(layouts);
    r := Ok(l);
  }

  lemma {:induction false} VariantErrStays(tgt: Target, vs: seq<Variant>, i: nat)
    requires i < |vs| && VariantsOf(tgt, vs[..i + 1]).Err?
    ensures VariantsOf(tgt, vs) == VariantsOf(tgt, vs[..i + 1])
  {
    if i + 1 == |vs| {
      assert vs[..i + 1] == vs;
    } else {
      assert vs[..|vs| - 1][..i + 1] == vs[..i + 1];
      VariantErrStays(tgt, vs[..|vs| - 1], i);
    }
  }

  method DirectTag(vs: seq<Layout>) returns (l: Layout)
    ensures l == Tagged(vs)
  {
    hide AlignTo, SatAdd;
    var tag := TagBytes(|vs|);
    var end: U64, align: Align, dataAlign: Align := 0, tag, 1;
    for i := 0 to |vs|
      invariant end == MaxEnd(tag, vs[..i]) && dataAlign == MaxAlign(vs[..i]) && align == Max(tag, dataAlign)
    {
      var v := vs[i];
      assert vs[..i + 1][..i] == vs[..i];
      align := Max(align, v.align);
      dataAlign := Max(dataAlign, v.align);
      var start := AlignTo(tag, v.align);
      end := Max(end, SatAdd(start, v.size));
    }
    assert vs[..|vs|] == vs;
    l := Layout(AlignTo(end, align), align, Arbitrary([0, AlignTo(tag, dataAlign)]), Multiple(tag, vs));
  }

  method Compute(tgt: Target, t: Type) returns (r: Result<Layout>)
    ensures r == LayoutOf(tgt, t)
    decreases t
  {
    hide AlignTo, Packed, Overlaid, LayoutsOf, VariantsOf;
    match t {
      case Scalar(w) => r := Ok(Layout(Bytes(tgt, w), Bytes(tgt, w), Primitive, Single));
      case Never => r := Ok(Layout(0, 1, Primitive, Single));
      case Unit => r := Ok(UNIT);
      case FatPointer => r := Ok(Layout(2 * tgt.Ptr(), tgt.Ptr(), Arbitrary([0, tgt.Ptr()]), Single));
      case Tuple(ts) => r := ComputePacked(tgt, ts);
      case Array(elem, c) =>
        var l := Compute(tgt, elem);
        if l.Err? { return Err(l.error); }
        var n := ArrayCount(c);
        if n.Err? { return Err(n.error); }
        r := Repeated(l.value, n.value);
      case Struct(ts) => r := ComputePacked(tgt, ts);
      case Union(ts) => r := ComputeUnion(tgt, ts);
      case Enum(vs) => r := ComputeEnum(tgt, vs);
      case Slice => r := Err(Unsized);
      case Unresolved => r := Err(UnknownType);
    }
  }
}

/** The LLVM backend's layout computer (crates/glyim-codegen-llvm/src/abi.rs)
    beside the simple one. */
module LayoutBackend {
  import opened Words
  import opened Align
  import opened Layout
  import opened LayoutLaws

  /** A count is cast to 64 bits, not checked. */
  function CastCount(c: Count): Result<U64> {
    match c
    case UintCount(n) => Ok(n % TWO64)
    case IntCount(i) => Ok(i % TWO64)
    case OtherCount => Err(UnknownType)
  }

  /** A product that does not fit is the greatest size. */
  function SatRepeated(l: Layout, n: U64): Layout {
    var stride := AlignTo(l.size, l.align);
    Layout(if stride * n < TWO64 then stride * n else TWO64 - 1, l.align, Strided(stride, n), Single)
  }

  /** Types built from anything but enumerations of two or more variants, by tuples,
      arrays and one-variant enumerations; what a struct or union holds is free. */
  predicate Plain(t: Type)
    decreases t
  {
    match t
    case Tuple(ts) => AllPlain(ts)
    case Array(e, _) => Plain(e)
    case Enum(vs) => vs == [] || (|vs| == 1 && AllPlain(vs[0].fields))
    case _ => true
  }

  predicate AllPlain(ts: seq<Type>)
    decreases ts
  {
    ts == [] || (AllPlain(ts[..|ts| - 1]) && Plain(ts[|ts| - 1]))
  }

  /** Tuples, arrays and one-variant enumerations are computed here; what else is plain
      is left to the simple computer. */
  function BackendOf(tgt: Target, t: Type): Result<Layout>
    requires Plain(t)
    decreases t
  {
    match t
    case Tuple(ts) => (
      match BackendsOf(tgt, ts)
      case Err(e) => Err(e)
      case Ok(ls) => Ok(Packed(ls)))
    case Array(elem, c) => (
      match CastCount(c)
      case Err(e) => Err(e)
      case Ok(n) =>
        match BackendOf(tgt, elem)
        case Err(e) => Err(e)
        case Ok(l) => Ok(SatRepeated(l, n)))
    case Enum(vs) =>
      if vs == [] then LayoutOf(tgt, t) else (
      match BackendsOf(tgt, vs[0].fields)
      case Err(e) => Err(e)
      case Ok(ls) => Ok(Packed(ls)))
    case _ => LayoutOf(tgt, t)
  }

  function BackendsOf(tgt: Target, ts: seq<Type>): Result<seq<Layout>>
    requires AllPlain(ts)
    decreases ts
  {
    if ts == [] then Ok([]) else
    match BackendsOf(tgt, ts[..|ts| - 1])
    case Err(e) => Err(e)
    case Ok(ls) =>
      match BackendOf(tgt, ts[|ts| - 1])
      case Err(e) => Err(e)
      case Ok(l) => Ok(ls + [l])
  }

  /** Places laid-out fields one after the other. */
  method PlaceFields(ls: seq<Layout>) returns (l: Layout)
    ensures l == Packed(ls)
  {
    hide AlignTo, SatAdd;
    var size: U64, align: Align, offsets: seq<U64> := 0, 1, [];
    for i := 0 to |ls|
      invariant Pack(ls[..i]) == Packing(offsets, align, size)
    {
      assert ls[..i + 1][..i] == ls[..i];
      var off := AlignTo(size, ls[i].align);
      offsets := offsets + [off];
      size := SatAdd(off, ls[i].size);
      align := Max(align, ls[i].align);
    }
    assert ls[..|ls|] == ls;
    l := Layout(AlignTo(size, align), align, Arbitrary(offsets), Single);
  }

  method ComputeFields(tgt: Target, ts: seq<Type>) returns (r: Result<seq<Layout>>)
    requires AllPlain(ts)
    ensures r == BackendsOf(tgt, ts)
    decreases ts, 0
  {
    hide BackendOf, Plain;
    var ls: seq<Layout> := [];
    for i := 0 to |ts|
      invariant AllPlain(ts[..i]) && BackendsOf(tgt, ts[..i]) == Ok(ls)
    {
      PlainPrefix(ts, i + 1);
      var f := ComputeBackend(tgt, ts[i]);
      assert ts[..i + 1][..i] == ts[..i];
      if f.Err? {
        ErrStays(tgt, ts, i);
        return Err(f.error);
      }
      ls := ls + [f.value];
    }
    assert ts[..|ts|] == ts;
    r := Ok(ls);
  }

  lemma {:induction false} PlainPrefix(ts: seq<Type>, i: nat)
    requires AllPlain(ts) && i <= |ts|
    ensures AllPlain(ts[..i])
  {
    hide Plain;
    if i == |ts| {
      assert ts[..i] == ts;
    } else {
      assert ts[..|ts| - 1][..i] == ts[..i];
      PlainPrefix(ts[..|ts| - 1], i);
    }
  }

  lemma {:induction false} ErrStays(tgt: Target, ts: seq<Type>, i: nat)
    requires i < |ts| && AllPlain(ts) && AllPlain(ts[..i + 1]) && BackendsOf(tgt, ts[..i + 1]).Err?
    ensures BackendsOf(tgt, ts) == BackendsOf(tgt, ts[..i + 1])
  {
    if i + 1 == |ts| {
      assert ts[..i + 1] == ts;
    } else {
      assert ts[..|ts| - 1][..i + 1] == ts[..i + 1];
      ErrStays(tgt, ts[..|ts| - 1], i);
    }
  }

  /** The fields of a tuple, or of the only variant of an enumeration. */
  method ComputePlaced(tgt: Target, ts: seq<Type>) returns (r: Result<Layout>)
    requires AllPlain(ts)
    ensures r == match BackendsOf(tgt, ts) { case Err(e) => Err(e) case Ok(ls) => Ok(Packed(ls)) }
    decreases ts, 1
  {
    hide Packed, BackendOf;
    EmptyPacked();
    if ts == [] { return Ok(UNIT); }
    var ls := ComputeFields(tgt, ts);
    if ls.Err? { return Err(ls.error); }
    var l := PlaceFields(ls.value);
    r := Ok(l);
  }

  method ComputeBackend(tgt: Target, t: Type) returns (r: Result<Layout>)
    requires Plain(t)
    ensures r == BackendOf(tgt, t)
    decreases t
  {
    hide Packed, LayoutOf, BackendsOf;
    match t {
      case Tuple(ts) => r := ComputePlaced(tgt, ts);
      case Array(elem, c) =>
        var n := CastCount(c);
        if n.Err? { return Err(n.error); }
        var l := ComputeBackend(tgt, elem);
        if l.Err? { return Err(l.error); }
        r := Ok(SatRepeated(l.value, n.value));
      case Enum(vs) =>
        if vs == [] { r := Compute(tgt, t); } else { r := ComputePlaced(tgt, vs[0].fields); }
      case _ => r := Compute(tgt, t);
    }
  }

  /** A tuple without fields is the unit layout. */
  lemma EmptyPacked()
    ensures Packed([]) == UNIT
  {
  }

  // ----- agreement -----

  /** Wherever the simple computer succeeds, the backend's gives the same layout,
      offsets and all. */
  lemma {:induction false} BackendAgrees(tgt: Target, t: Type)
    requires Plain(t) && LayoutOf(tgt, t).Ok?
    ensures BackendOf(tgt, t) == LayoutOf(tgt, t)
    decreases t
  {
    hide Packed, AlignTo, Overlaid, Tagged;
    match t {
      case Tuple(ts) => BackendsAgree(tgt, ts);
      case Array(e, _) => BackendAgrees(tgt, e);
      case Enum(vs) => OneVariant(tgt, vs[0]); assert vs == [vs[0]]; BackendsAgree(tgt, vs[0].fields);
      case _ =>
    }
  }

  lemma {:induction false} BackendsAgree(tgt: Target, ts: seq<Type>)
    requires AllPlain(ts) && LayoutsOf(tgt, ts).Ok?
    ensures BackendsOf(tgt, ts) == LayoutsOf(tgt, ts)
    decreases ts
  {
    if ts != [] {
      BackendsAgree(tgt, ts[..|ts| - 1]);
      BackendAgrees(tgt, ts[|ts| - 1]);
    }
  }

  /** An array for which the simple computer reports an overflow gets a layout from the
      backend all the same, whenever its element type has one. */
  lemma OverflowIsSaturated(tgt: Target, e: Type, c: Count)
    requires Plain(e) && LayoutOf(tgt, e).Ok? && LayoutOf(tgt, Array(e, c)) == Err(SizeOverflow)
    ensures BackendOf(tgt, Array(e, c)).Ok?
  {
    BackendAgrees(tgt, e);
  }

  // ----- tags -----

  /** The number of bits in x. */
  function BitLength(x: nat): nat {
    if x == 0 then 0 else 1 + BitLength(x / 2)
  }

  /** The backend's tag: as many whole bytes as the largest of n variant indices needs. */
  function BackendTag(n: nat): nat {
    if n <= 1 then 1 else (BitLength(n - 1) + 7) / 8
  }

  lemma {:induction false} LengthAtMost(x: nat, k: nat)
    ensures BitLength(x) <= k <==> x < Pow2(k)
    decreases k
  {
    if k > 0 && x > 0 { LengthAtMost(x / 2, k - 1); }
  }

  lemma Powers()
    ensures Pow2(8) == 0x100 && Pow2(16) == 0x1_0000 && Pow2(24) == 0x100_0000 && Pow2(32) == 0x1_0000_0000
    ensures Pow2(56) == 0x100_0000_0000_0000 && Pow2(64) == TWO64
  {
    Pow4();
    hide Pow2;
    PowAdd(2, 2);
    PowAdd(4, 4);
    PowAdd(8, 8);
    PowAdd(16, 8);
    PowAdd(16, 16);
    PowAdd(32, 24);
    PowAdd(32, 32);
  }

  /** The two computers give an enumeration of n variants a tag of the same size unless
      the backend's is of three, five, six or seven bytes. */
  lemma TagsAgreeIff(n: nat)
    requires 2 <= n <= TWO64
    ensures TagBytes(n) == BackendTag(n) <==>
      n <= 0x1_0000 || 0x100_0000 < n <= 0x1_0000_0000 || 0x100_0000_0000_0000 < n
  {
    hide BitLength, Pow2;
    Powers();
    var x := n - 1;
    LengthAtMost(x, 8);
    LengthAtMost(x, 16);
    LengthAtMost(x, 24);
    LengthAtMost(x, 32);
    LengthAtMost(x, 56);
    LengthAtMost(x, 64);
    LengthAtMost(x, 0);
    assert Pow2(0) == 1 by { PowZero(); }
  }

  lemma PowZero()
    ensures Pow2(0) == 1
  {
  }

  // ----- the backend's enumerations -----

  function Shifted(offsets: seq<U64>, d: U64): seq<U64> {
    seq(|offsets|, i requires 0 <= i < |offsets| => SatAdd(offsets[i], d))
  }

  /** All variants start right behind the tag; the offsets are the first variant's. */
  function BackendEnum(tag: Align, vs: seq<Layout>): Layout
    requires vs != [] && vs[0].shape.Arbitrary?
  {
    var start := AlignTo(tag, tag);
    Layout(AlignTo((MaxSize(vs) + start) % TWO64, MaxAlign(vs)), MaxAlign(vs),
           Arbitrary(Shifted(vs[0].shape.offsets, start)), Multiple(tag, vs))
  }

  lemma SumAlignedIff(x: nat, y: nat, a: nat)
    requires a > 0 && x % a == 0
    ensures (x + y) % a == 0 <==> y % a == 0
  {
    if y % a == 0 { SumMultiple(x, y, a); }
    if (x + y) % a == 0 {
      var p, q := x / a, (x + y) / a;
      assert y == (q - p) * a by { assert (q - p) * a == q * a - p * a; }
      ProductsKeepOrder(q + 1, q + 1, a);
      if q < p { ProductsKeepOrder(q, p, a); }
      IsMultiple(q - p, a);
    }
  }

  lemma Pow16()
    ensures Pow2(4) == 16
  {
    Pow4();
    PowAdd(2, 2);
  }

  /** What is added above bit 4 to a number below 16 is nothing. */
  lemma NoHigh(whole: nat, low: nat, high: nat, x: nat)
    requires whole == low + high * 16 && whole <= x < 16
    ensures whole == low
  {
  }

  /** Of a number below 16 only the low four bits of the other count. */
  lemma AndNibble(x: nat, z: nat, c: nat)
    requires x < 16 && z < 16
    ensures Bitwise(AndGate, x, z + c * 16, 64) == Bitwise(AndGate, x, z, 4)
  {
    hide Bitwise, Pow2;
    Pow16();
    var y := z + c * 16;
    AndAtMost(x, y, 64);
    var high := BitwiseWider(AndGate, x, y, 4, 64);
    NoHigh(Bitwise(AndGate, x, y, 64), Bitwise(AndGate, x, y, 4), high, x);
    BitwiseIgnores(AndGate, x, z, 0, c, 4);
  }

  /** Where the backend starts payloads: right behind a tag of 1, 2, 4 or 8 bytes. For the
      other sizes the mask is no mask, and it starts later. */
  function BackendStart(tag: nat): nat {
    match tag
    case 3 => 5
    case 5 => 9
    case 6 => 10
    case 7 => 9
    case other => other
  }

  lemma StartIs(tag: Align)
    requires tag <= 8
    ensures AlignTo(tag, tag) == BackendStart(tag)
  {
    hide Bitwise;
    AndNibble(2 * tag - 1, 16 - tag, TWO64 / 16 - 1);
    TagBits(tag);
  }

  lemma BitwiseCons(g: Gate, a: nat, b: nat, x: nat, y: nat, n: nat)
    requires a < 2 && b < 2
    ensures Bitwise(g, a + 2 * x, b + 2 * y, n + 1) == g.Bit(a, b) + 2 * Bitwise(g, x, y, n)
  {
    hide Bitwise, Words.Gate.Bit;
    Halved(a, x);
    Halved(b, y);
    BitwiseStep(g, a + 2 * x, b + 2 * y, n + 1);
  }

  /** The conjunction of two numbers of four bits, the lowest first. */
  lemma Nibbles(a: nat, b: nat, c: nat, d: nat, p: nat, q: nat, r: nat, s: nat)
    requires a < 2 && b < 2 && c < 2 && d < 2 && p < 2 && q < 2 && r < 2 && s < 2
    ensures Bitwise(AndGate, a + 2 * (b + 2 * (c + 2 * d)), p + 2 * (q + 2 * (r + 2 * s)), 4)
      == a * p + 2 * (b * q + 2 * (c * r + 2 * (d * s)))
  {
    hide Bitwise;
    BitwiseCons(AndGate, a, p, b + 2 * (c + 2 * d), q + 2 * (r + 2 * s), 3);
    BitwiseCons(AndGate, b, q, c + 2 * d, r + 2 * s, 2);
    BitwiseCons(AndGate, c, r, d, s, 1);
    BitwiseCons(AndGate, d, s, 0, 0, 0);
    BitwiseNone(0, 0);
  }

  lemma BitwiseNone(x: nat, y: nat)
    ensures Bitwise(AndGate, x, y, 0) == 0
  {
  }

  lemma TagBits(tag: nat)
    requires 1 <= tag <= 8
    ensures Bitwise(AndGate, 2 * tag - 1, 16 - tag, 4) == BackendStart(tag)
  {
    hide Bitwise;
    match tag {
      case 1 => Nibbles(1, 0, 0, 0, 1, 1, 1, 1);
      case 2 => Nibbles(1, 1, 0, 0, 0, 1, 1, 1);
      case 3 => Nibbles(1, 0, 1, 0, 1, 0, 1, 1);
      case 4 => Nibbles(1, 1, 1, 0, 0, 0, 1, 1);
      case 5 => Nibbles(1, 0, 0, 1, 1, 1, 0, 1);
      case 6 => Nibbles(1, 1, 0, 1, 0, 1, 0, 1);
      case 7 => Nibbles(1, 0, 1, 1, 1, 0, 0, 1);
      case _ => Nibbles(1, 1, 1, 1, 0, 0, 0, 1);
    }
  }

  lemma BackendTagBounded(n: nat)
    requires 2 <= n <= TWO64
    ensures 1 <= BackendTag(n) <= 8
  {
    hide BitLength, Pow2;
    Powers();
    LengthAtMost(n - 1, 64);
    LengthAtMost(n - 1, 0);
    PowZero();
  }

  /** A field of the first variant is aligned in the backend's enumeration exactly if its
      alignment divides the offset at which payloads start, which is the size of the tag if
      that is a power of two. */
  lemma PayloadAlignedIff(vs: seq<Layout>, fields: seq<Layout>, i: nat)
    requires 1 < |vs| <= TWO64 && Placed(vs[0], fields) && i < |fields|
    requires vs[0].shape.offsets[i] + 10 < TWO64
    ensures 1 <= BackendTag(|vs|) <= 8
    ensures BackendEnum(BackendTag(|vs|), vs).shape.offsets[i] % fields[i].align == 0
        <==> BackendStart(BackendTag(|vs|)) % fields[i].align == 0
  {
    hide AlignTo, BackendTag, MaxSize, MaxAlign;
    BackendTagBounded(|vs|);
    var tag := BackendTag(|vs|);
    StartIs(tag);
    SumAlignedIff(vs[0].shape.offsets[i], BackendStart(tag), fields[i].align);
  }

  // ----- sizes and alignments of the two enumerations -----

  lemma {:induction false} EndsPastTag(tag: nat, vs: seq<Layout>)
    requires vs != []
    ensures TaggedEnd(tag, vs) >= MaxSize(vs) + tag
  {
    hide Up;
    var init, v := vs[..|vs| - 1], vs[|vs| - 1];
    UpMeans(tag, v.align);
    if init != [] {
      EndsPastTag(tag, init);
    } else {
      assert MaxSize(init) == 0;
    }
  }

  lemma UpEquals(e: nat, m: nat, z: nat)
    requires m > 0 && z < e + m
    ensures Up(e, m) == z <==> z % m == 0 && e <= z
  {
    hide Up;
    UpMeans(e, m);
    if z % m == 0 && e <= z {
      UpLeast(e, m, z);
      if Up(e, m) < z { MultiplesApart(Up(e, m), z, m); }
    }
  }

  /** For variant counts with the same tag in both computers: the alignments of the two
      enumerations agree exactly if no alignment is below the tag's, and the sizes exactly
      if the backend's size is a multiple of the simple computer's alignment and every
      payload ends inside it. */
  lemma EnumsAgreeIff(vs: seq<Layout>)
    requires AllWellFormed(vs) && |vs| > 1 && TaggedFits(vs) && vs[0].shape.Arbitrary?
    requires BackendTag(|vs|) == TagBytes(|vs|)
    ensures var tag, a := TagBytes(|vs|), MaxAlign(vs);
      var z := Up(MaxSize(vs) + tag, a);
      && (BackendEnum(tag, vs).align == Tagged(vs).align <==> tag <= a)
      && BackendEnum(tag, vs).size == z
      && (z == Tagged(vs).size <==>
            z % Max(tag, a) == 0 && forall j: nat :: j < |vs| ==> PayloadEnd(tag, vs[j]) <= z)
  {
    hide Tagged, BackendEnum, Up, IsPow2, TagBytes, TaggedEnd, MaxAlign, MaxSize, BackendTag, PayloadEnd, Max;
    var tag, a := TagBytes(|vs|), MaxAlign(vs);
    MaxIs(tag, a);
    var e, m, z := TaggedEnd(tag, vs), Max(tag, a), Up(MaxSize(vs) + tag, a);
    EndsPastTag(tag, vs);
    TaggedIs(vs);
    BackendEnumIs(tag, vs);
    UpMeans(MaxSize(vs) + tag, a);
    UpEquals(e, m, z);
    TaggedEndIs(tag, vs, z);
  }

  lemma MaxIs(x: nat, y: nat)
    ensures Max(x, y) >= x && Max(x, y) >= y && (Max(x, y) == y <==> x <= y)
  {
  }

  lemma TaggedIs(vs: seq<Layout>)
    requires AllWellFormed(vs) && |vs| > 1 && TaggedFits(vs)
    ensures var tag, a := TagBytes(|vs|), MaxAlign(vs);
      && Tagged(vs).align == Max(tag, a) && Tagged(vs).size == Up(TaggedEnd(tag, vs), Max(tag, a))
      && TaggedEnd(tag, vs) + Max(tag, a) <= TWO64 && IsPow2(tag) && IsPow2(a)
  {
    hide AlignTo, Up, IsPow2, TagBytes, MaxEnd, TaggedEnd, MaxAlign;
    var tag, a := TagBytes(|vs|), MaxAlign(vs);
    MaxAlignIs(vs);
    MaxEndExact(tag, vs);
    AlignToRoundsUp(TaggedEnd(tag, vs), Max(tag, a));
  }

  lemma BackendEnumIs(tag: Align, vs: seq<Layout>)
    requires vs != [] && vs[0].shape.Arbitrary? && IsPow2(tag) && IsPow2(MaxAlign(vs))
    requires MaxSize(vs) + tag + MaxAlign(vs) <= TWO64 && tag + tag <= TWO64
    ensures BackendEnum(tag, vs).align == MaxAlign(vs)
    ensures BackendEnum(tag, vs).size == Up(MaxSize(vs) + tag, MaxAlign(vs))
  {
    hide AlignTo, Up, IsPow2, MaxAlign, MaxSize;
    AlignToRoundsUp(tag, tag);
    DivUnique(tag, tag, 1, 0);
    UpLeast(tag, tag, tag);
    AlignToRoundsUp(MaxSize(vs) + tag, MaxAlign(vs));
  }

  lemma Rounded()
    ensures AlignTo(0, 8) == 0 && AlignTo(8, 8) == 8 && AlignTo(1, 8) == 8 && AlignTo(16, 8) == 16
    ensures AlignTo(1, 1) == 1
  {
    hide AlignTo;
    assert Pow2(0) == 1;
    assert Pow2(3) == 8;
    AlignToRoundsUp(0, 8);
    AlignToRoundsUp(8, 8);
    AlignToRoundsUp(1, 8);
    AlignToRoundsUp(16, 8);
    AlignToRoundsUp(1, 1);
  }

  const EIGHT: Layout := Layout(8, 8, Primitive, Single)

  const WRAPPED: Layout := Layout(8, 8, Arbitrary([0]), Single)

  lemma OnePacked()
    ensures Packed([EIGHT]) == WRAPPED
  {
    hide AlignTo;
    Rounded();
    assert [EIGHT][..0] == [];
    assert Pack([]) == Packing([], 1, 0);
    assert Pack([EIGHT]) == Packing([0], 8, 8);
  }

  /** The payload of an enumeration of a 64-bit integer and an empty variant: the simple
      computer puts it at 8, the backend at 1, where it is not aligned. */
  lemma PayloadMisaligned()
    ensures Packed([EIGHT]) == WRAPPED && Packed([]) == UNIT
    ensures Tagged([WRAPPED, UNIT]).shape == Arbitrary([0, 8])
    ensures BackendTag(2) == 1 && BackendEnum(1, [WRAPPED, UNIT]).shape == Arbitrary([1])
  {
    hide AlignTo;
    Rounded();
    OnePacked();
    EmptyPacked();
    var vs := [WRAPPED, UNIT];
    assert vs[..1] == [WRAPPED] && [WRAPPED][..0] == [];
    assert MaxAlign([]) == 1;
    assert MaxAlign([WRAPPED]) == 8;
    assert MaxAlign(vs) == 8;
    assert BitLength(1) == 1 by { assert BitLength(0) == 0; }
  }

  const BYTE: Layout := Layout(1, 1, Primitive, Single)

  function Bytes_(n: nat): seq<Type> { seq(n, i => Scalar(Byte)) }

  lemma {:induction false} BytesLaidOut(tgt: Target, n: nat)
    ensures LayoutsOf(tgt, Bytes_(n)) == Ok(seq(n, i => BYTE))
  {
    if n == 0 {
      assert Bytes_(0) == [] && seq(0, i => BYTE) == [];
    } else {
      BytesLaidOut(tgt, n - 1);
      assert Bytes_(n)[..n - 1] == Bytes_(n - 1);
      assert seq(n, i => BYTE) == seq(n - 1, i => BYTE) + [BYTE];
    }
  }

  lemma AlignToOne(s: U64)
    ensures AlignTo(s, 1) == s
  {
    hide AlignTo;
    assert Pow2(0) == 1;
    AlignToRoundsUp(s, 1);
  }

  lemma {:induction false} BytesPacked(n: U64)
    ensures Pack(seq(n, i => BYTE)) == Packing(seq(n, i requires 0 <= i < n => i), 1, n)
  {
    hide AlignTo;
    if n > 0 {
      BytesPacked(n - 1);
      AlignToOne(n - 1);
      var ls: seq<Layout> := seq(n, i => BYTE);
      assert ls[..n - 1] == seq(n - 1, i => BYTE);
    }
  }

  const NINE: Layout := Layout(9, 1, Arbitrary([0, 1, 2, 3, 4, 5, 6, 7, 8]), Single)

  lemma NineLaidOut(tgt: Target)
    ensures LayoutsOf(tgt, Bytes_(9)).Ok? && Packed(LayoutsOf(tgt, Bytes_(9)).value) == NINE
  {
    hide AlignTo, Pack, LayoutsOf;
    BytesLaidOut(tgt, 9);
    BytesPacked(9);
    AlignToOne(9);
    assert seq(9, i requires 0 <= i < 9 => i) == [0, 1, 2, 3, 4, 5, 6, 7, 8];
  }

  lemma EightLaidOut(tgt: Target)
    ensures LayoutsOf(tgt, [Scalar(Eight)]) == Ok([EIGHT])
  {
    assert [Scalar(Eight)][..0] == [];
    assert LayoutsOf(tgt, [Scalar(Eight)][..0]) == Ok([]);
    assert [] + [EIGHT] == [EIGHT];
  }

  lemma TaggedNine()
    ensures Tagged([NINE, WRAPPED]).size == 16 && Tagged([NINE, WRAPPED]).shape == Arbitrary([0, 8])
  {
    hide AlignTo;
    Rounded();
    var vs := [NINE, WRAPPED];
    assert vs[..1] == [NINE] && [NINE][..0] == [];
    assert MaxAlign([]) == 1 && MaxEnd(1, []) == 0;
    assert MaxAlign([NINE]) == 1 && MaxEnd(1, [NINE]) == 10;
    assert MaxAlign(vs) == 8 && MaxEnd(1, vs) == 16;
  }

  lemma TwoVariants(tgt: Target, v: Variant, w: Variant, ls: seq<Layout>, ks: seq<Layout>)
    requires LayoutsOf(tgt, v.fields) == Ok(ls) && LayoutsOf(tgt, w.fields) == Ok(ks)
    ensures LayoutOf(tgt, Enum([v, w])) == Ok(Tagged([Packed(ls), Packed(ks)]))
  {
    hide Packed, Tagged;
    OneVariant(tgt, v);
    assert [v, w][..1] == [v];
    assert VariantsOf(tgt, [v, w]) == Ok([Packed(ls)] + [Packed(ks)]);
    assert [Packed(ls)] + [Packed(ks)] == [Packed(ls), Packed(ks)];
  }

  /** Nine single bytes or a 64-bit integer: placed at the offset shared by the variants,
      the nine bytes end one past the enumeration. */
  lemma SharedOffsetOverruns(tgt: Target)
    ensures var r := LayoutOf(tgt, Enum([Variant(Bytes_(9)), Variant([Scalar(Eight)])]));
      && r.Ok? && r.value.size == 16 && r.value.shape == Arbitrary([0, 8])
      && r.value.variants == Multiple(1, [NINE, WRAPPED]) && 8 + NINE.size > 16
  {
    hide Packed, LayoutsOf, VariantsOf;
    NineLaidOut(tgt);
    EightLaidOut(tgt);
    OnePacked();
    TwoVariants(tgt, Variant(Bytes_(9)), Variant([Scalar(Eight)]), LayoutsOf(tgt, Bytes_(9)).value, [EIGHT]);
    TaggedNine();
  }
}

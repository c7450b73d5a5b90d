/** The scalar operations of the MIR interpreter
    (crates/glyim-mir-interp/src/lib.rs), which computes on 128-bit integers, and
    exactly when the machine's 64-bit words follow them. */
module Interp {
  import opened Mir
  import opened Words
  import opened Align

  const TWO127: int := 0x8000_0000_0000_0000_0000_0000_0000_0000
  const TWO128: int := 0x1_0000_0000_0000_0000_0000_0000_0000_0000

  type I128 = x: int | -0x8000_0000_0000_0000_0000_0000_0000_0000 <= x < 0x8000_0000_0000_0000_0000_0000_0000_0000

  type U128 = x: int | 0 <= x < 0x1_0000_0000_0000_0000_0000_0000_0000_0000

  datatype Val = VInt(i: I128) | VUint(u: U128) | VBool(b: bool) | VUnit

  datatype Fault = DivisionByZero | Panic

  datatype Eval = Good(v: Val) | Bad(f: Fault)

  function Wrap128(x: int): (r: I128)
    ensures -TWO127 <= x < TWO127 ==> r == x
    ensures (r - x) % TWO128 == 0
  {
    var m := x % TWO128;
    if m < TWO127 then m else m - TWO128
  }

  function Low128(x: int): (r: U128)
    ensures (r - x) % TWO128 == 0
  {
    x % TWO128
  }

  // ----- operations -----

  predicate Compares(op: BinOp) {
    op == Eq || op == Ne || op == Lt || op == Gt || op == LtEq || op == GtEq
  }

  function Compare(op: BinOp, l: int, r: int): bool
    requires Compares(op)
  {
    match op
    case Eq => l == r case Ne => l != r case Lt => l < r
    case Gt => l > r case LtEq => l <= r case GtEq => l >= r
  }

  predicate Divisive(op: BinOp) { op == Div || op == Rem }

  predicate Logical(op: BinOp) { op == And || op == Or }

  /** The result before it is wrapped to its type. Shift amounts count modulo 128, and the
      one signed quotient that overflows is 0. */
  function Raw(op: BinOp, l: int, r: int): int
    requires !Compares(op) && !Logical(op) && (Divisive(op) ==> r != 0)
  {
    match op
    case Add => l + r
    case Sub => l - r
    case Mul => l * r
    case Div => if l == -TWO127 && r == -1 then 0 else TruncDiv(l, r)
    case Rem => if l == -TWO127 && r == -1 then 0 else TruncRem(l, r)
    case BitAnd => Bitwise(AndGate, Low128(l), Low128(r), 128)
    case BitOr => Bitwise(OrGate, Low128(l), Low128(r), 128)
    case BitXor => Bitwise(XorGate, Low128(l), Low128(r), 128)
    case Shl => l * Pow2(r % 128)
    case Shr => l / Pow2(r % 128)
  }

  function BinaryOf(op: BinOp, l: Val, r: Val): Eval {
    if l.VInt? && r.VInt? then
      if Compares(op) then Good(VBool(Compare(op, l.i, r.i)))
      else if Logical(op) then Bad(Panic)
      else if Divisive(op) && r.i == 0 then Bad(DivisionByZero)
      else Good(VInt(Wrap128(Raw(op, l.i, r.i))))
    else if l.VUint? && r.VUint? then
      if Compares(op) then Good(VBool(Compare(op, l.u, r.u)))
      else if Logical(op) then Bad(Panic)
      else if Divisive(op) && r.u == 0 then Bad(DivisionByZero)
      else Good(VUint(Low128(Raw(op, l.u, r.u))))
    else if l.VBool? && r.VBool? then
      match op
      case Eq => Good(VBool(l.b == r.b)) case Ne => Good(VBool(l.b != r.b))
      case And => Good(VBool(l.b && r.b)) case Or => Good(VBool(l.b || r.b))
      case _ => Bad(Panic)
    else Bad(Panic)
  }

  function UnaryOf(op: UnOp, v: Val): Eval {
    match op
    case Not =>
      (match v
       case VBool(b) => Good(VBool(!b))
       case VInt(i) => Good(VInt(-1 - i))
       case VUint(u) => Good(VUint(TWO128 - 1 - u))
       case VUnit => Bad(Panic))
    case Neg => if v.VInt? then Good(VInt(Wrap128(0 - v.i))) else Bad(Panic)
    case DerefOp => Bad(Panic)
  }

  // ----- words -----

  function Number(v: Val): int {
    match v
    case VInt(i) => i
    case VUint(u) => u
    case VBool(b) => if b then 1 else 0
    case VUnit => 0
  }

  /** The machine's word for a value. */
  function Word(v: Val): I64 { Wrap(Number(v)) }

  /** What the word of a number leaves out, in units of 2^64. */
  function High(n: int): int { (n - Wrap(n)) / TWO64 }

  /** A number that is its own word. */
  predicate Narrow(n: int) { -TWO63 <= n < TWO63 }

  /** A number of an unsigned 64-bit type. */
  predicate Unsigned64(n: int) { 0 <= n < TWO64 }

  /** Both numbers are of a signed, or both of an unsigned, 64-bit type. */
  predicate InWidth(l: int, r: int) {
    (Narrow(l) && Narrow(r)) || (Unsigned64(l) && Unsigned64(r))
  }

  /** What a caller can check before an operation, on the numbers of its operands. */
  predicate Followed(op: BinOp, l: int, r: int) {
    match op
    case Div => InWidth(l, r) && r != 0 && QuotientFollowed(l, r)
    case Rem => InWidth(l, r) && r != 0 && RemainderFollowed(l, r)
    case Eq => l == r || (l - r) % TWO64 != 0
    case Ne => l == r || (l - r) % TWO64 != 0
    case Lt => Ordered(l, r)
    case GtEq => Ordered(l, r)
    case Gt => Ordered(r, l)
    case LtEq => Ordered(r, l)
    case Shl => r % 128 < 64 || l % Pow2(64 - r % 64) == 0
    case Shr => InWidth(l, r) && ShrFollowed(l, r)
    case _ => true
  }

  /** Signed: all but the least word by -1. Unsigned from 2^63 on: division by 1 or by
      itself, a divisor whose word is larger in size than the dividend, and 2^63 by the
      greatest number, where both give 0. */
  predicate QuotientFollowed(l: int, r: int) {
    if Narrow(l) && Narrow(r) then !(l == -TWO63 && r == -1)
    else r == 1 || l == r || (l < TWO63 <= r && l + r < TWO64) || (l == TWO63 && r == TWO64 - 1)
  }

  /** Signed: all. Unsigned from 2^63 on: by itself, a divisor whose word is larger in size
      than the dividend, and a divisor of the dividend that is a divisor of 2^64 too. */
  predicate RemainderFollowed(l: int, r: int) {
    || (Narrow(l) && Narrow(r)) || l == r || (l < TWO63 <= r && l + r < TWO64)
    || (0 < r < TWO63 <= l && l % r == 0 && TWO64 % r == 0)
  }

  /** From 2^63 on, only a shift by nothing. */
  predicate ShrFollowed(l: int, r: int) {
    if Narrow(l) then r % 128 < 64 || 0 - Pow2(r % 64) <= l < Pow2(r % 64) else r % 128 == 0
  }

  /** The high parts decide nothing that the words decide otherwise. */
  predicate Ordered(l: int, r: int) {
    High(l) == High(r) || ((High(l) < High(r)) == (Wrap(l) < Wrap(r)))
  }

  lemma ModShift(x: int, k: int)
    ensures (x + k * TWO64) % TWO64 == x % TWO64
  {
    DivUnique(x + k * TWO64, TWO64, x / TWO64 + k, x % TWO64);
  }

  lemma WrapShift(x: int, k: int)
    ensures Wrap(x + k * TWO64) == Wrap(x)
  {
    ModShift(x, k);
  }

  lemma WrapSame(x: int, y: int)
    ensures Wrap(x) == Wrap(y) <==> (x - y) % TWO64 == 0
  {
    hide Wrap, High;
    HighMeans(x);
    HighMeans(y);
    ModShift(Wrap(x) - Wrap(y), High(x) - High(y));
    if (x - y) % TWO64 == 0 {
      assert x == y + (x - y) / TWO64 * TWO64;
      WrapShift(y, (x - y) / TWO64);
    }
  }

  lemma WideMultiple(d: int)
    requires d % TWO128 == 0
    ensures d == d / TWO128 * TWO64 * TWO64
  {
    assert TWO128 == TWO64 * TWO64;
  }

  lemma WrapNarrows(x: int)
    ensures Wrap(Wrap128(x)) == Wrap(x) && Wrap(Low128(x)) == Wrap(x)
  {
    hide Wrap, Wrap128, Low128;
    var c, d := Wrap128(x) - x, Low128(x) - x;
    WideMultiple(c);
    WideMultiple(d);
    WrapShift(x, c / TWO128 * TWO64);
    WrapShift(x, d / TWO128 * TWO64);
  }

  lemma HighMeans(x: int)
    ensures x == Wrap(x) + High(x) * TWO64
  {
  }

  lemma WrapFactor(l: int, r: int)
    ensures Wrap(Wrap(l) * r) == Wrap(l * r)
  {
    hide Wrap, High;
    var a, b := Wrap(l), High(l);
    HighMeans(l);
    Distributes(a, b, r);
    WrapShift(a * r, b * r);
  }

  lemma Distributes(a: int, b: int, r: int)
    ensures (a + b * TWO64) * r == a * r + b * r * TWO64
  {
    assert (a + b * TWO64) * r == a * r + b * TWO64 * r;
    assert b * TWO64 * r == b * r * TWO64;
  }

  lemma WrapProduct(l: int, r: int)
    ensures Wrap(Wrap(l) * Wrap(r)) == Wrap(l * r)
  {
    hide Wrap;
    var a, x := Wrap(l), Wrap(r);
    WrapFactor(l, x);
    WrapFactor(r, l);
    assert x * l == l * x && r * l == l * r;
  }

  lemma UnsignedWord(x: int)
    ensures Unsigned(Wrap(x)) == x % TWO64 == Low128(x) % TWO64
  {
    var q, r := x / TWO128, x % TWO128;
    assert x == q * TWO128 + r;
    assert r == r / TWO64 * TWO64 + r % TWO64;
    DivUnique(x, TWO64, q * TWO64 + r / TWO64, r % TWO64);
  }

  // ----- sums, products and bits: always -----

  lemma BitsFollow(g: Gate, l: int, r: int)
    ensures Wrap(Bitwise(g, Low128(l), Low128(r), 128)) == Wrap(Bitwise(g, Unsigned(Wrap(l)), Unsigned(Wrap(r)), 64))
  {
    hide Bitwise, Pow2, Wrap, Low128;
    Pow64();
    UnsignedWord(l);
    UnsignedWord(r);
    var x, y := Low128(l), Low128(r);
    BitwiseIgnores(g, x % TWO64, y % TWO64, x / TWO64, y / TWO64, 64);
    assert x == x % TWO64 + x / TWO64 * TWO64 && y == y % TWO64 + y / TWO64 * TWO64;
    var c := BitwiseWider(g, x, y, 64, 128);
    WrapShift(Bitwise(g, x, y, 64), c);
  }

  predicate Ring(op: BinOp) {
    op == Add || op == Sub || op == Mul || op == BitAnd || op == BitOr || op == BitXor
  }

  /** On all 128-bit operands. */
  lemma RingFollows(op: BinOp, l: int, r: int)
    requires Ring(op)
    ensures Wrap(Raw(op, l, r)) == Binary(op, Wrap(l), Wrap(r))
  {
    hide Wrap, Bitwise, Low128;
    match op {
      case Add => SumFollows(l, r);
      case Sub => SumFollows(l, r);
      case Mul => WrapProduct(l, r);
      case BitAnd => BitsFollow(AndGate, l, r);
      case BitOr => BitsFollow(OrGate, l, r);
      case BitXor => BitsFollow(XorGate, l, r);
    }
  }

  lemma SumFollows(l: int, r: int)
    ensures Wrap(Wrap(l) + Wrap(r)) == Wrap(l + r) && Wrap(Wrap(l) - Wrap(r)) == Wrap(l - r)
  {
    hide Wrap, High;
    HighMeans(l);
    HighMeans(r);
    WrapShift(Wrap(l) + Wrap(r), High(l) + High(r));
    WrapShift(Wrap(l) - Wrap(r), High(l) - High(r));
  }

  // ----- comparisons: exactly when the words tell the numbers apart -----

  lemma CompareFollowsIff(op: BinOp, l: int, r: int)
    requires Compares(op)
    ensures FromBool(Compare(op, l, r)) == Binary(op, Wrap(l), Wrap(r)) <==> Followed(op, l, r)
  {
    hide Wrap, High;
    HighMeans(l);
    HighMeans(r);
    WrapSame(l, r);
    HighOrder(l, r);
    HighOrder(r, l);
  }

  lemma HighOrder(l: int, r: int)
    ensures High(l) < High(r) ==> l < r
    ensures High(l) == High(r) ==> l - r == Wrap(l) - Wrap(r)
  {
    HighMeans(l);
    HighMeans(r);
  }

  // ----- division -----

  lemma SignedDivFollowsIff(op: BinOp, l: int, r: int)
    requires Divisive(op) && Narrow(l) && Narrow(r) && r != 0
    ensures Wrap(Raw(op, l, r)) == Binary(op, Wrap(l), Wrap(r)) <==> Followed(op, l, r)
  {
    if l == -TWO63 && r == -1 {
      assert TruncDiv(l, r) == TWO63;
      assert TruncRem(l, r) == 0;
    }
  }

  /** A quotient and remainder of natural numbers that are known are the computed ones. */
  lemma TruncUnique(l: nat, r: nat, q: nat, m: nat)
    requires r > 0 && l == q * r + m && m < r
    ensures l / r == q && l % r == m && TruncDiv(l, r) == q && TruncRem(l, r) == m
  {
    DivUnique(l, r, q, m);
  }

  lemma QuotientSigns(a: nat, b: nat)
    requires b > 0
    ensures TruncDiv(a, b) == a / b && TruncDiv(a, 0 - b) == 0 - a / b
    ensures TruncDiv(0 - a, b) == 0 - a / b && TruncDiv(0 - a, 0 - b) == a / b
  {
    if a == 0 { DivUnique(0, b, 0, 0); }
  }

  lemma ProductSigns(b: int, q: int)
    ensures (0 - b) * (0 - q) == b * q && b * (0 - q) == 0 - b * q && (0 - b) * q == 0 - b * q
  {
  }

  /** What truncating division does to signs. */
  lemma TruncSigns(a: nat, b: nat)
    requires b > 0
    ensures TruncDiv(a, b) == a / b && TruncRem(a, b) == a % b
    ensures TruncDiv(a, 0 - b) == 0 - a / b && TruncRem(a, 0 - b) == a % b
    ensures TruncDiv(0 - a, b) == 0 - a / b && TruncRem(0 - a, b) == 0 - a % b
    ensures TruncDiv(0 - a, 0 - b) == a / b && TruncRem(0 - a, 0 - b) == 0 - a % b
  {
    hide TruncDiv;
    QuotientSigns(a, b);
    ProductSigns(b, a / b);
    assert a == b * (a / b) + a % b;
  }

  /** A small dividend, a divisor from 2^63 on. */
  lemma SmallByLarge(l: nat, r: nat)
    requires l < TWO63 <= r < TWO64
    ensures TruncDiv(l, r) == 0 && TruncRem(l, r) == l
    ensures TruncDiv(l, r - TWO64) == 0 <==> l + r < TWO64
    ensures TruncRem(l, r - TWO64) == l <==> l + r < TWO64
    ensures -TWO63 < TruncDiv(l, r - TWO64) <= 0 && 0 <= TruncRem(l, r - TWO64) <= l
  {
    hide TruncDiv, TruncRem;
    TruncUnique(l, r, 0, l);
    var c := TWO64 - r;
    TruncSigns(l, c);
    assert 0 - c == r - TWO64;
    QuotientBounds(l, c);
    Quotient(l, c);
    if l < c { DivUnique(l, c, 0, l); }
  }

  /** A dividend from 2^63 on, a small divisor. */
  lemma LargeBySmall(l: nat, r: nat)
    requires 0 < r < TWO63 <= l < TWO64
    ensures TruncDiv(l, r) == l / r >= 1 && TruncRem(l, r) == l % r < TWO63
    ensures r > 1 ==> l / r < TWO63
    ensures r == 1 ==> l / r == l && TruncDiv(l - TWO64, r) == l - TWO64
    ensures TruncDiv(l - TWO64, r) == 0 - (TWO64 - l) / r <= 0 && TruncRem(l - TWO64, r) == 0 - (TWO64 - l) % r
    ensures -TWO63 <= TruncDiv(l - TWO64, r) && -TWO63 < TruncRem(l - TWO64, r) <= 0
  {
    hide TruncDiv, TruncRem;
    var c := TWO64 - l;
    TruncSigns(l, r);
    TruncSigns(c, r);
    assert 0 - c == l - TWO64;
    QuotientBounds(c, r);
    QuotientAtLeast(l, r);
    if r == 1 { DivUnique(l, 1, l, 0); DivUnique(c, 1, c, 0); }
  }

  lemma QuotientAtLeast(l: nat, r: nat)
    requires 0 < r < TWO63 <= l < TWO64
    ensures l / r >= 1 && (r > 1 ==> l / r < TWO63)
  {
    var q := l / r;
    assert l == q * r + l % r;
    if q < 1 { ProductsKeepOrder(q, 0, r); }
    if r > 1 && q >= TWO63 { ProductsKeepOrder(2, r, q); }
  }

  /** Both from 2^63 on. */
  lemma LargeByLarge(l: nat, r: nat)
    requires TWO63 <= l < TWO64 && TWO63 <= r < TWO64
    ensures TruncDiv(l, r) == (if l >= r then 1 else 0) && TruncRem(l, r) == if l >= r then l - r else l
    ensures TruncDiv(l - TWO64, r - TWO64) == (TWO64 - l) / (TWO64 - r)
    ensures l == r ==> TruncDiv(l - TWO64, r - TWO64) == 1 && TruncRem(l - TWO64, r - TWO64) == 0
    ensures l > r ==> TruncDiv(l - TWO64, r - TWO64) == 0 && TruncRem(l - TWO64, r - TWO64) == l - TWO64
    ensures l < r ==> TruncDiv(l - TWO64, r - TWO64) >= 1 && l - TWO64 < TruncRem(l - TWO64, r - TWO64) <= 0
  {
    hide TruncDiv, TruncRem;
    if l >= r { TruncUnique(l, r, 1, l - r); } else { TruncUnique(l, r, 0, l); }
    var a, b := TWO64 - l, TWO64 - r;
    TruncSigns(a, b);
    assert 0 - a == l - TWO64 && 0 - b == r - TWO64;
    if l == r { DivUnique(a, b, 1, 0); }
    if l > r { DivUnique(a, b, 0, a); }
    Quotient(a, b);
    QuotientBounds(a, b);
  }

  lemma WordAbove(n: int)
    requires TWO63 <= n < TWO64
    ensures Wrap(n) == n - TWO64
  {
  }

  lemma WordBelow(n: int)
    requires Narrow(n)
    ensures Wrap(n) == n
  {
  }

  /** Divisibility by r of l and of its complement. */
  lemma ComplementMultiple(l: nat, r: nat)
    requires 0 < r && l < TWO64 && l % r == 0
    ensures (TWO64 - l) % r == 0 <==> TWO64 % r == 0
  {
    var c := TWO64 - l;
    if c % r == 0 { SumMultiple(l, c, r); }
    if TWO64 % r == 0 {
      var p, q := l / r, TWO64 / r;
      assert c == (q - p) * r by { assert (q - p) * r == q * r - p * r; }
      FactorLess(p, q, r);
      IsMultiple(q - p, r);
    }
  }

  lemma UnsignedDivFollowsIff(l: int, r: int)
    requires Unsigned64(l) && Unsigned64(r) && r != 0 && !(Narrow(l) && Narrow(r))
    ensures Wrap(Raw(Div, l, r)) == Binary(Div, Wrap(l), Wrap(r)) <==> QuotientFollowed(l, r)
  {
    hide TruncDiv, TruncRem, Wrap;
    if l < TWO63 {
      WordBelow(l);
      WordAbove(r);
      SmallByLarge(l, r);
      WordBelow(TruncDiv(l, r - TWO64));
      WordBelow(0);
    } else if r < TWO63 {
      WordAbove(l);
      WordBelow(r);
      LargeBySmall(l, r);
      WordBelow(TruncDiv(l - TWO64, r));
      if r > 1 { WordBelow(l / r); }
    } else {
      WordAbove(l);
      WordAbove(r);
      LargeByLarge(l, r);
      WordBelow(0);
      WordBelow(1);
      if !(l == TWO63 && r == TWO64 - 1) { SmallQuotient(TWO64 - l, TWO64 - r); }
    }
  }

  lemma SmallQuotient(a: nat, b: nat)
    requires 0 < a <= TWO63 && 0 < b && !(a == TWO63 && b == 1)
    ensures 0 <= a / b < TWO63 && Wrap(a / b) == a / b
  {
    QuotientBounds(a, b);
    if b > 1 {
      assert a == a / b * b + a % b;
      ProductsKeepOrder(2, b, a / b);
    }
  }

  lemma UnsignedRemFollowsIff(l: int, r: int)
    requires Unsigned64(l) && Unsigned64(r) && r != 0 && !(Narrow(l) && Narrow(r))
    ensures Wrap(Raw(Rem, l, r)) == Binary(Rem, Wrap(l), Wrap(r)) <==> RemainderFollowed(l, r)
  {
    hide TruncDiv, TruncRem, Wrap;
    if l < TWO63 {
      WordBelow(l);
      WordAbove(r);
      SmallByLarge(l, r);
      WordBelow(TruncRem(l, r - TWO64));
    } else if r < TWO63 {
      WordAbove(l);
      WordBelow(r);
      LargeBySmall(l, r);
      WordBelow(l % r);
      WordBelow(TruncRem(l - TWO64, r));
      if l % r == 0 { ComplementMultiple(l, r); }
    } else {
      WordAbove(l);
      WordAbove(r);
      LargeByLarge(l, r);
      WordBelow(TruncRem(l - TWO64, r - TWO64));
      if l >= r { WordBelow(l - r); }
      WordBelow(0);
    }
  }

  /** Exactly when a quotient or remainder of 64-bit numbers, signed or unsigned, is the
      machine's. */
  lemma DivFollowsIff(op: BinOp, l: int, r: int)
    requires Divisive(op) && InWidth(l, r) && r != 0
    ensures Wrap(Raw(op, l, r)) == Binary(op, Wrap(l), Wrap(r)) <==> Followed(op, l, r)
  {
    hide Wrap, Raw, Binary, QuotientFollowed, RemainderFollowed;
    if Narrow(l) && Narrow(r) {
      SignedDivFollowsIff(op, l, r);
    } else if op == Div {
      UnsignedDivFollowsIff(l, r);
    } else {
      UnsignedRemFollowsIff(l, r);
    }
  }

  // ----- shifts: exactly when the amount, or what it shifts out, allows -----

  lemma WordAmount(r: int)
    ensures Wrap(r) % 64 == r % 64
    ensures r % 128 == r % 64 || r % 128 == r % 64 + 64
  {
    hide Wrap, High;
    HighMeans(r);
    AddMultiple(Wrap(r), High(r) * 0x400_0000_0000_0000);
    AmountHalves(r);
  }

  lemma AddMultiple(x: int, k: int)
    ensures (x + k * 64) % 64 == x % 64
  {
  }

  lemma AmountHalves(r: int)
    ensures r % 128 == r % 64 || r % 128 == r % 64 + 64
  {
  }

  lemma ShlFollowsIff(l: int, r: int)
    ensures Wrap(Raw(Shl, l, r)) == Binary(Shl, Wrap(l), Wrap(r)) <==> Followed(Shl, l, r)
  {
    hide Wrap, Pow2;
    WordAmount(r);
    var s := r % 64;
    WrapFactor(l, Pow2(s));
    if r % 128 >= 64 {
      ShiftedOut(l, s);
    }
  }

  /** A shift by 64 or more leaves nothing; a shift by the rest leaves nothing exactly if
      the bits it keeps are zero. */
  lemma ShiftedOut(l: int, s: nat)
    requires s < 64
    ensures Wrap(l * Pow2(s + 64)) == 0
    ensures Wrap(l * Pow2(s)) == 0 <==> l % Pow2(64 - s) == 0
  {
    hide Pow2;
    Pow64();
    PowAdd(s, 64);
    PowAdd(64 - s, s);
    WrapShift(0, l * Pow2(s));
    assert l * Pow2(s + 64) == l * Pow2(s) * TWO64;
    WrapSame(l * Pow2(s), 0);
    ScaledMultiple(l, Pow2(64 - s), Pow2(s));
  }

  lemma ScaledMultiple(l: int, a: nat, b: nat)
    requires a > 0 && b > 0
    ensures a * b > 0 && (l * b % (a * b) == 0 <==> l % a == 0)
  {
    var q, r := l / a, l % a;
    assert l == q * a + r;
    assert (q * a + r) * b == q * (a * b) + r * b;
    ProductsKeepOrder(0, r, b);
    ProductsKeepOrder(r + 1, a, b);
    assert (r + 1) * b == r * b + b;
    DivUnique(l * b, a * b, q, r * b);
    if r > 0 { ProductsKeepOrder(1, r, b); }
  }

  lemma NarrowShrFollowsIff(l: int, r: int)
    requires Narrow(l)
    ensures Wrap(Raw(Shr, l, r)) == Binary(Shr, Wrap(l), Wrap(r)) <==> ShrFollowed(l, r)
  {
    hide Pow2;
    WordAmount(r);
    var s := r % 64;
    Quotient(l, Pow2(s));
    QuotientBounds(l, Pow2(s));
    if r % 128 >= 64 {
      Pow64();
      PowAdd(s, 64);
      LargeQuotient(l, Pow2(s + 64));
    }
  }

  /** Exactly when a right shift of a 64-bit number, signed or unsigned, is the machine's. */
  lemma ShrFollowsIff(l: int, r: int)
    requires InWidth(l, r)
    ensures Wrap(Raw(Shr, l, r)) == Binary(Shr, Wrap(l), Wrap(r)) <==> Followed(Shr, l, r)
  {
    hide Pow2, Raw, Binary, Wrap;
    if Narrow(l) {
      NarrowShrFollowsIff(l, r);
    } else {
      UnsignedShrFollowsIff(l, r);
    }
  }

  lemma UnsignedShrFollowsIff(l: int, r: int)
    requires TWO63 <= l < TWO64
    ensures Wrap(Raw(Shr, l, r)) == Binary(Shr, Wrap(l), Wrap(r)) <==> r % 128 == 0
  {
    hide Pow2, Wrap;
    WordAmount(r);
    WordAbove(l);
    var s, k := r % 64, r % 128;
    QuotientBounds(l - TWO64, Pow2(s));
    WordBelow((l - TWO64) / Pow2(s));
    PowZero();
    if k == 0 {
      DivUnique(l, 1, l, 0);
      DivUnique(l - TWO64, 1, l - TWO64, 0);
    } else {
      ShiftedBelow(l, k);
      WordBelow(l / Pow2(k));
    }
  }

  lemma PowZero()
    ensures Pow2(0) == 1
  {
  }

  lemma ShiftedBelow(l: nat, k: nat)
    requires l < TWO64 && k > 0
    ensures 0 <= l / Pow2(k) < TWO63
  {
    var p := Pow2(k);
    assert p == 2 * Pow2(k - 1) >= 2;
    QuotientBounds(l, p);
    assert l == l / p * p + l % p;
    if l / p >= TWO63 { ProductsKeepOrder(2, p, l / p); }
  }

  lemma FloorBounds(l: int, p: int, q: int, r: int)
    requires 0 <= r < p && l == q * p + r
    ensures l >= 0 ==> 0 <= q <= l
    ensures l < 0 ==> l <= q < 0
  {
    var m := p - 1;
    assert q * p == q * m + q;
    if q >= 0 {
      ProductsKeepOrder(0, q, m);
    } else {
      ProductsKeepOrder(q, -1, m);
    }
  }

  /** Rounding down keeps the sign and does not grow. */
  lemma QuotientBounds(l: int, p: nat)
    requires p > 0
    ensures l >= 0 ==> 0 <= l / p <= l
    ensures l < 0 ==> l <= l / p < 0
  {
    FloorBounds(l, p, l / p, l % p);
  }

  /** Rounding down by p gives 0 or -1 exactly for numbers below p in size. */
  lemma Quotient(l: int, p: nat)
    requires p > 0
    ensures l / p == 0 <==> 0 <= l < p
    ensures l / p == -1 <==> 0 - p <= l < 0
  {
    assert l == l / p * p + l % p;
    if 0 <= l < p { DivUnique(l, p, 0, l); }
    if 0 - p <= l < 0 { DivUnique(l, p, -1, l + p); }
  }

  lemma LargeQuotient(l: int, p: nat)
    requires Narrow(l) && p >= TWO64
    ensures l / p == if l >= 0 then 0 else -1
  {
    Quotient(l, p);
  }

  // ----- all binary and unary operations -----

  predicate NeedsWidth(op: BinOp) { op == Div || op == Rem || op == Shr }

  /** Where the interpreter computes a value, the machine's word is that value exactly if
      the operation is followed; divisions and right shifts on all numbers of 64-bit
      types, the others on all 128-bit numbers. */
  lemma BinaryFollowsIff(op: BinOp, l: Val, r: Val)
    requires BinaryOf(op, l, r).Good? && (NeedsWidth(op) ==> InWidth(Number(l), Number(r)))
    ensures Word(BinaryOf(op, l, r).v) == Binary(op, Word(l), Word(r)) <==> Followed(op, Number(l), Number(r))
  {
    hide Wrap, Wrap128, Low128, Binary, Raw, Followed;
    var a, b := Number(l), Number(r);
    if Compares(op) {
      CompareFollowsIff(op, a, b);
      BoolWords();
    } else if Logical(op) {
      LogicFollows(op, l, r);
    } else {
      WrapNarrows(Raw(op, a, b));
      if Ring(op) {
        RingFollows(op, a, b);
        RingIsFollowed(op, a, b);
      } else if Divisive(op) {
        DivFollowsIff(op, a, b);
      } else if op == Shl {
        ShlFollowsIff(a, b);
      } else {
        ShrFollowsIff(a, b);
      }
    }
  }

  lemma BoolWords()
    ensures Wrap(0) == 0 && Wrap(1) == 1
  {
  }

  lemma RingIsFollowed(op: BinOp, l: int, r: int)
    requires Ring(op)
    ensures Followed(op, l, r)
  {
  }

  lemma LogicFollows(op: BinOp, l: Val, r: Val)
    requires Logical(op) && BinaryOf(op, l, r).Good?
    ensures Word(BinaryOf(op, l, r).v) == Binary(op, Word(l), Word(r)) && Followed(op, Number(l), Number(r))
  {
  }

  predicate UnaryFollowed(op: UnOp, v: Val) {
    op == Not && !v.VBool? ==> Word(v) == -1
  }

  /** Negation is always followed; Not always on bools, and on integers only at -1. */
  lemma UnaryFollowsIff(op: UnOp, v: Val)
    requires UnaryOf(op, v).Good?
    ensures Word(UnaryOf(op, v).v) == UnaryWord(op, Word(v)) <==> UnaryFollowed(op, v)
  {
    hide Wrap128, Wrap;
    if op == Neg {
      WrapNarrows(0 - v.i);
      SumFollows(0, v.i);
      BoolWords();
    } else if v.VInt? {
      NotWord(v.i);
      BoolWords();
    } else if v.VUint? {
      NotWord(v.u);
      BoolWords();
      WrapShift(-1 - v.u, TWO64);
    } else {
      BoolWords();
    }
  }

  lemma NotWord(x: int)
    ensures Wrap(-1 - x) == -1 - Wrap(x)
  {
  }

  // ----- where the machine goes its own way -----

  /** Not of the integer 5 is -6 to the interpreter and 0 to the machine. */
  lemma IntegerNotDiffers()
    ensures UnaryOf(Not, VInt(5)) == Good(VInt(-6)) && UnaryWord(Not, Word(VInt(5))) == 0
  {
  }

  /** 2^63 is not below 1 unsigned, but its word is. */
  lemma UnsignedOrderDiffers()
    ensures BinaryOf(Lt, VUint(TWO63), VUint(1)) == Good(VBool(false))
    ensures Binary(Lt, Word(VUint(TWO63)), Word(VUint(1))) == 1
  {
  }

  /** Division by zero is an error to the interpreter and 0 to the machine. */
  lemma ZeroDivisionDiffers(op: BinOp, l: I128)
    requires Divisive(op)
    ensures BinaryOf(op, VInt(l), VInt(0)) == Bad(DivisionByZero) && Binary(op, Word(VInt(l)), 0) == 0
  {
  }

  const HALF: int := 0x4000_0000_0000_0000

  lemma Halves()
    ensures TWO63 / 2 == HALF && TruncDiv(TWO63, 2) == HALF
    ensures -TWO63 / 2 == -HALF && TruncDiv(-TWO63, 2) == -HALF
    ensures Wrap(TWO63) == -TWO63 && Wrap(HALF) == HALF && Wrap(-HALF) == -HALF
    ensures Wrap(1) == 1 && Wrap(2) == 2
  {
  }

  /** 2^63 halved unsigned is 2^62; its word halved is -2^62. */
  lemma UnsignedHalfDiffers()
    ensures BinaryOf(Div, VUint(TWO63), VUint(2)) == Good(VUint(HALF))
    ensures Binary(Div, Word(VUint(TWO63)), Word(VUint(2))) == -HALF && !Followed(Div, TWO63, 2)
  {
    hide Wrap, TruncDiv;
    Halves();
  }

  /** The same for a right shift by one. */
  lemma UnsignedShiftDiffers()
    ensures BinaryOf(Shr, VUint(TWO63), VUint(1)) == Good(VUint(HALF))
    ensures Binary(Shr, Word(VUint(TWO63)), Word(VUint(1))) == -HALF && !Followed(Shr, TWO63, 1)
  {
    hide Wrap, Pow2;
    PowOne();
    Halves();
  }

  lemma PowOne()
    ensures Pow2(1) == 2
  {
  }
}

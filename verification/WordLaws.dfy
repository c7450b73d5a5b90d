/** What the operations on words compute, apart from how. */
module WordLaws {
  import opened Mir
  import opened Words
  import opened Align

  function Abs(x: int): nat { if x < 0 then -x else x }

  /** A quotient toward zero and its remainder: the remainder is smaller than the divisor
      and does not point away from the dividend. */
  predicate Truncated(a: int, b: int, q: int, r: int) {
    a == b * q + r && Abs(r) < Abs(b) && (a >= 0 ==> r >= 0) && (a <= 0 ==> r <= 0)
  }

  lemma SignedQuotient(a: int, b: int, q: int, r: int)
    requires b > 0 && a >= 0
    ensures Truncated(a, b, q, r) <==> q == a / b && r == a - b * q
  {
    assert b * q == q * b;
    if Truncated(a, b, q, r) { DivUnique(a, b, q, r); }
    assert a == b * (a / b) + a % b;
  }

  lemma NegatedProducts(b: int, q: int)
    ensures -b * q == -(b * q) && b * -q == -(b * q) && -b * -q == b * q
  {
  }

  /** Division truncates toward zero, and nothing else does. */
  lemma QuotientExact(a: int, b: int, q: int, r: int)
    requires b != 0
    ensures Truncated(a, b, q, r) <==> q == TruncDiv(a, b) && r == TruncRem(a, b)
  {
    NegatedProducts(b, q);
    SignedQuotient(Abs(a), Abs(b), if (a < 0) == (b < 0) then q else -q, if a < 0 then -r else r);
    ZeroQuotient(Abs(b));
  }

  lemma ZeroQuotient(b: nat)
    requires b > 0
    ensures 0 / b == 0
  {
    DivUnique(0, b, 0, 0);
  }

  /** A checked quotient and remainder give the dividend back; unchecked ones are 0. */
  lemma DivisionIs(a: I64, b: I64)
    ensures if Divides(a, b) then Truncated(a, b, Binary(Div, a, b), Binary(Rem, a, b))
      else Binary(Div, a, b) == Binary(Rem, a, b) == 0
  {
    hide Truncated, TruncDiv, TruncRem;
    if Divides(a, b) {
      var q, r := TruncDiv(a, b), TruncRem(a, b);
      QuotientExact(a, b, q, r);
      QuotientFits(a, b, q, r);
    }
  }

  /** Subtraction undoes addition and addition subtraction. */
  lemma SubtractionIs(a: I64, b: I64)
    ensures Binary(Sub, Binary(Add, a, b), b) == a && Binary(Add, Binary(Sub, a, b), b) == a
  {
    hide Wrap;
    OnlyWord(Wrap(a + b) - b, a);
    OnlyWord(Wrap(a - b) + b, a);
  }

  /** A number wraps to the only word congruent to it. */
  lemma OnlyWord(x: int, w: I64)
    requires (x - w) % TWO64 == 0
    ensures Wrap(x) == w
  {
    var q := (x - w) / TWO64;
    var m := if w < 0 then w + TWO64 else w;
    DivUnique(x, TWO64, if w < 0 then q - 1 else q, m);
  }

  /** The orders, by the difference of the operands. */
  lemma OrderIs(a: I64, b: I64)
    ensures Binary(Lt, a, b) == (if b - a > 0 then 1 else 0) && Binary(Gt, a, b) == Binary(Lt, b, a)
    ensures Binary(GtEq, a, b) == 1 - Binary(Lt, a, b) && Binary(LtEq, a, b) == Binary(GtEq, b, a)
    ensures Binary(Eq, a, b) == Binary(LtEq, a, b) * Binary(GtEq, a, b) == 1 - Binary(Ne, a, b)
  {
  }

  lemma QuotientFits(a: I64, b: I64, q: int, r: int)
    requires Divides(a, b) && Truncated(a, b, q, r)
    ensures -TWO63 <= q < TWO63 && -TWO63 <= r < TWO63
  {
    if Abs(b) >= 2 && q != 0 {
      ProductsKeepOrder(2, Abs(b), Abs(q));
      assert Abs(b) * Abs(q) == Abs(b * q);
    }
  }

  // ----- bits -----

  function BitAt(x: nat, i: nat): (r: nat)
    ensures r < 2
  {
    if i == 0 then x % 2 else BitAt(x / 2, i - 1)
  }

  /** The bitwise operations work bit by bit: both, either, or exactly one. */
  lemma {:induction false} BitwiseBits(g: Gate, x: nat, y: nat, n: nat, i: nat)
    requires i < n
    ensures BitAt(Bitwise(g, x, y, n), i) == 1 <==>
      match g
      case AndGate => BitAt(x, i) == 1 && BitAt(y, i) == 1
      case OrGate => BitAt(x, i) == 1 || BitAt(y, i) == 1
      case XorGate => BitAt(x, i) != BitAt(y, i)
    decreases n
  {
    var rest := Bitwise(g, x / 2, y / 2, n - 1);
    LowBit(g.Bit(x % 2, y % 2), rest);
    if i > 0 { BitwiseBits(g, x / 2, y / 2, n - 1, i - 1); }
  }

  lemma LowBit(b: nat, rest: nat)
    requires b < 2
    ensures (b + 2 * rest) % 2 == b && (b + 2 * rest) / 2 == rest
  {
  }

  // ----- shifts -----

  /** A right shift rounds down; a left shift loses what does not fit. */
  lemma ShiftsAre(a: I64, b: I64)
    ensures var p := Pow2(b % 64);
      && p * Binary(Shr, a, b) <= a < p * Binary(Shr, a, b) + p
      && (Binary(Shl, a, b) - a * p) % TWO64 == 0
  {
    hide Pow2;
    var p := Pow2(b % 64);
    assert a == p * (a / p) + a % p;
    QuotientSmall(a, p);
  }

  lemma QuotientSmall(a: I64, p: nat)
    requires p > 0
    ensures -TWO63 <= a / p < TWO63
  {
    var q := a / p;
    assert a == q * p + a % p;
    if q >= 0 { ProductsKeepOrder(1, p, q); assert p * q == q * p; }
    if q < 0 { ProductsKeepOrder(1, p, -q); assert p * -q == -(q * p); }
  }
}

/** Rounding sizes up to alignments (crates/glyim-layout/src/lib.rs). */
module Align {
  import opened Words

  /** Sizes are u64 values; alignments are not zero. */
  type U64 = x: nat | x < TWO64

  type Align = x: nat | 0 < x < TWO64 witness 1

  ghost predicate IsPow2(a: nat) {
    exists k: nat :: a == Pow2(k)
  }

  /** The conjunction of the low n bits of x and y. */
  function And(x: nat, y: nat, n: nat): (r: nat)
    ensures r <= x
  {
    AndAtMost(x, y, n);
    Bitwise(AndGate, x, y, n)
  }

  lemma {:induction false} AndAtMost(x: nat, y: nat, n: nat)
    ensures Bitwise(AndGate, x, y, n) <= x
  {
    if n > 0 { AndAtMost(x / 2, y / 2, n - 1); }
  }

  /** Size::align_to: add the mask, clear its bits, on 64-bit words. */
  function AlignTo(s: U64, a: Align): U64 {
    And((s + (a - 1)) % TWO64, TWO64 - 1 - (a - 1), 64)
  }

  /** The least multiple of a that is at least x. */
  function Up(x: nat, a: nat): nat
    requires a > 0
  {
    (x + a - 1) / a * a
  }

  // ----- arithmetic -----

  lemma ProductsKeepOrder(p: int, q: int, a: nat)
    requires p <= q
    ensures p * a <= q * a
  {
    assert (q - p) * a >= 0;
  }

  lemma FactorLess(p: int, q: int, a: nat)
    requires p * a < q * a
    ensures p < q
  {
    if p >= q { ProductsKeepOrder(q, p, a); }
  }

  lemma DivUnique(x: int, a: nat, q: int, r: nat)
    requires a > 0 && x == q * a + r && r < a
    ensures x / a == q && x % a == r
  {
    var c := x / a;
    assert x == c * a + x % a;
    assert (q + 1) * a == q * a + a && (c + 1) * a == c * a + a;
    FactorLess(q, c + 1, a);
    FactorLess(c, q + 1, a);
  }

  lemma IsMultiple(q: nat, a: nat)
    requires a > 0
    ensures q * a % a == 0
  {
    DivUnique(q * a, a, q, 0);
  }

  lemma UpMeans(x: nat, a: nat)
    requires a > 0
    ensures x <= Up(x, a) < x + a && Up(x, a) % a == 0
  {
    var y := x + a - 1;
    assert y == y / a * a + y % a;
    IsMultiple(y / a, a);
  }

  /** Up is the least such multiple, so a multiple is its own rounding. */
  lemma UpLeast(x: nat, a: nat, m: nat)
    requires a > 0 && m % a == 0 && x <= m
    ensures Up(x, a) <= m && (x == m ==> Up(x, a) == x)
  {
    UpMeans(x, a);
    var q, p := (x + a - 1) / a, m / a;
    assert m == p * a && (p + 1) * a == p * a + a;
    FactorLess(q, p + 1, a);
    ProductsKeepOrder(q, p, a);
  }

  lemma SumMultiple(x: nat, y: nat, a: nat)
    requires a > 0 && x % a == 0 && y % a == 0
    ensures (x + y) % a == 0
  {
    var p, q := x / a, y / a;
    assert x + y == (p + q) * a by { assert (p + q) * a == p * a + q * a; }
    IsMultiple(p + q, a);
  }

  lemma ProductMultiple(x: nat, y: nat, a: nat)
    requires a > 0 && x % a == 0
    ensures (x * y) % a == 0
  {
    var p := x / a;
    assert x * y == (p * y) * a by { assert x == p * a; assert p * a * y == p * y * a; }
    IsMultiple(p * y, a);
  }

  lemma {:induction false} PowAdd(i: nat, j: nat)
    ensures Pow2(i + j) == Pow2(i) * Pow2(j)
    decreases j
  {
    if j > 0 {
      PowAdd(i, j - 1);
      TwiceProduct(Pow2(i), Pow2(j - 1));
    }
  }

  lemma {:induction false} PowMonotone(i: nat, j: nat)
    requires i < j
    ensures Pow2(i) < Pow2(j)
    decreases j
  {
    if i < j - 1 { PowMonotone(i, j - 1); }
  }

  /** A smaller power of two divides a larger one. */
  lemma PowDivides(a: nat, b: nat)
    requires IsPow2(a) && IsPow2(b) && a <= b
    ensures a > 0 && b % a == 0
  {
    var i: nat :| a == Pow2(i);
    var j: nat :| b == Pow2(j);
    if j < i { PowMonotone(j, i); }
    PowAdd(j - i, i);
    IsMultiple(Pow2(j - i), a);
  }

  /** What is aligned for b is aligned for every smaller power of two. */
  lemma AlignedDown(x: nat, a: nat, b: nat)
    requires IsPow2(a) && IsPow2(b) && a <= b && b > 0 && x % b == 0
    ensures a > 0 && x % a == 0
  {
    PowDivides(a, b);
    ProductMultiple(b, x / b, a);
    assert x == b * (x / b);
  }

  // ----- bits -----

  /** Wider operands only add higher bits. */
  lemma {:induction false} BitwiseWider(g: Gate, x: nat, y: nat, n: nat, m: nat) returns (c: nat)
    requires n <= m
    ensures Bitwise(g, x, y, m) == Bitwise(g, x, y, n) + c * Pow2(n)
    decreases n
  {
    hide Words.Gate.Bit;
    if n == 0 {
      c := Bitwise(g, x, y, m);
    } else {
      hide *;
      c := BitwiseWider(g, x / 2, y / 2, n - 1, m - 1);
      BitwiseStep(g, x, y, n);
      BitwiseStep(g, x, y, m);
      TwiceProduct(c, Pow2(n - 1));
    }
  }

  lemma BitwiseStep(g: Gate, x: nat, y: nat, n: nat)
    requires n > 0
    ensures Bitwise(g, x, y, n) == g.Bit(x % 2, y % 2) + 2 * Bitwise(g, x / 2, y / 2, n - 1)
    ensures Pow2(n) == 2 * Pow2(n - 1)
  {
  }

  lemma BitwiseIgnoresStep(g: Gate, x: nat, y: nat, t: nat, u: nat, n: nat)
    requires n > 0 && Bitwise(g, x / 2 + t, y / 2 + u, n - 1) == Bitwise(g, x / 2, y / 2, n - 1)
    ensures Bitwise(g, x + 2 * t, y + 2 * u, n) == Bitwise(g, x, y, n)
  {
    hide *;
    Halved(x, t);
    Halved(y, u);
    BitwiseStep(g, x, y, n);
    BitwiseStep(g, x + 2 * t, y + 2 * u, n);
  }

  /** Bits from n on do not matter to the low n bits. */
  lemma {:induction false} BitwiseIgnores(g: Gate, x: nat, y: nat, h: nat, k: nat, n: nat)
    ensures Bitwise(g, x + h * Pow2(n), y + k * Pow2(n), n) == Bitwise(g, x, y, n)
    decreases n
  {
    if n > 0 {
      hide *;
      var p := Pow2(n - 1);
      BitwiseStep(g, x, y, n);
      BitwiseIgnores(g, x / 2, y / 2, h, k, n - 1);
      BitwiseIgnoresStep(g, x, y, h * p, k * p, n);
      TwiceProduct(h, p);
      TwiceProduct(k, p);
    }
  }

  lemma Halved(x: nat, t: nat)
    ensures (x + 2 * t) % 2 == x % 2 && (x + 2 * t) / 2 == x / 2 + t
  {
  }

  // ----- the mask -----

  lemma {:induction false} AndOnes(x: nat, n: nat)
    requires x < Pow2(n)
    ensures And(x, Pow2(n) - 1, n) == x
  {
    if n > 0 {
      AndOnes(x / 2, n - 1);
      assert (Pow2(n) - 1) / 2 == Pow2(n - 1) - 1 && (Pow2(n) - 1) % 2 == 1;
    }
  }

  /** Clearing the low k bits rounds down to a multiple of 2^k. */
  lemma {:induction false} AndMask(x: nat, k: nat, n: nat)
    requires x < Pow2(n) && k <= n && Pow2(k) <= Pow2(n)
    ensures And(x, Pow2(n) - Pow2(k), n) == x / Pow2(k) * Pow2(k)
  {
    hide And;
    if k == 0 {
      AndOnes(x, n);
    } else {
      AndMask(x / 2, k - 1, n - 1);
      AndEven(x, Pow2(n - 1) - Pow2(k - 1), n);
      HalvesDivide(x, Pow2(k - 1));
      TwiceProduct(x / Pow2(k), Pow2(k - 1));
    }
  }

  lemma AndEven(x: nat, y: nat, n: nat)
    requires n > 0
    ensures And(x, 2 * y, n) == 2 * And(x / 2, y, n - 1)
  {
    assert 2 * y % 2 == 0 && 2 * y / 2 == y;
  }

  lemma TwiceProduct(c: nat, p: nat)
    ensures 2 * (c * p) == c * (2 * p)
  {
  }

  lemma HalvesDivide(x: nat, p: nat)
    requires p > 0
    ensures x / 2 / p == x / (2 * p)
  {
    var h := x / 2;
    var q, r := h / p, h % p;
    assert x == 2 * (q * p + r) + x % 2;
    assert q * (2 * p) == 2 * (q * p);
    DivUnique(x, 2 * p, q, 2 * r + x % 2);
  }

  lemma Pow4()
    ensures Pow2(2) == 4
  {
    assert Pow2(1) == 2;
  }

  lemma Pow64()
    ensures Pow2(64) == TWO64
  {
    Pow4();
    hide Pow2;
    PowAdd(2, 2);
    PowAdd(4, 4);
    PowAdd(8, 8);
    PowAdd(16, 16);
    PowAdd(32, 32);
  }

  /** As long as nothing overflows, align_to rounds up to a multiple of a power of two. */
  lemma AlignToRoundsUp(s: U64, a: Align)
    requires IsPow2(a) && s + (a - 1) < TWO64
    ensures AlignTo(s, a) == Up(s, a)
  {
    hide And, Pow2;
    var k: nat :| a == Pow2(k);
    Pow64();
    if k > 64 { PowMonotone(64, k); }
    if k < 64 { PowMonotone(k, 64); }
    AndMask(s + (a - 1), k, 64);
  }
}

/** 64-bit two's-complement words and their little-endian bytes, as the bytecode
    emitter writes them and the virtual machine reads and computes with them. */
module Words {
  import opened Mir

  const TWO63: int := 0x8000_0000_0000_0000
  const TWO64: int := 0x1_0000_0000_0000_0000
  const TWO32: int := 0x1_0000_0000

  type I64 = x: int | -0x8000_0000_0000_0000 <= x < 0x8000_0000_0000_0000

  type U8 = x: int | 0 <= x < 256

  /** The word congruent to x: truncation of a wider integer, and wrapping. */
  function Wrap(x: int): (r: I64)
    ensures -TWO63 <= x < TWO63 ==> r == x
    ensures (r - x) % TWO64 == 0
  {
    var m := x % TWO64;
    if m < TWO63 then m else m - TWO64
  }

  /** The bit pattern of a word as an unsigned number. */
  function Unsigned(x: I64): (r: nat)
    ensures r < TWO64 && Wrap(r) == x
  {
    if x < 0 then x + TWO64 else x
  }

  /** Division truncating toward zero. */
  function TruncDiv(a: int, b: int): int
    requires b != 0
  {
    if (a >= 0) == (b > 0) then (if a < 0 then -a else a) / (if b < 0 then -b else b)
    else -((if a < 0 then -a else a) / (if b < 0 then -b else b))
  }

  function TruncRem(a: int, b: int): int
    requires b != 0
  {
    a - b * TruncDiv(a, b)
  }

  function Pow2(n: nat): (r: nat)
    ensures r > 0
  {
    if n == 0 then 1 else 2 * Pow2(n - 1)
  }

  /** The bitwise operations, on one bit. */
  datatype Gate = AndGate | OrGate | XorGate {
    function Bit(a: nat, b: nat): (r: nat)
      requires a < 2 && b < 2
      ensures r < 2
    {
      match this
      case AndGate => a * b
      case OrGate => a + b - a * b
      case XorGate => (a + b) % 2
    }
  }

  /** The low n bits of x and y through a gate. */
  function Bitwise(g: Gate, x: nat, y: nat, n: nat): (r: nat)
    ensures r < Pow2(n)
  {
    if n == 0 then 0 else g.Bit(x % 2, y % 2) + 2 * Bitwise(g, x / 2, y / 2, n - 1)
  }

  function FromBool(b: bool): I64 { if b then 1 else 0 }

  /** Checked division fails on a zero divisor and on MIN / -1. */
  predicate Divides(a: I64, b: I64) { b != 0 && !(a == -TWO63 && b == -1) }

  /** The machine's binary operations. */
  function Binary(op: BinOp, a: I64, b: I64): I64 {
    match op
    case Add => Wrap(a + b)
    case Sub => Wrap(a - b)
    case Mul => Wrap(a * b)
    case Div => if Divides(a, b) then Wrap(TruncDiv(a, b)) else 0
    case Rem => if Divides(a, b) then Wrap(TruncRem(a, b)) else 0
    case Eq => FromBool(a == b)
    case Ne => FromBool(a != b)
    case Lt => FromBool(a < b)
    case Gt => FromBool(a > b)
    case LtEq => FromBool(a <= b)
    case GtEq => FromBool(a >= b)
    case And => FromBool(a != 0 && b != 0)
    case Or => FromBool(a != 0 || b != 0)
    case BitAnd => Wrap(Bitwise(AndGate, Unsigned(a), Unsigned(b), 64))
    case BitOr => Wrap(Bitwise(OrGate, Unsigned(a), Unsigned(b), 64))
    case BitXor => Wrap(Bitwise(XorGate, Unsigned(a), Unsigned(b), 64))
    case Shl => Wrap(a * Pow2(b % 64))
    case Shr => Wrap(a / Pow2(b % 64))
  }

  function Negate(a: I64): I64 { Wrap(0 - a) }

  /** The machine's unary operations: Not is the logical one. */
  function UnaryWord(op: UnOp, w: I64): I64 {
    if op == Neg then Negate(w) else FromBool(w == 0)
  }

  lemma NegateTwice(a: I64)
    ensures Negate(Negate(a)) == a
  {
  }

  // ----- little-endian bytes -----

  function ToBytes(n: nat, width: nat): (r: seq<U8>)
    ensures |r| == width
  {
    if width == 0 then [] else [n % 256] + ToBytes(n / 256, width - 1)
  }

  function FromBytes(bs: seq<U8>): nat {
    if bs == [] then 0 else bs[0] + 256 * FromBytes(bs[1..])
  }

  function Pow256(k: nat): (r: nat)
    ensures r > 0
  {
    if k == 0 then 1 else 256 * Pow256(k - 1)
  }

  lemma {:induction false} BytesRoundTrip(n: nat, width: nat)
    requires n < Pow256(width)
    ensures FromBytes(ToBytes(n, width)) == n
  {
    if width > 0 {
      assert n / 256 < Pow256(width - 1);
      BytesRoundTrip(n / 256, width - 1);
      assert ToBytes(n, width)[1..] == ToBytes(n / 256, width - 1);
    }
  }

  function U32Bytes(n: nat): (r: seq<U8>)
    ensures |r| == 4
  {
    ToBytes(n, 4)
  }

  function I64Bytes(x: I64): (r: seq<U8>)
    ensures |r| == 8
  {
    ToBytes(Unsigned(x), 8)
  }

  lemma U32RoundTrip(n: nat)
    requires n < TWO32
    ensures FromBytes(U32Bytes(n)) == n
  {
    assert Pow256(4) == TWO32 by {
      assert Pow256(1) == 256 && Pow256(2) == 0x1_0000 && Pow256(3) == 0x100_0000;
    }
    BytesRoundTrip(n, 4);
  }

  lemma I64RoundTrip(x: I64)
    ensures Wrap(FromBytes(I64Bytes(x))) == x
  {
    assert Pow256(8) == TWO64 by {
      assert Pow256(2) == 0x1_0000;
      assert Pow256(4) == TWO32 by { assert Pow256(3) == 0x100_0000; }
      assert Pow256(6) == 0x1_0000_0000_0000 by { assert Pow256(5) == 0x100_0000_0000; }
      assert Pow256(7) == 0x100_0000_0000_0000;
    }
    BytesRoundTrip(Unsigned(x), 8);
  }
}

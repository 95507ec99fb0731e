/**
 The field GF(2^8) the threshold library computes in: bytes under exclusive or and
 multiplication modulo x^8 + x^4 + x^3 + x + 1 (section 4.2 of FIPS 197).

 `Mul` and `Pow` specify the two loops of the source, `GfMul` and `GfInv` are those loops, and
 the lemmas show that together they really form a field.
 */
module Gf256 {

  type u8 = bv8

  /** Addition, which is its own inverse. */
  function Add(a: u8, b: u8): u8 {
    a ^ b
  }

  /** Multiplication by x: a shift, reduced when the top bit falls out. */
  function XTime(a: u8): u8 {
    if a & 0x80 != 0 then (a << 1) ^ 0x1B else a << 1
  }

  /** The product by Horner's rule on the bits of `b`, lowest bit first. */
  function Mul(a: u8, b: u8): u8
    decreases b
  {
    if b == 0 then 0 else Add(if b & 1 == 1 then a else 0, Mul(XTime(a), b >> 1))
  }

  // ------------------------------------------------------------------ the product loop

  /** Russian-peasant multiplication, as in the source: two bytes shrink, a wide accumulator grows. */
  method GfMul(a0: u8, b0: u8) returns (p: u8)
    ensures p == Mul(a0, b0)
  {
    var a, b := a0, b0;
    var r: bv16 := 0;
    while a != 0 && b != 0
      invariant r <= 0xFF
      invariant Add(Narrow(r), Mul(a, b)) == Mul(a0, b0)
      decreases b
    {
      LoopStep(r, a, b);
      if b & 1 == 1 {
        r := r ^ (a as bv16);
      }
      var hiBit := a & 0x80;
      a := a << 1;
      if hiBit != 0 {
        a := a ^ 0x1B;
      }
      b := b >> 1;
    }
    LoopEnd(r, a, b);
    p := Narrow(r);
  }

  /** The truncating cast at the end of the loop, which never loses a bit. */
  function Narrow(r: bv16): u8 {
    (r & 0xFF) as u8
  }

  /** What one turn of the loop does to accumulator plus remaining product. */
  lemma LoopStep(r: bv16, a: u8, b: u8)
    requires r <= 0xFF && b != 0
    ensures var r' := if b & 1 == 1 then r ^ (a as bv16) else r;
            r' <= 0xFF && Add(Narrow(r'), Mul(XTime(a), b >> 1)) == Add(Narrow(r), Mul(a, b))
  {
    WideXor(r, a);
    AddAssoc(Narrow(r), if b & 1 == 1 then a else 0, Mul(XTime(a), b >> 1));
  }

  lemma LoopEnd(r: bv16, a: u8, b: u8)
    requires r <= 0xFF && (a == 0 || b == 0)
    ensures Add(Narrow(r), Mul(a, b)) == Narrow(r)
  {
    if a == 0 {
      MulZeroLeft(b);
    }
  }

  lemma WideXor(r: bv16, a: u8)
    requires r <= 0xFF
    ensures r ^ (a as bv16) <= 0xFF
    ensures Narrow(r ^ (a as bv16)) == Add(Narrow(r), a)
  {}


  // ------------------------------------------------------------------ ring laws

  lemma AddAssoc(a: u8, b: u8, c: u8)
    ensures Add(Add(a, b), c) == Add(a, Add(b, c))
  {}

  lemma AddComm(a: u8, b: u8)
    ensures Add(a, b) == Add(b, a)
  {}

  lemma AddCancel(a: u8, b: u8)
    ensures Add(Add(a, b), b) == a
  {}

  lemma AddFour(a: u8, b: u8, c: u8, d: u8)
    ensures Add(Add(a, b), Add(c, d)) == Add(Add(a, c), Add(b, d))
  {
    AddAssoc(a, b, Add(c, d));
    AddAssoc(b, c, d);
    AddComm(b, c);
    AddAssoc(c, b, d);
    AddAssoc(a, c, Add(b, d));
  }

  lemma XTimeAdd(a: u8, b: u8)
    ensures XTime(Add(a, b)) == Add(XTime(a), XTime(b))
  {
    assert (a ^ b) << 1 == (a << 1) ^ (b << 1);
    assert (a ^ b) & 0x80 == (a & 0x80) ^ (b & 0x80);
    assert a & 0x80 == 0 || a & 0x80 == 0x80;
    assert b & 0x80 == 0 || b & 0x80 == 0x80;
    assert (a << 1) ^ 0x1B ^ ((b << 1) ^ 0x1B) == (a << 1) ^ (b << 1);
  }

  lemma {:induction false} MulZeroLeft(b: u8)
    ensures Mul(0, b) == 0
    decreases b
  {
    if b != 0 {
      MulZeroLeft(b >> 1);
    }
  }

  lemma MulOneRight(a: u8)
    ensures Mul(a, 1) == a
  {
    assert Mul(XTime(a), 0) == 0;
  }

  /** Distributivity over the left factor. */
  lemma {:induction false} MulAddLeft(a: u8, b: u8, c: u8)
    ensures Mul(Add(a, b), c) == Add(Mul(a, c), Mul(b, c))
    decreases c
  {
    if c != 0 {
      XTimeAdd(a, b);
      MulAddLeft(XTime(a), XTime(b), c >> 1);
      var s := c & 1 == 1;
      AddFour(if s then a else 0, if s then b else 0, Mul(XTime(a), c >> 1), Mul(XTime(b), c >> 1));
    }
  }

  lemma {:induction false} MulXTimeLeft(a: u8, b: u8)
    ensures Mul(XTime(a), b) == XTime(Mul(a, b))
    decreases b
  {
    if b != 0 {
      MulXTimeLeft(XTime(a), b >> 1);
      XTimeAdd(if b & 1 == 1 then a else 0, Mul(XTime(a), b >> 1));
    }
  }

  /** One step of the product with the multiplication by x moved outside. */
  lemma MulStep(a: u8, b: u8)
    ensures Mul(a, b) == Add(if b & 1 == 1 then a else 0, XTime(Mul(a, b >> 1)))
  {
    MulXTimeLeft(a, b >> 1);
    assert b == 0 ==> b >> 1 == 0;
  }

  lemma SplitLowBit(b: u8)
    ensures b == Add(if b & 1 == 1 then 1 else 0, XTime(b >> 1))
  {
    assert (b >> 1) & 0x80 == 0;
    assert b & 1 == 0 || b & 1 == 1;
    assert b == (b & 1) ^ ((b >> 1) << 1);
  }

  lemma {:induction false} MulOneLeft(b: u8)
    ensures Mul(1, b) == b
    decreases b
  {
    if b != 0 {
      MulOneLeft(b >> 1);
      MulStep(1, b);
      SplitLowBit(b);
    }
  }

  lemma {:induction false} MulComm(a: u8, b: u8)
    ensures Mul(a, b) == Mul(b, a)
    decreases b
  {
    MulStep(a, b);
    if b == 0 {
      MulZeroLeft(a);
    } else {
      MulComm(a, b >> 1);
      SplitLowBit(b);
      var low: u8 := if b & 1 == 1 then 1 else 0;
      MulAddLeft(low, XTime(b >> 1), a);
      MulXTimeLeft(b >> 1, a);
      MulOneLeft(a);
      MulZeroLeft(a);
    }
  }

  lemma MulAddRight(a: u8, b: u8, c: u8)
    ensures Mul(a, Add(b, c)) == Add(Mul(a, b), Mul(a, c))
  {
    MulComm(a, Add(b, c));
    MulComm(a, b);
    MulComm(a, c);
    MulAddLeft(b, c, a);
  }

  lemma MulXTimeRight(a: u8, b: u8)
    ensures Mul(a, XTime(b)) == XTime(Mul(a, b))
  {
    MulComm(a, XTime(b));
    MulComm(a, b);
    MulXTimeLeft(b, a);
  }

  lemma {:induction false} MulAssoc(a: u8, b: u8, c: u8)
    ensures Mul(Mul(a, b), c) == Mul(a, Mul(b, c))
    decreases c
  {
    MulStep(Mul(a, b), c);
    MulStep(b, c);
    if c != 0 {
      MulAssoc(a, b, c >> 1);
      MulXTimeRight(a, Mul(b, c >> 1));
    }
    MulAddRight(a, if c & 1 == 1 then b else 0, XTime(Mul(b, c >> 1)));
  }

  /** Multiplying by x is a shift whose overflow is cancelled by the modulus 0x11B. */
  lemma XTimeIsShiftModulo(a: u8)
    ensures XTime(a) as bv16 == ((a as bv16) << 1) ^ (if a & 0x80 != 0 then 0x11B else 0)
  {}

  ghost predicate AdditiveAt(f: u8 -> u8, c: u8, d: u8) {
    f(Add(c, d)) == Add(f(c), f(d))
  }

  ghost predicate ShiftsAt(f: u8 -> u8, c: u8) {
    f(XTime(c)) == XTime(f(c))
  }

  /**
   Section 4.2 of FIPS 197 fixes the product: multiplication by `a` is the only additive map that
   takes 1 to `a` and turns multiplication by x into `XTime`.
   */
  lemma {:induction false} MulIsUnique(f: u8 -> u8, a: u8, b: u8)
    requires forall c, d :: AdditiveAt(f, c, d)
    requires forall c :: ShiftsAt(f, c)
    requires f(1) == a
    ensures f(b) == Mul(a, b)
    decreases b
  {
    assert AdditiveAt(f, 0, 0);
    AddCancel(f(0), f(0));
    if b != 0 {
      MulIsUnique(f, a, b >> 1);
      var low: u8 := if b & 1 == 1 then 1 else 0;
      assert f(b) == Add(f(low), f(XTime(b >> 1))) by {
        SplitLowBit(b);
        assert AdditiveAt(f, low, XTime(b >> 1));
      }
      assert ShiftsAt(f, b >> 1);
      MulStep(a, b);
    }
  }

  // ------------------------------------------------------------------ powers

  function Pow(a: u8, n: nat): u8 {
    if n == 0 then 1 else Mul(a, Pow(a, n - 1))
  }

  lemma {:induction false} PowAdd(a: u8, m: nat, n: nat)
    ensures Pow(a, m + n) == Mul(Pow(a, m), Pow(a, n))
  {
    if m == 0 {
      MulOneLeft(Pow(a, n));
    } else {
      PowAdd(a, m - 1, n);
      MulAssoc(a, Pow(a, m - 1), Pow(a, n));
    }
  }

  /** Squaring the base halves the exponent. */
  lemma {:induction false} PowSquare(a: u8, n: nat)
    ensures Pow(Mul(a, a), n) == Pow(a, 2 * n)
  {
    if n > 0 {
      PowSquare(a, n - 1);
      MulAssoc(a, a, Pow(a, 2 * (n - 1)));
      assert Pow(a, 2 * n) == Mul(a, Pow(a, 2 * n - 1));
    }
  }

  /** Square-and-multiply for the exponent 254, as in the source; 0 has no inverse and maps to 0. */
  method GfInv(a: u8) returns (r: u8)
    ensures r == Inv(a)
  {
    if a == 0 {
      return 0;
    }
    r := 1;
    var base := a;
    var exp := 254;
    MulOneLeft(Pow(a, 254));
    while exp > 0
      invariant 0 <= exp <= 254
      invariant Mul(r, Pow(base, exp)) == Pow(a, 254)
    {
      PowSquare(base, exp / 2);
      if exp % 2 == 1 {
        MulAssoc(r, base, Pow(base, exp - 1));
        r := GfMul(r, base);
      }
      base := GfMul(base, base);
      exp := exp / 2;
    }
    MulOneRight(r);
  }

  function Inv(a: u8): u8 {
    if a == 0 then 0 else Pow(a, 254)
  }

  // ------------------------------------------------------------------ inverses exist

  function Square(a: u8): u8 {
    Mul(a, a)
  }

  /** In characteristic two squaring is additive. */
  lemma SquareAdd(a: u8, b: u8)
    ensures Square(Add(a, b)) == Add(Square(a), Square(b))
  {
    MulAddLeft(a, b, Add(a, b));
    MulAddRight(a, a, b);
    MulAddRight(b, a, b);
    MulComm(a, b);
    AddAssoc(Add(Square(a), Mul(a, b)), Mul(a, b), Square(b));
    AddCancel(Square(a), Mul(a, b));
  }

  /** `n` successive squarings. */
  function Frobenius(a: u8, n: nat): u8 {
    if n == 0 then a else Square(Frobenius(a, n - 1))
  }

  lemma {:induction false} FrobeniusAdd(a: u8, b: u8, n: nat)
    ensures Frobenius(Add(a, b), n) == Add(Frobenius(a, n), Frobenius(b, n))
  {
    if n > 0 {
      FrobeniusAdd(a, b, n - 1);
      SquareAdd(Frobenius(a, n - 1), Frobenius(b, n - 1));
    }
  }

  function Exp2(n: nat): nat {
    if n == 0 then 1 else 2 * Exp2(n - 1)
  }

  lemma {:induction false} FrobeniusIsPow(a: u8, n: nat)
    ensures Frobenius(a, n) == Pow(a, Exp2(n))
  {
    if n == 0 {
      MulOneRight(a);
      assert Pow(a, 1) == Mul(a, Pow(a, 0));
    } else {
      FrobeniusIsPow(a, n - 1);
      PowAdd(a, Exp2(n - 1), Exp2(n - 1));
    }
  }

  /** Squaring is multiplicative. */
  lemma SquareMul(a: u8, b: u8)
    ensures Square(Mul(a, b)) == Mul(Square(a), Square(b))
  {
    MulAssoc(a, b, Mul(a, b));
    MulComm(a, b);
    MulAssoc(b, b, a);
    MulComm(Square(b), a);
    MulAssoc(a, a, Square(b));
  }

  lemma MulTwo(a: u8)
    ensures Mul(a, 2) == XTime(a)
  {
    MulStep(a, 2);
    MulOneRight(a);
    assert XTime(a) == Mul(a, 2);
  }

  lemma {:induction false} FrobeniusMul(a: u8, b: u8, n: nat)
    ensures Frobenius(Mul(a, b), n) == Mul(Frobenius(a, n), Frobenius(b, n))
  {
    if n > 0 {
      FrobeniusMul(a, b, n - 1);
      SquareMul(Frobenius(a, n - 1), Frobenius(b, n - 1));
    }
  }

  /** One bit of an argument at a time: the Frobenius map respects a = low + x * (a / x). */
  lemma FrobeniusStep(a: u8, n: nat)
    ensures Frobenius(a, n)
         == Add(Frobenius(if a & 1 == 1 then 1 else 0, n), Mul(Frobenius(a >> 1, n), Frobenius(2, n)))
  {
    SplitLowBit(a);
    MulTwo(a >> 1);
    FrobeniusAdd(if a & 1 == 1 then 1 else 0, XTime(a >> 1), n);
    FrobeniusMul(a >> 1, 2, n);
  }

  lemma {:induction false} FrobeniusFixesBits(n: nat)
    ensures Frobenius(0, n) == 0 && Frobenius(1, n) == 1
  {
    if n > 0 {
      FrobeniusFixesBits(n - 1);
      MulOneRight(1);
    }
  }

  lemma MulByFour(a: u8)
    ensures Mul(a, 4) == XTime(XTime(a))
  {
    MulStep(a, 4);
    MulTwo(a);
  }

  /** Squaring spreads the bits: the square of low + x * t is low + x^2 * t^2. */
  lemma SquareStep(a: u8)
    ensures Square(a) == Add(if a & 1 == 1 then 1 else 0, XTime(XTime(Square(a >> 1))))
  {
    FrobeniusStep(a, 1);
    FrobeniusFixesBits(1);
    MulTwo(2);
    MulByFour(Square(a >> 1));
    assert forall m: u8 :: Frobenius(m, 1) == Square(Frobenius(m, 0)) == Square(m);
  }

  /** The square of low(a) + x * t from the square of t. */
  function SquareBit(a: u8, s: u8): u8 {
    Add(if a & 1 == 1 then 1 else 0, XTime(XTime(s)))
  }

  /** Squaring in closed form, bit by bit. */
  function SquareBits(a: u8): u8 {
    SquareBit(a, SquareBit(a >> 1, SquareBit(a >> 2, SquareBit(a >> 3,
    SquareBit(a >> 4, SquareBit(a >> 5, SquareBit(a >> 6, SquareBit(a >> 7, 0))))))))
  }

  lemma SquareByBits(a: u8)
    ensures Square(a) == SquareBits(a)
  {
    SquareStep(a);
    SquareStep(a >> 1);
    SquareStep(a >> 2);
    SquareStep(a >> 3);
    SquareStep(a >> 4);
    SquareStep(a >> 5);
    SquareStep(a >> 6);
    SquareStep(a >> 7);
    assert (a >> 1) >> 1 == a >> 2 && (a >> 2) >> 1 == a >> 3 && (a >> 3) >> 1 == a >> 4;
    assert (a >> 4) >> 1 == a >> 5 && (a >> 5) >> 1 == a >> 6 && (a >> 6) >> 1 == a >> 7;
    assert (a >> 7) >> 1 == 0;
    assert Square(0) == 0;
  }

  /** The orbit of x under squaring comes back to x after eight steps. */
  lemma OrbitOfTwo()
    ensures Frobenius(2, 8) == 2
  {
    SquareByBits(0x2);
    SquareByBits(0x4);
    SquareByBits(0x10);
    SquareByBits(0x1b);
    SquareByBits(0x5e);
    SquareByBits(0xe4);
    SquareByBits(0x4d);
    SquareByBits(0xfa);
    assert Frobenius(2, 4) == 0x5e;
  }

  /** Fermat for this field: eight squarings are the identity. */
  lemma {:induction false} FrobeniusPeriod(a: u8)
    ensures Frobenius(a, 8) == a
    decreases a
  {
    FrobeniusFixesBits(8);
    if a != 0 {
      FrobeniusPeriod(a >> 1);
      FrobeniusStep(a, 8);
      OrbitOfTwo();
      MulTwo(a >> 1);
      SplitLowBit(a);
    }
  }

  /** Only 0 and 1 are their own squares. */
  lemma Idempotents(e: u8)
    requires Square(e) == e
    ensures e == 0 || e == 1
  {
    SquareByBits(e);
  }

  /** What `gf_inv` computes is the inverse of every non-zero byte. */
  lemma InvIsInverse(a: u8)
    requires a != 0
    ensures Mul(a, Inv(a)) == 1
  {
    FrobeniusPeriod(a);
    FrobeniusIsPow(a, 8);
    assert Exp2(8) == 256;
    var e := Mul(a, Inv(a));
    assert e == Pow(a, 255);
    PowAdd(a, 255, 255);
    PowAdd(a, 254, 256);
    MulComm(Pow(a, 254), a);
    Idempotents(e);
    assert Pow(a, 256) == Mul(a, e);
    MulComm(a, 0);
    MulZeroLeft(a);
  }

  lemma NoZeroDivisors(a: u8, b: u8)
    requires Mul(a, b) == 0
    ensures a == 0 || b == 0
  {
    if a != 0 {
      InvIsInverse(a);
      MulComm(a, Inv(a));
      MulAssoc(Inv(a), a, b);
      MulOneLeft(b);
    }
  }
}

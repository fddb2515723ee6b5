/** Model of safeDiv in practical-go-foundations/panic/div.go: Go integer division whose
    divide-by-zero panic is recovered by a deferred function. Go's `int` is taken to be 64 bits. */
module SafeDivision {

  const MinInt: int := -0x8000_0000_0000_0000
  const MaxInt: int := 0x7FFF_FFFF_FFFF_FFFF

  /** Go's `int` on a 64-bit platform. */
  newtype Int = x: int | -0x8000_0000_0000_0000 <= x <= 0x7FFF_FFFF_FFFF_FFFF

  /** Go's `error` interface value: nil, or some error. */
  datatype Error = Nil | Err(message: string)

  /** The two results of safeDiv. */
  datatype DivResult = DivResult(quotient: Int, err: Error)

  function Abs(x: int): nat {
    if x < 0 then -x else x
  }

  /** What the Go specification asks of `q = a / b` for b != 0: a - q*b is smaller than b in
      magnitude and is zero or has the sign of a (the quotient is truncated toward zero). */
  ghost predicate IsTruncatedQuotient(a: int, b: int, q: int) {
    b != 0 &&
    var rem := a - q * b;
    Abs(rem) < Abs(b) && (rem == 0 || (rem < 0 <==> a < 0))
  }

  /** Integer division truncated toward zero, on unbounded integers. */
  function TruncDiv(a: int, b: int): (q: int)
    requires b != 0
    ensures IsTruncatedQuotient(a, b, q)
    ensures Abs(q) <= Abs(a)
  {
    TruncDivCorrect(a, b);
    var m := Abs(a) / Abs(b);
    if (a < 0) == (b < 0) then m else -m
  }

  lemma TruncDivCorrect(a: int, b: int)
    requires b != 0
    ensures var m := Abs(a) / Abs(b);
      var q := if (a < 0) == (b < 0) then m else -m;
      IsTruncatedQuotient(a, b, q) && Abs(q) <= Abs(a)
  {
    var A: int, B: int := Abs(a), Abs(b);
    assert B >= 1;
    var m: int, r: int := A / B, A % B;
    DivNonneg(A, B);
    var q := if (a < 0) == (b < 0) then m else -m;
    var p := m * B;
    assert A == p + r && 0 <= r < B;
    MulAtLeast(m, B);
    SignedProduct(a, b, m);
    Remainder(a, b, q, p, r);
  }

  /** The truncated quotient times b is the product of the magnitudes, with the sign of a. */
  lemma SignedProduct(a: int, b: int, m: int)
    requires b != 0
    ensures (if (a < 0) == (b < 0) then m else -m) * b == (if a < 0 then -(m * Abs(b)) else m * Abs(b))
  {
    var B: int := Abs(b);
    NegMul(m, B);
    if b < 0 {
      assert b == -B;
    }
  }

  /** With |a| = p + r and q * b = p carrying the sign of a, the remainder is r with that sign. */
  lemma Remainder(a: int, b: int, q: int, p: int, r: int)
    requires b != 0 && Abs(a) == p + r && 0 <= r < Abs(b)
    requires q * b == (if a < 0 then -p else p) && Abs(q) <= p
    ensures IsTruncatedQuotient(a, b, q) && Abs(q) <= Abs(a)
  {
    assert a - q * b == (if a < 0 then -r else r);
  }

  lemma DivNonneg(A: int, B: int)
    requires A >= 0 && B >= 1
    ensures A / B >= 0
  {
  }

  lemma MulAtLeast(m: int, B: int)
    requires m >= 0
    requires B >= 1
    ensures m <= m * B
  {
  }

  lemma NegMul(x: int, y: int)
    ensures (-x) * y == -(x * y) && x * (-y) == -(x * y) && (-x) * (-y) == x * y
  {
  }

  lemma AbsMul(d: int, b: int)
    requires d != 0
    ensures Abs(d * b) >= Abs(b)
  {
    var D: int, B: int := Abs(d), Abs(b);
    var p := D * B;
    MulAtLeast(B, D);
    assert B <= p;
    NegMul(D, B);
    assert d * b == p || d * b == -p;
  }

  /** The truncated quotient is unique: the Go rule determines a / b. */
  lemma TruncatedQuotientUnique(a: int, b: int, q1: int, q2: int)
    requires IsTruncatedQuotient(a, b, q1) && IsTruncatedQuotient(a, b, q2)
    ensures q1 == q2
  {
    var r1, r2 := a - q1 * b, a - q2 * b;
    var d := q1 - q2;
    assert r2 - r1 == d * b by { assert q1 * b - q2 * b == (q1 - q2) * b; }
    assert Abs(r2 - r1) < Abs(b);
    if d != 0 {
      AbsMul(d, b);
    }
  }

  /** Two's-complement wrap-around into Go's 64-bit int. */
  function Wrap(x: int): (r: Int)
    ensures MinInt <= x <= MaxInt ==> r as int == x
    ensures (r as int - x) % 0x1_0000_0000_0000_0000 == 0
  {
    ((x - MinInt) % 0x1_0000_0000_0000_0000 + MinInt) as Int
  }

  /** safeDiv(a, b): for b != 0, Go's truncated quotient (wrapping for MinInt / -1) and a nil
      error; for b == 0 the panic is recovered and the unnamed results keep their zero values. */
  function SafeDiv(a: Int, b: Int): (r: DivResult)
    ensures r.err == Nil
    ensures b == 0 ==> r.quotient == 0
    ensures b != 0 && !(a as int == MinInt && b == -1) ==> IsTruncatedQuotient(a as int, b as int, r.quotient as int)
    ensures a as int == MinInt && b == -1 ==> r.quotient == a
  {
    if b == 0 then DivResult(0, Nil)
    else DivResult(Wrap(TruncDiv(a as int, b as int)), Nil)
  }

  /** Go truncates where Dafny's `/` rounds toward negative infinity: -7 / 2 is -3 in Go. */
  lemma TruncationDiffersFromEuclidean()
    ensures SafeDiv(-7, 2).quotient == -3
    ensures (-7) / 2 == -4
  {
    assert IsTruncatedQuotient(-7, 2, -3);
    TruncatedQuotientUnique(-7, 2, SafeDiv(-7, 2).quotient as int, -3);
  }
}

/** Java's fixed-width integer arithmetic, written out because Dafny's
    integers are unbounded and its division is Euclidean. */
module JavaInt {
  import opened Wrappers

  const INT_MIN: int := -0x8000_0000
  const INT_MAX: int := 0x7fff_ffff

  /** The values of Java's 32-bit `int`. */
  predicate InInt32(x: int) {
    INT_MIN <= x <= INT_MAX
  }

  /** Two's-complement wrap-around of a 32-bit `int` operation whose exact
      result is `x` (Java's `*` on `int` does not detect overflow). */
  function Wrap32(x: int): (r: int)
    ensures InInt32(r)
    ensures (x - r) % 0x1_0000_0000 == 0
    ensures InInt32(x) ==> r == x
  {
    var m := x % 0x1_0000_0000;
    if m <= INT_MAX then m else m - 0x1_0000_0000
  }

  function Abs(x: int): nat {
    if x < 0 then -x else x
  }

  /** Java's integer `/`: the quotient is rounded toward zero, and a zero
      divisor raises ArithmeticException (`None`). */
  function Div(a: int, b: int): (r: Option<int>)
    ensures r.Some? <==> b != 0
  {
    if b == 0 then None
    else
      var q := Abs(a) / Abs(b);
      Some(if (a < 0) == (b < 0) then q else -q)
  }

  /** The remainder left by Java's division has the sign of the dividend and
      is smaller in magnitude than the divisor (section 15.17.3 of the Java
      Language Specification), which is what rounding the quotient toward
      zero (section 15.17.2) leaves. */
  lemma DivTruncates(a: int, b: int)
    requires b != 0
    ensures var q := Div(a, b).value;
      && Abs(a - q * b) < Abs(b)
      && (a >= 0 ==> a - q * b >= 0)
      && (a <= 0 ==> a - q * b <= 0)
  {
    var q, rem := DivParts(a, b);
    var d := Div(a, b).value;
    SignedProduct(q, a, b, d);
    RemainderOfParts(a, Abs(b), q * Abs(b), d * b, rem);
  }

  /** The magnitudes' floor quotient and remainder, from which `Div` takes
      its result. */
  lemma DivParts(a: int, b: int) returns (q: int, rem: int)
    requires b != 0
    ensures Abs(a) == q * Abs(b) + rem && 0 <= q * Abs(b) && 0 <= rem < Abs(b)
    ensures Div(a, b).value == (if (a < 0) == (b < 0) then q else -q)
  {
    var A: int, B: int := Abs(a), Abs(b);
    q, rem := A / B, A % B;
    MulMono(q, 0, B);
  }

  /** `q` with the sign rule of Java's quotient, times the divisor, has the
      sign of the dividend and magnitude `q * Abs(b)`. */
  lemma SignedProduct(q: int, a: int, b: int, d: int)
    requires d == (if (a < 0) == (b < 0) then q else -q)
    ensures d * b == (if a < 0 then -(q * Abs(b)) else q * Abs(b))
  {
    var B: int := Abs(b);
    MulNeg(q, B);
    if b < 0 {
      assert b == -B;
    }
  }

  /** With `Abs(a) == p + rem`, taking `p` back with the dividend's sign
      leaves `rem` with the dividend's sign. */
  lemma RemainderOfParts(a: int, B: int, p: int, dp: int, rem: int)
    requires Abs(a) == p + rem && 0 <= p && 0 <= rem < B
    requires dp == (if a < 0 then -p else p)
    ensures Abs(a - dp) < B && (a >= 0 ==> a - dp >= 0) && (a <= 0 ==> a - dp <= 0)
  {
  }

  lemma MulNeg(x: int, y: int)
    ensures (-x) * y == -(x * y) && x * (-y) == -(x * y) && (-x) * (-y) == x * y
  {
  }

  /** On a non-negative dividend and a positive divisor the truncated quotient
      is the floor: the largest `q` with `q * b <= a`. */
  lemma DivOfNonNegative(a: int, b: int)
    requires a >= 0 && b > 0
    ensures Div(a, b) == Some(a / b)
    ensures 0 <= a / b <= a
    ensures (a / b) * b <= a < (a / b + 1) * b
  {
    var q: int, rem: int := a / b, a % b;
    assert a == q * b + rem && 0 <= rem < b;
    assert (q + 1) * b == q * b + b;
    MulMono(q, 1, b);
  }

  lemma MulMono(x: int, y: int, z: int)
    requires x >= 0 && 0 <= y <= z
    ensures x * y <= x * z
  {
  }
}

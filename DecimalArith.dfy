/** Exact base-10 numbers as the `decimal` module keeps them: an integer
    coefficient and a number of fraction digits (the scale, the negated
    exponent), so that a value is coef / 10^scale. Addition, multiplication,
    negation and absolute value are exact, which is what `Decimal` does as
    long as results stay within the context precision. */
module DecimalArith {

  /** 10^n */
  function Pow10(n: nat): (p: nat)
    ensures p >= 1
  {
    if n == 0 then 1 else 10 * Pow10(n - 1)
  }

  lemma {:induction false} Pow10Add(a: nat, b: nat)
    ensures Pow10(a + b) == Pow10(a) * Pow10(b)
  {
    if b > 0 {
      Pow10Add(a, b - 1);
      assert Pow10(a + b) == 10 * Pow10(a + b - 1);
    }
  }

  lemma {:induction false} Pow10Monotone(a: nat, b: nat)
    requires a <= b
    ensures Pow10(a) <= Pow10(b)
  {
    if a < b {
      Pow10Monotone(a, b - 1);
    }
  }

  /** A decimal number: coef * 10^-scale. */
  datatype Dec = Dec(coef: int, scale: nat)

  /** The number zero as the source's `total = 0` starts it: an integer, scale 0. */
  const Zero := Dec(0, 0)

  /** The number a decimal stands for. */
  ghost function Value(d: Dec): real
  {
    d.coef as real / Pow10(d.scale) as real
  }

  function Max(a: nat, b: nat): nat
  {
    if a < b then b else a
  }

  /** The coefficient of `d` written with `s` fraction digits. */
  function Rescale(d: Dec, s: nat): (c: int)
    requires d.scale <= s
    ensures Value(Dec(c, s)) == Value(d)
    ensures d.coef < 0 <==> c < 0
    ensures d.coef == 0 <==> c == 0
  {
    var k := s - d.scale;
    ScaledValue(d.coef, d.scale, k);
    d.coef * Pow10(k)
  }

  lemma ScaledValue(c: int, s: nat, k: nat)
    ensures (c * Pow10(k)) as real / Pow10(s + k) as real == c as real / Pow10(s) as real
  {
    Pow10Add(s, k);
    var P, Q := Pow10(s), Pow10(k);
    IntMulReal(P, Q);
    IntMulReal(c, Q);
    DivCancel(c as real, P as real, Q as real);
  }

  lemma IntMulReal(x: int, y: int)
    ensures (x * y) as real == x as real * y as real
  {
  }

  lemma MulAssoc(x: int, y: int, z: int)
    ensures x * y * z == x * (y * z)
  {
  }

  lemma DivCancel(x: real, p: real, q: real)
    requires p > 0.0 && q > 0.0
    ensures (x * q) / (p * q) == x / p
  {
    var z := (x * q) / (p * q);
    assert z * (p * q) == x * q;
    assert (z * p) * q == x * q;
  }

  lemma DivMul(x: real, y: real, p: real, q: real)
    requires p > 0.0 && q > 0.0
    ensures (x * y) / (p * q) == (x / p) * (y / q)
  {
    var u, v := x / p, y / q;
    assert u * p == x;
    assert v * q == y;
    assert (u * v) * (p * q) == x * y;
  }

  lemma DivAdd(x: real, y: real, p: real)
    requires p > 0.0
    ensures (x + y) / p == x / p + y / p
  {
    var u, v := x / p, y / p;
    assert u * p == x && v * p == y;
    assert (u + v) * p == x + y;
  }

  /** Values at one scale add and subtract as their coefficients do. */
  lemma ValueAdd(x: int, y: int, s: nat)
    ensures Value(Dec(x + y, s)) == Value(Dec(x, s)) + Value(Dec(y, s))
  {
    DivAdd(x as real, y as real, Pow10(s) as real);
  }

  lemma ValueSub(x: int, y: int, s: nat)
    ensures Value(Dec(x, s)) - Value(Dec(y, s)) == (x - y) as real / Pow10(s) as real
  {
    DivAdd((x - y) as real, y as real, Pow10(s) as real);
  }

  /** At one scale a larger coefficient is a larger value. */
  lemma ValueMonotone(x: int, y: int, s: nat)
    requires x <= y
    ensures Value(Dec(x, s)) <= Value(Dec(y, s))
  {
    ValueSub(y, x, s);
    DivNonNegative((y - x) as real, Pow10(s) as real);
  }

  lemma DivNonNegative(x: real, p: real)
    requires x >= 0.0 && p > 0.0
    ensures x / p >= 0.0
  {
    var w := x / p;
    assert w * p == x;
    if w < 0.0 {
      PosMul(-w, p);
    }
  }

  lemma DivPositive(x: real, p: real)
    requires x > 0.0 && p > 0.0
    ensures x / p > 0.0
  {
    var w := x / p;
    assert w * p == x;
    if w < 0.0 {
      PosMul(-w, p);
    }
  }

  lemma PosMul(x: real, y: real)
    requires x > 0.0 && y > 0.0
    ensures x * y > 0.0
  {
  }

  /** Two decimals have the same value exactly when their coefficients agree
      at a common scale. */
  lemma {:induction false} SameValue(a: Dec, b: Dec, s: nat)
    requires a.scale <= s && b.scale <= s
    ensures Value(a) == Value(b) <==> Rescale(a, s) == Rescale(b, s)
  {
    var x, y := Rescale(a, s), Rescale(b, s);
    ValueSub(x, y, s);
    if x != y {
      assert (x - y) as real / Pow10(s) as real != 0.0;
    }
  }

  /** Decimal addition: the result keeps the larger number of fraction digits. */
  function Add(a: Dec, b: Dec): (r: Dec)
    ensures r.scale == Max(a.scale, b.scale)
    ensures Value(r) == Value(a) + Value(b)
  {
    var s := Max(a.scale, b.scale);
    var x, y := Rescale(a, s), Rescale(b, s);
    ValueAdd(x, y, s);
    Dec(x + y, s)
  }

  /** Decimal multiplication: coefficients multiply, scales add. */
  function Mul(a: Dec, b: Dec): (r: Dec)
    ensures r.scale == a.scale + b.scale
    ensures Value(r) == Value(a) * Value(b)
  {
    MulValue(a, b);
    Dec(a.coef * b.coef, a.scale + b.scale)
  }

  lemma MulValue(a: Dec, b: Dec)
    ensures Value(Dec(a.coef * b.coef, a.scale + b.scale)) == Value(a) * Value(b)
  {
    var P, Q := Pow10(a.scale), Pow10(b.scale);
    Pow10Add(a.scale, b.scale);
    IntMulReal(P, Q);
    IntMulReal(a.coef, b.coef);
    DivMul(a.coef as real, b.coef as real, P as real, Q as real);
  }

  function Neg(a: Dec): (r: Dec)
    ensures r.scale == a.scale
    ensures Value(r) == -Value(a)
  {
    Dec(-a.coef, a.scale)
  }

  function Abs(a: Dec): (r: Dec)
    ensures r.scale == a.scale
    ensures r.coef >= 0
    ensures Value(r) == if Value(a) < 0.0 then -Value(a) else Value(a)
  {
    if a.coef < 0 then Dec(-a.coef, a.scale) else a
  }

  /** Subtraction, as `fees_round_half_up - fees_round_half_even` does it. */
  function Sub(a: Dec, b: Dec): (r: Dec)
    ensures r.scale == Max(a.scale, b.scale)
    ensures Value(r) == Value(a) - Value(b)
  {
    Add(a, Neg(b))
  }

  /** Coefficients at a common scale add. */
  lemma RescaleAdd(a: Dec, b: Dec, s: nat)
    requires a.scale <= s && b.scale <= s
    ensures Rescale(Add(a, b), s) == Rescale(a, s) + Rescale(b, s)
  {
    var m := Max(a.scale, b.scale);
    var x, y := Rescale(a, m), Rescale(b, m);
    var p := Pow10(s - m);
    assert Add(a, b) == Dec(x + y, m);
    assert Rescale(Add(a, b), s) == (x + y) * p;
    RescaleTwice(a, m, s);
    RescaleTwice(b, m, s);
    Distribute(x, y, p);
  }

  lemma RescaleTwice(d: Dec, m: nat, s: nat)
    requires d.scale <= m <= s
    ensures Rescale(d, s) == Rescale(d, m) * Pow10(s - m)
  {
    Pow10Add(m - d.scale, s - m);
    MulAssoc(d.coef, Pow10(m - d.scale), Pow10(s - m));
  }

  lemma Distribute(x: int, y: int, p: int)
    ensures (x + y) * p == x * p + y * p
  {
  }
}

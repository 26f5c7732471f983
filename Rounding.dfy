/** `round(x, ndigits)` on a `Decimal`: quantize to `ndigits` fraction digits
    under the rounding rule of the context. The two rules the fee calculation
    chooses between are ROUND_HALF_UP (ties away from zero, roundTiesToAway of
    IEEE 754-2008 section 4.3.1) and ROUND_HALF_EVEN (ties to the even
    neighbour, roundTiesToEven of the same section). The rule is a parameter
    here, not ambient context state. */
module Rounding {
  import opened DecimalArith

  datatype Rule = HalfUp | HalfEven

  function Dist(x: int, y: int): nat
  {
    if x < y then y - x else x - y
  }

  /** The remainder of m in units of u is exactly half a unit. */
  predicate IsTie(m: nat, u: nat)
    requires u >= 1
  {
    2 * (m % u) == u
  }

  /** m / u rounded to an integer under `rule`, for a magnitude m and a unit
      u = 10^k: one of the two integers that bracket m / u. */
  function RoundQuotient(m: nat, u: nat, rule: Rule): (q: nat)
    requires u >= 1
    ensures q == m / u || q == m / u + 1
  {
    var t := m / u;
    var rem := m % u;
    if 2 * rem < u then t
    else if 2 * rem > u then t + 1
    else if rule == HalfUp || t % 2 == 1 then t + 1
    else t
  }

  lemma DivBracket(m: nat, u: nat)
    requires u >= 1
    ensures m == (m / u) * u + m % u
    ensures (m / u + 1) * u == (m / u) * u + u
  {
  }

  /** The rounded multiple of the unit lies within half a unit of m. */
  lemma RoundQuotientWithinHalf(m: nat, u: nat, rule: Rule)
    requires u >= 1
    ensures 2 * Dist(RoundQuotient(m, u, rule) * u, m) <= u
  {
    var t, rem := m / u, m % u;
    var q := RoundQuotient(m, u, rule);
    DivBracket(m, u);
    if q == t {
      assert 2 * rem <= u;
      assert q * u == t * u;
    } else {
      assert 2 * rem >= u;
      assert q * u == (t + 1) * u;
    }
  }

  /** No multiple of the unit is nearer to m than the rounded one. */
  lemma RoundQuotientIsNearest(m: nat, u: nat, rule: Rule, c: int)
    requires u >= 1
    ensures Dist(RoundQuotient(m, u, rule) * u, m) <= Dist(c * u, m)
  {
    var t := m / u;
    var q := RoundQuotient(m, u, rule);
    DivBracket(m, u);
    if c <= t {
      MulMonotone(c, t, u);
    } else {
      MulMonotone(t + 1, c, u);
    }
    assert q * u == t * u || q * u == (t + 1) * u;
    NearestLinear(m, u, t * u, m % u, q * u, c * u);
  }

  lemma NearestLinear(m: int, u: int, lo: int, rem: int, x: int, y: int)
    requires m == lo + rem && 0 <= rem < u
    requires x == lo || x == lo + u
    requires x == lo ==> 2 * rem <= u
    requires x == lo + u ==> 2 * rem >= u
    requires y <= lo || y >= lo + u
    ensures Dist(x, m) <= Dist(y, m)
  {
  }

  lemma MulMonotone(a: int, b: int, u: nat)
    requires a <= b
    ensures a * u <= b * u
  {
  }

  /** Away from a tie both rules round to nearest and so agree. */
  lemma RulesAgreeOffTie(m: nat, u: nat)
    requires u >= 1 && !IsTie(m, u)
    ensures RoundQuotient(m, u, HalfUp) == RoundQuotient(m, u, HalfEven)
    ensures 2 * (m % u) < u ==> RoundQuotient(m, u, HalfUp) == m / u
    ensures 2 * (m % u) > u ==> RoundQuotient(m, u, HalfUp) == m / u + 1
  {
  }

  /** At a tie HALF_UP moves the magnitude up and HALF_EVEN keeps an even last
      digit; they differ by one unit exactly when the truncated digit is even. */
  lemma TieBreak(m: nat, u: nat)
    requires u >= 1 && IsTie(m, u)
    ensures RoundQuotient(m, u, HalfUp) == m / u + 1
    ensures RoundQuotient(m, u, HalfEven) % 2 == 0
    ensures RoundQuotient(m, u, HalfUp) - RoundQuotient(m, u, HalfEven) == if (m / u) % 2 == 0 then 1 else 0
  {
  }

  /** Whether HALF_UP and HALF_EVEN round the magnitude m to different values. */
  predicate IsEvenTie(m: nat, u: nat)
    requires u >= 1
  {
    IsTie(m, u) && (m / u) % 2 == 0
  }

  lemma RuleGap(m: nat, u: nat)
    requires u >= 1
    ensures RoundQuotient(m, u, HalfUp) - RoundQuotient(m, u, HalfEven) == if IsEvenTie(m, u) then 1 else 0
  {
    if IsTie(m, u) {
      TieBreak(m, u);
    } else {
      RulesAgreeOffTie(m, u);
    }
  }

  /** `round(d, nd)` under `rule`: the result always carries exactly nd
      fraction digits (quantize pads with zeros), and a negative number is
      rounded by its magnitude, as `decimal` rounds sign and coefficient
      separately. */
  function Round(d: Dec, nd: nat, rule: Rule): (r: Dec)
    ensures r.scale == nd
    ensures d.scale <= nd ==> Value(r) == Value(d)
    ensures d.coef >= 0 ==> r.coef >= 0
  {
    if d.scale <= nd then Dec(Rescale(d, nd), nd)
    else
      var q: int := RoundQuotient(if d.coef < 0 then -d.coef else d.coef, Pow10(d.scale - nd), rule);
      Dec(if d.coef < 0 then -q else q, nd)
  }

  /** ROUND_DOWN of a non-negative number: the largest multiple of 10^-nd
      that does not exceed it. */
  function Truncate(d: Dec, nd: nat): (r: Dec)
    requires d.coef >= 0
    ensures r.scale == nd
    ensures Value(r) <= Value(d) < Value(Dec(r.coef + 1, nd))
  {
    if d.scale <= nd then
      var c := Rescale(d, nd);
      ValueSub(c + 1, c, nd);
      DivPositive(1.0, Pow10(nd) as real);
      Dec(c, nd)
    else
      FloorBracket(d.coef, d.scale, nd);
      Dec(d.coef / Pow10(d.scale - nd), nd)
  }

  lemma FloorBracket(c: nat, s: nat, nd: nat)
    requires nd < s
    ensures var t := c / Pow10(s - nd);
      Value(Dec(t, nd)) <= Value(Dec(c, s)) < Value(Dec(t + 1, nd))
  {
    var u := Pow10(s - nd);
    var t := c / u;
    DivBracket(c, u);
    var lo, hi := Rescale(Dec(t, nd), s), Rescale(Dec(t + 1, nd), s);
    assert lo == t * u;
    assert hi == (t + 1) * u;
    ValueSub(c, lo, s);
    ValueSub(hi, c, s);
    DivNonNegative((c - lo) as real, Pow10(s) as real);
    DivPositive((hi - c) as real, Pow10(s) as real);
  }

  /** A rounded non-negative number is one of the two multiples of 10^-nd
      that bracket it. */
  lemma RoundIsNeighbour(d: Dec, nd: nat, rule: Rule)
    requires d.coef >= 0
    ensures Round(d, nd, rule).coef == Truncate(d, nd).coef
         || Round(d, nd, rule).coef == Truncate(d, nd).coef + 1
  {
  }

  /** Half a unit in the last retained place: 5 * 10^-(nd+1). */
  function HalfUnit(nd: nat): Dec
  {
    Dec(5, nd + 1)
  }

  /** A rounded number lies within half a unit of the last retained place of
      the number it rounds. */
  lemma RoundWithinHalfUnit(d: Dec, nd: nat, rule: Rule)
    ensures Value(d) - Value(HalfUnit(nd)) <= Value(Round(d, nd, rule)) <= Value(d) + Value(HalfUnit(nd))
  {
    var r := Round(d, nd, rule);
    var s := Max(d.scale, nd + 1);
    var x, y, h := Rescale(r, s), Rescale(d, s), Rescale(HalfUnit(nd), s);
    if d.scale <= nd {
      SameValue(r, d, s);
    } else {
      var k := d.scale - nd;
      var u := Pow10(k);
      var m := if d.coef < 0 then -d.coef else d.coef;
      var q := RoundQuotient(m, u, rule);
      assert x == r.coef * u;
      assert Dist(x, y) == Dist(q * u, m) by {
        if d.coef < 0 {
          NegMul(q, u);
        }
      }
      RoundQuotientWithinHalf(m, u, rule);
      assert 2 * h == u;
    }
    assert y - h <= x <= y + h;
    ValueMonotone(y - h, x, s);
    ValueMonotone(x, y + h, s);
    ValueAdd(y - h, h, s);
    ValueAdd(y, h, s);
  }

  lemma NegMul(q: int, u: int)
    ensures (-q) * u == -(q * u)
  {
  }

  /** Rounding commutes with negation under both rules. */
  lemma RoundNeg(d: Dec, nd: nat, rule: Rule)
    ensures Round(Neg(d), nd, rule) == Neg(Round(d, nd, rule))
  {
  }

  /** So `round(abs(x))` equals `abs(round(x))`: the order of rounding and
      taking the magnitude does not matter. */
  lemma AbsRoundCommute(d: Dec, nd: nat, rule: Rule)
    ensures Round(Abs(d), nd, rule) == Abs(Round(d, nd, rule))
  {
    if d.coef < 0 {
      RoundNeg(d, nd, rule);
      assert Abs(d) == Neg(d);
    }
  }
}

/** The two folds over the amount column of the transaction feed:
    `sum_amount(..., as_decimal=True)` adds every amount, and `sum_fees`
    adds `round(abs(fee_perc * amount), ndigits)` for every amount under a
    chosen rounding rule. The feed arrives as the sequence of amount tokens
    (the last field of every row after the header). */
module Transactions {
  import opened Wrappers
  import opened DecimalArith
  import opened Rounding
  import opened DecimalText

  /** Why a fold produced no total: the amount token at `index` or the fee
      rate is not a number. */
  datatype FeedError = MalformedAmount(index: nat, token: string) | MalformedRate(token: string)

  /** Default arguments of `sum_fees`. */
  const DefaultFeePerc: string := "0.00123"
  const DefaultDigits: nat := 8

  /** What a fold adds for one amount: the amount itself, or its fee. */
  datatype Summand = Amount | FeeAt(rate: Dec, ndigits: nat, rule: Rule)

  /** The fee on one amount: the magnitude of rate * amount, rounded to
      `nd` fraction digits only after the absolute value is taken. */
  function Fee(amount: Dec, rate: Dec, nd: nat, rule: Rule): (f: Dec)
    ensures f.coef >= 0 && f.scale == nd
  {
    Round(Abs(Mul(rate, amount)), nd, rule)
  }

  function Term(s: Summand, amount: Dec): Dec
  {
    match s
    case Amount => amount
    case FeeAt(rate, nd, rule) => Fee(amount, rate, nd, rule)
  }

  predicate AllWellFormed(tokens: seq<string>)
  {
    forall i :: 0 <= i < |tokens| ==> Parse(tokens[i]).Some?
  }

  /** The fold both loops perform: start from the integer 0 and add the term
      of every token in order; the first malformed token aborts it. */
  function Total(tokens: seq<string>, s: Summand): Result<Dec, FeedError>
  {
    if tokens == [] then Ok(Zero)
    else
      var n := |tokens| - 1;
      match Total(tokens[..n], s)
      case Err(e) => Err(e)
      case Ok(t) =>
        match Parse(tokens[n])
        case None => Err(MalformedAmount(n, tokens[n]))
        case Some(a) => Ok(Add(t, Term(s, a)))
  }

  /** An error in a prefix is the error of the whole fold. */
  lemma {:induction false} TotalErrorSticks(tokens: seq<string>, i: nat, s: Summand)
    requires i <= |tokens| && Total(tokens[..i], s).Err?
    ensures Total(tokens, s) == Total(tokens[..i], s)
    decreases |tokens| - i
  {
    if i < |tokens| {
      var n := |tokens| - 1;
      assert tokens[..i + 1][..i] == tokens[..i];
      TotalErrorSticks(tokens, i + 1, s);
    } else {
      assert tokens[..i] == tokens;
    }
  }

  /** One more token: the fold over tokens[..i + 1] extends the fold over
      tokens[..i] by that token's term, or fails on it. */
  lemma TotalSnoc(tokens: seq<string>, i: nat, s: Summand)
    requires i < |tokens|
    ensures Total(tokens[..i + 1], s) ==
      match Total(tokens[..i], s)
      case Err(e) => Err(e)
      case Ok(t) =>
        match Parse(tokens[i])
        case None => Err(MalformedAmount(i, tokens[i]))
        case Some(a) => Ok(Add(t, Term(s, a)))
  {
    assert tokens[..i + 1][..i] == tokens[..i];
  }

  /** `sum_amount(f_name, as_decimal=True)` */
  method SumAmount(tokens: seq<string>) returns (r: Result<Dec, FeedError>)
    ensures r == Total(tokens, Amount)
  {
    var total := Zero;
    var i := 0;
    while i < |tokens|
      invariant i <= |tokens|
      invariant Total(tokens[..i], Amount) == Ok(total)
    {
      var amount := Parse(tokens[i]);
      TotalSnoc(tokens, i, Amount);
      if amount.None? {
        r := Err(MalformedAmount(i, tokens[i]));
        TotalErrorSticks(tokens, i + 1, Amount);
        return;
      }
      total := Add(total, amount.value);
      i := i + 1;
    }
    assert tokens[..i] == tokens;
    r := Ok(total);
  }

  /** The fee calculation's outcome for a rate token: the rate is parsed
      first, then the fold runs. */
  function FeesFor(tokens: seq<string>, feePerc: string, nd: nat, rule: Rule): Result<Dec, FeedError>
  {
    match Parse(feePerc)
    case None => Err(MalformedRate(feePerc))
    case Some(rate) => Total(tokens, FeeAt(rate, nd, rule))
  }

  /** `sum_fees(f_name, fee_perc, round_method=rule, ndigits=nd)` */
  method SumFees(tokens: seq<string>, feePerc: string, nd: nat, rule: Rule) returns (r: Result<Dec, FeedError>)
    ensures r == FeesFor(tokens, feePerc, nd, rule)
  {
    var rate := Parse(feePerc);
    if rate.None? {
      return Err(MalformedRate(feePerc));
    }
    var total := Zero;
    var i := 0;
    while i < |tokens|
      invariant i <= |tokens|
      invariant Total(tokens[..i], FeeAt(rate.value, nd, rule)) == Ok(total)
    {
      var amount := Parse(tokens[i]);
      TotalSnoc(tokens, i, FeeAt(rate.value, nd, rule));
      if amount.None? {
        r := Err(MalformedAmount(i, tokens[i]));
        TotalErrorSticks(tokens, i + 1, FeeAt(rate.value, nd, rule));
        return;
      }
      var fee := Fee(amount.value, rate.value, nd, rule);
      total := Add(total, fee);
      i := i + 1;
    }
    assert tokens[..i] == tokens;
    r := Ok(total);
  }

  // ---------------------------------------------------------------------
  // The fold: success, the first error, and what the total adds up to.

  lemma {:induction false} TotalOkIff(tokens: seq<string>, s: Summand)
    ensures Total(tokens, s).Ok? <==> AllWellFormed(tokens)
  {
    if tokens != [] {
      var n := |tokens| - 1;
      TotalOkIff(tokens[..n], s);
      AllWellFormedSnoc(tokens);
    }
  }

  lemma AllWellFormedSnoc(tokens: seq<string>)
    requires tokens != []
    ensures var n := |tokens| - 1;
      AllWellFormed(tokens) <==> AllWellFormed(tokens[..n]) && Parse(tokens[n]).Some?
  {
    var n := |tokens| - 1;
    if AllWellFormed(tokens[..n]) && Parse(tokens[n]).Some? {
      forall i | 0 <= i < |tokens| ensures Parse(tokens[i]).Some? {
        if i < n {
          assert tokens[..n][i] == tokens[i];
        }
      }
    }
  }

  /** A failed fold names the first malformed token and where it is. */
  lemma {:induction false} TotalFirstError(tokens: seq<string>, s: Summand)
    requires Total(tokens, s).Err?
    ensures var e := Total(tokens, s).error;
      && e.MalformedAmount?
      && e.index < |tokens|
      && e.token == tokens[e.index]
      && Parse(e.token).None?
      && forall j :: 0 <= j < e.index ==> Parse(tokens[j]).Some?
  {
    var n := |tokens| - 1;
    if Total(tokens[..n], s).Err? {
      TotalFirstError(tokens[..n], s);
      var e := Total(tokens[..n], s).error;
      assert tokens[..n][e.index] == tokens[e.index];
      forall j | 0 <= j < e.index ensures Parse(tokens[j]).Some? {
        assert tokens[..n][j] == tokens[j];
      }
    } else {
      TotalOkIff(tokens[..n], s);
      forall j | 0 <= j < n ensures Parse(tokens[j]).Some? {
        assert tokens[..n][j] == tokens[j];
      }
    }
  }

  /** The exact sum of the terms, first token first. */
  ghost function TermSum(tokens: seq<string>, s: Summand): real
    requires AllWellFormed(tokens)
  {
    if tokens == [] then 0.0
    else Value(Term(s, Parse(tokens[0]).value)) + TermSum(tokens[1..], s)
  }

  lemma {:induction false} TermSumSnoc(tokens: seq<string>, s: Summand)
    requires tokens != [] && AllWellFormed(tokens)
    ensures var n := |tokens| - 1;
      AllWellFormed(tokens[..n]) &&
      TermSum(tokens, s) == TermSum(tokens[..n], s) + Value(Term(s, Parse(tokens[n]).value))
  {
    var n := |tokens| - 1;
    assert AllWellFormed(tokens[..n]) by {
      forall i | 0 <= i < n ensures Parse(tokens[..n][i]).Some? {
        assert tokens[..n][i] == tokens[i];
      }
    }
    if n > 0 {
      var rest := tokens[1..];
      assert rest[..n - 1] == tokens[..n][1..];
      assert tokens[..n][0] == tokens[0];
      assert rest[n - 1] == tokens[n];
      TermSumSnoc(rest, s);
      assert TermSum(tokens[..n], s) == Value(Term(s, Parse(tokens[0]).value)) + TermSum(rest[..n - 1], s);
    }
  }

  /** The total is exact: it is the sum of the terms, with nothing lost to
      representation. For `sum_amount` it is the sum of the parsed amounts,
      0 for an empty feed. */
  lemma {:induction false} TotalIsExactSum(tokens: seq<string>, s: Summand)
    requires AllWellFormed(tokens)
    ensures Total(tokens, s).Ok? && Value(Total(tokens, s).value) == TermSum(tokens, s)
  {
    if tokens != [] {
      var n := |tokens| - 1;
      TermSumSnoc(tokens, s);
      TotalIsExactSum(tokens[..n], s);
    }
  }

  // ---------------------------------------------------------------------
  // One fee.

  /** Rounding follows abs, so an amount and its negation pay the same fee. */
  lemma FeeOfNegation(amount: Dec, rate: Dec, nd: nat, rule: Rule)
    ensures Fee(Neg(amount), rate, nd, rule) == Fee(amount, rate, nd, rule)
  {
    NegMul(amount.coef, rate.coef);
    assert rate.coef * -amount.coef == -(rate.coef * amount.coef);
  }

  /** The fee lies within half a unit of 10^-nd of the exact |rate * amount|. */
  lemma FeeWithinHalfUnit(amount: Dec, rate: Dec, nd: nat, rule: Rule)
    ensures var exact := Value(rate) * Value(amount);
      var e := if exact < 0.0 then -exact else exact;
      e - Value(HalfUnit(nd)) <= Value(Fee(amount, rate, nd, rule)) <= e + Value(HalfUnit(nd))
  {
    RoundWithinHalfUnit(Abs(Mul(rate, amount)), nd, rule);
  }

  /** The fee is one of the two multiples of 10^-nd that bracket the exact
      |rate * amount|, and it is that number itself when it already has at
      most nd fraction digits. */
  lemma FeeIsNeighbour(amount: Dec, rate: Dec, nd: nat, rule: Rule)
    ensures var x := Abs(Mul(rate, amount));
      var f := Fee(amount, rate, nd, rule);
      && (f.coef == Truncate(x, nd).coef || f.coef == Truncate(x, nd).coef + 1)
      && (x.scale <= nd ==> Value(f) == Value(x))
  {
    RoundIsNeighbour(Abs(Mul(rate, amount)), nd, rule);
  }

  /** HALF_UP and HALF_EVEN disagree on a fee exactly when the discarded
      digits are half a unit and the last kept digit is even. */
  predicate IsEvenTieFee(amount: Dec, rate: Dec, nd: nat)
  {
    var x := Abs(Mul(rate, amount));
    x.scale > nd && IsEvenTie(x.coef, Pow10(x.scale - nd))
  }

  lemma FeeRuleGap(amount: Dec, rate: Dec, nd: nat)
    ensures Fee(amount, rate, nd, HalfUp).coef - Fee(amount, rate, nd, HalfEven).coef
         == if IsEvenTieFee(amount, rate, nd) then 1 else 0
  {
    var x := Abs(Mul(rate, amount));
    if x.scale > nd {
      RuleGap(x.coef, Pow10(x.scale - nd));
    }
  }

  // ---------------------------------------------------------------------
  // The fee total.

  /** The sum of the fees' coefficients, all of which are in units of 10^-nd. */
  function FeeUnits(tokens: seq<string>, rate: Dec, nd: nat, rule: Rule): int
    requires AllWellFormed(tokens)
  {
    if tokens == [] then 0
    else Fee(Parse(tokens[0]).value, rate, nd, rule).coef + FeeUnits(tokens[1..], rate, nd, rule)
  }

  lemma {:induction false} FeeUnitsSnoc(tokens: seq<string>, rate: Dec, nd: nat, rule: Rule)
    requires tokens != [] && AllWellFormed(tokens)
    ensures var n := |tokens| - 1;
      AllWellFormed(tokens[..n]) &&
      FeeUnits(tokens, rate, nd, rule) == FeeUnits(tokens[..n], rate, nd, rule) + Fee(Parse(tokens[n]).value, rate, nd, rule).coef
  {
    var n := |tokens| - 1;
    assert AllWellFormed(tokens[..n]) by {
      forall i | 0 <= i < n ensures Parse(tokens[..n][i]).Some? {
        assert tokens[..n][i] == tokens[i];
      }
    }
    if n > 0 {
      assert tokens[1..][..n - 1] == tokens[..n][1..];
      assert tokens[..n][0] == tokens[0];
      FeeUnitsSnoc(tokens[1..], rate, nd, rule);
    }
  }

  /** The fee total is the plain sum of the rounded fees, never rounded
      again: it has at most nd fraction digits and, counted in units of
      10^-nd, is the sum of the fees' units. */
  lemma {:induction false} FeeTotalIsSumOfFees(tokens: seq<string>, rate: Dec, nd: nat, rule: Rule)
    requires AllWellFormed(tokens)
    ensures var t := Total(tokens, FeeAt(rate, nd, rule));
      t.Ok? && t.value.scale <= nd && Rescale(t.value, nd) == FeeUnits(tokens, rate, nd, rule)
  {
    if tokens != [] {
      var n := |tokens| - 1;
      FeeUnitsSnoc(tokens, rate, nd, rule);
      FeeTotalIsSumOfFees(tokens[..n], rate, nd, rule);
      var t := Total(tokens[..n], FeeAt(rate, nd, rule)).value;
      var f := Fee(Parse(tokens[n]).value, rate, nd, rule);
      RescaleAdd(t, f, nd);
      assert Rescale(f, nd) == f.coef;
    }
  }

  /** How many fees sit on a tie whose truncated last digit is even. */
  function EvenTieCount(tokens: seq<string>, rate: Dec, nd: nat): nat
    requires AllWellFormed(tokens)
  {
    if tokens == [] then 0
    else (if IsEvenTieFee(Parse(tokens[0]).value, rate, nd) then 1 else 0) + EvenTieCount(tokens[1..], rate, nd)
  }

  /** Summed over a feed, HALF_UP exceeds HALF_EVEN by one unit of 10^-nd
      per even tie. */
  lemma {:induction false} FeeUnitsRuleGap(tokens: seq<string>, rate: Dec, nd: nat)
    requires AllWellFormed(tokens)
    ensures FeeUnits(tokens, rate, nd, HalfUp) - FeeUnits(tokens, rate, nd, HalfEven) == EvenTieCount(tokens, rate, nd)
  {
    if tokens != [] {
      assert AllWellFormed(tokens[1..]) by {
        forall i | 0 <= i < |tokens| - 1 ensures Parse(tokens[1..][i]).Some? {
          assert tokens[1..][i] == tokens[i + 1];
        }
      }
      FeeRuleGap(Parse(tokens[0]).value, rate, nd);
      FeeUnitsRuleGap(tokens[1..], rate, nd);
    }
  }

  /** `fees_round_half_up - fees_round_half_even` for one feed: both totals
      and their difference. */
  method CompareRounding(tokens: seq<string>, feePerc: string, nd: nat) returns (r: Result<(Dec, Dec, Dec), FeedError>)
    ensures r.Ok? <==> Parse(feePerc).Some? && AllWellFormed(tokens)
    ensures r.Err? ==> FeesFor(tokens, feePerc, nd, HalfUp) == Err(r.error)
    ensures r.Ok? ==> var (up, even, diff) := r.value;
      && FeesFor(tokens, feePerc, nd, HalfUp) == Ok(up)
      && FeesFor(tokens, feePerc, nd, HalfEven) == Ok(even)
      && Value(diff) == Value(up) - Value(even)
      && diff.scale <= nd
      && diff.coef >= 0
      && Rescale(diff, nd) == EvenTieCount(tokens, Parse(feePerc).value, nd)
  {
    var up := SumFees(tokens, feePerc, nd, HalfUp);
    var even := SumFees(tokens, feePerc, nd, HalfEven);
    if up.Err? {
      if Parse(feePerc).Some? {
        TotalOkIff(tokens, FeeAt(Parse(feePerc).value, nd, HalfUp));
      }
      return Err(up.error);
    }
    var rate := Parse(feePerc).value;
    TotalOkIff(tokens, FeeAt(rate, nd, HalfUp));
    TotalOkIff(tokens, FeeAt(rate, nd, HalfEven));
    FeeTotalIsSumOfFees(tokens, rate, nd, HalfUp);
    FeeTotalIsSumOfFees(tokens, rate, nd, HalfEven);
    FeeUnitsRuleGap(tokens, rate, nd);
    var diff := Sub(up.value, even.value);
    RescaleAdd(up.value, Neg(even.value), nd);
    assert Rescale(Neg(even.value), nd) == -Rescale(even.value, nd) by {
      NegMul(even.value.coef, Pow10(nd - even.value.scale));
    }
    r := Ok((up.value, even.value, diff));
  }
}

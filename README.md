# Exact decimal totals and rounded transaction fees

This project models the two folds over a transaction feed in `solutions.py`:

- `sum_amount(f_name, as_decimal=True)` adds `Decimal(amount_str)` for every
  row to a running total that starts at the integer 0.
- The final `sum_fees(f_name, fee_perc, round_method=..., ndigits=...)` adds
  `round(abs(fee_perc * amount), ndigits)` for every row, under either
  ROUND_HALF_UP or ROUND_HALF_EVEN.
- The notebook then compares the two fee totals by subtracting one from the
  other.

The feed is the sequence of amount tokens, one per row after the header.

Modules:

- `DecimalArith` (`DecimalArith.dfy`) models a `Decimal` as `Dec(coef, scale)`,
  with value `coef / 10^scale` (the ghost `Value`).
  - Addition keeps the larger scale. Multiplication adds the scales.
  - Both are exact, as `decimal` is while results fit the context precision.
- `Rounding` (`Rounding.dfy`) models `round(x, nd)` as a quantize to `nd`
  fraction digits.
  - The magnitude's coefficient is divided by 10^(scale - nd) and the tie is
    broken by the rule.
  - The result always carries exactly `nd` fraction digits; a number with
    fewer digits is padded.
  - HALF_UP is roundTiesToAway and HALF_EVEN is roundTiesToEven of IEEE
    754-2008, section 4.3.1.
  - The rule is an explicit parameter. It replaces the `localcontext` whose
    `rounding` field the source sets.
- `DecimalText` (`DecimalText.dfy`) models `Decimal(token)` for the token shape
  of the feed: an optional sign, digits, at most one point, and at least one
  digit.
  - A malformed token gives `None`; the source raises there.
  - `Format` writes a decimal back in plain notation, and `ParseFormat` proves
    the round trip.
- `Transactions` (`Transactions.dfy`) holds the spec fold `Total` and the loop
  methods `SumAmount` and `SumFees` proved against it. It also holds the fee
  lemmas and `CompareRounding`, which computes both fee totals and their
  difference.
  - A malformed amount aborts the fold with `MalformedAmount(index, token)`, so
    no partial total is returned.
  - A malformed rate gives `MalformedRate` before any amount is read, as
    `Decimal(fee_perc)` runs first.
  - Python's exception carries neither the index nor the token; the error
    value here does.
- `Samples` (`Samples.dfy`) holds worked examples: the first row of the feed,
  the default rate, and an amount whose fee falls on an even tie.

Two results about the design:

- The note at `solutions.py:108` says rounding before `abs` would round fees
  on negative amounts the wrong way. For these two rules that does not happen.
  `decimal` rounds the magnitude and keeps the sign, so `Rounding.RoundNeg`
  proves `round(-x) == -round(x)` and `Rounding.AbsRoundCommute` proves
  `round(abs(x)) == abs(round(x))`. `Transactions.FeeOfNegation` proves that
  `a` and `-a` pay the same fee. Rounding after `abs`, as the code does, is
  therefore correct, but so would the other order be.
- HALF_UP never gives a smaller fee than HALF_EVEN.
  - `Transactions.CompareRounding` proves that the difference of the two
    totals equals 10^-nd times the number of fees that lie on a tie whose
    last kept digit is even.
  - This makes the difference non-negative.
  - It has at most `nd` fraction digits.

## Model

| member | source | states |
|---|---|---|
| `DecimalArith.Add` | solutions.py:43 | `total + amount` is exact: the value is the sum and the scale is the larger of the two scales |
| `DecimalArith.Mul` | solutions.py:129 | `fee_perc * amount` is exact: the value is the product and the scales add |
| `DecimalArith.Abs` | solutions.py:129 | `abs` gives a non-negative coefficient with the value's magnitude, at the same scale |
| `DecimalArith.Neg` | solutions.py:43 | a negative amount is the negation of its magnitude: the value is negated and the scale kept |
| `DecimalArith.Sub` | solutions.py:143 | `fees_round_half_up - fees_round_half_even` is exact, at the larger scale |
| `DecimalArith.Rescale` | solutions.py:43 | writing a decimal with more fraction digits keeps its value, its sign and zero |
| `DecimalArith.SameValue` | solutions.py:43 | two decimals are equal in value exactly when their coefficients agree at a common scale |
| `DecimalArith.RescaleAdd` | solutions.py:130 | at a common scale the coefficient of a sum is the sum of the coefficients |
| `Rounding.RoundQuotient` | solutions.py:129 | the rounded quotient is one of the two integers that bracket `m / u` |
| `Rounding.RoundQuotientWithinHalf` | solutions.py:79 | the rounded multiple of the unit is within half a unit of `m` |
| `Rounding.RoundQuotientIsNearest` | solutions.py:79 | no multiple of the unit is nearer to `m` than the rounded one, under either rule |
| `Rounding.RulesAgreeOffTie` | solutions.py:81 | away from a tie HALF_UP and HALF_EVEN agree, rounding down below half and up above it |
| `Rounding.TieBreak` | solutions.py:81 | at a tie HALF_UP rounds the magnitude up and HALF_EVEN gives an even last digit; they differ by one exactly when the truncated digit is even |
| `Rounding.RuleGap` | solutions.py:81 | HALF_UP minus HALF_EVEN is 1 on an even tie and 0 otherwise |
| `Rounding.Round` | solutions.py:129 | `round(d, nd)` has exactly `nd` fraction digits, keeps the value when `d` has at most `nd` digits, and keeps a non-negative number non-negative |
| `Rounding.Truncate` | solutions.py:79 | the largest multiple of 10^-nd that is at most a non-negative `d` |
| `Rounding.RoundIsNeighbour` | solutions.py:79 | a rounded non-negative number is one of the two multiples of 10^-nd that bracket it |
| `Rounding.RoundWithinHalfUnit` | solutions.py:79 | a rounded number lies within 5 * 10^-(nd+1) of the number it rounds |
| `Rounding.RoundNeg` | solutions.py:108 | rounding commutes with negation under both rules |
| `Rounding.AbsRoundCommute` | solutions.py:108 | `round(abs(x))` equals `abs(round(x))` under both rules |
| `DecimalText.ParseIffWellFormed` | solutions.py:43 | `Decimal(token)` succeeds exactly on the token grammar: an optional `-` or `+`, only digits and points, at most one point, at least one digit |
| `DecimalText.UnsignedIffWellFormed` | solutions.py:43 | an unsigned token parses exactly when it is digits with at most one point and at least one digit |
| `DecimalText.ParseRejectsNoDigit` | solutions.py:43 | tokens without a digit (`""`, `"."`, `"-"`, `"+"`, `"-."`, `"+."`) are malformed |
| `DecimalText.ParsePlus` | solutions.py:43 | a leading `+` leaves the parse of the rest unchanged |
| `DecimalText.ParseUnsigned` | solutions.py:43 | an unsigned token parses to a non-negative coefficient |
| `DecimalText.ParsePointed` | solutions.py:43 | digits, a point and digits parse to all the digits as coefficient and the digit count after the point as scale |
| `DecimalText.ParseMinus` | solutions.py:43 | a leading `-` negates what the rest of the token parses to and fails when the rest fails |
| `DecimalText.ParseRejectsStrayChar` | solutions.py:43 | a character that is not a digit, a point or a leading sign makes the token malformed |
| `DecimalText.ParseRejectsTwoPoints` | solutions.py:43 | a token with two decimal points is malformed |
| `DecimalText.ParseFormat` | solutions.py:43 | parsing the plain notation of any decimal gives back that decimal, scale included |
| `Transactions.Fee` | solutions.py:129 | a fee is non-negative and has exactly `ndigits` fraction digits |
| `Transactions.TotalSnoc` | solutions.py:40-43 | one more row extends the fold by that row's term or fails on that row |
| `Transactions.TotalErrorSticks` | solutions.py:43 | once a prefix of the feed fails, the whole fold fails with the same error |
| `Transactions.SumAmount` | solutions.py:34-46 | the loop returns the fold `Total(tokens, Amount)`: the running sum from 0, or the first malformed row |
| `Transactions.SumFees` | solutions.py:116-132 | the loop returns `FeesFor`: a malformed rate first, then the running sum of rounded fees from 0, or the first malformed row |
| `Transactions.TotalOkIff` | solutions.py:40-43 | a fold succeeds exactly when every token parses |
| `Transactions.AllWellFormedSnoc` | solutions.py:40-43 | a feed is well formed exactly when its prefix is and its last token parses |
| `Transactions.TotalFirstError` | solutions.py:43 | a failed fold reports the first malformed token and its index, and every earlier token parses |
| `Transactions.TermSumSnoc` | solutions.py:40-43 | the exact sum of the terms splits into the sum over the prefix plus the last term |
| `Transactions.TotalIsExactSum` | solutions.py:35-46 | the total equals the exact sum of the terms taken from the front, 0 for an empty feed |
| `Transactions.FeeOfNegation` | solutions.py:108 | an amount and its negation pay the same fee |
| `Transactions.FeeWithinHalfUnit` | solutions.py:129 | a fee lies within half of 10^-nd of the exact `abs(rate * amount)` |
| `Transactions.FeeIsNeighbour` | solutions.py:129 | a fee is one of the two multiples of 10^-nd that bracket `abs(rate * amount)`, and equals it when that has at most nd digits |
| `Transactions.FeeRuleGap` | solutions.py:129 | the HALF_UP fee exceeds the HALF_EVEN fee by one unit of 10^-nd on an even tie and equals it otherwise |
| `Transactions.FeeUnitsSnoc` | solutions.py:129-130 | the sum of the fee units splits into the sum over the prefix plus the last fee |
| `Transactions.FeeTotalIsSumOfFees` | solutions.py:129-130 | the fee total is not re-rounded: it has at most nd fraction digits and is the sum of the fees in units of 10^-nd |
| `Transactions.FeeUnitsRuleGap` | solutions.py:133-144 | over a feed, the HALF_UP fee units exceed the HALF_EVEN ones by the number of even ties |
| `Transactions.CompareRounding` | solutions.py:133-144 | the comparison succeeds exactly when the rate and every amount parse, and otherwise fails with the HALF_UP fold's error; then it holds both totals and their difference, which is non-negative, has at most nd digits and counts the even ties |
| `Samples.ParseFirstRow` | solutions.py:18 | the first row's amount `-11.022038` parses to coefficient -11022038 at scale 6 |
| `Samples.ParseDefaultRate` | solutions.py:116 | the default rate `0.00123` parses to coefficient 123 at scale 5 |
| `Samples.FirstRowFee` | solutions.py:129 | the first row's exact fee is 0.01355710674, and it rounds to 0.01355711 under both rules |
| `Samples.ParseTieRow` | solutions.py:18 | the amount `-0.0015` parses to coefficient -15 at scale 4 |
| `Samples.TieRowFee` | solutions.py:81 | the fee on -0.0015 is an even tie: 0.00000185 under HALF_UP and 0.00000184 under HALF_EVEN |

## Left out

- Opening the file, `csv.reader`, skipping the header and picking `row[-1]`: I/O. The model takes the sequence of amount tokens.
- The float branch of `sum_amount` and the float-versus-decimal drift: binary floating point.
- The `timeit` measurements and the percentage slowdown: performance, not behaviour.
- `decimal.localcontext()` and `ctx.rounding`: ambient state, replaced by the `rule` parameter.
- The 28-digit context precision: addition, multiplication and quantize are exact here. The `InvalidOperation` that quantize raises when a result needs more digits is not modelled.
- `DecimalText.Parse` accepts only the token shape of the feed: ASCII digits, an optional sign and one optional point. It does not accept exponents, `nan`/`inf` in any letter case, surrounding whitespace, underscores or non-ASCII Unicode decimal digits (Arabic-Indic, full-width), all of which `Decimal()` also accepts.
- A `fee_perc` that is not a string, such as a float, would become the binary expansion `Decimal(float)` gives: the model takes the rate as a token only.
- On an empty feed both functions return the Python integer `0`, not a `Decimal`; the model returns `Dec(0, 0)`, which has the same value.
- Negative zero: `-0.00` parses to the same value as `0.00`, where `decimal` keeps the sign of a zero.
- A negative `ndigits`, which `round` accepts, is not modelled: `ndigits` is a natural number.
- No check of the rate's sign and no check of a negative precision: the code makes neither, so no such error exists in the model.
- The first, unrounded draft of `sum_fees` (solutions.py:92-105) is superseded by the final version.
- The sample totals 116387.513065, 125501.66978197 and 125501.66977180, and the difference 0.00001017, depend on the contents of the data file, which is not part of this model.
- That the total does not depend on the order of the rows: `TotalIsExactSum` proves the total is the exact sum, but no lemma about permutations is stated.
- exercises_all.py holds only problem statements and is not part of this model.

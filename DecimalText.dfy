/** `Decimal(amount_str)` for the token shape of the transaction feed: an
    optional sign, digits with at most one decimal point, and at least one
    digit. A malformed token gives no number (the source raises there).
    `Format` writes a decimal back in plain fixed-point notation. */
module DecimalText {
  import opened Wrappers
  import opened DecimalArith

  predicate IsDigit(c: char)
  {
    '0' <= c <= '9'
  }

  predicate AllDigits(s: string)
  {
    forall i :: 0 <= i < |s| ==> IsDigit(s[i])
  }

  function DigitValue(c: char): (v: nat)
    requires IsDigit(c)
    ensures v < 10
  {
    (c as int) - ('0' as int)
  }

  function DigitChar(v: nat): (c: char)
    requires v < 10
    ensures IsDigit(c) && DigitValue(c) == v
  {
    ('0' as int + v) as char
  }

  /** The number a string of decimal digits spells, most significant first. */
  function DigitsValue(s: string): nat
    requires AllDigits(s)
  {
    if s == [] then 0 else DigitsValue(s[..|s| - 1]) * 10 + DigitValue(s[|s| - 1])
  }

  /** Appending a digit shifts the value one place left. */
  lemma DigitsValueSnoc(s: string, c: char)
    requires AllDigits(s) && IsDigit(c)
    ensures AllDigits(s + [c]) && DigitsValue(s + [c]) == DigitsValue(s) * 10 + DigitValue(c)
  {
    assert (s + [c])[..|s|] == s;
  }

  /** Position of the first '.', or |s| when there is none. */
  function DotIndex(s: string): (i: nat)
    ensures i <= |s|
    ensures i < |s| ==> s[i] == '.'
    ensures forall j :: 0 <= j < i ==> s[j] != '.'
  {
    if s == [] || s[0] == '.' then 0 else 1 + DotIndex(s[1..])
  }

  /** An unsigned token: digits with at most one point, at least one digit. */
  function ParseUnsigned(body: string): (r: Option<Dec>)
    ensures r.Some? ==> r.value.coef >= 0
  {
    var i := DotIndex(body);
    var whole := body[..i];
    var frac := if i < |body| then body[i + 1..] else [];
    if AllDigits(whole) && AllDigits(frac) && |whole| + |frac| > 0 then
      Some(Dec(DigitsValue(whole + frac), |frac|))
    else
      None
  }

  /** `Decimal(s)` restricted to sign, digits and one optional point. */
  function Parse(s: string): Option<Dec>
  {
    if |s| > 0 && (s[0] == '-' || s[0] == '+') then
      match ParseUnsigned(s[1..])
      case None => None
      case Some(u) => Some(if s[0] == '-' then Neg(u) else u)
    else
      ParseUnsigned(s)
  }

  /** The token grammar without a sign: only digits and points, at most one
      point, and at least one digit (so neither empty nor a lone point). */
  predicate WellFormedUnsigned(body: string)
  {
    && (forall i :: 0 <= i < |body| ==> IsDigit(body[i]) || body[i] == '.')
    && (forall i, j :: 0 <= i < j < |body| ==> body[i] != '.' || body[j] != '.')
    && body != [] && body != "."
  }

  /** The token grammar: an optional '-' or '+', then an unsigned token. */
  predicate WellFormedToken(s: string)
  {
    if |s| > 0 && (s[0] == '-' || s[0] == '+') then WellFormedUnsigned(s[1..])
    else WellFormedUnsigned(s)
  }

  lemma UnsignedIffWellFormed(body: string)
    ensures ParseUnsigned(body).Some? <==> WellFormedUnsigned(body)
  {
    var p := DotIndex(body);
    var whole := body[..p];
    var frac := if p < |body| then body[p + 1..] else [];
    if ParseUnsigned(body).Some? {
      forall i | 0 <= i < |body| ensures IsDigit(body[i]) || body[i] == '.' {
        if i < p {
          assert body[i] == whole[i];
        } else if i > p {
          assert body[i] == frac[i - p - 1];
        }
      }
      forall i, j | 0 <= i < j < |body| ensures body[i] != '.' || body[j] != '.' {
        if j < p {
          assert body[j] == whole[j];
        } else if j == p {
          assert body[i] == whole[i];
        } else {
          assert body[j] == frac[j - p - 1];
        }
      }
    }
    if WellFormedUnsigned(body) {
      assert AllDigits(whole) by {
        forall i | 0 <= i < |whole| ensures IsDigit(whole[i]) {
          assert whole[i] == body[i];
        }
      }
      assert AllDigits(frac) by {
        forall i | 0 <= i < |frac| ensures IsDigit(frac[i]) {
          assert frac[i] == body[p + 1 + i];
          assert body[p] == '.';
        }
      }
    }
  }

  /** `Decimal(s)` succeeds exactly on the token grammar. */
  lemma ParseIffWellFormed(s: string)
    ensures Parse(s).Some? <==> WellFormedToken(s)
  {
    if |s| > 0 && (s[0] == '-' || s[0] == '+') {
      UnsignedIffWellFormed(s[1..]);
    } else {
      UnsignedIffWellFormed(s);
    }
  }

  /** A token with no digit is malformed. */
  lemma ParseRejectsNoDigit()
    ensures Parse("") == None && Parse(".") == None
    ensures Parse("-") == None && Parse("+") == None
    ensures Parse("-.") == None && Parse("+.") == None
  {
    ParseIffWellFormed("");
    ParseIffWellFormed(".");
    ParseIffWellFormed("-");
    assert "-"[1..] == [];
    ParseIffWellFormed("+");
    assert "+"[1..] == [];
    ParseIffWellFormed("-.");
    assert "-."[1..] == ".";
    ParseIffWellFormed("+.");
    assert "+."[1..] == ".";
  }

  /** A character other than a digit, a point or a leading sign makes the
      token malformed. */
  lemma ParseRejectsStrayChar(s: string, i: nat)
    requires i < |s| && !IsDigit(s[i]) && s[i] != '.'
    requires i == 0 ==> s[i] != '-' && s[i] != '+'
    ensures Parse(s) == None
  {
    if |s| > 0 && (s[0] == '-' || s[0] == '+') {
      UnsignedRejectsStrayChar(s[1..], i - 1);
    } else {
      UnsignedRejectsStrayChar(s, i);
    }
  }

  lemma UnsignedRejectsStrayChar(body: string, i: nat)
    requires i < |body| && !IsDigit(body[i]) && body[i] != '.'
    ensures ParseUnsigned(body) == None
  {
    var p := DotIndex(body);
    if i < p {
      assert !IsDigit(body[..p][i]);
    } else {
      assert !IsDigit(body[p + 1..][i - p - 1]);
    }
  }

  /** So does a second decimal point. */
  lemma ParseRejectsTwoPoints(s: string, i: nat, j: nat)
    requires i < j < |s| && s[i] == '.' && s[j] == '.'
    ensures Parse(s) == None
  {
    if |s| > 0 && (s[0] == '-' || s[0] == '+') {
      UnsignedRejectsTwoPoints(s[1..], i - 1, j - 1);
    } else {
      UnsignedRejectsTwoPoints(s, i, j);
    }
  }

  lemma UnsignedRejectsTwoPoints(body: string, i: nat, j: nat)
    requires i < j < |body| && body[i] == '.' && body[j] == '.'
    ensures ParseUnsigned(body) == None
  {
    var p := DotIndex(body);
    assert p <= i;
    assert !IsDigit(body[p + 1..][j - p - 1]);
  }

  /** The shortest digit string for n. */
  function NatDigits(n: nat): (s: string)
    ensures |s| >= 1 && AllDigits(s) && DigitsValue(s) == n
  {
    if n < 10 then [DigitChar(n)]
    else
      var s := NatDigits(n / 10) + [DigitChar(n % 10)];
      assert s[..|s| - 1] == NatDigits(n / 10);
      s
  }

  /** s with leading zeros up to length n. */
  function PadZeros(s: string, n: nat): (r: string)
    requires AllDigits(s)
    ensures |r| >= n && |r| >= |s| && AllDigits(r) && DigitsValue(r) == DigitsValue(s)
    decreases n - |s|
  {
    if |s| >= n then s
    else
      LeadingZero(s);
      PadZeros(['0'] + s, n)
  }

  lemma {:induction false} LeadingZero(s: string)
    requires AllDigits(s)
    ensures AllDigits(['0'] + s) && DigitsValue(['0'] + s) == DigitsValue(s)
  {
    if s != [] {
      var t := ['0'] + s;
      assert t[..|t| - 1] == ['0'] + s[..|s| - 1];
      LeadingZero(s[..|s| - 1]);
    }
  }

  /** A magnitude in plain notation: integer digits (at least one), then
      `scale` fraction digits after a point when scale > 0. */
  function FormatUnsigned(m: nat, scale: nat): string
  {
    PlacePoint(PadZeros(NatDigits(m), scale + 1), scale)
  }

  /** A digit string with a point before its last `scale` digits. */
  function PlacePoint(digits: string, scale: nat): string
    requires scale < |digits|
  {
    var n := |digits| - scale;
    if scale == 0 then digits else digits[..n] + "." + digits[n..]
  }

  /** Plain notation: a '-' for a negative number, then the magnitude. */
  function Format(d: Dec): string
  {
    var m := if d.coef < 0 then -d.coef else d.coef;
    (if d.coef < 0 then "-" else "") + FormatUnsigned(m, d.scale)
  }

  lemma {:induction false} DotIndexAfterDigits(a: string, b: string)
    requires AllDigits(a)
    ensures DotIndex(a + "." + b) == |a|
  {
    if a != [] {
      assert (a + "." + b)[1..] == a[1..] + "." + b;
      DotIndexAfterDigits(a[1..], b);
    }
  }

  lemma {:induction false} DotIndexOfDigits(a: string)
    requires AllDigits(a)
    ensures DotIndex(a) == |a|
  {
    if a != [] {
      DotIndexOfDigits(a[1..]);
    }
  }

  /** Digits, a point and digits spell the number whose coefficient is all
      the digits and whose scale is the count after the point. */
  lemma ParsePointed(whole: string, frac: string)
    requires AllDigits(whole) && AllDigits(frac) && |whole| + |frac| > 0
    ensures AllDigits(whole + frac)
    ensures ParseUnsigned(whole + "." + frac) == Some(Dec(DigitsValue(whole + frac), |frac|))
  {
    var u := whole + "." + frac;
    DotIndexAfterDigits(whole, frac);
    assert u[..|whole|] == whole;
    assert u[|whole| + 1..] == frac;
  }

  /** A leading '-' negates what the rest of the token spells. */
  lemma ParseMinus(u: string)
    ensures Parse("-" + u) == if ParseUnsigned(u).Some? then Some(Neg(ParseUnsigned(u).value)) else None
  {
    var s := "-" + u;
    assert s[0] == '-' && s[1..] == u;
  }

  /** A leading '+' changes nothing. */
  lemma ParsePlus(u: string)
    ensures Parse("+" + u) == ParseUnsigned(u)
  {
    var s := "+" + u;
    assert s[0] == '+' && s[1..] == u;
  }

  lemma ParseFormatUnsigned(m: nat, scale: nat)
    ensures var u := FormatUnsigned(m, scale);
      |u| > 0 && IsDigit(u[0]) && ParseUnsigned(u) == Some(Dec(m, scale))
  {
    ParsePlacePoint(PadZeros(NatDigits(m), scale + 1), scale);
  }

  lemma ParsePlacePoint(digits: string, scale: nat)
    requires AllDigits(digits) && scale < |digits|
    ensures var u := PlacePoint(digits, scale);
      |u| > 0 && IsDigit(u[0]) && ParseUnsigned(u) == Some(Dec(DigitsValue(digits), scale))
  {
    var n := |digits| - scale;
    if scale == 0 {
      DotIndexOfDigits(digits);
      assert digits[..|digits|] + [] == digits;
    } else {
      assert digits[..n] + digits[n..] == digits;
      ParsePointed(digits[..n], digits[n..]);
      assert PlacePoint(digits, scale)[0] == digits[0];
    }
  }

  /** Formatting and parsing back gives the same decimal, scale included. */
  lemma ParseFormat(d: Dec)
    ensures Parse(Format(d)) == Some(d)
  {
    var m := if d.coef < 0 then -d.coef else d.coef;
    var u := FormatUnsigned(m, d.scale);
    ParseFormatUnsigned(m, d.scale);
    var s := Format(d);
    if d.coef < 0 {
      assert s == "-" + u;
      ParseMinus(u);
      assert Neg(Dec(m, d.scale)) == d;
    } else {
      assert s == u;
      assert !(s[0] == '-' || s[0] == '+');
    }
  }
}

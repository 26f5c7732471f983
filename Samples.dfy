/** Worked examples on rows of the transaction feed: the first row's amount,
    the default fee rate, and an amount whose fee lands on an even tie. */
module Samples {
  import opened Wrappers
  import opened DecimalArith
  import opened Rounding
  import opened DecimalText
  import opened Transactions

  /** The amount of the feed's first row. */
  lemma ParseFirstRow()
    ensures Parse("-11.022038") == Some(Dec(-11022038, 6))
  {
    var s := "-11.022038";
    var a := "11.022038";
    assert s[0] == '-' && s[1..] == a;
    assert a[0] == '1' && a[1] == '1' && a[2] == '.';
    assert DotIndex(a) == 2;
    assert a[..2] == "11" && a[3..] == "022038";
    assert "11" + "022038" == "11022038";
    FirstRowDigits();
  }

  lemma FirstRowDigits()
    ensures AllDigits("11022038") && DigitsValue("11022038") == 11022038
  {
    DigitsValueSnoc("", '1'); assert "" + ['1'] == "1";
    DigitsValueSnoc("1", '1'); assert "1" + ['1'] == "11";
    DigitsValueSnoc("11", '0'); assert "11" + ['0'] == "110";
    DigitsValueSnoc("110", '2'); assert "110" + ['2'] == "1102";
    DigitsValueSnoc("1102", '2'); assert "1102" + ['2'] == "11022";
    DigitsValueSnoc("11022", '0'); assert "11022" + ['0'] == "110220";
    DigitsValueSnoc("110220", '3'); assert "110220" + ['3'] == "1102203";
    DigitsValueSnoc("1102203", '8'); assert "1102203" + ['8'] == "11022038";
  }

  /** The default fee rate. */
  lemma ParseDefaultRate()
    ensures Parse(DefaultFeePerc) == Some(Dec(123, 5))
  {
    var p := "0.00123";
    assert DefaultFeePerc == p;
    assert |p| == 7;
    assert p[0] == '0';
    assert p[1] == '.';
    assert DotIndex(p) == 1;
    assert p[..1] == "0" && p[2..] == "00123";
    assert "0" + "00123" == "000123";
    DefaultRateDigits();
  }

  lemma DefaultRateDigits()
    ensures AllDigits("000123") && DigitsValue("000123") == 123
  {
    DigitsValueSnoc("", '0'); assert "" + ['0'] == "0";
    DigitsValueSnoc("0", '0'); assert "0" + ['0'] == "00";
    DigitsValueSnoc("00", '0'); assert "00" + ['0'] == "000";
    DigitsValueSnoc("000", '1'); assert "000" + ['1'] == "0001";
    DigitsValueSnoc("0001", '2'); assert "0001" + ['2'] == "00012";
    DigitsValueSnoc("00012", '3'); assert "00012" + ['3'] == "000123";
  }

  /** -11.022038 at the default rate 0.00123 has the exact fee 0.01355710674,
      which rounds to 0.01355711 under both rules. */
  lemma FirstRowFee()
    ensures Abs(Mul(Dec(123, 5), Dec(-11022038, 6))) == Dec(1355710674, 11)
    ensures Fee(Dec(-11022038, 6), Dec(123, 5), DefaultDigits, HalfUp) == Dec(1355711, 8)
    ensures Fee(Dec(-11022038, 6), Dec(123, 5), DefaultDigits, HalfEven) == Dec(1355711, 8)
  {
    assert Pow10(3) == 1000;
  }

  /** An amount of -0.0015. */
  lemma ParseTieRow()
    ensures Parse("-0.0015") == Some(Dec(-15, 4))
  {
    var s := "-0.0015";
    var a := "0.0015";
    assert s[0] == '-' && s[1..] == a;
    assert a[0] == '0' && a[1] == '.';
    assert DotIndex(a) == 1;
    assert a[..1] == "0" && a[2..] == "0015";
    assert "0" + "0015" == "00015";
    TieRowDigits();
  }

  lemma TieRowDigits()
    ensures AllDigits("00015") && DigitsValue("00015") == 15
  {
    DigitsValueSnoc("", '0'); assert "" + ['0'] == "0";
    DigitsValueSnoc("0", '0'); assert "0" + ['0'] == "00";
    DigitsValueSnoc("00", '0'); assert "00" + ['0'] == "000";
    DigitsValueSnoc("000", '1'); assert "000" + ['1'] == "0001";
    DigitsValueSnoc("0001", '5'); assert "0001" + ['5'] == "00015";
  }

  /** An amount whose fee lands on an even tie: 0.00123 * 0.0015 = 0.000001845
      rounds to 0.00000185 under HALF_UP and 0.00000184 under HALF_EVEN. */
  lemma TieRowFee()
    ensures IsEvenTieFee(Dec(-15, 4), Dec(123, 5), DefaultDigits)
    ensures Fee(Dec(-15, 4), Dec(123, 5), DefaultDigits, HalfUp) == Dec(185, 8)
    ensures Fee(Dec(-15, 4), Dec(123, 5), DefaultDigits, HalfEven) == Dec(184, 8)
  {
    assert Pow10(1) == 10;
  }
}

/**
 * Text and style class of a change-ratio cell (WoW, MoM, YoY): the ratio times 100 with
 * one decimal and a `%` suffix, or the placeholder `-` when the ratio is absent.
 */
module PercentText {
  import opened Wrappers
  import opened NumberText

  /** The pair `formatPercent` returns. */
  datatype Percent = Percent(text: string, isNeg: bool)

  function Abs(x: real): real
  {
    if x < 0.0 then -x else x
  }

  /**
   * `Number.prototype.toFixed(1)`: a `-` when the value is negative, then the magnitude
   * scaled to tenths and rounded to the nearest integer (a tie to the larger one), written
   * with its last digit after the decimal point and at least one digit before it.
   */
  function ToFixed1(v: real): string
  {
    var n: nat := Round(Abs(v) * 10.0);
    (if v < 0.0 then "-" else "") + Digits(n / 10) + "." + [DigitChar(n % 10)]
  }

  /** `formatPercent`. */
  function FormatPercent(percent: Option<real>): Percent
  {
    match percent
    case None => Percent("-", false)
    case Some(p) =>
      var value := p * 100.0;
      Percent(ToFixed1(value) + "%", value < 0.0)
  }

  /** `getPctClass`: no class for the placeholder, otherwise by the sign flag. */
  function PctClass(pct: Percent): string
  {
    if pct.text == "-" then "" else if pct.isNeg then "cell-negative" else "cell-positive"
  }

  /**
   * An absent ratio gives the placeholder, not negative; a present one is flagged negative
   * exactly when the ratio is negative, and its text is never the placeholder.
   */
  lemma FormatPercentCases(percent: Option<real>)
    ensures FormatPercent(percent).text == "-" <==> percent.None?
    ensures FormatPercent(percent).isNeg <==> percent.Some? && percent.value < 0.0
  {
    if percent.Some? {
      var t := FormatPercent(percent).text;
      assert t[|t| - 1] == '%';
    }
  }

  /**
   * `toFixed(1)` of `v`: a `-` exactly when `v` is negative, then digits, a decimal point and
   * exactly one digit; the digits without the point read back as `|v|` in tenths, rounded.
   */
  lemma ToFixed1Shape(v: real)
    ensures var s := ToFixed1(v);
      var sign := if v < 0.0 then 1 else 0;
      |s| >= sign + 3 && s[|s| - 2] == '.' &&
      (s[sign] == '0' ==> s[sign + 1] == '.') &&
      (s[0] == '-' <==> v < 0.0) &&
      var tenths := s[sign..|s| - 2] + s[|s| - 1..];
      AllDigits(tenths) && DigitsValue(tenths) == Round(Abs(v) * 10.0)
  {
    var n: nat := Round(Abs(v) * 10.0);
    var sgn := if v < 0.0 then "-" else "";
    var whole := Digits(n / 10);
    var last := [DigitChar(n % 10)];
    var s := ToFixed1(v);
    assert s == sgn + whole + "." + last;
    var sign := |sgn|;
    assert s[sign..|s| - 2] == whole;
    assert s[|s| - 1..] == last;
    var tenths := whole + last;
    assert tenths[..|tenths| - 1] == whole;
    DigitsRoundTrip(n / 10);
    assert DigitsValue(tenths) == n;
    assert s[sign] == whole[0];
    if whole[0] == '0' {
      assert whole == Digits(0) == "0";
      assert s[sign + 1] == '.';
    }
    if v >= 0.0 {
      assert s[0] == whole[0];
    }
  }

  /**
   * The text of a present ratio `p`: a `-` exactly when `p` is negative, then digits, a
   * decimal point, exactly one digit and `%`; the digits without the point read back as
   * the nearest whole number of tenths of the percentage `|p * 100|`.
   */
  lemma FormatPercentText(p: real)
    ensures var t := FormatPercent(Some(p)).text;
      var sign := if p < 0.0 then 1 else 0;
      |t| >= sign + 4 &&
      t[|t| - 1] == '%' && t[|t| - 3] == '.' &&
      (t[sign] == '0' ==> t[sign + 1] == '.') &&
      (t[0] == '-' <==> p < 0.0) &&
      var tenths := t[sign..|t| - 3] + t[|t| - 2..|t| - 1];
      AllDigits(tenths) &&
      DigitsValue(tenths) as real - 0.5 <= Abs(p * 100.0) * 10.0 < DigitsValue(tenths) as real + 0.5
  {
    var v := p * 100.0;
    var s := ToFixed1(v);
    ToFixed1Shape(v);
    var t := FormatPercent(Some(p)).text;
    assert t == s + "%";
    assert (v < 0.0) == (p < 0.0);
    var sign := if p < 0.0 then 1 else 0;
    assert t[sign..|t| - 3] == s[sign..|s| - 2];
    assert t[|t| - 2..|t| - 1] == s[|s| - 1..];
    assert t[sign] == s[sign] && t[sign + 1] == s[sign + 1];
  }

  /**
   * The class of a ratio cell: none exactly when the ratio is absent, `cell-negative`
   * exactly when it is present and negative, `cell-positive` exactly when it is present
   * and zero or positive.
   */
  lemma PctClassCases(percent: Option<real>)
    ensures PctClass(FormatPercent(percent)) == "" <==> percent.None?
    ensures PctClass(FormatPercent(percent)) == "cell-negative" <==> percent.Some? && percent.value < 0.0
    ensures PctClass(FormatPercent(percent)) == "cell-positive" <==> percent.Some? && percent.value >= 0.0
  {
    FormatPercentCases(percent);
  }

  lemma FormatPercentExample()
    ensures FormatPercent(Some(0.0251)) == Percent("2.5%", false)
    ensures FormatPercent(Some(-0.033)) == Percent("-3.3%", true)
  {
  }
}

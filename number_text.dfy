/**
 * Text of a raw numeric cell: `Math.round(num).toLocaleString('en-US')`,
 * or the placeholder `-` when the value is absent.
 */
module NumberText {
  import opened Wrappers

  /** `Math.round`: the nearest integer, a tie going up (towards +infinity). */
  function Round(x: real): (n: int)
    ensures n as real - 0.5 <= x < n as real + 0.5
  {
    (x + 0.5).Floor
  }

  function Magnitude(n: int): nat
  {
    if n < 0 then -n else n
  }

  predicate IsDigit(c: char)
  {
    '0' <= c <= '9'
  }

  predicate AllDigits(s: string)
  {
    forall i :: 0 <= i < |s| ==> IsDigit(s[i])
  }

  function DigitChar(d: nat): (c: char)
    requires d < 10
    ensures IsDigit(c)
  {
    ('0' as int + d) as char
  }

  function DigitValue(c: char): nat
    requires IsDigit(c)
  {
    c as int - '0' as int
  }

  /** The decimal form of `n`: digits only, and a leading zero only for zero itself. */
  function Digits(n: nat): (s: string)
    ensures |s| >= 1 && AllDigits(s)
    ensures (s[0] == '0') == (n == 0)
  {
    if n < 10 then [DigitChar(n)] else Digits(n / 10) + [DigitChar(n % 10)]
  }

  /** Reads a string of decimal digits back as a number. */
  function DigitsValue(s: string): nat
    requires AllDigits(s)
  {
    if s == [] then 0 else DigitsValue(s[..|s| - 1]) * 10 + DigitValue(s[|s| - 1])
  }

  /** Reading the decimal form back gives the number. */
  lemma {:induction false} DigitsRoundTrip(n: nat)
    ensures DigitsValue(Digits(n)) == n
  {
    if n >= 10 {
      DigitsRoundTrip(n / 10);
      var s := Digits(n);
      assert s[..|s| - 1] == Digits(n / 10);
    }
  }

  /** The decimal form of an integer, with a leading `-` when it is negative. */
  function IntText(n: int): string
  {
    if n < 0 then "-" + Digits(-n) else Digits(n)
  }

  /** en-US digit grouping: a comma before each block of three digits counted from the right. */
  function Group(s: string): string
  {
    if |s| <= 3 then s else Group(s[..|s| - 3]) + "," + s[|s| - 3..]
  }

  /** The text with every comma deleted. */
  function StripCommas(t: string): string
  {
    if t == [] then [] else (if t[0] == ',' then [] else [t[0]]) + StripCommas(t[1..])
  }

  /**
   * Commas stand exactly at every fourth position counted from the right end and never
   * at the front, and everything else is a digit: the first group has one to three
   * digits and every later group exactly three.
   */
  predicate WellGrouped(t: string)
  {
    |t| % 4 != 0 &&
    (forall j :: 0 <= j < |t| ==> (t[j] == ',' <==> (|t| - j) % 4 == 0)) &&
    (forall j :: 0 <= j < |t| && t[j] != ',' ==> IsDigit(t[j]))
  }

  lemma {:induction false} StripCommasAppend(a: string, b: string)
    ensures StripCommas(a + b) == StripCommas(a) + StripCommas(b)
  {
    if a == [] {
      assert a + b == b;
    } else {
      assert (a + b)[0] == a[0];
      assert (a + b)[1..] == a[1..] + b;
      StripCommasAppend(a[1..], b);
    }
  }

  lemma {:induction false} StripCommasOfDigits(s: string)
    requires AllDigits(s)
    ensures StripCommas(s) == s
  {
    if s != [] {
      StripCommasOfDigits(s[1..]);
    }
  }

  /** A well-grouped text followed by a comma and three more digits is still well grouped. */
  lemma ExtendGroups(g: string, l: string)
    requires WellGrouped(g) && |l| == 3 && AllDigits(l)
    ensures WellGrouped(g + "," + l)
  {
    var t := g + "," + l;
    forall j | 0 <= j < |t|
      ensures t[j] == ',' <==> (|t| - j) % 4 == 0
      ensures t[j] != ',' ==> IsDigit(t[j])
    {
      if j < |g| {
        assert t[j] == g[j];
        assert (|t| - j) % 4 == (|g| - j) % 4;
      } else if j > |g| {
        assert t[j] == l[j - |g| - 1];
      }
    }
  }

  /** Grouping keeps every digit in order, adds `(|s| - 1) / 3` commas, and puts them where en-US does. */
  lemma {:induction false} GroupShape(s: string)
    requires |s| >= 1 && AllDigits(s)
    ensures WellGrouped(Group(s))
    ensures StripCommas(Group(s)) == s
    ensures |Group(s)| == |s| + (|s| - 1) / 3
  {
    if |s| <= 3 {
      StripCommasOfDigits(s);
    } else {
      var p, l := s[..|s| - 3], s[|s| - 3..];
      assert s == p + l;
      GroupShape(p);
      var g := Group(p);
      assert Group(s) == g + "," + l;
      ExtendGroups(g, l);
      StripCommasAppend(g + ",", l);
      StripCommasAppend(g, ",");
      StripCommasOfDigits(l);
    }
  }

  /**
   * `formatNumber`: `-` for an absent value; otherwise the rounded value grouped en-US
   * style. `Math.round` yields -0 for a value in [-0.5, 0) and en-US prints -0 as "-0",
   * so the sign is present exactly when the value itself is negative.
   */
  function FormatNumber(num: Option<real>): string
  {
    match num
    case None => "-"
    case Some(x) => (if x < 0.0 then "-" else "") + Group(Digits(Magnitude(Round(x))))
  }

  /** The placeholder appears exactly when the value is absent. */
  lemma FormatNumberPlaceholder(num: Option<real>)
    ensures FormatNumber(num) == "-" <==> num.None?
  {
    if num.Some? {
      var d := Digits(Magnitude(Round(num.value)));
      GroupShape(d);
      if num.value >= 0.0 {
        assert FormatNumber(num)[0] == Group(d)[0];
        assert Group(d)[0] != '-';
      } else {
        assert |FormatNumber(num)| >= 2;
      }
    }
  }

  /**
   * For a present value: a `-` sign exactly when the value is negative; after it, digits in
   * well-formed comma groups that read back as the magnitude of the rounded value. With the
   * commas deleted, the text is the decimal form of the rounded value, except that a value in
   * [-0.5, 0) shows as "-0".
   */
  lemma FormatNumberPresent(x: real)
    ensures var t := FormatNumber(Some(x));
      var sign := if x < 0.0 then 1 else 0;
      |t| > sign &&
      (t[0] == '-' <==> x < 0.0) &&
      WellGrouped(t[sign..]) &&
      AllDigits(StripCommas(t[sign..])) &&
      DigitsValue(StripCommas(t[sign..])) == Magnitude(Round(x)) &&
      (x < -0.5 || 0.0 <= x ==> StripCommas(t) == IntText(Round(x))) &&
      (-0.5 <= x < 0.0 ==> t == "-0")
  {
    var t := FormatNumber(Some(x));
    var sign := if x < 0.0 then 1 else 0;
    var d := Digits(Magnitude(Round(x)));
    GroupShape(d);
    DigitsRoundTrip(Magnitude(Round(x)));
    assert t[sign..] == Group(d);
    if x < 0.0 {
      assert t == "-" + Group(d);
      StripCommasAppend("-", Group(d));
      if -0.5 <= x {
        assert Round(x) == 0;
        assert Group(d) == "0";
      }
    } else {
      assert t == Group(d);
    }
  }

  lemma DigitsExample()
    ensures Digits(1234567) == "1234567"
  {
    assert Digits(1234) == "1234";
  }

  lemma GroupExample()
    ensures Group("1234567") == "1,234,567"
  {
    assert Group("1234") == "1,234";
  }

  lemma FormatNumberExample()
    ensures FormatNumber(Some(1234567.4)) == "1,234,567"
  {
    assert Round(1234567.4) == 1234567;
    DigitsExample();
    GroupExample();
  }

  lemma FormatNegativeNumberExample()
    ensures FormatNumber(Some(-1500.5)) == "-1,500"
  {
    assert Round(-1500.5) == -1500;
    assert Digits(1500) == "1500";
    assert Group("1500") == "1,500";
  }
}

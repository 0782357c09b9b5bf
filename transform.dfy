/** The row normaliser and week reconciler of src/transform.py:
    clean_data_in_df with its three cell converters, and
    merge_df_with_week_metadata.

    A DataFrame is a list of column labels and a list of rows of cells. A
    header cell that has no text (None in the parsed table) is the empty
    label "". */
module Transform {
  import opened Common
  import opened BwayDates

  /** A decimal.Decimal: an exact finite value, or the Decimal('NaN') sentinel. */
  datatype Decimal = Finite(v: real) | NaN

  /** A frame cell. Parsed tables hold Text and Missing, and Date in the
      week_end_date column; the converters produce Money, Whole and Fraction. */
  datatype Cell =
    | Missing            // None, or pandas' NaN
    | Text(s: string)
    | Date(d: Day)
    | Money(m: Decimal)
    | Whole(n: int)
    | Fraction(x: real)

  datatype Frame = Frame(columns: seq<string>, rows: seq<seq<Cell>>)

  /** Every row has one cell per column. */
  predicate WellShaped(f: Frame) {
    forall i :: 0 <= i < |f.rows| ==> |f.rows[i]| == |f.columns|
  }

  // ----- Numbers written as text -----

  /** The numeric strings that Decimal() and float() accept in this model: an
      optional sign, then digits with at most one '.', and at least one digit.
      None stands for the exception either constructor raises. */
  function ParseDecimal(s: string): (r: Option<real>)
    ensures r.Some? ==> s != []
  {
    var signed := |s| > 0 && (s[0] == '-' || s[0] == '+');
    var body := if signed then s[1..] else s;
    match UnsignedDecimal(body)
    case None => None
    case Some(v) => Some(if signed && s[0] == '-' then -v else v)
  }

  function UnsignedDecimal(body: string): Option<real> {
    match FindChar(body, '.')
    case None =>
      if body != [] && AllDigits(body) then Some(DigitsValue(body) as real) else None
    case Some(k) =>
      var whole, frac := body[..k], body[k + 1..];
      if |whole| + |frac| > 0 && AllDigits(whole) && AllDigits(frac)
      then Some(PointedValue(whole, frac))
      else None
  }

  /** The value of digits, a point, and digits: whole + frac / 10^|frac|. */
  function PointedValue(whole: string, frac: string): real
    requires AllDigits(whole) && AllDigits(frac)
  {
    DigitsValue(whole) as real + DigitsValue(frac) as real / Pow10(|frac|) as real
  }

  /** int() of a string: an optional sign, then one or more digits. */
  function ParseInt(s: string): (r: Option<int>)
    ensures r.Some? ==> s != []
  {
    var signed := |s| > 0 && (s[0] == '-' || s[0] == '+');
    var body := if signed then s[1..] else s;
    if body != [] && AllDigits(body) then
      Some(if signed && s[0] == '-' then -(DigitsValue(body) as int) else DigitsValue(body))
    else None
  }

  /** A non-empty string of digits reads as the number it denotes. */
  lemma ParseDigits(s: string)
    requires AllDigits(s) && s != []
    ensures ParseDecimal(s) == Some(DigitsValue(s) as real)
    ensures ParseInt(s) == Some(DigitsValue(s))
  {
    assert '.' !in s && s[0] != '-' && s[0] != '+' by {
      assert IsDigit(s[0]);
    }
  }

  /** Decimal() and int() read back what str() writes for a natural number. */
  lemma ParseNatToDigits(n: nat)
    ensures ParseDecimal(NatToDigits(n)) == Some(n as real)
    ensures ParseInt(NatToDigits(n)) == Some(n)
  {
    ParseDigits(NatToDigits(n));
    DigitsRoundTrip(n);
  }

  /** int() reads back what str() writes for any integer. */
  lemma ParseIntToString(i: int)
    ensures ParseInt(IntToString(i)) == Some(i)
  {
    ParseNatToDigits(if i < 0 then -i else i);
    if i < 0 {
      assert IntToString(i)[1..] == NatToDigits(-i);
    }
  }

  // ----- How the report writes numbers -----

  /** Three digits with leading zeros, for a thousands group. */
  function Group3(m: nat): (s: string)
    requires m < 1000
    ensures |s| == 3 && AllDigits(s) && DigitsValue(s) == m
  {
    var s := [DigitChar(m / 100), DigitChar(m / 10 % 10), DigitChar(m % 10)];
    assert DigitsValue(s[..1]) == m / 100 by {
      assert s[..1][..0] == [];
    }
    assert DigitsValue(s[..2]) == m / 10 by {
      assert s[..2][..1] == s[..1];
    }
    s
  }

  /** A whole number with ',' between thousands groups, as the report prints
      seat counts and grosses: 1234567 is "1,234,567". */
  function WithThousands(n: nat): string {
    if n < 1000 then NatToDigits(n) else WithThousands(n / 1000) + "," + Group3(n % 1000)
  }

  /** Removing the separators leaves the digits of the number. */
  lemma {:induction false} WithThousandsDigits(n: nat)
    ensures AllDigits(RemoveChar(WithThousands(n), ','))
    ensures DigitsValue(RemoveChar(WithThousands(n), ',')) == n
  {
    if n < 1000 {
      NoSignInDigits(NatToDigits(n), ',');
      RemoveCharAbsent(NatToDigits(n), ',');
      DigitsRoundTrip(n);
    } else {
      var high, low := WithThousands(n / 1000), Group3(n % 1000);
      var h := RemoveChar(high, ',');
      RemoveSeparator(high, low);
      WithThousandsDigits(n / 1000);
      DigitsValueAppend(h, low);
      assert Pow10(|low|) == 1000;
      assert DigitsValue(h + low) == (n / 1000) * 1000 + n % 1000;
    }
  }

  lemma RemoveSeparator(high: string, low: string)
    requires AllDigits(low)
    ensures RemoveChar(high + "," + low, ',') == RemoveChar(high, ',') + low
  {
    var withComma := high + ",";
    assert RemoveChar(",", ',') == [] by { assert ","[1..] == []; }
    assert RemoveChar(low, ',') == low by { NoSignInDigits(low, ','); RemoveCharAbsent(low, ','); }
    assert RemoveChar(withComma, ',') == RemoveChar(high, ',') by { RemoveCharAppend(high, ",", ','); }
    assert RemoveChar(withComma + low, ',') == RemoveChar(high, ',') + low by {
      RemoveCharAppend(withComma, low, ',');
    }
  }

  // ----- The three cell converters -----

  /** convert_currency_to_decimal: a string holding '$' becomes the Decimal
      of that string with every ',' and '$' removed (Decimal raises
      InvalidOperation if what is left is not a number); any other value
      becomes Decimal('NaN'). */
  function ConvertCurrencyToDecimal(value: Cell): (r: Result<Cell>)
    ensures r.Ok? ==> r.value.Money?
    ensures r.Err? ==> r.error == InvalidOperation && value.Text? && '$' in value.s
    ensures !(value.Text? && '$' in value.s) ==> r == Ok(Money(NaN))
  {
    if value.Text? && '$' in value.s then
      match ParseDecimal(RemoveChar(RemoveChar(value.s, ','), '$'))
      case Some(v) => Ok(Money(Finite(v)))
      case None => Err(InvalidOperation)
    else Ok(Money(NaN))
  }

  /** convert_str_numbers_to_numbers: a string becomes int() of it with every
      ',' removed (int raises ValueError if that is not a whole number); any
      other value becomes None. */
  function ConvertStrNumbersToNumbers(value: Cell): (r: Result<Cell>)
    ensures r.Ok? ==> r.value.Whole? || r.value == Missing
    ensures r.Ok? && r.value == Missing <==> !value.Text?
    ensures r.Err? ==> r.error == ValueError && value.Text?
  {
    if value.Text? then
      var converted := if ',' in value.s then RemoveChar(value.s, ',') else value.s;
      match ParseInt(converted)
      case Some(n) => Ok(Whole(n))
      case None => Err(ValueError)
    else Ok(Missing)
  }

  /** convert_pct_to_float: a string holding '%' becomes float() of it with
      every '%' removed, divided by 100 (float raises ValueError if that is
      not a number); any other value becomes None. */
  function ConvertPctToFloat(value: Cell): (r: Result<Cell>)
    ensures r.Ok? ==> r.value.Fraction? || r.value == Missing
    ensures r.Ok? && r.value == Missing <==> !(value.Text? && '%' in value.s)
    ensures r.Err? ==> r.error == ValueError && value.Text? && '%' in value.s
  {
    if value.Text? && '%' in value.s then
      match ParseDecimal(RemoveChar(value.s, '%'))
      case Some(x) => Ok(Fraction(x / 100.0))
      case None => Err(ValueError)
    else Ok(Missing)
  }

  /** A gross the report prints as "$1,234,567" converts to exactly that
      amount; no such cell ever becomes NaN. */
  lemma CurrencyRoundTrip(n: nat)
    ensures ConvertCurrencyToDecimal(Text("$" + WithThousands(n))) == Ok(Money(Finite(n as real)))
  {
    var s := "$" + WithThousands(n);
    WithThousandsDigits(n);
    var digits := RemoveChar(WithThousands(n), ',');
    assert RemoveChar(RemoveChar(s, ','), '$') == digits by {
      RemoveCharAppend("$", WithThousands(n), ',');
      RemoveCharAppend("$", digits, '$');
      NoSignInDigits(digits, '$');
      RemoveCharAbsent(digits, '$');
    }
    assert digits != [] by {
      if n == 0 { assert WithThousands(n) == "0"; }
    }
    ParseDigits(digits);
  }

  lemma NoSignInDigits(s: string, c: char)
    requires AllDigits(s) && !IsDigit(c)
    ensures c !in s
  {
  }

  /** A count the report prints as "1,234" converts to exactly that integer. */
  lemma NumberRoundTrip(n: nat)
    ensures ConvertStrNumbersToNumbers(Text(WithThousands(n))) == Ok(Whole(n))
  {
    WithThousandsDigits(n);
    var s := WithThousands(n);
    var digits := RemoveChar(s, ',');
    assert (if ',' in s then RemoveChar(s, ',') else s) == digits by {
      if ',' !in s { RemoveCharAbsent(s, ','); }
    }
    assert digits != [] by {
      if n == 0 { assert s == "0"; }
    }
    ParseDigits(digits);
  }

  /** A percentage the report prints as "87%" converts to 0.87. */
  lemma PercentRoundTrip(n: nat)
    ensures ConvertPctToFloat(Text(NatToDigits(n) + "%")) == Ok(Fraction(n as real / 100.0))
  {
    var s := NatToDigits(n) + "%";
    assert s[|s| - 1] == '%';
    assert RemoveChar(s, '%') == NatToDigits(n) by {
      RemoveCharAppend(NatToDigits(n), "%", '%');
      NoSignInDigits(NatToDigits(n), '%');
      RemoveCharAbsent(NatToDigits(n), '%');
    }
    ParseNatToDigits(n);
  }

  /** The value a signed amount denotes: n and then frac after the point. */
  function SignedValue(negative: bool, n: nat, frac: string): real
    requires AllDigits(frac)
  {
    var v := n as real + DigitsValue(frac) as real / Pow10(|frac|) as real;
    if negative then -v else v
  }

  /** A gross or price the report prints with cents, "$1,234.50", or a
      weekly difference it prints as "-$1,234.50", converts to exactly that
      amount. */
  lemma CurrencyCentsRoundTrip(negative: bool, n: nat, cents: string)
    requires AllDigits(cents)
    ensures var sign := if negative then "-" else "";
      ConvertCurrencyToDecimal(Text(sign + "$" + WithThousands(n) + "." + cents))
        == Ok(Money(Finite(SignedValue(negative, n, cents))))
  {
    WithThousandsDigits(n);
    NonEmptyDigits(n);
    CurrencyCentsFor(negative, WithThousands(n), RemoveChar(WithThousands(n), ','), n, cents);
  }

  /** CurrencyCentsRoundTrip for any amount whose comma-free digits denote n. */
  lemma CurrencyCentsFor(negative: bool, amount: string, digits: string, n: nat, cents: string)
    requires RemoveChar(amount, ',') == digits && AllDigits(digits) && digits != [] && DigitsValue(digits) == n
    requires AllDigits(cents)
    ensures var sign := if negative then "-" else "";
      ConvertCurrencyToDecimal(Text(sign + "$" + amount + "." + cents))
        == Ok(Money(Finite(SignedValue(negative, n, cents))))
  {
    var sign := if negative then "-" else "";
    var tail := "." + cents;
    var v := SignedValue(false, n, cents);
    assert ParseDecimal(digits + tail) == Some(v) by {
      ParsePointed(digits, cents);
      PointedDigits(digits, cents, n);
      assert digits + tail == digits + "." + cents;
    }
    NoSignInDigits(cents, ',');
    NoSignInDigits(cents, '$');
    var text := sign + "$" + amount + "." + cents;
    SeqAppendAssoc(sign + "$" + amount, ".", cents);
    SignedValueSign(negative, n, cents);
    SignedCurrency(negative, text, amount, digits, tail, v, SignedValue(negative, n, cents));
  }

  /** whole.frac, where whole denotes n, is the unsigned value of n and frac. */
  lemma PointedDigits(whole: string, frac: string, n: nat)
    requires AllDigits(whole) && AllDigits(frac) && DigitsValue(whole) == n
    ensures PointedValue(whole, frac) == SignedValue(false, n, frac)
  {
  }

  /** A weekly difference the report prints as "-$1,234" converts to exactly
      that negative amount. */
  lemma NegativeCurrencyRoundTrip(n: nat)
    ensures ConvertCurrencyToDecimal(Text("-$" + WithThousands(n))) == Ok(Money(Finite(-(n as real))))
  {
    WithThousandsDigits(n);
    NonEmptyDigits(n);
    NegativeAmountFor(WithThousands(n), RemoveChar(WithThousands(n), ','), n);
  }

  /** NegativeCurrencyRoundTrip for any amount whose comma-free digits denote n. */
  lemma NegativeAmountFor(amount: string, digits: string, n: nat)
    requires RemoveChar(amount, ',') == digits && AllDigits(digits) && digits != [] && DigitsValue(digits) == n
    ensures ConvertCurrencyToDecimal(Text("-$" + amount)) == Ok(Money(Finite(-(n as real))))
  {
    var text := "-$" + amount;
    assert text == "-" + "$" + amount + "";
    assert ParseDecimal(digits + "") == Some(n as real) by {
      ParseDigits(digits);
      assert digits + "" == digits;
    }
    SignedCurrency(true, text, amount, digits, "", n as real, -(n as real));
  }

  /** A percentage the report prints with decimals, "87.5%", or a change it
      prints as "-2.5%", converts to exactly that fraction. */
  lemma PercentPointRoundTrip(negative: bool, n: nat, frac: string)
    requires AllDigits(frac)
    ensures var sign := if negative then "-" else "";
      ConvertPctToFloat(Text(sign + NatToDigits(n) + "." + frac + "%"))
        == Ok(Fraction(SignedValue(negative, n, frac) / 100.0))
  {
    DigitsRoundTrip(n);
    PercentPointFor(negative, NatToDigits(n), n, frac);
  }

  /** PercentPointRoundTrip for any digits whole that denote n. */
  lemma PercentPointFor(negative: bool, whole: string, n: nat, frac: string)
    requires AllDigits(whole) && whole != [] && DigitsValue(whole) == n
    requires AllDigits(frac)
    ensures var sign := if negative then "-" else "";
      ConvertPctToFloat(Text(sign + whole + "." + frac + "%"))
        == Ok(Fraction(SignedValue(negative, n, frac) / 100.0))
  {
    var sign := if negative then "-" else "";
    var pointed := whole + "." + frac;
    var v := SignedValue(false, n, frac);
    assert ParseDecimal(pointed) == Some(v) by {
      ParsePointed(whole, frac);
      PointedDigits(whole, frac, n);
    }
    assert '%' !in pointed by {
      NoSignInDigits(whole, '%');
      NoSignInDigits(frac, '%');
    }
    assert IsDigit(pointed[0]) by { assert pointed[0] == whole[0]; }
    var text := sign + whole + "." + frac + "%";
    assert text == sign + pointed + "%" by {
      SeqAppendAssoc(sign, whole, ".");
      SeqAppendAssoc(sign, whole + ".", frac);
    }
    SignedValueSign(negative, n, frac);
    SignedPercent(negative, text, pointed, v, SignedValue(negative, n, frac));
  }

  lemma SignedValueSign(negative: bool, n: nat, frac: string)
    requires AllDigits(frac)
    ensures SignedValue(negative, n, frac) == if negative then -SignedValue(false, n, frac) else SignedValue(false, n, frac)
  {
  }

  /** sign "$" amount tail, where the amount loses its ',' to digits and the
      tail carries neither mark, converts to the signed Decimal of digits
      followed by tail. */
  lemma SignedCurrency(negative: bool, text: string, amount: string, digits: string, tail: string, v: real, w: real)
    requires text == (if negative then "-" else "") + "$" + amount + tail
    requires RemoveChar(amount, ',') == digits && AllDigits(digits) && digits != []
    requires ',' !in tail && '$' !in tail
    requires ParseDecimal(digits + tail) == Some(v) && w == (if negative then -v else v)
    ensures ConvertCurrencyToDecimal(Text(text)) == Ok(Money(Finite(w)))
  {
    var sign := if negative then "-" else "";
    var number := sign + digits + tail;
    assert RemoveChar(RemoveChar(text, ','), '$') == number by {
      StripCurrency(sign, amount, tail);
    }
    assert ParseDecimal(number) == Some(w) by {
      SignedNumber(negative, digits, tail, v, number);
    }
    assert text[|sign|] == '$';
    CurrencyFromText(text, |sign|, number, w);
  }

  /** sign digits tail reads as the signed value of digits tail. */
  lemma SignedNumber(negative: bool, digits: string, tail: string, v: real, number: string)
    requires AllDigits(digits) && digits != [] && ParseDecimal(digits + tail) == Some(v)
    requires number == (if negative then "-" else "") + digits + tail
    ensures ParseDecimal(number) == Some(if negative then -v else v)
  {
    var sign := if negative then "-" else "";
    assert IsDigit((digits + tail)[0]);
    SeqAppendAssoc(sign, digits, tail);
    SignDigits(negative, digits + tail, v, number);
  }


  /** sign body "%", where body reads as v and starts with a digit, converts
      to the signed v / 100. */
  lemma SignedPercent(negative: bool, text: string, body: string, v: real, w: real)
    requires text == (if negative then "-" else "") + body + "%"
    requires body != [] && IsDigit(body[0]) && '%' !in body
    requires ParseDecimal(body) == Some(v) && w == (if negative then -v else v)
    ensures ConvertPctToFloat(Text(text)) == Ok(Fraction(w / 100.0))
  {
    var sign := if negative then "-" else "";
    var number := sign + body;
    assert RemoveChar(text, '%') == number by {
      assert '%' !in number;
      RemoveAroundOne(number, '%', "");
      assert number + ['%'] + "" == text;
    }
    assert ParseDecimal(number) == Some(w) by {
      SignDigits(negative, body, v, number);
    }
    assert text[|text| - 1] == '%';
    PercentFromText(text, |text| - 1, number, w);
  }

  /** A text holding '$' converts to the Decimal of what is left once ','
      and '$' are removed. */
  lemma CurrencyFromText(text: string, at: nat, number: string, v: real)
    requires at < |text| && text[at] == '$' && RemoveChar(RemoveChar(text, ','), '$') == number && ParseDecimal(number) == Some(v)
    ensures ConvertCurrencyToDecimal(Text(text)) == Ok(Money(Finite(v)))
  {
  }

  /** A text holding '%' converts to the float of what is left once '%' is
      removed, divided by 100. */
  lemma PercentFromText(text: string, at: nat, number: string, v: real)
    requires at < |text| && text[at] == '%' && RemoveChar(text, '%') == number && ParseDecimal(number) == Some(v)
    ensures ConvertPctToFloat(Text(text)) == Ok(Fraction(v / 100.0))
  {
  }

  /** The report's amounts always have at least one digit before any point. */
  lemma NonEmptyDigits(n: nat)
    ensures RemoveChar(WithThousands(n), ',') != []
  {
    if n == 0 {
      assert WithThousands(n) == "0";
    } else {
      WithThousandsDigits(n);
    }
  }

  /** Removing ',' and then '$' from sign "$" amount tail leaves the sign,
      the amount's digits and the tail. */
  lemma StripCurrency(sign: string, amount: string, tail: string)
    requires sign == "" || sign == "-"
    requires ',' !in tail && '$' !in tail && AllDigits(RemoveChar(amount, ','))
    ensures var digits := RemoveChar(amount, ',');
      RemoveChar(RemoveChar(sign + "$" + amount + tail, ','), '$') == sign + digits + tail
  {
    var digits := RemoveChar(amount, ',');
    var head := sign + "$";
    assert RemoveChar(head, ',') == head by {
      RemoveCharAbsent(head, ',');
    }
    RemoveCharAppend(head + amount, tail, ',');
    RemoveCharAppend(head, amount, ',');
    RemoveCharAbsent(tail, ',');
    assert RemoveChar(head, '$') == sign by {
      RemoveCharAppend(sign, "$", '$');
      RemoveCharAbsent(sign, '$');
      assert "$"[1..] == [];
    }
    NoSignInDigits(digits, '$');
    RemoveCharAppend(head + digits, tail, '$');
    RemoveCharAppend(head, digits, '$');
    RemoveCharAbsent(digits, '$');
    RemoveCharAbsent(tail, '$');
  }

  /** A leading '-' negates what Decimal() and float() read from digits. */
  lemma SignDigits(negative: bool, body: string, v: real, signed: string)
    requires body != [] && IsDigit(body[0]) && ParseDecimal(body) == Some(v)
    requires signed == (if negative then "-" else "") + body
    ensures ParseDecimal(signed) == Some(if negative then -v else v)
  {
    if negative {
      assert signed[0] == '-' && signed[1..] == body;
    } else {
      assert signed == body;
      assert !(body[0] == '-' || body[0] == '+');
    }
  }

  /** Missing or unmarked currency cells become NaN, never zero; missing
      counts and percentages become None, never zero. */
  lemma MissingIsNeverZero(s: string)
    requires '$' !in s
    ensures ConvertCurrencyToDecimal(Missing) == Ok(Money(NaN)) != Ok(Money(Finite(0.0)))
    ensures ConvertCurrencyToDecimal(Text(s)) == Ok(Money(NaN))
    ensures ConvertStrNumbersToNumbers(Missing) == Ok(Missing) != Ok(Whole(0))
    ensures ConvertPctToFloat(Missing) == Ok(Missing) != Ok(Fraction(0.0))
  {
  }

  lemma Digits1234()
    ensures AllDigits("1234") && DigitsValue("1234") == 1234
  {
    assert "1234"[..3] == "123" && "123"[..2] == "12" && "12"[..1] == "1" && "1"[..0] == "";
  }

  /** Decimal() and float() of digits, a point, and digits. */
  lemma ParsePointed(whole: string, frac: string)
    requires AllDigits(whole) && AllDigits(frac) && whole != []
    ensures ParseDecimal(whole + "." + frac) == Some(PointedValue(whole, frac))
  {
    var s := whole + "." + frac;
    var v := PointedValue(whole, frac);
    var k := |whole|;
    assert UnsignedDecimal(s) == Some(v) by {
      assert s[..k] == whole && s[k + 1..] == frac;
      assert FindChar(s, '.') == Some(k) by {
        NoSignInDigits(whole, '.');
        FindCharAt(s, '.', k);
      }
    }
    assert !(s[0] == '-' || s[0] == '+') by {
      assert s[0] == whole[0];
    }
  }

  /** The first occurrence is where FindChar stops. */
  lemma {:induction false} FindCharAt(s: string, c: char, k: nat)
    requires k < |s| && s[k] == c && c !in s[..k]
    ensures FindChar(s, c) == Some(k)
  {
    if k > 0 {
      assert s[0] != c by { assert s[..k][0] == s[0]; }
      assert s[1..][..k - 1] == s[..k][1..];
      FindCharAt(s[1..], c, k - 1);
    }
  }

  lemma NumberFromDigits(s: string, digits: string)
    requires RemoveChar(s, ',') == digits && AllDigits(digits) && digits != []
    ensures ConvertStrNumbersToNumbers(Text(s)) == Ok(Whole(DigitsValue(digits)))
  {
    ParseDigits(digits);
    if ',' !in s {
      RemoveCharAbsent(s, ',');
    }
  }

  /** The report's own formats: "1,234" is 1234, "$1,234.50" is 1234.50,
      "87.5%" is 0.875; "N/A" in a currency column is NaN. */
  lemma NumberExample()
    ensures ConvertStrNumbersToNumbers(Text("1,234")) == Ok(Whole(1234))
  {
    StripCountExample();
    Digits1234();
    NumberFromDigits("1,234", "1234");
  }

  lemma CurrencyExample(s: string)
    requires s == "$1,234.50"
    ensures ConvertCurrencyToDecimal(Text(s)) == Ok(Money(Finite(1234.5)))
  {
    assert RemoveChar(RemoveChar(s, ','), '$') == "1234.50" by {
      var high, low := "1", "234.50";
      assert ['$'] + high + [','] + low == s;
      StripDollarAndComma(high, low);
      assert high + low == "1234.50";
    }
    assert ParseDecimal("1234.50") == Some(1234.5) by { DecimalExample(); }
    assert s[0] == '$';
  }

  /** "$" high "," low loses both marks. */
  lemma StripDollarAndComma(high: string, low: string)
    requires ',' !in high && ',' !in low && '$' !in high && '$' !in low
    ensures RemoveChar(RemoveChar(['$'] + high + [','] + low, ','), '$') == high + low
  {
    var marked := ['$'] + high;
    assert RemoveChar(marked + [','] + low, ',') == marked + low by {
      RemoveAroundOne(marked, ',', low);
    }
    assert marked + low == [] + ['$'] + (high + low);
    RemoveAroundOne([], '$', high + low);
  }

  lemma StripCountExample()
    ensures RemoveChar("1,234", ',') == "1234"
  {
    var a, b := "1", "234";
    assert a + [','] + b == "1,234";
    RemoveAroundOne(a, ',', b);
  }

  /** Removing the one c between two strings that hold none joins them. */
  lemma RemoveAroundOne(a: string, c: char, b: string)
    requires c !in a && c !in b
    ensures RemoveChar(a + [c] + b, c) == a + b
  {
    var withC := a + [c];
    assert RemoveChar([c], c) == [] by { assert [c][1..] == []; }
    assert RemoveChar(a, c) == a by { RemoveCharAbsent(a, c); }
    assert RemoveChar(b, c) == b by { RemoveCharAbsent(b, c); }
    assert RemoveChar(withC, c) == a by { RemoveCharAppend(a, [c], c); }
    assert RemoveChar(withC + b, c) == a + b by { RemoveCharAppend(withC, b, c); }
  }

  lemma DecimalExample()
    ensures ParseDecimal("1234.50") == Some(1234.5)
  {
    var whole, frac := "1234", "50";
    assert AllDigits(whole) && DigitsValue(whole) == 1234 by { Digits1234(); }
    assert AllDigits(frac) && DigitsValue(frac) == 50 by {
      assert frac[..1] == "5" && "5"[..0] == "";
    }
    assert PointedValue(whole, frac) == 1234.5 by {
      assert Pow10(|frac|) == 100;
    }
    assert whole + "." + frac == "1234.50";
    ParsePointed(whole, frac);
  }

  lemma PercentExample()
    ensures ConvertPctToFloat(Text("87.5%")) == Ok(Fraction(0.875))
  {
    var a := "87.5";
    assert RemoveChar(a + "%", '%') == a by {
      RemoveCharAppend(a, "%", '%');
      RemoveCharAbsent(a, '%');
      assert "%"[1..] == [];
    }
    assert a + "%" == "87.5%";
    Decimal875();
  }

  lemma Decimal875()
    ensures ParseDecimal("87.5") == Some(87.5)
  {
    var whole, frac := "87", "5";
    assert AllDigits(whole) && DigitsValue(whole) == 87 by {
      assert whole[..1] == "8" && "8"[..0] == "";
    }
    assert AllDigits(frac) && DigitsValue(frac) == 5 by {
      assert frac[..0] == "";
    }
    assert PointedValue(whole, frac) == 87.5 by {
      assert Pow10(|frac|) == 10;
    }
    assert whole + "." + frac == "87.5";
    ParsePointed(whole, frac);
  }

  // ----- Column reshaping (clean_data_in_df) -----

  /** A column whose every cell is missing; dropna(axis=1, how='all') drops
      it, so a frame with no rows loses every column. */
  predicate ColumnAllMissing(f: Frame, j: nat)
    requires WellShaped(f) && j < |f.columns|
  {
    forall i :: 0 <= i < |f.rows| ==> f.rows[i][j] == Missing
  }

  predicate ValidPositions(f: Frame, idx: seq<nat>) {
    forall k :: 0 <= k < |idx| ==> idx[k] < |f.columns|
  }

  /** The positions, below n, of the columns that hold at least one value,
      in increasing order. */
  function KeptColumns(f: Frame, n: nat): (idx: seq<nat>)
    requires WellShaped(f) && n <= |f.columns|
    ensures forall k :: 0 <= k < |idx| ==> idx[k] < n
    ensures forall k, l :: 0 <= k < l < |idx| ==> idx[k] < idx[l]
    ensures forall j :: 0 <= j < n ==> (j in idx <==> !ColumnAllMissing(f, j))
  {
    if n == 0 then []
    else KeptColumns(f, n - 1) + (if ColumnAllMissing(f, n - 1) then [] else [n - 1])
  }

  /** The elements at the given positions, in the given order. */
  function Pick<T>(xs: seq<T>, idx: seq<nat>): (r: seq<T>)
    requires forall k :: 0 <= k < |idx| ==> idx[k] < |xs|
    ensures |r| == |idx| && forall k :: 0 <= k < |idx| ==> r[k] == xs[idx[k]]
  {
    seq(|idx|, k requires 0 <= k < |idx| => xs[idx[k]])
  }

  /** The frame made of the columns at the given positions, every row kept
      in order (df[[...]] and the column filter of dropna). */
  function SelectColumns(f: Frame, idx: seq<nat>): (g: Frame)
    requires WellShaped(f) && ValidPositions(f, idx)
    ensures WellShaped(g) && |g.columns| == |idx| && |g.rows| == |f.rows|
  {
    Frame(Pick(f.columns, idx),
          seq(|f.rows|, i requires 0 <= i < |f.rows| => Pick(f.rows[i], idx)))
  }

  /** df.dropna(axis=1, how='all'). */
  function DropEmptyColumns(f: Frame): Frame
    requires WellShaped(f)
  {
    SelectColumns(f, KeptColumns(f, |f.columns|))
  }

  /** dropna keeps exactly the columns that hold a value, in their order, and
      every row with the cells of those columns. */
  lemma DropEmptyColumnsSpec(f: Frame)
    requires WellShaped(f)
    ensures var g := DropEmptyColumns(f);
      var idx := KeptColumns(f, |f.columns|);
      && WellShaped(g) && g.columns == Pick(f.columns, idx)
      && |g.rows| == |f.rows|
      && (forall i :: 0 <= i < |f.rows| ==> g.rows[i] == Pick(f.rows[i], idx))
      && (forall j :: 0 <= j < |f.columns| ==> (j in idx <==> !ColumnAllMissing(f, j)))
      && (forall k, l :: 0 <= k < l < |idx| ==> idx[k] < idx[l])
  {
    var idx := KeptColumns(f, |f.columns|);
  }

  /** The header renames of clean_data_in_df, report label to table column. */
  const RenameMap: map<string, string> := map[
    "Show" := "show_name",
    "This Week Gross" := "tw_gross",
    "Potential Gross" := "potential_gross",
    "Diff $" := "diff_tw_lw_gross",
    "Avg Ticket" := "avg_ticket_price",
    "Top Ticket" := "max_ticket_price",
    "Seats Sold" := "seats_sold",
    "Seats in Theatre" := "seats_in_theater",
    "Perfs" := "performances",
    "Previews" := "preview_performances",
    "% Cap" := "pct_capacity",
    "Diff % cap" := "diff_tw_lw_pct_capacity"
  ]

  function RenameLabel(name: string): string {
    if name in RenameMap then RenameMap[name] else name
  }

  function RenameLabels(columns: seq<string>): (r: seq<string>)
    ensures |r| == |columns|
    ensures forall j :: 0 <= j < |columns| && columns[j] in RenameMap ==> r[j] == RenameMap[columns[j]]
    ensures forall j :: 0 <= j < |columns| && columns[j] !in RenameMap ==> r[j] == columns[j]
  {
    seq(|columns|, j requires 0 <= j < |columns| => RenameLabel(columns[j]))
  }

  const CurrencyColumns: seq<string> :=
    ["tw_gross", "potential_gross", "diff_tw_lw_gross", "avg_ticket_price", "max_ticket_price"]
  const NumberColumns: seq<string> :=
    ["seats_sold", "seats_in_theater", "performances", "preview_performances"]
  const PctColumns: seq<string> := ["pct_capacity", "diff_tw_lw_pct_capacity"]

  /** The three nested converters of clean_data_in_df. */
  datatype Converter = CurrencyToDecimal | StrNumbersToNumbers | PctToFloat

  function Convert(k: Converter, value: Cell): Result<Cell> {
    match k
    case CurrencyToDecimal => ConvertCurrencyToDecimal(value)
    case StrNumbersToNumbers => ConvertStrNumbersToNumbers(value)
    case PctToFloat => ConvertPctToFloat(value)
  }

  /** The one exception each converter can raise. */
  function ConverterError(k: Converter): Error {
    match k
    case CurrencyToDecimal => InvalidOperation
    case _ => ValueError
  }

  lemma ConvertErrors(k: Converter, value: Cell)
    ensures Convert(k, value).Err? ==> Convert(k, value).error == ConverterError(k)
  {
  }

  /** The first of names that is not a column label, if any (df[names]
      raises KeyError for it). */
  function FirstMissing(columns: seq<string>, names: seq<string>): (r: Option<string>)
    ensures r.None? <==> forall n :: n in names ==> n in columns
    ensures r.Some? ==> r.value in names && r.value !in columns
  {
    if names == [] then None
    else if names[0] !in columns then Some(names[0])
    else FirstMissing(columns, names[1..])
  }

  /** One row after applymap over the columns named in names: the other
      cells are kept; the first cell whose conversion raises decides the
      result. */
  function ConvertRow(columns: seq<string>, row: seq<Cell>, names: seq<string>, k: Converter)
    : (r: Result<seq<Cell>>)
    requires |row| == |columns|
    ensures r.Ok? <==> forall j :: 0 <= j < |row| && columns[j] in names ==> Convert(k, row[j]).Ok?
    ensures r.Ok? ==> |r.value| == |row|
    ensures r.Ok? ==> forall j :: 0 <= j < |row| ==>
      r.value[j] == if columns[j] in names then Convert(k, row[j]).value else row[j]
    ensures r.Err? ==> r.error == ConverterError(k)
  {
    if row == [] then Ok([])
    else
      var n := |row| - 1;
      var cell := if columns[n] in names then Convert(k, row[n]) else Ok(row[n]);
      ConvertErrors(k, row[n]);
      match ConvertRow(columns[..n], row[..n], names, k)
      case Err(e) => Err(e)
      case Ok(front) => if cell.Err? then Err(cell.error) else Ok(front + [cell.value])
  }

  /** Every row after applymap, or the exception it raises: all cells a
      converter rejects raise the same exception, so which row fails first
      does not change the result. */
  function ConvertRows(columns: seq<string>, rows: seq<seq<Cell>>, names: seq<string>, k: Converter)
    : (r: Result<seq<seq<Cell>>>)
    requires forall i :: 0 <= i < |rows| ==> |rows[i]| == |columns|
    ensures r.Ok? ==> |r.value| == |rows|
    ensures r.Err? ==> r.error == ConverterError(k)
  {
    if forall i :: 0 <= i < |rows| ==> ConvertRow(columns, rows[i], names, k).Ok?
    then Ok(seq(|rows|, i requires 0 <= i < |rows| => ConvertRow(columns, rows[i], names, k).value))
    else Err(ConverterError(k))
  }

  /** ConvertRows cell by cell: the named columns are converted, the other
      cells kept, and it succeeds exactly when every named cell converts. */
  lemma ConvertRowsCells(columns: seq<string>, rows: seq<seq<Cell>>, names: seq<string>, k: Converter)
    requires forall i :: 0 <= i < |rows| ==> |rows[i]| == |columns|
    ensures var r := ConvertRows(columns, rows, names, k);
      && (r.Ok? <==> forall i, j :: 0 <= i < |rows| && 0 <= j < |columns| && columns[j] in names ==>
        Convert(k, rows[i][j]).Ok?)
      && (r.Ok? ==> forall i, j :: 0 <= i < |rows| && 0 <= j < |columns| ==>
        && |r.value[i]| == |columns|
        && r.value[i][j] == if columns[j] in names then Convert(k, rows[i][j]).value else rows[i][j])
  {
    var r := ConvertRows(columns, rows, names, k);
    if !r.Ok? {
      var i :| 0 <= i < |rows| && ConvertRow(columns, rows[i], names, k).Err?;
      var j :| 0 <= j < |rows[i]| && columns[j] in names && !Convert(k, rows[i][j]).Ok?;
    }
  }

  /** df[names] = df[names].applymap(converter): a name that is not a
      column raises KeyError; otherwise the cells of the named columns are
      converted, all others kept, or the converter's exception propagates. */
  function ApplyMap(f: Frame, names: seq<string>, k: Converter): (r: Result<Frame>)
    requires WellShaped(f)
    ensures r.Ok? ==> WellShaped(r.value) && r.value.columns == f.columns && |r.value.rows| == |f.rows|
    ensures r.Ok? ==> forall i, j :: 0 <= i < |f.rows| && 0 <= j < |f.columns| && f.columns[j] in names ==>
      Convert(k, f.rows[i][j]) == Ok(r.value.rows[i][j])
    ensures r.Ok? ==> forall i, j :: 0 <= i < |f.rows| && 0 <= j < |f.columns| && f.columns[j] !in names ==>
      r.value.rows[i][j] == f.rows[i][j]
    ensures (exists n :: n in names && n !in f.columns) <==> r.Err? && r.error.KeyError?
    ensures r.Err? && r.error.KeyError? ==> r.error.key in names && r.error.key !in f.columns
    ensures r.Err? && !r.error.KeyError? ==> r.error == ConverterError(k)
    ensures (forall n :: n in names ==> n in f.columns) ==>
      (r.Ok? <==> forall i, j :: 0 <= i < |f.rows| && 0 <= j < |f.columns| && f.columns[j] in names ==>
        Convert(k, f.rows[i][j]).Ok?)
  {
    match FirstMissing(f.columns, names)
    case Some(name) => Err(KeyError(name))
    case None =>
      ConvertRowsCells(f.columns, f.rows, names, k);
      match ConvertRows(f.columns, f.rows, names, k)
      case Err(e) => Err(e)
      case Ok(rows) => Ok(Frame(f.columns, rows))
  }

  /** The label position 1 gets after the empty columns are dropped. */
  const VenueColumn := "venue_name"

  /** clean_data_in_df as a function of the frame it is given. */
  function CleanSpec(df: Frame): Result<Frame>
    requires WellShaped(df)
  {
    var kept := DropEmptyColumns(df);
    if |kept.columns| < 2 then Err(IndexError)
    else
      var named := Frame(RenameLabels(kept.columns[1 := VenueColumn]), kept.rows);
      ConvertAll(named, CurrencyColumns, NumberColumns, PctColumns)
  }

  /** The three applymap steps in order: currency, then counts, then
      percentages; the first exception stops the rest. */
  function ConvertAll(f: Frame, currency: seq<string>, counts: seq<string>, pcts: seq<string>): Result<Frame>
    requires WellShaped(f)
  {
    match ApplyMap(f, currency, CurrencyToDecimal)
    case Err(e) => Err(e)
    case Ok(withMoney) =>
      match ApplyMap(withMoney, counts, StrNumbersToNumbers)
      case Err(e) => Err(e)
      case Ok(withCounts) => ApplyMap(withCounts, pcts, PctToFloat)
  }

  /** When the groups do not overlap, each cell goes through the converter of
      its own group, or through none. */
  lemma ConvertAllCell(f: Frame, currency: seq<string>, counts: seq<string>, pcts: seq<string>, i: nat, j: nat)
    requires WellShaped(f) && ConvertAll(f, currency, counts, pcts).Ok?
    requires i < |f.rows| && j < |f.columns|
    requires forall n :: n in currency ==> n !in counts && n !in pcts
    requires forall n :: n in counts ==> n !in pcts
    ensures var c := ConvertAll(f, currency, counts, pcts).value;
      && WellShaped(c) && c.columns == f.columns && |c.rows| == |f.rows|
      && (f.columns[j] in currency ==> Convert(CurrencyToDecimal, f.rows[i][j]) == Ok(c.rows[i][j]))
      && (f.columns[j] in counts ==> Convert(StrNumbersToNumbers, f.rows[i][j]) == Ok(c.rows[i][j]))
      && (f.columns[j] in pcts ==> Convert(PctToFloat, f.rows[i][j]) == Ok(c.rows[i][j]))
      && (f.columns[j] !in currency && f.columns[j] !in counts && f.columns[j] !in pcts ==>
            c.rows[i][j] == f.rows[i][j])
  {
  }

  /** The working copy clean_data_in_df mutates: its labels and its rows. */
  class FrameBuffer {
    var columns: seq<string>
    var rows: seq<seq<Cell>>

    function Value(): Frame
      reads this
    {
      Frame(columns, rows)
    }

    /** df_to_clean.copy() */
    constructor (f: Frame)
      ensures Value() == f
    {
      columns := f.columns;
      rows := f.rows;
    }

    /** df = df.dropna(axis=1, how='all') */
    method DropNa()
      requires WellShaped(Value())
      modifies this
      ensures Value() == DropEmptyColumns(old(Value()))
    {
      var kept := DropEmptyColumns(Value());
      columns, rows := kept.columns, kept.rows;
    }

    /** df.columns.values[j] = name, which raises IndexError past the end. */
    method SetColumnName(j: nat, name: string) returns (raised: Option<Error>)
      modifies this
      ensures j < |old(columns)| ==> raised.None? && columns == old(columns)[j := name]
      ensures j >= |old(columns)| ==> raised == Some(IndexError) && columns == old(columns)
      ensures rows == old(rows)
    {
      if j < |columns| {
        columns := columns[j := name];
        raised := None;
      } else {
        raised := Some(IndexError);
      }
    }

    /** df.rename(columns=RenameMap, inplace=True) */
    method Rename()
      modifies this
      ensures columns == RenameLabels(old(columns)) && rows == old(rows)
    {
      columns := RenameLabels(columns);
    }

    /** df[names] = df[names].applymap(converter); when it raises, the
        buffer is left as it was. */
    method ApplyMapInPlace(names: seq<string>, k: Converter) returns (raised: Option<Error>)
      requires WellShaped(Value())
      modifies this
      ensures var r := ApplyMap(old(Value()), names, k);
        && (r.Ok? ==> raised.None? && Value() == r.value)
        && (r.Err? ==> raised == Some(r.error) && Value() == old(Value()))
    {
      var r := ApplyMap(Value(), names, k);
      if r.Ok? {
        rows := r.value.rows;
        raised := None;
      } else {
        raised := Some(r.error);
      }
    }
  }

  /** clean_data_in_df: the steps run on a fresh copy, in the source's order,
      and stop at the first exception. */
  method CleanDataInDf(dfToClean: Frame) returns (r: Result<Frame>)
    requires WellShaped(dfToClean)
    ensures r == CleanSpec(dfToClean)
  {
    var df := new FrameBuffer(dfToClean);
    df.DropNa();
    var raised := df.SetColumnName(1, VenueColumn);
    if raised.Some? {
      return Err(raised.value);
    }
    df.Rename();
    raised := df.ApplyMapInPlace(CurrencyColumns, CurrencyToDecimal);
    if raised.Some? {
      return Err(raised.value);
    }
    raised := df.ApplyMapInPlace(NumberColumns, StrNumbersToNumbers);
    if raised.Some? {
      return Err(raised.value);
    }
    raised := df.ApplyMapInPlace(PctColumns, PctToFloat);
    if raised.Some? {
      return Err(raised.value);
    }
    return Ok(df.Value());
  }

  /** The three groups of converted columns do not overlap, so each
      converted cell goes through exactly one converter. */
  lemma ConvertedGroupsDisjoint()
    ensures forall n :: n in CurrencyColumns ==> n !in NumberColumns && n !in PctColumns
    ensures forall n :: n in NumberColumns ==> n !in PctColumns
    ensures VenueColumn !in RenameMap
  {
  }

  /** clean_data_in_df raises IndexError exactly when fewer than two columns
      hold a value: the other failures are KeyError and the converters' own
      exceptions. */
  lemma CleanIndexError(df: Frame)
    requires WellShaped(df)
    ensures CleanSpec(df) == Err(IndexError) <==> |DropEmptyColumns(df).columns| < 2
  {
    var kept := DropEmptyColumns(df);
    if |kept.columns| >= 2 {
      var named := Frame(RenameLabels(kept.columns[1 := VenueColumn]), kept.rows);
      assert CleanSpec(df) == ConvertAll(named, CurrencyColumns, NumberColumns, PctColumns);
      ConvertAllErrors(named, CurrencyColumns, NumberColumns, PctColumns);
    }
  }

  /** The three steps raise KeyError or a converter's own exception, never
      IndexError. */
  lemma ConvertAllErrors(f: Frame, currency: seq<string>, counts: seq<string>, pcts: seq<string>)
    requires WellShaped(f)
    ensures var r := ConvertAll(f, currency, counts, pcts);
      r.Err? ==> r.error.KeyError? || r.error == InvalidOperation || r.error == ValueError
  {
  }

  /** A cleaned frame keeps every row, in order, and its labels are the kept
      labels with position 1 named venue_name and the report headers
      renamed; every converted column is present. */
  lemma CleanShape(df: Frame)
    requires WellShaped(df)
    requires CleanSpec(df).Ok?
    ensures var c := CleanSpec(df).value;
      var kept := DropEmptyColumns(df);
      && WellShaped(c) && |c.rows| == |df.rows|
      && |kept.columns| >= 2
      && c.columns == RenameLabels(kept.columns[1 := VenueColumn])
      && c.columns[1] == VenueColumn
      && (forall n :: n in CurrencyColumns + NumberColumns + PctColumns ==> n in c.columns)
  {
    ConvertedGroupsDisjoint();
  }

  /** The cells of a cleaned frame: grosses and prices are Decimals (NaN
      where the report had no dollar amount), counts are ints or None,
      percentages are fractions or None, and every other column holds what
      the report had. */
  lemma CleanTyped(df: Frame)
    requires WellShaped(df)
    requires CleanSpec(df).Ok?
    ensures var c := CleanSpec(df).value;
      var kept := DropEmptyColumns(df);
      && |c.rows| == |kept.rows|
      && forall i, j :: 0 <= i < |c.rows| && 0 <= j < |c.columns| ==>
        && |c.rows[i]| == |c.columns| == |kept.rows[i]|
        && (c.columns[j] in CurrencyColumns ==>
              Convert(CurrencyToDecimal, kept.rows[i][j]) == Ok(c.rows[i][j]) && c.rows[i][j].Money?)
        && (c.columns[j] in NumberColumns ==>
              Convert(StrNumbersToNumbers, kept.rows[i][j]) == Ok(c.rows[i][j])
              && (c.rows[i][j].Whole? || c.rows[i][j] == Missing))
        && (c.columns[j] in PctColumns ==>
              Convert(PctToFloat, kept.rows[i][j]) == Ok(c.rows[i][j])
              && (c.rows[i][j].Fraction? || c.rows[i][j] == Missing))
        && (c.columns[j] !in CurrencyColumns + NumberColumns + PctColumns ==> c.rows[i][j] == kept.rows[i][j])
  {
    ConvertedGroupsDisjoint();
    var kept := DropEmptyColumns(df);
    var named := Frame(RenameLabels(kept.columns[1 := VenueColumn]), kept.rows);
    assert CleanSpec(df) == ConvertAll(named, CurrencyColumns, NumberColumns, PctColumns);
    ConvertAllTyped(named, CurrencyColumns, NumberColumns, PctColumns);
  }

  /** ConvertAllCell at every cell, with the type each converter yields. */
  lemma ConvertAllTyped(f: Frame, currency: seq<string>, counts: seq<string>, pcts: seq<string>)
    requires WellShaped(f) && ConvertAll(f, currency, counts, pcts).Ok?
    requires forall n :: n in currency ==> n !in counts && n !in pcts
    requires forall n :: n in counts ==> n !in pcts
    ensures var c := ConvertAll(f, currency, counts, pcts).value;
      && |c.rows| == |f.rows|
      && forall i, j :: 0 <= i < |c.rows| && 0 <= j < |c.columns| ==>
        && |c.rows[i]| == |c.columns| == |f.rows[i]|
        && (c.columns[j] in currency ==>
              Convert(CurrencyToDecimal, f.rows[i][j]) == Ok(c.rows[i][j]) && c.rows[i][j].Money?)
        && (c.columns[j] in counts ==>
              Convert(StrNumbersToNumbers, f.rows[i][j]) == Ok(c.rows[i][j])
              && (c.rows[i][j].Whole? || c.rows[i][j] == Missing))
        && (c.columns[j] in pcts ==>
              Convert(PctToFloat, f.rows[i][j]) == Ok(c.rows[i][j])
              && (c.rows[i][j].Fraction? || c.rows[i][j] == Missing))
        && (c.columns[j] !in currency + counts + pcts ==> c.rows[i][j] == f.rows[i][j])
  {
    var c := ConvertAll(f, currency, counts, pcts).value;
    forall i, j | 0 <= i < |c.rows| && 0 <= j < |c.columns|
      ensures |c.rows[i]| == |c.columns| == |f.rows[i]|
      ensures c.columns[j] in currency ==>
        Convert(CurrencyToDecimal, f.rows[i][j]) == Ok(c.rows[i][j]) && c.rows[i][j].Money?
      ensures c.columns[j] in counts ==>
        Convert(StrNumbersToNumbers, f.rows[i][j]) == Ok(c.rows[i][j])
        && (c.rows[i][j].Whole? || c.rows[i][j] == Missing)
      ensures c.columns[j] in pcts ==>
        Convert(PctToFloat, f.rows[i][j]) == Ok(c.rows[i][j])
        && (c.rows[i][j].Fraction? || c.rows[i][j] == Missing)
      ensures c.columns[j] !in currency + counts + pcts ==> c.rows[i][j] == f.rows[i][j]
    {
      ConvertAllCell(f, currency, counts, pcts, i, j);
    }
  }

  // ----- Joining the week calendar (merge_df_with_week_metadata) -----

  /** The join key, present in both frames. */
  const KeyColumn := "week_end_date"

  /** The calendar frame's other columns, in its order. */
  const WeekColumns: seq<string> := ["season", "week_num", "week_start_date"]

  /** A calendar record's cells under WeekColumns. */
  function WeekCells(w: Week): seq<Cell> {
    [Text(w.season), Whole(w.weekNum), Date(w.startDate)]
  }

  /** What a left join puts under WeekColumns when no week matches. */
  const NoWeekCells: seq<Cell> := [Missing, Missing, Missing]

  /** The positions whose label is name, in increasing order. */
  function PositionsOf(columns: seq<string>, name: string): (idx: seq<nat>)
    ensures forall k :: 0 <= k < |idx| ==> idx[k] < |columns| && columns[idx[k]] == name
    ensures forall p :: 0 <= p < |columns| && columns[p] == name ==> p in idx
    ensures forall k, l :: 0 <= k < l < |idx| ==> idx[k] < idx[l]
  {
    if columns == [] then []
    else
      var n := |columns| - 1;
      PositionsOf(columns[..n], name) + (if columns[n] == name then [n] else [])
  }

  /** A label that sits at exactly one position is found there alone. */
  lemma {:induction false} PositionsOfSingle(columns: seq<string>, name: string, p: nat)
    requires p < |columns| && columns[p] == name
    requires forall q :: 0 <= q < |columns| && columns[q] == name ==> q == p
    ensures PositionsOf(columns, name) == [p]
  {
    var n := |columns| - 1;
    var init := columns[..n];
    assert forall q :: 0 <= q < |init| ==> init[q] == columns[q];
    if n == p {
      PositionsOfAbsent(init, name);
      assert PositionsOf(columns, name) == PositionsOf(init, name) + [n];
    } else {
      assert columns[n] != name;
      PositionsOfSingle(init, name, p);
      assert PositionsOf(columns, name) == PositionsOf(init, name) + [];
    }
  }

  /** A label no column carries has no positions. */
  lemma {:induction false} PositionsOfAbsent(columns: seq<string>, name: string)
    requires forall q :: 0 <= q < |columns| ==> columns[q] != name
    ensures PositionsOf(columns, name) == []
  {
    if columns != [] {
      PositionsOfAbsent(columns[..|columns| - 1], name);
    }
  }

  /** The positions of every name, name by name (the column indexer of
      df[names], which returns all columns of a repeated label). */
  function PositionsOfAll(columns: seq<string>, names: seq<string>): (idx: seq<nat>)
    ensures forall k :: 0 <= k < |idx| ==> idx[k] < |columns|
  {
    if names == [] then [] else PositionsOf(columns, names[0]) + PositionsOfAll(columns, names[1..])
  }

  /** When every name labels exactly one column, the indexer picks one
      column per name, in the order of names. */
  lemma {:induction false} PositionsOfAllSingles(columns: seq<string>, names: seq<string>)
    requires forall n :: n in names ==> |PositionsOf(columns, n)| == 1
    ensures |PositionsOfAll(columns, names)| == |names|
    ensures forall k :: 0 <= k < |names| ==> PositionsOfAll(columns, names)[k] == PositionsOf(columns, names[k])[0]
  {
    if names != [] {
      assert names[0] in names;
      assert forall n :: n in names[1..] ==> n in names;
      PositionsOfAllSingles(columns, names[1..]);
    }
  }

  /** df[names]: KeyError for the first name that labels no column, otherwise
      the frame of the columns those names label. */
  function Project(f: Frame, names: seq<string>): (r: Result<Frame>)
    requires WellShaped(f)
    ensures r.Ok? <==> forall n :: n in names ==> n in f.columns
    ensures r.Err? ==> r.error.KeyError? && r.error.key in names && r.error.key !in f.columns
    ensures r.Ok? ==> WellShaped(r.value) && |r.value.rows| == |f.rows|
  {
    match FirstMissing(f.columns, names)
    case Some(name) => Err(KeyError(name))
    case None => Ok(SelectColumns(f, PositionsOfAll(f.columns, names)))
  }

  /** The calendar weeks ending on the date in key, in calendar order. */
  function MatchingWeeks(cal: seq<Week>, key: Cell): (m: seq<Week>)
    ensures forall w :: w in m <==> w in cal && Date(w.endDate) == key
    ensures m == [] <==> forall w :: w in cal ==> Date(w.endDate) != key
  {
    if cal == [] then []
    else
      var n := |cal| - 1;
      MatchingWeeks(cal[..n], key) + (if Date(cal[n].endDate) == key then [cal[n]] else [])
  }

  /** With strictly increasing end dates at most one week matches a key. */
  lemma {:induction false} MatchingAtMostOne(cal: seq<Week>, key: Cell)
    requires StrictlyIncreasingEnds(cal)
    ensures |MatchingWeeks(cal, key)| <= 1
  {
    if cal != [] {
      var n := |cal| - 1;
      MatchingAtMostOne(cal[..n], key);
      if Date(cal[n].endDate) == key {
        forall w | w in cal[..n]
          ensures Date(w.endDate) != key
        {
          var i :| 0 <= i < n && cal[..n][i] == w;
          assert cal[i].endDate < cal[n].endDate;
        }
      }
    }
  }

  /** The rows the left join makes of one left row: one per matching week,
      or one with missing week cells when none matches. */
  function JoinRow(row: seq<Cell>, key: Cell, cal: seq<Week>): (r: seq<seq<Cell>>)
    ensures |r| >= 1 && forall k :: 0 <= k < |r| ==> |r[k]| == |row| + 3 && r[k][..|row|] == row
  {
    var m := MatchingWeeks(cal, key);
    if m == [] then [row + NoWeekCells]
    else seq(|m|, k requires 0 <= k < |m| => row + WeekCells(m[k]))
  }

  /** The join rows of every left row, in order. */
  function JoinGroups(rows: seq<seq<Cell>>, j: nat, cal: seq<Week>): (groups: seq<seq<seq<Cell>>>)
    requires forall i :: 0 <= i < |rows| ==> j < |rows[i]|
    ensures |groups| == |rows|
    ensures forall i :: 0 <= i < |rows| ==> groups[i] == JoinRow(rows[i], rows[i][j], cal)
  {
    seq(|rows|, i requires 0 <= i < |rows| => JoinRow(rows[i], rows[i][j], cal))
  }

  /** pd.merge(df, weeks, how='left', on=KeyColumn), row part: every left
      row in order, each followed by its join rows. */
  function JoinRows(rows: seq<seq<Cell>>, j: nat, cal: seq<Week>): (r: seq<seq<Cell>>)
    requires forall i :: 0 <= i < |rows| ==> j < |rows[i]|
    ensures |r| >= |rows|
  {
    var groups := JoinGroups(rows, j, cal);
    FlattenNonEmpty(groups);
    Flatten(groups)
  }

  /** The elements of the groups, group after group. */
  function Flatten<T>(groups: seq<seq<T>>): seq<T> {
    if groups == [] then [] else Flatten(groups[..|groups| - 1]) + groups[|groups| - 1]
  }

  /** Element t of b sits |a| places further on in a + b. */
  lemma IndexAfter<T>(a: seq<T>, b: seq<T>, t: nat)
    requires t < |b|
    ensures (a + b)[|a| + t] == b[t]
  {
  }

  /** Non-empty groups give at least one element each. */
  lemma {:induction false} FlattenNonEmpty<T>(groups: seq<seq<T>>)
    requires forall g :: 0 <= g < |groups| ==> groups[g] != []
    ensures |Flatten(groups)| >= |groups|
  {
    if groups != [] {
      var n := |groups| - 1;
      assert forall g :: 0 <= g < n ==> groups[..n][g] == groups[g];
      FlattenNonEmpty(groups[..n]);
    }
  }

  /** Groups of one element flatten to those elements, in order. */
  lemma {:induction false} FlattenSingles<T>(groups: seq<seq<T>>)
    requires forall g :: 0 <= g < |groups| ==> |groups[g]| == 1
    ensures |Flatten(groups)| == |groups|
    ensures forall g :: 0 <= g < |groups| ==> Flatten(groups)[g] == groups[g][0]
  {
    if groups != [] {
      var n := |groups| - 1;
      assert forall g :: 0 <= g < n ==> groups[..n][g] == groups[g];
      FlattenSingles(groups[..n]);
    }
  }

  /** Every element of the flattening is an element of one of the groups. */
  lemma {:induction false} FlattenOrigin<T>(groups: seq<seq<T>>, k: nat) returns (g: nat, m: nat)
    requires k < |Flatten(groups)|
    ensures g < |groups| && m < |groups[g]| && Flatten(groups)[k] == groups[g][m]
  {
    var n := |groups| - 1;
    var front := Flatten(groups[..n]);
    if k < |front| {
      g, m := FlattenOrigin(groups[..n], k);
      assert groups[..n][g] == groups[g];
    } else {
      g, m := n, k - |front|;
    }
  }

  /** The week cells a row gets when at most one week can match. */
  function WeekCellsFor(cal: seq<Week>, key: Cell): seq<Cell> {
    var m := MatchingWeeks(cal, key);
    if m == [] then NoWeekCells else WeekCells(m[0])
  }

  /** With unique calendar end dates the left join keeps the row count:
      row i is left row i followed by the cells of the week ending on its
      key date, or by missing cells. */
  lemma JoinRowsUniqueEnds(rows: seq<seq<Cell>>, j: nat, cal: seq<Week>)
    requires forall i :: 0 <= i < |rows| ==> j < |rows[i]|
    requires StrictlyIncreasingEnds(cal)
    ensures |JoinRows(rows, j, cal)| == |rows|
    ensures forall i :: 0 <= i < |rows| ==> JoinRows(rows, j, cal)[i] == rows[i] + WeekCellsFor(cal, rows[i][j])
  {
    var groups := JoinGroups(rows, j, cal);
    forall i | 0 <= i < |rows|
      ensures groups[i] == [rows[i] + WeekCellsFor(cal, rows[i][j])]
    {
      JoinRowSingle(rows[i], rows[i][j], cal);
    }
    FlattenSingles(groups);
  }

  /** With unique end dates a left row gives exactly one joined row. */
  lemma JoinRowSingle(row: seq<Cell>, key: Cell, cal: seq<Week>)
    requires StrictlyIncreasingEnds(cal)
    ensures JoinRow(row, key, cal) == [row + WeekCellsFor(cal, key)]
  {
    MatchingAtMostOne(cal, key);
  }

  /** Under unique end dates, the week cells are those of the week that ends
      on the key date, and missing when no week does. */
  lemma WeekCellsForUnique(cal: seq<Week>, key: Cell)
    requires StrictlyIncreasingEnds(cal)
    ensures forall w :: w in cal && Date(w.endDate) == key ==> WeekCellsFor(cal, key) == WeekCells(w)
    ensures (forall w :: w in cal ==> Date(w.endDate) != key) ==> WeekCellsFor(cal, key) == NoWeekCells
  {
    MatchingAtMostOne(cal, key);
    var m := MatchingWeeks(cal, key);
    forall w | w in cal && Date(w.endDate) == key
      ensures WeekCellsFor(cal, key) == WeekCells(w)
    {
      assert w in m;
      assert m == [m[0]];
    }
  }

  /** Labels of the joined frame: left labels first, then WeekColumns; a
      name both frames have (other than the key) gets _x on the left and _y
      on the right. */
  function MergedColumns(left: seq<string>): (r: seq<string>)
    ensures |r| == |left| + |WeekColumns|
  {
    seq(|left|, k requires 0 <= k < |left| => if left[k] in WeekColumns then left[k] + "_x" else left[k])
    + seq(|WeekColumns|, k requires 0 <= k < |WeekColumns| =>
        if WeekColumns[k] in left then WeekColumns[k] + "_y" else WeekColumns[k])
  }

  /** pd.merge(df, df_week_data, how='left', on='week_end_date'): KeyError
      when df has no key column, ValueError when it has several. */
  function Merge(df: Frame, cal: seq<Week>): (r: Result<Frame>)
    requires WellShaped(df)
    ensures r.Ok? ==> WellShaped(r.value) && |r.value.rows| >= |df.rows|
  {
    var keys := PositionsOf(df.columns, KeyColumn);
    if keys == [] then Err(KeyError(KeyColumn))
    else if |keys| > 1 then Err(ValueError)
    else
      var rows := JoinRows(df.rows, keys[0], cal);
      assert forall k :: 0 <= k < |rows| ==> |rows[k]| == |df.columns| + 3 by {
        JoinRowsWidth(df.rows, keys[0], cal, |df.columns|);
      }
      Ok(Frame(MergedColumns(df.columns), rows))
  }

  lemma JoinRowsWidth(rows: seq<seq<Cell>>, j: nat, cal: seq<Week>, width: nat)
    requires forall i :: 0 <= i < |rows| ==> j < |rows[i]| == width
    ensures forall k :: 0 <= k < |JoinRows(rows, j, cal)| ==> |JoinRows(rows, j, cal)[k]| == width + 3
  {
    var groups := JoinGroups(rows, j, cal);
    forall k | 0 <= k < |Flatten(groups)|
      ensures |Flatten(groups)[k]| == width + 3
    {
      var g, m := FlattenOrigin(groups, k);
    }
  }

  /** The columns of the table the weekly grosses are loaded into, in order:
      show_name, venue_name, season, week_num, week_start_date,
      week_end_date, the five money columns, the four counts and the two
      percentages. */
  const FinalColumns: seq<string> := [
    "show_name", "venue_name", "season", "week_num", "week_start_date", "week_end_date",
    "tw_gross", "potential_gross", "diff_tw_lw_gross", "avg_ticket_price", "max_ticket_price",
    "seats_sold", "seats_in_theater", "performances", "preview_performances",
    "pct_capacity", "diff_tw_lw_pct_capacity"
  ]

  /** merge_df_with_week_metadata. */
  function MergeDfWithWeekMetadata(df: Frame, cal: seq<Week>): (r: Result<Frame>)
    requires WellShaped(df)
    ensures PositionsOf(df.columns, KeyColumn) == [] ==> r == Err(KeyError(KeyColumn))
    ensures |PositionsOf(df.columns, KeyColumn)| > 1 ==> r == Err(ValueError)
    ensures r.Ok? ==> WellShaped(r.value) && |r.value.rows| >= |df.rows|
  {
    match Merge(df, cal)
    case Err(e) => Err(e)
    case Ok(merged) => Project(merged, FinalColumns)
  }

  /** A frame the join can take names from: the key labels exactly one
      column, no label clashes with a calendar column, and each of names is
      a calendar column or labels exactly one column. */
  predicate JoinableFor(df: Frame, names: seq<string>) {
    && |PositionsOf(df.columns, KeyColumn)| == 1
    && (forall n :: n in WeekColumns ==> n !in df.columns)
    && (forall n :: n in names && n !in WeekColumns ==> |PositionsOf(df.columns, n)| == 1)
  }

  /** A cleaned report frame: every final column it supplies is labelled
      exactly once, and no label clashes with a calendar column. */
  predicate ReportColumns(df: Frame) {
    && (forall n :: n in FinalColumns && n !in WeekColumns ==> |PositionsOf(df.columns, n)| == 1)
    && (forall n :: n in WeekColumns ==> n !in df.columns)
  }

  lemma ReportColumnsJoinable(df: Frame)
    requires ReportColumns(df)
    ensures JoinableFor(df, FinalColumns)
  {
    assert KeyColumn in FinalColumns && KeyColumn !in WeekColumns;
  }

  /** The cell of row i under the first column labelled name. */
  function CellUnder(df: Frame, i: nat, name: string): Cell
    requires WellShaped(df) && i < |df.rows| && name in df.columns
  {
    var p :| 0 <= p < |df.columns| && df.columns[p] == name;
    assert p in PositionsOf(df.columns, name);
    df.rows[i][PositionsOf(df.columns, name)[0]]
  }

  /** The joined frame of a frame with one key column and no clashing label
      has its labels followed by the calendar's, and, when calendar end
      dates are unique, one row per row of the frame. */
  lemma MergeNoClash(df: Frame, cal: seq<Week>)
    requires WellShaped(df) && StrictlyIncreasingEnds(cal)
    requires |PositionsOf(df.columns, KeyColumn)| == 1
    requires forall n :: n in WeekColumns ==> n !in df.columns
    ensures KeyColumn in df.columns
    ensures var m := Merge(df, cal);
      && m.Ok? && m.value.columns == df.columns + WeekColumns && |m.value.rows| == |df.rows|
      && forall i :: 0 <= i < |df.rows| ==>
        m.value.rows[i] == df.rows[i] + WeekCellsFor(cal, CellUnder(df, i, KeyColumn))
  {
    var keys := PositionsOf(df.columns, KeyColumn);
    assert keys[0] < |df.columns| && df.columns[keys[0]] == KeyColumn;
    assert forall i :: 0 <= i < |df.rows| ==> CellUnder(df, i, KeyColumn) == df.rows[i][keys[0]];
    JoinRowsUniqueEnds(df.rows, keys[0], cal);
    MergedColumnsNoClash(df.columns);
  }

  /** Without a clashing label the joined labels are the left ones followed
      by the calendar's. */
  lemma MergedColumnsNoClash(left: seq<string>)
    requires forall n :: n in WeekColumns ==> n !in left
    ensures MergedColumns(left) == left + WeekColumns
  {
    var r := MergedColumns(left);
    forall k | 0 <= k < |r|
      ensures r[k] == (left + WeekColumns)[k]
    {
      if k < |left| {
        assert left[k] in left;
      } else {
        assert WeekColumns[k - |left|] in WeekColumns;
      }
    }
  }

  lemma WeekColumnsDistinct()
    ensures forall u, t :: 0 <= u < t < |WeekColumns| ==> WeekColumns[u] != WeekColumns[t]
  {
    assert |WeekColumns[0]| == 6 && |WeekColumns[1]| == 8 && |WeekColumns[2]| == 15;
  }

  /** A label of the right part that is unique there and absent from the
      left part sits once in the joined labels, after the left ones. */
  lemma RightColumnPosition(left: seq<string>, right: seq<string>, t: nat)
    requires t < |right|
    requires forall u, v :: 0 <= u < v < |right| ==> right[u] != right[v]
    requires forall q :: 0 <= q < |left| ==> left[q] != right[t]
    ensures PositionsOf(left + right, right[t]) == [|left| + t]
  {
    var all := left + right;
    forall q | 0 <= q < |all| && all[q] == right[t]
      ensures q == |left| + t
    {
      if q >= |left| {
        assert right[q - |left|] == right[t];
      }
    }
    PositionsOfSingle(all, right[t], |left| + t);
  }

  /** A report label sits where it sat in the report frame. */
  lemma DataColumnPosition(left: seq<string>, n: string)
    requires n !in WeekColumns && |PositionsOf(left, n)| == 1
    ensures PositionsOf(left + WeekColumns, n) == PositionsOf(left, n)
  {
    var all := left + WeekColumns;
    var own := PositionsOf(left, n);
    forall q | 0 <= q < |all| && all[q] == n
      ensures q == own[0]
    {
      if q < |left| {
        assert q in own;
      }
    }
    PositionsOfSingle(all, n, own[0]);
  }

  /** Each of names labels exactly one column of the joined frame: a
      calendar column after the frame's own, any other where the frame has it. */
  lemma JoinedPositions(df: Frame, names: seq<string>)
    requires JoinableFor(df, names)
    ensures forall n :: n in names ==> |PositionsOf(df.columns + WeekColumns, n)| == 1
    ensures forall n :: n in names && n !in WeekColumns ==>
      PositionsOf(df.columns + WeekColumns, n) == PositionsOf(df.columns, n)
    ensures forall t :: 0 <= t < |WeekColumns| ==>
      PositionsOf(df.columns + WeekColumns, WeekColumns[t]) == [|df.columns| + t]
  {
    WeekColumnsDistinct();
    forall t | 0 <= t < |WeekColumns|
      ensures PositionsOf(df.columns + WeekColumns, WeekColumns[t]) == [|df.columns| + t]
    {
      assert WeekColumns[t] in WeekColumns;
      RightColumnPosition(df.columns, WeekColumns, t);
    }
    forall n | n in names && n !in WeekColumns
      ensures PositionsOf(df.columns + WeekColumns, n) == PositionsOf(df.columns, n)
    {
      DataColumnPosition(df.columns, n);
    }
  }

  /** Projecting on names that each label exactly one column gives those
      columns, in the order of names, for every row. */
  lemma ProjectSingles(f: Frame, names: seq<string>)
    requires WellShaped(f)
    requires forall n :: n in names ==> |PositionsOf(f.columns, n)| == 1
    ensures var r := Project(f, names);
      && r.Ok? && r.value.columns == names && |r.value.rows| == |f.rows|
      && forall i, k :: 0 <= i < |f.rows| && 0 <= k < |names| ==>
        r.value.rows[i][k] == f.rows[i][PositionsOf(f.columns, names[k])[0]]
  {
    PositionsOfAllSingles(f.columns, names);
    forall n | n in names
      ensures n in f.columns
    {
      assert f.columns[PositionsOf(f.columns, n)[0]] == n;
    }
  }

  /** merge_df_with_week_metadata's join and projection, for any list of
      names the frame can supply: the names become the labels, every row is
      kept, and a name that is not a calendar column takes its cells from
      the frame. */
  lemma ProjectJoinedReport(df: Frame, cal: seq<Week>, names: seq<string>)
    requires WellShaped(df) && JoinableFor(df, names) && StrictlyIncreasingEnds(cal)
    ensures KeyColumn in df.columns && Merge(df, cal).Ok?
    ensures var r := Project(Merge(df, cal).value, names);
      && r.Ok? && r.value.columns == names && |r.value.rows| == |df.rows|
      && (forall i, k :: 0 <= i < |df.rows| && 0 <= k < |names| && names[k] !in WeekColumns ==>
            names[k] in df.columns && r.value.rows[i][k] == CellUnder(df, i, names[k]))
  {
    MergeNoClash(df, cal);
    JoinedPositions(df, names);
    ProjectSingles(Merge(df, cal).value, names);
    forall i, k | 0 <= i < |df.rows| && 0 <= k < |names| && names[k] !in WeekColumns
      ensures names[k] in df.columns
      ensures Project(Merge(df, cal).value, names).value.rows[i][k] == CellUnder(df, i, names[k])
    {
      ProjectJoinedCell(df, cal, names, i, k);
    }
  }

  lemma ProjectJoinedCell(df: Frame, cal: seq<Week>, names: seq<string>, i: nat, k: nat)
    requires WellShaped(df) && JoinableFor(df, names) && StrictlyIncreasingEnds(cal)
    requires i < |df.rows| && k < |names| && names[k] !in WeekColumns
    ensures KeyColumn in df.columns && Merge(df, cal).Ok? && names[k] in df.columns
    ensures var r := Project(Merge(df, cal).value, names);
      && r.Ok? && |r.value.rows| == |df.rows| && |r.value.rows[i]| == |names|
      && r.value.rows[i][k] == CellUnder(df, i, names[k])
  {
    MergeNoClash(df, cal);
    var m := Merge(df, cal).value;
    JoinedPositions(df, names);
    ProjectSingles(m, names);
    assert names[k] in names;
    var own := PositionsOf(df.columns, names[k]);
    assert df.columns[own[0]] == names[k];
  }

  /** The cells a projected calendar column takes from the matching week. */
  lemma ProjectJoinedWeeks(df: Frame, cal: seq<Week>, names: seq<string>)
    requires WellShaped(df) && JoinableFor(df, names) && StrictlyIncreasingEnds(cal)
    ensures KeyColumn in df.columns && Merge(df, cal).Ok?
    ensures var r := Project(Merge(df, cal).value, names);
      && r.Ok? && |r.value.rows| == |df.rows| && WellShaped(r.value) && |r.value.columns| == |names|
      && (forall i, k, t ::
            0 <= i < |df.rows| && 0 <= k < |names| && 0 <= t < |WeekColumns| && names[k] == WeekColumns[t] ==>
            r.value.rows[i][k] == WeekCellsFor(cal, CellUnder(df, i, KeyColumn))[t])
  {
    MergeNoClash(df, cal);
    var m := Merge(df, cal).value;
    JoinedPositions(df, names);
    ProjectSingles(m, names);
    var g := Project(m, names).value;
    forall i, k, t | 0 <= i < |df.rows| && 0 <= k < |names| && 0 <= t < |WeekColumns| && names[k] == WeekColumns[t]
      ensures g.rows[i][k] == WeekCellsFor(cal, CellUnder(df, i, KeyColumn))[t]
    {
      var cells := WeekCellsFor(cal, CellUnder(df, i, KeyColumn));
      var at := |df.columns| + t;
      assert PositionsOf(m.columns, names[k])[0] == at;
      assert m.rows[i] == df.rows[i] + cells && |df.rows[i]| == |df.columns|;
      IndexAfter(df.rows[i], cells, t);
      assert g.rows[i][k] == m.rows[i][at];
    }
  }

  /** Positions 2 to 4 of the final columns are the calendar columns. */
  lemma FinalWeekSlots()
    ensures |FinalColumns| == 17
    ensures forall t :: 0 <= t < |WeekColumns| ==> FinalColumns[2 + t] == WeekColumns[t]
  {
  }

  /** The calendar cells of row i of the final frame. */
  lemma FinalWeekCells(df: Frame, cal: seq<Week>, i: nat)
    requires WellShaped(df) && ReportColumns(df) && StrictlyIncreasingEnds(cal)
    requires i < |df.rows|
    ensures KeyColumn in df.columns && Merge(df, cal).Ok?
    ensures var r := Project(Merge(df, cal).value, FinalColumns);
      && r.Ok? && |r.value.rows| == |df.rows| && |r.value.rows[i]| == 17
      && r.value.rows[i][2..5] == WeekCellsFor(cal, CellUnder(df, i, KeyColumn))
  {
    ReportColumnsJoinable(df);
    ProjectJoinedWeeks(df, cal, FinalColumns);
    FinalWeekSlots();
    var g := Project(Merge(df, cal).value, FinalColumns).value;
    var cells := WeekCellsFor(cal, CellUnder(df, i, KeyColumn));
    assert |cells| == 3;
    forall t | 0 <= t < 3
      ensures g.rows[i][2 + t] == cells[t]
    {
      assert FinalColumns[2 + t] == WeekColumns[t];
    }
  }

  /** merge_df_with_week_metadata on a report frame, with a calendar whose
      end dates are unique: the 17 final columns in order and one row per
      report row. */
  lemma MergeFinal(df: Frame, cal: seq<Week>)
    requires WellShaped(df) && ReportColumns(df) && StrictlyIncreasingEnds(cal)
    ensures var r := MergeDfWithWeekMetadata(df, cal);
      && r.Ok? && r.value.columns == FinalColumns && |r.value.rows| == |df.rows|
  {
    ReportColumnsJoinable(df);
    ProjectJoinedReport(df, cal, FinalColumns);
    MergedThenProjected(df, cal);
  }

  /** Each report column of the final frame is carried over unchanged from
      the report frame. */
  lemma MergeFinalCell(df: Frame, cal: seq<Week>, i: nat, k: nat)
    requires WellShaped(df) && ReportColumns(df) && StrictlyIncreasingEnds(cal)
    requires i < |df.rows| && k < |FinalColumns| && FinalColumns[k] !in WeekColumns
    ensures FinalColumns[k] in df.columns
    ensures var r := MergeDfWithWeekMetadata(df, cal);
      && r.Ok? && |r.value.rows| == |df.rows| && |r.value.rows[i]| == |FinalColumns|
      && r.value.rows[i][k] == CellUnder(df, i, FinalColumns[k])
  {
    ReportColumnsJoinable(df);
    ProjectJoinedCell(df, cal, FinalColumns, i, k);
    MergedThenProjected(df, cal);
  }

  /** When the join succeeds, the result is its projection on the final columns. */
  lemma MergedThenProjected(df: Frame, cal: seq<Week>)
    requires WellShaped(df) && Merge(df, cal).Ok?
    ensures MergeDfWithWeekMetadata(df, cal) == Project(Merge(df, cal).value, FinalColumns)
  {
  }

  /** Row i of the final frame takes season, week_num and week_start_date
      from the calendar week that ends on its week_end_date, and holds
      missing values there when no week does. */
  lemma MergeFinalWeeks(df: Frame, cal: seq<Week>, i: nat)
    requires WellShaped(df) && ReportColumns(df) && StrictlyIncreasingEnds(cal)
    requires i < |df.rows|
    ensures KeyColumn in df.columns
    ensures var r := MergeDfWithWeekMetadata(df, cal);
      && r.Ok? && |r.value.rows| == |df.rows| && |r.value.rows[i]| == |FinalColumns|
      && (forall w :: w in cal && Date(w.endDate) == CellUnder(df, i, KeyColumn) ==>
            r.value.rows[i][2..5] == WeekCells(w))
      && ((forall w :: w in cal ==> Date(w.endDate) != CellUnder(df, i, KeyColumn)) ==>
            r.value.rows[i][2..5] == NoWeekCells)
  {
    FinalWeekCells(df, cal, i);
    WeekCellsForUnique(cal, CellUnder(df, i, KeyColumn));
  }
}

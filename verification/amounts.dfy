/** The amount column of src/transactions/parse.ts: "-2.50 USD", "3,749.00 USD",
    read as a whole number of cents after the thousands separators are removed. */
module Amounts {
  import opened Options
  import opened Strings

  /** The number `parseFloat` reads at the start of `s`, in cents: an optional
      minus sign, digits, and optionally a point with one or two digits, ended by
      a space or the end of the string (" USD" follows in the portal). Any other
      text is `None`, including text `parseFloat` does read to whole cents: a
      leading '+' ("+5.00 USD"), an exponent ("1e2 USD"), a missing integer or
      fraction part (".50 USD", "5. USD"), leading whitespace (" 5.00 USD") or
      no space before the unit ("5.00USD"). */
  function ParseCents(s: string): (r: Option<int>)
    ensures r.Some? ==> |s| > 0 && (IsDigit(s[0]) || s[0] == '-')
    ensures r.Some? && r.value < 0 ==> s[0] == '-'
  {
    SplitShape(s, ' ');
    ParseToken(Split(s, ' ')[0])
  }

  /** A number with an optional leading minus sign. */
  function ParseToken(token: string): (r: Option<int>)
    ensures r.Some? ==> |token| > 0 && (IsDigit(token[0]) || token[0] == '-')
    ensures r.Some? && r.value < 0 ==> token[0] == '-'
  {
    if |token| > 0 && token[0] == '-' then Negate(ParseMagnitude(token[1..]))
    else ParseMagnitude(token)
  }

  function Negate(m: Option<int>): Option<int> {
    match m
    case Some(v) => Some(-v)
    case None => None
  }

  /** An unsigned number in cents: digits, then optionally a point and one or
      two digits. */
  function ParseMagnitude(body: string): (r: Option<int>)
    ensures r.Some? ==> r.value >= 0 && |body| > 0 && IsDigit(body[0])
  {
    SplitShape(body, '.');
    var parts := Split(body, '.');
    if |parts| == 1 && IsDigits(parts[0]) then
      Some(DigitsValue(parts[0]) * 100)
    else if |parts| == 2 && IsDigits(parts[0]) && IsDigits(parts[1]) && |parts[1]| <= 2 then
      Some(DigitsValue(parts[0]) * 100 + FractionCents(parts[1]))
    else None
  }

  /** The cents of one or two decimals: ".5" is 50 cents, ".05" is 5. */
  function FractionCents(frac: string): nat
    requires IsDigits(frac) && |frac| <= 2
  {
    if |frac| == 1 then DigitsValue(frac) * 10 else DigitsValue(frac)
  }

  /** The amount of a raw transaction in cents: `amount.replaceAll(',', '')`,
      then read. */
  function AmountCents(amount: string): Option<int> {
    ParseCents(RemoveAll(amount, ','))
  }

  // ---------------------------------------------------------------------------
  // The portal's spelling of amounts, as a reference for reading them back
  // ---------------------------------------------------------------------------

  /** Digits grouped in threes from the right with commas: "3749" is "3,749". */
  function GroupThousands(digits: string): string
    decreases |digits|
  {
    if |digits| <= 3 then digits
    else GroupThousands(digits[..|digits| - 3]) + "," + digits[|digits| - 3..]
  }

  /** Removing the separators undoes the grouping. */
  lemma {:induction false} StripGroupThousands(digits: string)
    requires ',' !in digits
    ensures RemoveAll(GroupThousands(digits), ',') == digits
    decreases |digits|
  {
    if |digits| <= 3 {
      RemoveAllAbsent(digits, ',');
    } else {
      var high, low := digits[..|digits| - 3], digits[|digits| - 3..];
      assert ',' !in high && ',' !in low by {
        assert forall c :: c in high ==> c in digits;
        assert forall c :: c in low ==> c in digits;
      }
      calc {
        RemoveAll(GroupThousands(digits), ',');
        RemoveAll(GroupThousands(high) + "," + low, ',');
        == { RemoveAllAppend(GroupThousands(high) + ",", low, ','); }
        RemoveAll(GroupThousands(high) + ",", ',') + RemoveAll(low, ',');
        == { RemoveAllAppend(GroupThousands(high), ",", ','); RemoveAllAbsent(low, ','); }
        RemoveAll(GroupThousands(high), ',') + RemoveAll(",", ',') + low;
        == { StripGroupThousands(high); assert RemoveAll(",", ',') == []; }
        high + [] + low;
        == { assert high + low == digits; }
        digits;
      }
    }
  }

  /** A number as the portal writes it: optional minus, whole units, a point
      and the cents. */
  function PlainNumber(negative: bool, whole: string, frac: string): string {
    (if negative then "-" else "") + whole + "." + frac
  }

  /** The portal's amount column: sign, whole units grouped in threes, two
      decimals, " USD". */
  function DisplayAmount(cents: int): string {
    var magnitude := if cents < 0 then -cents else cents;
    PlainNumber(cents < 0, GroupThousands(NatToDigits(magnitude / 100)), PadDigits(magnitude % 100, 2)) + " USD"
  }

  /** The number at the front of a displayed amount, without separators. */
  function AmountToken(cents: int): string {
    var magnitude := if cents < 0 then -cents else cents;
    PlainNumber(cents < 0, NatToDigits(magnitude / 100), PadDigits(magnitude % 100, 2))
  }

  /** Removing the separators from a displayed amount leaves its plain number. */
  lemma StripDisplayAmount(cents: int)
    ensures RemoveAll(DisplayAmount(cents), ',') == AmountToken(cents) + " USD"
  {
    var magnitude := if cents < 0 then -cents else cents;
    var whole := NatToDigits(magnitude / 100);
    var frac := PadDigits(magnitude % 100, 2);
    NatToDigitsValue(magnitude / 100);
    PadDigitsValue(magnitude % 100, 2);
    DigitsExclude(whole, ',');
    DigitsExclude(frac, ',');
    StripSigned(cents < 0, whole, frac);
  }

  /** The separators sit only inside the grouped whole part. */
  lemma StripSigned(negative: bool, whole: string, frac: string)
    requires ',' !in whole && ',' !in frac
    ensures RemoveAll(PlainNumber(negative, GroupThousands(whole), frac) + " USD", ',')
         == PlainNumber(negative, whole, frac) + " USD"
  {
    var sign := if negative then "-" else "";
    var grouped := GroupThousands(whole);
    RemoveAllAppend(sign + grouped + "." + frac, " USD", ',');
    RemoveAllAppend(sign + grouped + ".", frac, ',');
    RemoveAllAppend(sign + grouped, ".", ',');
    RemoveAllAppend(sign, grouped, ',');
    RemoveAllAbsent(sign, ',');
    StripGroupThousands(whole);
    RemoveAllAbsent(".", ',');
    RemoveAllAbsent(frac, ',');
    RemoveAllAbsent(" USD", ',');
  }

  /** What reading a plain "digits.dd" number needs to know about its parts. */
  lemma PlainFacts(whole: string, frac: string)
    requires IsDigits(whole) && IsDigits(frac) && |frac| == 2
    ensures ' ' !in whole && ' ' !in frac && |whole| > 0 && '-' !in whole
    ensures ParseMagnitude(whole + "." + frac) == Some(DigitsValue(whole) * 100 + DigitsValue(frac))
  {
    MagnitudePlain(whole, frac);
    DigitsExclude(whole, ' ');
    DigitsExclude(frac, ' ');
    DigitsExclude(whole, '-');
  }

  /** The unsigned part "digits.dd" reads as its cents. */
  lemma MagnitudePlain(whole: string, frac: string)
    requires IsDigits(whole) && IsDigits(frac) && |frac| == 2
    ensures ParseMagnitude(whole + "." + frac) == Some(DigitsValue(whole) * 100 + DigitsValue(frac))
  {
    PointPieces(whole, frac);
    MagnitudeOfPieces(whole + "." + frac, whole, frac);
  }

  /** A sign in front of a magnitude the model reads, followed by the currency. */
  lemma ParseSignedLine(negative: bool, whole: string, frac: string, x: int)
    requires ' ' !in whole && ' ' !in frac && |whole| > 0 && '-' !in whole
    requires ParseMagnitude(whole + "." + frac) == Some(x)
    ensures ParseCents(PlainNumber(negative, whole, frac) + " USD") == Some(Signed(negative, x))
  {
    var body := whole + "." + frac;
    assert ' ' !in body;
    if negative {
      var token := "-" + body;
      assert ' ' !in token;
      TokenBeforeSpace(token);
      NegativeToken(token, x);
      assert "-" + whole + "." + frac + " USD" == token + " USD";
    } else {
      assert body[0] == whole[0];
      assert whole[0] in whole;
      TokenBeforeSpace(body);
      assert "" + whole + "." + frac + " USD" == body + " USD";
    }
  }

  /** The token ends at the space before the currency. */
  lemma TokenBeforeSpace(token: string)
    requires ' ' !in token
    ensures ParseCents(token + " USD") == ParseToken(token)
  {
    SplitFirstPiece(token, ' ', "USD");
    assert token + " USD" == token + [' '] + "USD";
  }

  lemma NegativeToken(token: string, x: int)
    requires |token| > 0 && token[0] == '-'
    requires ParseMagnitude(token[1..]) == Some(x)
    ensures ParseToken(token) == Some(-x)
  {
  }

  lemma PointPieces(whole: string, frac: string)
    requires IsDigits(whole) && IsDigits(frac)
    ensures Split(whole + "." + frac, '.') == [whole, frac]
  {
    DigitsExclude(whole, '.');
    DigitsExclude(frac, '.');
    SplitTwo(whole, frac, '.');
    assert whole + "." + frac == whole + ['.'] + frac;
  }

  lemma MagnitudeOfPieces(body: string, whole: string, frac: string)
    requires IsDigits(whole) && IsDigits(frac) && |frac| == 2
    requires Split(body, '.') == [whole, frac]
    ensures ParseMagnitude(body) == Some(DigitsValue(whole) * 100 + DigitsValue(frac))
  {
    var parts := Split(body, '.');
    assert parts[0] == whole && parts[1] == frac;
  }

  function Signed(negative: bool, magnitude: int): int {
    if negative then -magnitude else magnitude
  }

  /** `ParseCents` reads the plain number back. */
  lemma ParseAmountToken(cents: int)
    ensures ParseCents(AmountToken(cents) + " USD") == Some(cents)
  {
    var magnitude := if cents < 0 then -cents else cents;
    AmountPieces(cents);
    ParseSignedLine(cents < 0, NatToDigits(magnitude / 100), PadDigits(magnitude % 100, 2), magnitude);
  }

  /** The whole and fractional digits of an amount read back as its magnitude. */
  lemma AmountPieces(cents: int)
    ensures var magnitude := if cents < 0 then -cents else cents;
            var whole, frac := NatToDigits(magnitude / 100), PadDigits(magnitude % 100, 2);
            && ' ' !in whole && ' ' !in frac && |whole| > 0 && '-' !in whole
            && ParseMagnitude(whole + "." + frac) == Some(magnitude)
  {
    var magnitude := if cents < 0 then -cents else cents;
    var whole, frac := NatToDigits(magnitude / 100), PadDigits(magnitude % 100, 2);
    NatToDigitsValue(magnitude / 100);
    PadDigitsValue(magnitude % 100, 2);
    PadDigitsLength(magnitude % 100, 2);
    PlainFacts(whole, frac);
  }

  /** Reading back an amount as the portal displays it gives its cents. */
  lemma ReadDisplayAmount(cents: int)
    ensures AmountCents(DisplayAmount(cents)) == Some(cents)
  {
    StripDisplayAmount(cents);
    ParseAmountToken(cents);
  }

  /** The examples in the source's documentation, as the model reads them. */
  lemma DocumentedAmounts()
    ensures AmountCents("-2.50 USD") == Some(-250)
    ensures AmountCents("8.00 USD") == Some(800)
  {
    DocumentedNegative();
    DocumentedPositive();
  }

  lemma DocumentedNegative()
    ensures AmountCents("-2.50 USD") == Some(-250)
  {
    RemoveAllAbsent("-2.50 USD", ',');
    DocumentedNegativeLine();
  }

  lemma DocumentedNegativeLine()
    ensures ParseCents("-2.50 USD") == Some(-250)
  {
    assert DigitsValue("2") == 2 by { assert "2"[..0] == ""; }
    assert DigitsValue("50") == 50 by { assert "50"[..1] == "5" && "5"[..0] == ""; }
    PlainFacts("2", "50");
    ParseSignedLine(true, "2", "50", 250);
    assert "-" + "2" + "." + "50" + " USD" == "-2.50 USD";
  }

  lemma DocumentedPositive()
    ensures AmountCents("8.00 USD") == Some(800)
  {
    RemoveAllAbsent("8.00 USD", ',');
    DocumentedPositiveLine();
  }

  lemma DocumentedPositiveLine()
    ensures ParseCents("8.00 USD") == Some(800)
  {
    assert DigitsValue("8") == 8 by { assert "8"[..0] == ""; }
    assert DigitsValue("00") == 0 by { assert "00"[..1] == "0" && "0"[..0] == ""; }
    PlainFacts("8", "00");
    ParseSignedLine(false, "8", "00", 800);
    assert "" + "8" + "." + "00" + " USD" == "8.00 USD";
  }
}

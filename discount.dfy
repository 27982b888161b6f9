/**
 * `calculate_discounted_price`: reads a discount written as "20%", "20" or "0.2",
 * takes it off a price and rounds to cents; a discount `float()` rejects leaves
 * the price as it is.
 */
module Discount {
  import opened Wrappers
  import opened Strings
  import opened Numbers

  /** The text whose number a discount names: with a '%' anywhere, the discount with
      the '%' characters at both ends stripped; without one, the discount itself. */
  function DiscountText(discount: string): string
  {
    if !Lacks(discount, '%') then Strip(discount, {'%'}) else discount
  }

  /** The number a discount string holds, or None where the source's `float()` raises. */
  function DiscountNumber(discount: string): Option<real>
  {
    ParseFloat(DiscountText(discount))
  }

  /** The fraction of the price a discount string takes off, or None where the
      source's `float()` raises. With a '%' the number is a percentage; without
      one, a number above 1 is a percentage and any other number is already a fraction. */
  function DiscountFraction(discount: string): Option<real>
  {
    match DiscountNumber(discount)
    case Some(v) => Some(if !Lacks(discount, '%') || v > 1.0 then v / 100.0 else v)
    case None => None
  }

  /** `round(price - price * fraction, 2)`. */
  function ApplyFraction(price: real, fraction: real): real
  {
    Round2(price - price * fraction)
  }

  /** `calculate_discounted_price(price, discount)`: the price itself when the
      discount cannot be read. */
  function CalculateDiscountedPrice(price: real, discount: string): real
  {
    match DiscountFraction(discount)
    case Some(f) => ApplyFraction(price, f)
    case None => price
  }

  /** Taking a fraction off gives whole cents, within half a cent of the exact value. */
  lemma ApplyFractionNearest(price: real, fraction: real)
    ensures (ApplyFraction(price, fraction) * 100.0).Floor as real == ApplyFraction(price, fraction) * 100.0
    ensures -0.005 <= ApplyFraction(price, fraction) - (price - price * fraction) <= 0.005
  {
    Round2Nearest(price - price * fraction);
  }

  /** A readable discount gives the price less the fraction it names, in whole cents
      and within half a cent. */
  lemma DiscountedPriceNearest(price: real, discount: string, f: real)
    requires DiscountFraction(discount) == Some(f)
    ensures var r := CalculateDiscountedPrice(price, discount);
            (r * 100.0).Floor as real == r * 100.0 && -0.005 <= r - (price - price * f) <= 0.005
  {
    ApplyFractionNearest(price, f);
  }

  /** A discount is unreadable exactly when the text left once its end '%' characters
      (if it holds a '%') and then the whitespace `float()` skips are stripped is not a
      signed decimal; the price then comes back as it is, whatever the price. */
  lemma UnreadableKeepsPrice(price: real, discount: string)
    ensures var t := if Lacks(discount, '%') then discount else Strip(discount, {'%'});
            DiscountFraction(discount).None? <==> !IsSignedDecimal(Strip(t, FloatWhitespace))
    ensures DiscountFraction(discount).None? ==> CalculateDiscountedPrice(price, discount) == price
  {
    ParseFloatDefined(DiscountText(discount));
  }

  /** Without '%', a number above 1 is a percentage and any other number is the fraction itself. */
  lemma PlainNumber(number: string, v: real)
    requires Lacks(number, '%') && ParseFloat(number) == Some(v)
    ensures DiscountFraction(number) == Some(if v > 1.0 then v / 100.0 else v)
  {
  }

  /** '%' characters before and after a '%'-free number, at least one of them, make it a
      percentage: the fraction is the number over 100. */
  lemma PercentAround(p: string, number: string, q: string, v: real)
    requires AllIn(p, {'%'}) && AllIn(q, {'%'}) && |p| + |q| > 0
    requires Lacks(number, '%') && ParseFloat(number) == Some(v)
    ensures DiscountFraction(p + number + q) == Some(v / 100.0)
  {
    var d := p + number + q;
    assert !Lacks(d, '%') by {
      if |p| > 0 {
        assert d[0] == p[0];
      } else {
        assert d[|d| - 1] == q[|q| - 1];
      }
    }
    StripIgnoresAround(p, number, q, {'%'});
    if |number| > 0 {
      assert number[0] != '%' && number[|number| - 1] != '%';
    }
    StripTrimmed(number, {'%'});
    assert DiscountText(d) == number;
  }

  /** Writing '%' after a number makes it a percentage: the fraction is the number over 100. */
  lemma PercentSuffix(number: string, v: real)
    requires Lacks(number, '%') && ParseFloat(number) == Some(v)
    ensures DiscountFraction(number + "%") == Some(v / 100.0)
  {
    assert number + "%" == "" + number + "%";
    PercentAround("", number, "%", v);
  }

  /** Above 1 the '%' sign makes no difference: "20%" and "20" are the same discount. */
  lemma PercentSignOptionalAboveOne(number: string, v: real)
    requires Lacks(number, '%') && ParseFloat(number) == Some(v) && v > 1.0
    ensures DiscountFraction(number + "%") == DiscountFraction(number) == Some(v / 100.0)
  {
    PercentSuffix(number, v);
    PlainNumber(number, v);
  }

  /** Up to 1 a number without '%' is already the fraction: "0.5" takes half off, "0.5%" a two-hundredth. */
  lemma FractionUpToOne(number: string, v: real)
    requires Lacks(number, '%') && ParseFloat(number) == Some(v) && v <= 1.0
    ensures DiscountFraction(number) == Some(v)
    ensures DiscountFraction(number + "%") == Some(v / 100.0)
  {
    PercentSuffix(number, v);
    PlainNumber(number, v);
  }

  /** A discount is readable exactly when its number is, and a number from 0 to 100
      gives a fraction from 0 to 1. */
  lemma FractionBounds(discount: string)
    ensures DiscountFraction(discount).Some? <==> DiscountNumber(discount).Some?
    ensures DiscountNumber(discount).Some? && 0.0 <= DiscountNumber(discount).value <= 100.0 ==>
      0.0 <= DiscountFraction(discount).value <= 1.0
  {
  }

  /** The part of a price left after a fraction from 0 to 1 is taken off. */
  lemma RemainderWithinPrice(price: real, f: real)
    requires price >= 0.0 && 0.0 <= f <= 1.0
    ensures 0.0 <= price - price * f <= price
  {
    assert price * (1.0 - f) >= 0.0;
  }

  /** With a fraction from 0 to 1 and a price that is not negative, the discounted
      price is neither negative nor above the rounded price. */
  lemma DiscountedWithinPrice(price: real, discount: string, f: real)
    requires price >= 0.0
    requires DiscountFraction(discount) == Some(f) && 0.0 <= f <= 1.0
    ensures 0.0 <= CalculateDiscountedPrice(price, discount) <= Round2(price)
  {
    RemainderWithinPrice(price, f);
    Round2Between(price - price * f, price);
  }

  /** A discount reading exactly 1 without '%' is not greater than 1, so it is the
      fraction 1: everything is taken off. */
  lemma DiscountOfOne(price: real, discount: string)
    requires Lacks(discount, '%') && ParseFloat(discount) == Some(1.0)
    ensures CalculateDiscountedPrice(price, discount) == 0.0
  {
    assert DiscountFraction(discount) == Some(1.0);
    assert price - price * 1.0 == 0.0;
    Round2Exact(0.0);
  }

  /** "20" is the number 20.
      The examples below take their literal strings as parameters (`requires s == "20"`)
      and prove one fact per helper lemma: stated on the literals directly, the same
      facts leave the prover to unfold `Strip`, `IndexOf` and `DigitsValue` over the
      literal all at once, which can exceed the resource limit. */
  lemma ReadTwenty(s: string)
    requires s == "20"
    ensures Lacks(s, '%') && ParseFloat(s) == Some(20.0)
  {
    assert AllDigits(s);
    assert DigitsValue(s) == 20 by {
      assert s[..1] == "2" && s[..1][..0] == [];
    }
    ReadInteger(s);
  }

  /** "20%" takes a fifth off. */
  lemma ExampleTwentyPercent(s: string)
    requires s == "20"
    ensures CalculateDiscountedPrice(100.0, s + "%") == 80.0
  {
    ReadTwenty(s);
    PercentSuffix(s, 20.0);
    assert 100.0 - 100.0 * 0.2 == 80.0;
    Round2Exact(80.0);
  }

  /** "20" without '%' is above 1, so it takes a fifth off as well. */
  lemma ExampleTwenty(s: string)
    requires s == "20"
    ensures CalculateDiscountedPrice(100.0, s) == 80.0
  {
    ReadTwenty(s);
    PlainNumber(s, 20.0);
    assert 100.0 - 100.0 * 0.2 == 80.0;
    Round2Exact(80.0);
  }

  /** "0.2" is already a fraction and takes a fifth off. */
  lemma ExampleFraction(s: string)
    requires s == "0.2"
    ensures CalculateDiscountedPrice(100.0, s) == 80.0
  {
    ReadTenths(s, '2');
    assert Lacks(s, '%');
    PlainNumber(s, 0.2);
    assert 100.0 - 100.0 * 0.2 == 80.0;
    Round2Exact(80.0);
  }

  /** "1" is not above 1, so it is the fraction 1 and the whole price comes off. */
  lemma ExampleOne(s: string)
    requires s == "1"
    ensures CalculateDiscountedPrice(100.0, s) == 0.0
  {
    assert AllDigits(s);
    ParseDigits(s);
    ParseFloatOfDecimalChars(s);
    DiscountOfOne(100.0, s);
  }

  /** A discount that is not a number leaves the price unchanged. */
  lemma ExampleWord(s: string)
    requires s == "abc"
    ensures CalculateDiscountedPrice(100.0, s) == 100.0
  {
    StripTrimmed(s, FloatWhitespace);
    assert IndexOf(s, '.') == 3;
    assert !AllDigits(s);
  }

  /** A negative discount is not above 1 either, so it is a negative fraction and raises the price. */
  lemma ExampleNegative(s: string)
    requires s == "-10"
    ensures CalculateDiscountedPrice(100.0, s) == 1100.0
  {
    StripTrimmed(s, FloatWhitespace);
    assert s[1..] == "10" && AllDigits(s[1..]);
    ParseDigits(s[1..]);
    assert DigitsValue(s[1..]) == 10;
    assert ParseFloat(s) == Some(-10.0);
    Round2Exact(1100.0);
  }

  /** "0.5%" is half a percent. */
  lemma ExampleHalfPercent(s: string)
    requires s == "0.5"
    ensures DiscountFraction(s + "%") == Some(0.005)
  {
    ReadTenths(s, '5');
    assert Lacks(s, '%');
    PercentSuffix(s, 0.5);
  }

  /** A '%' inside the number is not stripped, so "2%0" cannot be read and the price stays. */
  lemma ExampleInnerPercent(s: string)
    requires s == "2%0"
    ensures CalculateDiscountedPrice(100.0, s) == 100.0
  {
    assert s[1] == '%';
    StripTrimmed(s, {'%'});
    StripTrimmed(s, FloatWhitespace);
    assert IndexOf(s, '.') == 3;
    assert !AllDigits(s);
  }

  /** U+001C is whitespace to `strip()` but not to `float()`: after `strip('%')`,
      "20" followed by U+001C cannot be read, so the price stays. */
  lemma ExampleFileSeparator(s: string)
    requires s == "20\U{1C}%"
    ensures CalculateDiscountedPrice(100.0, s) == 100.0
  {
    var t := "20\U{1C}";
    assert s == "" + t + "%";
    StripIgnoresAround("", t, "%", {'%'});
    StripTrimmed(t, {'%'});
    StripTrimmed(t, FloatWhitespace);
    assert !IsSignedDecimal(t) by {
      assert t[0] == '2' && !(IsDigit(t[2]) || t[2] == '.');
    }
  }
}

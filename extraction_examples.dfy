/** Worked fragments for `extract_product_info`, including a price written with a
    thousands separator, which the comma split cuts apart before the price is cleaned. */
module ExtractionExamples {
  import opened Wrappers
  import opened Strings
  import opened Numbers
  import opened Discount
  import opened Extraction

  /** A cell with one leading space trims to the rest. */
  lemma TrimOneSpace(rest: string)
    requires |rest| > 0 && rest[0] !in Whitespace && rest[|rest| - 1] !in Whitespace
    ensures Strip(" " + rest, Whitespace) == rest
  {
    StripPrefixIgnored(" ", rest, Whitespace);
    StripTrimmed(rest, Whitespace);
  }

  /** Five cells joined with ','. */
  lemma JoinFive(c0: string, c1: string, c2: string, c3: string, c4: string)
    ensures Join([c0, c1, c2, c3, c4], ",") == c0 + "," + c1 + "," + c2 + "," + c3 + "," + c4
  {
    JoinCons(c3, [c4], ",");
    assert [c3, c4] == [c3] + [c4];
    JoinCons(c2, [c3, c4], ",");
    assert [c2, c3, c4] == [c2] + [c3, c4];
    JoinCons(c1, [c2, c3, c4], ",");
    assert [c1, c2, c3, c4] == [c1] + [c2, c3, c4];
    JoinCons(c0, [c1, c2, c3, c4], ",");
    assert [c0, c1, c2, c3, c4] == [c0] + [c1, c2, c3, c4];
  }

  /** The cleaned price after a currency sign is the number itself. */
  lemma CleanAfterSymbol(number: string)
    requires DecimalChars(number)
    ensures CleanPrice("$" + number) == number
  {
    CleanPriceConcat("$", number);
    assert CleanPrice("$") == "";
    CleanPriceFixed(number);
  }

  /** A dollar amount with digits on both sides of the dot reads as its value. */
  lemma DollarPrice(whole: string, frac: string)
    requires AllDigits(whole) && AllDigits(frac) && |whole| + |frac| > 0
    ensures ParsePrice("$" + whole + "." + frac) == Some(DigitsValue(whole) as real + FractionValue(frac))
  {
    var number := whole + "." + frac;
    assert "$" + whole + "." + frac == "$" + number;
    DecimalCharsOfParts(whole, frac);
    CleanAfterSymbol(number);
    ReadDecimal(number, whole, frac);
  }

  /** A cell with no whitespace at either end and no ','. */
  predicate Cell(s: string)
  {
    |s| > 0 && s[0] !in Whitespace && s[|s| - 1] !in Whitespace && Lacks(s, ',')
  }

  /** A space before a cell adds no ','. */
  lemma SpacedCell(cell: string)
    requires Lacks(cell, ',')
    ensures Lacks(" " + cell, ',')
  {
    assert forall k :: 0 < k < |" " + cell| ==> (" " + cell)[k] == cell[k - 1];
  }

  /** Five cells joined with ", ". */
  lemma JoinSpaced(c0: string, c1: string, c2: string, c3: string, c4: string)
    ensures Join([c0, " " + c1, " " + c2, " " + c3, " " + c4], ",") == c0 + ", " + c1 + ", " + c2 + ", " + c3 + ", " + c4
  {
    JoinFive(c0, " " + c1, " " + c2, " " + c3, " " + c4);
  }

  /** A fragment written as five cells separated by ", " files the first cell as the
      name and the other four as category, price, discount and source. */
  lemma SpacedRow(name: string, category: string, rawPrice: string, discount: string, source: string, price: real)
    requires Cell(name) && Cell(category) && Cell(rawPrice) && Cell(discount) && Cell(source)
    requires ParsePrice(rawPrice) == Some(price)
    ensures ParseFragment(name + ", " + category + ", " + rawPrice + ", " + discount + ", " + source) ==
      Some(Entry(name, ProductRecord(category, price, discount, CalculateDiscountedPrice(price, discount), source)))
  {
    var cells := [name, " " + category, " " + rawPrice, " " + discount, " " + source];
    JoinSpaced(name, category, rawPrice, discount, source);
    StripTrimmed(name, Whitespace);
    TrimOneSpace(category);
    TrimOneSpace(rawPrice);
    TrimOneSpace(discount);
    TrimOneSpace(source);
    SpacedCell(category);
    SpacedCell(rawPrice);
    SpacedCell(discount);
    SpacedCell(source);
    FragmentOfRow(cells, price);
  }

  lemma WidgetCells(a: string, b: string, c: string, d: string, e: string)
    requires a == "Widget" && b == "Tools" && c == "$50.00" && d == "10%" && e == "catalog.csv"
    ensures Cell(a) && Cell(b) && Cell(c) && Cell(d) && Cell(e)
  {
  }

  lemma WidgetLine()
    ensures "Widget, Tools, $50.00, 10%, catalog.csv" == "Widget" + ", " + "Tools" + ", " + "$50.00" + ", " + "10%" + ", " + "catalog.csv"
  {
  }

  lemma WidgetDigits(whole: string, frac: string)
    requires whole == "50" && frac == "00"
    ensures AllDigits(whole) && AllDigits(frac)
    ensures DigitsValue(whole) == 50 && FractionValue(frac) == 0.0
  {
    assert whole[..1] == "5" && whole[..1][..0] == [];
    assert frac[1..] == "0" && frac[1..][1..] == [];
    assert FractionValue(frac[1..]) == 0.0;
  }

  /** "$50.00" reads as 50. */
  lemma WidgetPrice(raw: string)
    requires raw == "$50.00"
    ensures ParsePrice(raw) == Some(50.0)
  {
    assert raw == "$" + "50" + "." + "00";
    WidgetDigits("50", "00");
    DollarPrice("50", "00");
  }

  /** "10%" takes a tenth off 50. */
  lemma WidgetDiscount(number: string)
    requires number == "10"
    ensures CalculateDiscountedPrice(50.0, number + "%") == 45.0
  {
    assert AllDigits(number);
    ReadInteger(number);
    assert DigitsValue(number) == 10;
    PercentSuffix(number, 10.0);
    Round2Exact(45.0);
  }

  /** "Widget, Tools, $50.00, 10%, catalog.csv" files one Tools record under "Widget",
      priced 50 and 45 after the discount. */
  lemma ExampleWidget()
    ensures ParseFragment("Widget, Tools, $50.00, 10%, catalog.csv") ==
      Some(Entry("Widget", ProductRecord("Tools", 50.0, "10%", 45.0, "catalog.csv")))
  {
    WidgetCells("Widget", "Tools", "$50.00", "10%", "catalog.csv");
    WidgetPrice("$50.00");
    WidgetDiscount("10");
    assert "10" + "%" == "10%";
    SpacedRow("Widget", "Tools", "$50.00", "10%", "catalog.csv", 50.0);
    WidgetLine();
  }

  /** Six cells, the fourth without a leading space, joined with ','. */
  lemma JoinSix(c0: string, c1: string, c2: string, c3: string, c4: string, c5: string)
    ensures Join([c0, " " + c1, " " + c2, c3, " " + c4, " " + c5], ",") ==
      c0 + ", " + c1 + ", " + c2 + "," + c3 + ", " + c4 + ", " + c5
  {
    JoinFive(" " + c1, " " + c2, c3, " " + c4, " " + c5);
    JoinCons(c0, [" " + c1, " " + c2, c3, " " + c4, " " + c5], ",");
    assert [c0, " " + c1, " " + c2, c3, " " + c4, " " + c5] == [c0] + [" " + c1, " " + c2, c3, " " + c4, " " + c5];
  }

  /** A price written with a thousands separator is cut at its ',' like any other
      cell: the digits before the ',' are the price, the digits after it become the
      discount, and the discount takes the place of the source. */
  lemma SeparatorRow(name: string, category: string, dollars: string, rest: string, discount: string, source: string, price: real)
    requires Cell(name) && Cell(category) && Cell(dollars) && Cell(rest) && Cell(discount) && Cell(source)
    requires ParsePrice(dollars) == Some(price)
    ensures ParseFragment(name + ", " + category + ", " + dollars + "," + rest + ", " + discount + ", " + source) ==
      Some(Entry(name, ProductRecord(category, price, rest, CalculateDiscountedPrice(price, rest), discount)))
  {
    var cells := [name, " " + category, " " + dollars, rest, " " + discount, " " + source];
    JoinSix(name, category, dollars, rest, discount, source);
    StripTrimmed(name, Whitespace);
    TrimOneSpace(category);
    TrimOneSpace(dollars);
    StripTrimmed(rest, Whitespace);
    TrimOneSpace(discount);
    TrimOneSpace(source);
    SpacedCell(category);
    SpacedCell(dollars);
    SpacedCell(discount);
    SpacedCell(source);
    FragmentOfRow(cells, price);
  }

  lemma LampCells(a: string, b: string, c: string, d: string, e: string, f: string)
    requires a == "Lamp" && b == "Home" && c == "$1" && d == "200.50" && e == "10%" && f == "shop.csv"
    ensures Cell(a) && Cell(b) && Cell(c) && Cell(d) && Cell(e) && Cell(f)
  {
  }

  lemma LampLine()
    ensures "Lamp, Home, $1,200.50, 10%, shop.csv" == "Lamp" + ", " + "Home" + ", " + "$1" + "," + "200.50" + ", " + "10%" + ", " + "shop.csv"
  {
  }

  /** "$1" reads as 1. */
  lemma LampPrice(raw: string)
    requires raw == "$1"
    ensures ParsePrice(raw) == Some(1.0)
  {
    assert raw == "$" + "1";
    assert AllDigits("1") && DigitsValue("1") == 1;
    CleanAfterSymbol("1");
    ReadInteger("1");
  }

  lemma TwoHundred(w: string)
    requires w == "200"
    ensures AllDigits(w) && DigitsValue(w) == 200
  {
    var a, b := w[..1], w[..2];
    assert a == "2" && b == "20" && b[..1] == a && a[..0] == [];
    assert DigitsValue(a) == 2;
    assert DigitsValue(b) == 20;
  }

  lemma Fifty(f: string)
    requires f == "50"
    ensures AllDigits(f) && FractionValue(f) == 0.5
  {
    var z := f[1..];
    assert z == "0" && z[1..] == [];
    assert FractionValue(z) == 0.0;
  }

  /** "200.50" is the number 200.5. */
  lemma ReadTwoHundred(d: string)
    requires d == "200.50"
    ensures Lacks(d, '%') && ParseFloat(d) == Some(200.5)
  {
    TwoHundred("200");
    Fifty("50");
    ReadDecimal(d, "200", "50");
  }

  /** 1 - 2.005 = -1.005 lies halfway between -1.01 and -1.00 and rounds to the even -1. */
  lemma RoundTieToEven()
    ensures Round2(1.0 - 1.0 * 2.005) == -1.0
  {
    assert 1.0 - 1.0 * 2.005 == -1.005;
    assert RoundHalfEven(-100.5) == -100;
  }

  /** "200.50" is above 1, so it is a percentage: 2.005 of the price comes off. */
  lemma LampDiscount(d: string)
    requires d == "200.50"
    ensures CalculateDiscountedPrice(1.0, d) == -1.0
  {
    ReadTwoHundred(d);
    assert DiscountFraction(d) == Some(2.005);
    RoundTieToEven();
  }

  /** "Lamp, Home, $1,200.50, 10%, shop.csv": the price is read as 1, "200.50" as the
      discount and "10%" as the source. */
  lemma ExampleSeparator()
    ensures ParseFragment("Lamp, Home, $1,200.50, 10%, shop.csv") ==
      Some(Entry("Lamp", ProductRecord("Home", 1.0, "200.50", -1.0, "10%")))
  {
    LampCells("Lamp", "Home", "$1", "200.50", "10%", "shop.csv");
    LampPrice("$1");
    LampDiscount("200.50");
    SeparatorRow("Lamp", "Home", "$1", "200.50", "10%", "shop.csv", 1.0);
    LampLine();
  }

  /** On its own, the price cleaner drops the currency sign and a thousands separator:
      "$1,200.50" cleans to "1200.50". */
  lemma ThousandsCleaned(raw: string, high: string, low: string)
    requires raw == "$" + high + "," + low && DecimalChars(high) && DecimalChars(low)
    ensures CleanPrice(raw) == high + low
  {
    var a, b := "$" + high, "," + low;
    assert CleanPrice(a) == high by {
      CleanAfterSymbol(high);
    }
    assert CleanPrice(b) == low by {
      CleanPriceConcat(",", low);
      assert CleanPrice(",") == "";
      CleanPriceFixed(low);
    }
    assert raw == a + b;
    CleanPriceConcat(a, b);
  }
}

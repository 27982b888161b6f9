/**
 * Python's `float(s)` restricted to plain ASCII decimals, and `round(x, 2)`,
 * both over exact reals instead of IEEE doubles.
 */
module Numbers {
  import opened Wrappers
  import opened Strings

  predicate IsDigit(c: char)
  {
    '0' <= c <= '9'
  }

  predicate AllDigits(s: string)
  {
    forall i :: 0 <= i < |s| ==> IsDigit(s[i])
  }

  function Pow10(n: nat): (p: nat)
    ensures p >= 1
  {
    if n == 0 then 1 else 10 * Pow10(n - 1)
  }

  /** The value of a run of decimal digits, most significant first; it has at most `|s|` digits. */
  function DigitsValue(s: string): (v: nat)
    requires AllDigits(s)
    ensures v < Pow10(|s|)
  {
    if |s| == 0 then 0 else 10 * DigitsValue(s[..|s| - 1]) + (s[|s| - 1] as int - '0' as int)
  }

  /** The value of the digits after a decimal point: `FractionValue("25") == 0.25`. */
  function FractionValue(s: string): (v: real)
    requires AllDigits(s)
    ensures 0.0 <= v < 1.0
  {
    if |s| == 0 then 0.0 else ((s[0] as int - '0' as int) as real + FractionValue(s[1..])) / 10.0
  }

  /** Every character is an ASCII digit or a '.'. */
  predicate DecimalChars(s: string)
  {
    forall i :: 0 <= i < |s| ==> IsDigit(s[i]) || s[i] == '.'
  }

  /** The unsigned numbers `float()` reads here: digits and at most one '.', with at
      least one digit (so "", "." and "1.2.3" are not numbers, while "5." and ".5" are).
      Since every character is a digit or a dot, "some digit" is "more characters than dots". */
  predicate IsUnsignedDecimal(s: string)
  {
    DecimalChars(s) && Count(s, '.') <= 1 && Count(s, '.') < |s|
  }

  /** Reads the digits before the first '.' and the digits after it. */
  function ParseUnsigned(s: string): (r: Option<real>)
    ensures r.Some? ==> r.value >= 0.0
  {
    var k := IndexOf(s, '.');
    var whole := s[..k];
    var frac := if k < |s| then s[k + 1..] else "";
    if AllDigits(whole) && AllDigits(frac) && |whole| + |frac| > 0 then
      Some(DigitsValue(whole) as real + FractionValue(frac))
    else
      None
  }

  lemma DigitsHaveNoDot(s: string)
    requires AllDigits(s)
    ensures Count(s, '.') == 0
  {
    CountZero(s, '.');
  }

  lemma ParseUnsignedSound(s: string)
    requires ParseUnsigned(s).Some?
    ensures IsUnsignedDecimal(s)
  {
    var k := IndexOf(s, '.');
    if k == |s| {
      assert s[..k] == s;
      DigitsHaveNoDot(s);
    } else {
      var whole, frac := s[..k], s[k + 1..];
      SplitAt(s, k);
      DigitsHaveNoDot(whole);
      DigitsHaveNoDot(frac);
      CountConcat(whole + [s[k]], frac, '.');
      CountConcat(whole, [s[k]], '.');
      assert forall i :: k < i < |s| ==> s[i] == frac[i - k - 1];
    }
  }

  lemma ParseUnsignedComplete(s: string)
    requires IsUnsignedDecimal(s)
    ensures ParseUnsigned(s).Some?
  {
    var k := IndexOf(s, '.');
    if k == |s| {
      assert s[..k] == s;
    } else {
      var whole, frac := s[..k], s[k + 1..];
      SplitAt(s, k);
      CountConcat(whole + [s[k]], frac, '.');
      CountConcat(whole, [s[k]], '.');
      CountZero(whole, '.');
      CountZero(frac, '.');
      assert forall i :: 0 <= i < |frac| ==> frac[i] == s[k + 1 + i];
    }
  }

  /** `ParseUnsigned` accepts exactly the unsigned decimals. */
  lemma ParseUnsignedDefined(s: string)
    ensures ParseUnsigned(s).Some? <==> IsUnsignedDecimal(s)
  {
    if ParseUnsigned(s).Some? {
      ParseUnsignedSound(s);
    }
    if IsUnsignedDecimal(s) {
      ParseUnsignedComplete(s);
    }
  }

  /** A run of digits reads as its integer value. */
  lemma ParseDigits(s: string)
    requires |s| > 0 && AllDigits(s)
    ensures ParseUnsigned(s) == Some(DigitsValue(s) as real)
  {
    var k := IndexOf(s, '.');
    assert k == |s| by {
      DigitsHaveNoDot(s);
      CountZero(s, '.');
    }
    assert s[..k] == s;
  }

  /** The characters `float()` skips around a number: CPython turns every Unicode space
      above U+007F into ' ' and then skips ASCII tab, newline, vertical tab, form feed,
      carriage return and space. These are the characters of `Whitespace` except the
      separators U+001C to U+001F, which CPython leaves in place, so `float()` rejects them. */
  const FloatWhitespace: set<char> := {
    '\t', '\n', '\U{0B}', '\U{0C}', '\r', ' ',
    '\U{85}', '\U{A0}', '\U{1680}',
    '\U{2000}', '\U{2001}', '\U{2002}', '\U{2003}', '\U{2004}', '\U{2005}',
    '\U{2006}', '\U{2007}', '\U{2008}', '\U{2009}', '\U{200A}',
    '\U{2028}', '\U{2029}', '\U{202F}', '\U{205F}', '\U{3000}'
  }

  /** `FloatWhitespace` is `Whitespace` without the separators U+001C to U+001F. */
  lemma FloatWhitespaceOfWhitespace()
    ensures FloatWhitespace == Whitespace - {'\U{1C}', '\U{1D}', '\U{1E}', '\U{1F}'}
  {
  }

  /** An unsigned decimal with at most one leading '+' or '-'. */
  predicate IsSignedDecimal(t: string)
  {
    IsUnsignedDecimal(t) || (|t| > 0 && (t[0] == '+' || t[0] == '-') && IsUnsignedDecimal(t[1..]))
  }

  /** A number with at most one leading sign: '+' keeps it, '-' negates it. */
  function ParseSigned(t: string): (r: Option<real>)
  {
    if |t| > 0 && (t[0] == '+' || t[0] == '-') then
      match ParseUnsigned(t[1..])
      case Some(v) => Some(if t[0] == '-' then -v else v)
      case None => None
    else
      ParseUnsigned(t)
  }

  /** `ParseSigned` accepts exactly the signed decimals. */
  lemma ParseSignedDefined(t: string)
    ensures ParseSigned(t).Some? <==> IsSignedDecimal(t)
  {
    if |t| > 0 && (t[0] == '+' || t[0] == '-') {
      ParseUnsignedDefined(t[1..]);
      assert !DecimalChars(t) by {
        assert !(IsDigit(t[0]) || t[0] == '.');
      }
    } else {
      ParseUnsignedDefined(t);
    }
  }

  /** Python's `float(s)` for plain decimals: whitespace around the number is
      ignored, and one leading '+' or '-' is allowed. */
  function ParseFloat(s: string): (r: Option<real>)
  {
    ParseSigned(Strip(s, FloatWhitespace))
  }

  /** `float()` reads `s` exactly when what is left once the whitespace it skips is
      gone is a signed decimal. */
  lemma ParseFloatDefined(s: string)
    ensures ParseFloat(s).Some? <==> IsSignedDecimal(Strip(s, FloatWhitespace))
  {
    ParseSignedDefined(Strip(s, FloatWhitespace));
  }

  /** `float()` of a string with no whitespace at either end reads it as it is. */
  lemma ParseFloatTrimmed(s: string)
    requires s == [] || (s[0] !in FloatWhitespace && s[|s| - 1] !in FloatWhitespace)
    ensures ParseFloat(s) == ParseSigned(s)
  {
    StripTrimmed(s, FloatWhitespace);
  }

  lemma DecimalCharsTrimmed(s: string)
    requires DecimalChars(s)
    ensures ParseFloat(s) == ParseSigned(s)
  {
    if |s| > 0 {
      assert IsDigit(s[0]) || s[0] == '.';
      assert IsDigit(s[|s| - 1]) || s[|s| - 1] == '.';
    }
    ParseFloatTrimmed(s);
  }

  /** A string of digits and dots has no sign. */
  lemma DecimalCharsUnsigned(s: string)
    requires DecimalChars(s)
    ensures ParseSigned(s) == ParseUnsigned(s)
  {
    assert |s| > 0 ==> IsDigit(s[0]) || s[0] == '.';
  }

  /** A string of digits and dots is read by `float()` exactly as an unsigned decimal. */
  lemma ParseFloatOfDecimalChars(s: string)
    requires DecimalChars(s)
    ensures ParseFloat(s) == ParseUnsigned(s)
    ensures ParseFloat(s).Some? <==> IsUnsignedDecimal(s)
    ensures ParseFloat(s).Some? ==> ParseFloat(s).value >= 0.0
  {
    DecimalCharsTrimmed(s);
    DecimalCharsUnsigned(s);
    ParseUnsignedDefined(s);
  }

  /** `float()` reads a run of digits as its integer value. */
  lemma ReadInteger(digits: string)
    requires |digits| > 0 && AllDigits(digits)
    ensures ParseFloat(digits) == Some(DigitsValue(digits) as real)
  {
    ParseDigits(digits);
    ParseFloatOfDecimalChars(digits);
  }

  /** Digits, a dot and digits are the characters of a decimal. */
  lemma DecimalCharsOfParts(whole: string, frac: string)
    requires AllDigits(whole) && AllDigits(frac)
    ensures DecimalChars(whole + "." + frac)
  {
    var s := whole + "." + frac;
    forall i | 0 <= i < |s| ensures IsDigit(s[i]) || s[i] == '.' {
      if i < |whole| {
        assert s[i] == whole[i];
      } else if i > |whole| {
        assert s[i] == frac[i - |whole| - 1];
      }
    }
  }

  /** With its first dot between `whole` and `frac`, a string reads as their sum. */
  lemma ParseUnsignedAt(s: string, whole: string, frac: string)
    requires |whole| < |s| && IndexOf(s, '.') == |whole|
    requires s[..|whole|] == whole && s[|whole| + 1..] == frac
    requires AllDigits(whole) && AllDigits(frac) && |whole| + |frac| > 0
    ensures ParseUnsigned(s) == Some(DigitsValue(whole) as real + FractionValue(frac))
  {
  }

  /** In digits, a dot and digits, the first dot is the one after the whole part. */
  lemma DotAfterWhole(s: string, whole: string, frac: string)
    requires s == whole + "." + frac && AllDigits(whole)
    ensures IndexOf(s, '.') == |whole| && s[..|whole|] == whole && s[|whole| + 1..] == frac
  {
    CountZero(whole, '.');
    IndexAfterFree(whole, "." + frac, '.');
    assert s == whole + ("." + frac);
  }

  /** Digits, a dot and digits are a decimal whose value is the whole part plus the fraction. */
  lemma ReadUnsignedDecimal(s: string, whole: string, frac: string)
    requires s == whole + "." + frac
    requires AllDigits(whole) && AllDigits(frac) && |whole| + |frac| > 0
    ensures DecimalChars(s)
    ensures ParseUnsigned(s) == Some(DigitsValue(whole) as real + FractionValue(frac))
  {
    DotAfterWhole(s, whole, frac);
    ParseUnsignedAt(s, whole, frac);
    DecimalCharsOfParts(whole, frac);
  }

  /** `float()` reads digits, a dot and digits as the whole part plus the fraction. */
  lemma ReadDecimal(s: string, whole: string, frac: string)
    requires s == whole + "." + frac
    requires AllDigits(whole) && AllDigits(frac) && |whole| + |frac| > 0
    ensures ParseFloat(s) == Some(DigitsValue(whole) as real + FractionValue(frac))
  {
    ReadUnsignedDecimal(s, whole, frac);
    ParseFloatOfDecimalChars(s);
  }

  /** "0." and one digit reads as that digit's tenths. */
  lemma ReadTenths(s: string, d: char)
    requires IsDigit(d) && s == ['0', '.', d]
    ensures ParseFloat(s) == Some((d as int - '0' as int) as real / 10.0)
  {
    var zero, frac := ['0'], [d];
    assert AllDigits(zero) && DigitsValue(zero) == 0 by {
      assert zero[..0] == [];
    }
    assert AllDigits(frac) && FractionValue(frac) == (d as int - '0' as int) as real / 10.0 by {
      assert frac[1..] == [];
    }
    assert s == zero + "." + frac;
    ReadDecimal(s, zero, frac);
  }

  /** Whitespace `float()` skips, around a number, does not change what it reads. */
  lemma ParseFloatIgnoresWhitespace(w1: string, s: string, w2: string)
    requires AllIn(w1, FloatWhitespace) && AllIn(w2, FloatWhitespace)
    ensures ParseFloat(w1 + s + w2) == ParseFloat(s)
  {
    StripIgnoresAround(w1, s, w2, FloatWhitespace);
  }

  /** The integer nearest to `y`, a tie going to the even one (Python's banker's rounding). */
  function RoundHalfEven(y: real): int
  {
    var n := y.Floor;
    var d := y - n as real;
    if d < 0.5 then n else if d > 0.5 then n + 1 else if n % 2 == 0 then n else n + 1
  }

  /** Python's `round(x, 2)` on an exact value. */
  function Round2(x: real): real
  {
    RoundHalfEven(x * 100.0) as real / 100.0
  }

  /** `round(x, 2)` is a whole number of hundredths at most half a hundredth away from `x`. */
  lemma Round2Nearest(x: real)
    ensures (Round2(x) * 100.0).Floor as real == Round2(x) * 100.0
    ensures -0.005 <= Round2(x) - x <= 0.005
  {
  }

  /** A value that already is a whole number of hundredths is not changed by rounding. */
  lemma Round2Exact(x: real)
    requires (x * 100.0).Floor as real == x * 100.0
    ensures Round2(x) == x
  {
  }

  /** Rounding never reverses the order of two values. */
  lemma Round2Monotone(x: real, y: real)
    requires x <= y
    ensures Round2(x) <= Round2(y)
  {
    var nx, ny := (x * 100.0).Floor, (y * 100.0).Floor;
    assert nx <= ny;
    var mx, my := RoundHalfEven(x * 100.0), RoundHalfEven(y * 100.0);
    assert nx <= mx <= nx + 1 && ny <= my <= ny + 1;
    if nx == ny {
      assert mx <= my;
    } else {
      assert mx <= ny;
    }
  }

  /** Rounding a value from 0 to `p` gives a value from 0 to the rounded `p`. */
  lemma Round2Between(x: real, p: real)
    requires 0.0 <= x <= p
    ensures 0.0 <= Round2(x) <= Round2(p)
  {
    Round2Monotone(0.0, x);
    Round2Monotone(x, p);
    Round2Exact(0.0);
  }
}

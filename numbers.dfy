/** Kotlin's conversions between text and numbers, as the parser and the
    request builders use them: `String.toIntOrNull()` (and `toInt()`, which
    throws where it gives null), `Int.toString()`, and the seconds-to-milliseconds
    conversion applied to the `Time:` line. */
module Numbers {
  import opened Wrappers
  import opened Text

  /** The range of Kotlin's 32-bit `Int`. */
  const IntMin: int := -0x8000_0000
  const IntMax: int := 0x7FFF_FFFF

  /** The range of Kotlin's 64-bit `Long`. */
  const LongMin: int := -0x8000_0000_0000_0000
  const LongMax: int := 0x7FFF_FFFF_FFFF_FFFF

  predicate IsDigit(c: char) {
    '0' <= c <= '9'
  }

  predicate AllDigits(s: string) {
    forall i :: 0 <= i < |s| ==> IsDigit(s[i])
  }

  function DigitChar(d: nat): (c: char)
    requires d < 10
    ensures IsDigit(c)
  {
    ('0' as int + d) as char
  }

  /** The value of a run of decimal digits, most significant first. */
  function DigitsValue(s: string): nat
    requires AllDigits(s)
  {
    if |s| == 0 then 0
    else DigitsValue(s[..|s| - 1]) * 10 + (s[|s| - 1] as int - '0' as int)
  }

  /** Kotlin's `String.toIntOrNull()`: an optional `-` or `+` sign followed by
      at least one decimal digit, whose value fits in an `Int`; anything else
      (empty text, a lone sign, a stray character, an overflow) gives null. */
  function ToIntOrNull(s: string): (r: Option<int>)
    ensures r.Some? ==> IntMin <= r.value <= IntMax
    ensures r.Some? ==> 0 < |s| && (r.value < 0 ==> s[0] == '-')
  {
    if |s| == 0 then None
    else
      var digits := if s[0] == '-' || s[0] == '+' then s[1..] else s;
      if |digits| == 0 || !AllDigits(digits) then None
      else
        var v := if s[0] == '-' then -(DigitsValue(digits) as int) else DigitsValue(digits);
        if IntMin <= v <= IntMax then Some(v) else None
  }

  /** The decimal digits of `n`, without leading zeros; their value is `n`. */
  function NatToString(n: nat): (s: string)
    ensures 0 < |s| && AllDigits(s)
    ensures DigitsValue(s) == n
    ensures |s| > 1 ==> s[0] != '0'
  {
    if n < 10 then [DigitChar(n)]
    else
      var s := NatToString(n / 10) + [DigitChar(n % 10)];
      assert s[..|s| - 1] == NatToString(n / 10);
      s
  }

  /** Kotlin's `Int.toString()`: a minus sign for negative values, then the
      digits of the magnitude. */
  function IntToString(n: int): (s: string)
    ensures 0 < |s|
    ensures s[0] == '-' <==> n < 0
  {
    if n < 0 then "-" + NatToString(-n) else NatToString(n)
  }

  /** `toIntOrNull` reads back what `toString` writes, for every `Int`. */
  lemma {:induction false} IntToStringRoundTrip(n: int)
    requires IntMin <= n <= IntMax
    ensures ToIntOrNull(IntToString(n)) == Some(n)
  {
    var s := IntToString(n);
    if n < 0 {
      assert s[1..] == NatToString(-n);
    } else {
      assert IsDigit(s[0]);
    }
  }

  /** `toString` writes a minus sign or a digit first and a digit last. */
  lemma {:induction false} IntToStringEnds(n: int)
    ensures var s := IntToString(n);
      && (s[0] == '-' || IsDigit(s[0])) && IsDigit(s[|s| - 1])
  {
    if n < 0 {
      var s := "-" + NatToString(-n);
      assert s[|s| - 1] == NatToString(-n)[|NatToString(-n)| - 1];
    }
  }

  predicate AllZeros(z: string) {
    forall i :: 0 <= i < |z| ==> z[i] == '0'
  }

  /** `toIntOrNull` reads an optional sign, any number of leading zeros and
      the digits of `n` as `n`, negated after a `-`, and gives null exactly
      when that value is outside the `Int` range. */
  lemma {:induction false} ToIntOrNullOfDigits(z: string, n: nat)
    requires AllZeros(z)
    ensures ToIntOrNull(z + NatToString(n)) == (if n <= IntMax then Some(n) else None)
    ensures ToIntOrNull("+" + z + NatToString(n)) == (if n <= IntMax then Some(n) else None)
    ensures ToIntOrNull("-" + z + NatToString(n)) == (if n <= -IntMin then Some(-(n as int)) else None)
  {
    var digits := z + NatToString(n);
    LeadingZerosValue(z, NatToString(n));
    assert IsDigit(digits[0]) by {
      if |z| > 0 {
        assert digits[0] == z[0];
      } else {
        assert digits == NatToString(n);
      }
    }
    SignedDigits('+', z, NatToString(n));
    SignedDigits('-', z, NatToString(n));
  }

  lemma {:induction false} SignedDigits(sign: char, z: string, s: string)
    ensures [sign] + z + s == [sign] + (z + s)
    ensures ([sign] + z + s)[0] == sign && ([sign] + z + s)[1..] == z + s
  {
    assert [sign] + z + s == [sign] + (z + s);
  }

  /** Zeros in front of a run of digits do not change its value. */
  lemma {:induction false} LeadingZerosValue(z: string, s: string)
    requires AllZeros(z) && AllDigits(s)
    ensures AllDigits(z + s) && DigitsValue(z + s) == DigitsValue(s)
    decreases |s|
  {
    var u := z + s;
    if |s| == 0 {
      assert u == z;
      ZerosValue(z);
    } else {
      assert u[..|u| - 1] == z + s[..|s| - 1];
      LeadingZerosValue(z, s[..|s| - 1]);
    }
  }

  lemma {:induction false} ZerosValue(z: string)
    requires AllZeros(z)
    ensures AllDigits(z) && DigitsValue(z) == 0
    decreases |z|
  {
    if |z| > 0 {
      ZerosValue(z[..|z| - 1]);
    }
  }

  /** The value of the `Time:` text as Kotlin computes it with
      `toDoubleOrNull()?.times(1000)?.toLong()`, for plain decimal notation.
      The characters up to U+0020 at either end are dropped, as is one type
      suffix `f`, `F`, `d` or `D` at the end; what remains is an optional
      sign, digits, and an optional fraction after a `.`, with at least one
      digit in all. The exact value times 1000 is truncated toward zero and
      saturated to the `Long` range, as `Double.toLong()` does. */
  function SecondsToMillis(text: string): (r: Option<int>)
    ensures r.Some? ==> LongMin <= r.value <= LongMax
  {
    SignedDecimalMillis(StripFloatSuffix(JavaTrim(text)))
  }

  /** Java's `String.trim()`, which `toDoubleOrNull` applies: every character
      up to U+0020 is dropped from both ends, and what remains comes from the
      text. */
  function JavaTrim(s: string): (r: string)
    ensures r == [] || (r[0] > ' ' && r[|r| - 1] > ' ')
    ensures forall k :: 0 <= k < |r| ==> r[k] in s
  {
    var t := JavaTrimStart(s);
    var r := JavaTrimEnd(t);
    assert forall k :: 0 <= k < |r| ==> r[k] == t[k];
    r
  }

  function JavaTrimStart(s: string): (r: string)
    ensures r == [] || r[0] > ' '
    ensures forall k :: 0 <= k < |r| ==> r[k] in s
    decreases |s|
  {
    if |s| > 0 && s[0] <= ' ' then JavaTrimStart(s[1..]) else s
  }

  function JavaTrimEnd(s: string): (r: string)
    ensures |r| <= |s| && r == s[..|r|]
    ensures r == [] || r[|r| - 1] > ' '
    decreases |s|
  {
    if |s| > 0 && s[|s| - 1] <= ' ' then
      var r := JavaTrimEnd(s[..|s| - 1]);
      assert s[..|s| - 1][..|r|] == s[..|r|];
      r
    else s
  }

  /** The type suffixes a Java floating-point literal may end with. */
  predicate IsFloatSuffix(c: char) {
    c == 'f' || c == 'F' || c == 'd' || c == 'D'
  }

  /** The text without its type suffix, if it ends with one. */
  function StripFloatSuffix(s: string): (r: string)
    ensures forall k :: 0 <= k < |r| ==> r[k] in s
    ensures |s| > 0 && IsFloatSuffix(s[|s| - 1]) ==> r + [s[|s| - 1]] == s
    ensures !(|s| > 0 && IsFloatSuffix(s[|s| - 1])) ==> r == s
  {
    if |s| > 0 && IsFloatSuffix(s[|s| - 1]) then s[..|s| - 1] else s
  }

  /** An optional sign followed by the unsigned milliseconds. */
  function SignedDecimalMillis(text: string): (r: Option<int>)
    ensures r.Some? ==> LongMin <= r.value <= LongMax
  {
    if |text| == 0 then None
    else
      var unsigned := if text[0] == '-' || text[0] == '+' then text[1..] else text;
      match UnsignedMillis(unsigned)
      case None => None
      case Some(millis) => Some(ClampLong(if text[0] == '-' then -millis else millis))
  }

  /** The milliseconds of the text after the sign: digits and an optional
      fraction after a `.`, with at least one digit in all. */
  function UnsignedMillis(unsigned: string): Option<int> {
    var parts := Split(unsigned, ".");
    var whole := parts[0];
    var fraction := if |parts| == 2 then parts[1] else "";
    if |parts| > 2 || !AllDigits(whole) || !AllDigits(fraction) || |whole| + |fraction| == 0 then None
    else Some(Millis(whole, fraction))
  }

  /** The whole seconds and the fraction's first three digits, in
      milliseconds: a fraction's digits past the third are truncated, so
      `12.3456` gives 12 * 1000 + 345. */
  function Millis(whole: string, fraction: string): int
    requires AllDigits(whole) && AllDigits(fraction)
  {
    DigitsValue(whole) * 1000 + DigitsValue(FirstThreeDigits(fraction))
  }

  /** `Double.toLong()` on a value already truncated: values past either end
      of the `Long` range saturate to that end, and the rest are kept. */
  function ClampLong(v: int): (r: int)
    ensures LongMin <= r <= LongMax
    ensures LongMin <= v <= LongMax ==> r == v
    ensures v < LongMin ==> r == LongMin
    ensures v > LongMax ==> r == LongMax
  {
    if v < LongMin then LongMin else if v > LongMax then LongMax else v
  }

  /** The milliseconds of a `Time:` text with a fraction: `Millis`, the
      whole seconds times 1000 plus the fraction's first three digits,
      saturated to the `Long` range. */
  lemma SecondsToMillisOfDecimal(whole: string, fraction: string)
    requires AllDigits(whole) && AllDigits(fraction) && |whole| + |fraction| > 0
    ensures UnsignedMillis(whole + "." + fraction) == Some(Millis(whole, fraction))
    ensures SecondsToMillis(whole + "." + fraction) == Some(ClampLong(Millis(whole, fraction)))
  {
    DecimalUnsigned(whole, fraction);
    SignedMillis(whole + "." + fraction, Millis(whole, fraction));
  }

  lemma DecimalUnsigned(whole: string, fraction: string)
    requires AllDigits(whole) && AllDigits(fraction) && |whole| + |fraction| > 0
    ensures (whole + "." + fraction)[0] != '-' && (whole + "." + fraction)[0] != '+'
    ensures UnsignedMillis(whole + "." + fraction) == Some(Millis(whole, fraction))
  {
    var t := whole + "." + fraction;
    DecimalSplits(whole, fraction);
    UnsignedMillisOfParts(t, whole, fraction);
    if |whole| > 0 {
      assert t[0] == whole[0];
    }
  }

  /** The milliseconds of a `Time:` text of whole seconds: the seconds times
      1000, saturated to the `Long` range. */
  lemma SecondsToMillisOfWhole(whole: string)
    requires AllDigits(whole) && |whole| > 0
    ensures UnsignedMillis(whole) == Some(DigitsValue(whole) * 1000)
    ensures SecondsToMillis(whole) == Some(ClampLong(DigitsValue(whole) * 1000))
  {
    NoDotInDigits(whole);
    NoCharNoOccurrence(whole, '.');
    SplitWithout(whole, ".");
    UnsignedMillisOfParts(whole, whole, "");
    NoFraction();
    assert AllDigits("");
    assert Millis(whole, "") == DigitsValue(whole) * 1000 + DigitsValue(FirstThreeDigits(""));
    assert Millis(whole, "") == DigitsValue(whole) * 1000;
    assert IsDigit(whole[0]);
    SignedMillis(whole, Millis(whole, ""));
  }

  /** A `+` in front changes nothing, and a `-` in front negates the
      milliseconds before they are saturated. */
  lemma SignedMillis(t: string, millis: int)
    requires |t| > 0 && t[0] != '-' && t[0] != '+'
    requires UnsignedMillis(t) == Some(millis)
    ensures SecondsToMillis(t) == Some(ClampLong(millis))
    ensures SecondsToMillis("+" + t) == Some(ClampLong(millis))
    ensures SecondsToMillis("-" + t) == Some(ClampLong(-millis))
  {
    UnsignedMillisEnds(t);
    UnsignedText(t, millis);
    SignedText('+', t, millis);
    SignedText('-', t, millis);
  }

  lemma UnsignedText(t: string, millis: int)
    requires |t| > 0 && t[0] != '-' && t[0] != '+'
    requires IsDigit(t[|t| - 1]) || t[|t| - 1] == '.'
    requires UnsignedMillis(t) == Some(millis)
    ensures SecondsToMillis(t) == Some(ClampLong(millis))
  {
    CleanText(t);
  }

  lemma SignedText(sign: char, t: string, millis: int)
    requires sign == '+' || sign == '-'
    requires |t| > 0 && (IsDigit(t[|t| - 1]) || t[|t| - 1] == '.')
    requires UnsignedMillis(t) == Some(millis)
    ensures SecondsToMillis([sign] + t) == Some(ClampLong(if sign == '-' then -millis else millis))
  {
    SignedClean(sign, t);
    SignedDecimal(sign, t, millis);
  }

  lemma SignedClean(sign: char, t: string)
    requires sign == '+' || sign == '-'
    requires |t| > 0 && (IsDigit(t[|t| - 1]) || t[|t| - 1] == '.')
    ensures SecondsToMillis([sign] + t) == SignedDecimalMillis([sign] + t)
  {
    var u := [sign] + t;
    assert u[0] == sign && u[|u| - 1] == t[|t| - 1];
    CleanText(u);
  }

  lemma SignedDecimal(sign: char, t: string, millis: int)
    requires sign == '+' || sign == '-'
    requires |t| > 0 && UnsignedMillis(t) == Some(millis)
    ensures SignedDecimalMillis([sign] + t) == Some(ClampLong(if sign == '-' then -millis else millis))
  {
    var u := [sign] + t;
    assert u[1..] == t;
    assert UnsignedMillis(u[1..]) == Some(millis);
  }

  /** Text whose ends are neither trimmed nor a type suffix is read as it
      stands. */
  lemma CleanText(t: string)
    requires |t| > 0 && t[0] > ' ' && t[|t| - 1] > ' ' && !IsFloatSuffix(t[|t| - 1])
    ensures SecondsToMillis(t) == SignedDecimalMillis(t)
  {
  }

  /** Characters up to U+0020 around the number, and a type suffix right
      after it, do not change the time it gives. */
  lemma SecondsToMillisPadded(before: string, t: string, suffix: string, after: string)
    requires forall k :: 0 <= k < |before| ==> before[k] <= ' '
    requires forall k :: 0 <= k < |after| ==> after[k] <= ' '
    requires |suffix| <= 1 && forall k :: 0 <= k < |suffix| ==> IsFloatSuffix(suffix[k])
    requires |t| > 0 && t[0] > ' ' && t[|t| - 1] > ' ' && !IsFloatSuffix(t[|t| - 1])
    ensures SecondsToMillis(before + (t + suffix) + after) == SecondsToMillis(t)
  {
    var x := t + suffix;
    assert x[0] == t[0];
    assert x[|x| - 1] > ' ' by {
      if |suffix| == 1 {
        assert x[|x| - 1] == suffix[0];
      }
    }
    JavaTrimPadded(before, x, after);
    if |suffix| == 1 {
      assert x[..|x| - 1] == t;
    } else {
      assert x == t;
    }
    CleanText(t);
  }

  /** Java's `trim` gives back text with clean ends from between any
      characters up to U+0020. */
  lemma JavaTrimPadded(before: string, x: string, after: string)
    requires forall k :: 0 <= k < |before| ==> before[k] <= ' '
    requires forall k :: 0 <= k < |after| ==> after[k] <= ' '
    requires |x| > 0 && x[0] > ' ' && x[|x| - 1] > ' '
    ensures JavaTrim(before + x + after) == x
  {
    assert before + x + after == before + (x + after);
    JavaTrimStartPadded(before, x + after);
    JavaTrimEndPadded(x, after);
  }

  lemma {:induction false} JavaTrimStartPadded(before: string, y: string)
    requires forall k :: 0 <= k < |before| ==> before[k] <= ' '
    requires |y| > 0 && y[0] > ' '
    ensures JavaTrimStart(before + y) == y
    decreases |before|
  {
    if |before| > 0 {
      assert (before + y)[1..] == before[1..] + y;
      JavaTrimStartPadded(before[1..], y);
    } else {
      assert before + y == y;
    }
  }

  lemma {:induction false} JavaTrimEndPadded(y: string, after: string)
    requires forall k :: 0 <= k < |after| ==> after[k] <= ' '
    requires |y| > 0 && y[|y| - 1] > ' '
    ensures JavaTrimEnd(y + after) == y
    decreases |after|
  {
    if |after| > 0 {
      assert (y + after)[..|y + after| - 1] == y + after[..|after| - 1];
      JavaTrimEndPadded(y, after[..|after| - 1]);
    } else {
      assert y + after == y;
    }
  }

  /** Text that has unsigned milliseconds ends with a digit or the `.`. */
  lemma {:induction false} UnsignedMillisEnds(t: string)
    requires UnsignedMillis(t).Some? && |t| > 0
    ensures IsDigit(t[|t| - 1]) || t[|t| - 1] == '.'
  {
    var parts := Split(t, ".");
    SplitThenJoin(t, ".");
    if |parts| == 1 {
      assert parts[0] == t;
    } else {
      assert t == parts[0] + "." + parts[1];
      if |parts[1]| > 0 {
        assert t[|t| - 1] == parts[1][|parts[1]| - 1];
      }
    }
  }

  lemma UnsignedMillisOfParts(u: string, whole: string, fraction: string)
    requires AllDigits(whole) && AllDigits(fraction) && |whole| + |fraction| > 0
    requires Split(u, ".") == [whole, fraction] || (Split(u, ".") == [whole] && fraction == "")
    ensures UnsignedMillis(u) == Some(Millis(whole, fraction))
  {
  }

  lemma NoFraction()
    ensures DigitsValue(FirstThreeDigits("")) == 0
  {
    assert FirstThreeDigits("") == "000";
    assert "000"[..2] == "00" && "00"[..1] == "0" && "0"[..0] == "";
  }

  /** A text without a single digit is not a number of seconds. */
  lemma {:induction false} SecondsToMillisNeedsDigit(text: string)
    requires forall i :: 0 <= i < |text| ==> !IsDigit(text[i])
    ensures SecondsToMillis(text) == None
  {
    var u := StripFloatSuffix(JavaTrim(text));
    assert forall k :: 0 <= k < |u| ==> !IsDigit(u[k]);
    DecimalNeedsDigit(u);
  }

  lemma {:induction false} DecimalNeedsDigit(text: string)
    requires forall i :: 0 <= i < |text| ==> !IsDigit(text[i])
    ensures SignedDecimalMillis(text) == None
  {
    if |text| > 0 {
      var unsigned := if text[0] == '-' || text[0] == '+' then text[1..] else text;
      var parts := Split(unsigned, ".");
      SplitThenJoin(unsigned, ".");
      if |parts| == 1 {
        assert parts[0] == unsigned;
        if |parts[0]| > 0 {
          assert !IsDigit(unsigned[0]);
        }
      } else if |parts| == 2 {
        assert unsigned == parts[0] + "." + parts[1];
        if |parts[0]| > 0 {
          assert unsigned[0] == parts[0][0];
          assert !IsDigit(unsigned[0]);
        } else if |parts[1]| > 0 {
          assert unsigned[1] == parts[1][0];
          assert !IsDigit(unsigned[1]);
        }
      }
    }
  }

  lemma NoDotInDigits(s: string)
    requires AllDigits(s)
    ensures '.' !in s
  {
  }

  /** A run of digits, a dot and a run of digits split on the dot into the
      two runs. */
  lemma DecimalSplits(whole: string, fraction: string)
    requires AllDigits(whole) && AllDigits(fraction)
    ensures Split(whole + "." + fraction, ".") == [whole, fraction]
  {
    NoDotInDigits(whole);
    NoDotInDigits(fraction);
    JoinThenSplit([whole, fraction], '.');
    assert Join([whole, fraction], ".") == whole + "." + fraction;
  }

  /** The first three digits of a fraction, padded with zeros: its value in thousandths. */
  function FirstThreeDigits(fraction: string): (r: string)
    requires AllDigits(fraction)
    ensures |r| == 3 && AllDigits(r)
  {
    if |fraction| >= 3 then fraction[..3] else fraction + seq(3 - |fraction|, _ => '0')
  }
}

/**
  The two .NET library conversions the coverage loader relies on, written out:
  `Int32.TryParse(string, out int)` (number style Integer, invariant signs) and
  `Boolean.TryParse(string, out bool)`, each with the formatting function that
  produces the text it accepts (`Int32.ToString()`, `Boolean.ToString()`).
 */
module TextConversions {
  import opened Wrappers

  const Int32Min: int := -0x8000_0000
  const Int32Max: int := 0x7FFF_FFFF

  /** The white space that number style Integer allows before and after the digits. */
  predicate IsNumberWhite(c: char)
  {
    c == ' ' || '\t' <= c <= '\r'
  }

  /** The characters `Boolean.TryParse` trims: `Char.IsWhiteSpace` and NUL. */
  predicate IsBooleanTrimmed(c: char)
  {
    || c == ' ' || '\t' <= c <= '\r' || c == '\0'
    || c == '\U{85}' || c == '\U{A0}' || c == '\U{1680}'
    || '\U{2000}' <= c <= '\U{200A}'
    || c == '\U{2028}' || c == '\U{2029}' || c == '\U{202F}' || c == '\U{205F}' || c == '\U{3000}'
  }

  /** `s` without the leading characters that `isTrimmed` accepts. */
  function TrimStart(isTrimmed: char -> bool, s: string): (r: string)
    ensures r == [] || !isTrimmed(r[0])
    ensures |r| <= |s| && r == s[|s| - |r|..]
  {
    if s != [] && isTrimmed(s[0]) then TrimStart(isTrimmed, s[1..]) else s
  }

  /** `s` without the trailing characters that `isTrimmed` accepts. */
  function TrimEnd(isTrimmed: char -> bool, s: string): (r: string)
    ensures r == [] || !isTrimmed(r[|r| - 1])
    ensures |r| <= |s| && r == s[..|r|]
  {
    if s != [] && isTrimmed(s[|s| - 1]) then TrimEnd(isTrimmed, s[..|s| - 1]) else s
  }

  function Trim(isTrimmed: char -> bool, s: string): string
  {
    TrimEnd(isTrimmed, TrimStart(isTrimmed, s))
  }

  predicate IsDigit(c: char)
  {
    '0' <= c <= '9'
  }

  predicate AllDigits(s: string)
  {
    forall i :: 0 <= i < |s| ==> IsDigit(s[i])
  }

  /** The value of a string of decimal digits, most significant first. */
  function DigitsValue(s: string): nat
    requires AllDigits(s)
  {
    if s == [] then 0
    else DigitsValue(s[..|s| - 1]) * 10 + (s[|s| - 1] as int - '0' as int)
  }

  /** `Int32.TryParse`: optional white space, an optional sign, one or more digits, optional white space, in range. */
  function TryParseInt32(s: string): (r: Option<int>)
    ensures r.Some? ==> Int32Min <= r.value <= Int32Max
  {
    ParseSignedDigits(Trim(IsNumberWhite, s))
  }

  /** An optional sign followed by one or more digits, whose value is in the Int32 range. */
  function ParseSignedDigits(t: string): (r: Option<int>)
    ensures r.Some? ==> Int32Min <= r.value <= Int32Max
  {
    var negative := |t| > 0 && t[0] == '-';
    var digits := if |t| > 0 && (t[0] == '-' || t[0] == '+') then t[1..] else t;
    if digits == [] || !AllDigits(digits) then None
    else
      var value := if negative then -(DigitsValue(digits) as int) else DigitsValue(digits);
      if Int32Min <= value <= Int32Max then Some(value) else None
  }

  /** Decimal digits of `n`, most significant first, without leading zeros. */
  function FormatNat(n: nat): (r: string)
    ensures r != [] && AllDigits(r)
  {
    var last := ('0' as int + n % 10) as char;
    if n < 10 then [last] else FormatNat(n / 10) + [last]
  }

  /** `Int32.ToString()` with invariant culture: a minus sign for negative values. */
  function FormatInt32(n: int): (r: string)
    ensures r != [] && !IsNumberWhite(r[0]) && !IsNumberWhite(r[|r| - 1])
  {
    if n < 0 then "-" + FormatNat(-n) else FormatNat(n)
  }

  function EqualsIgnoringAsciiCase(s: string, lower: string): bool
  {
    |s| == |lower| && forall i :: 0 <= i < |s| ==> AsciiLower(s[i]) == lower[i]
  }

  function AsciiLower(c: char): char
  {
    if 'A' <= c <= 'Z' then (c as int + 32) as char else c
  }

  /** `Boolean.TryParse`: "true" or "false" in any letter case, after trimming. */
  function TryParseBoolean(s: string): (r: Option<bool>)
    ensures r == Some(true) <==> EqualsIgnoringAsciiCase(Trim(IsBooleanTrimmed, s), "true")
    ensures r == Some(false) <==> EqualsIgnoringAsciiCase(Trim(IsBooleanTrimmed, s), "false")
  {
    BooleanLiteral(Trim(IsBooleanTrimmed, s))
  }

  function BooleanLiteral(t: string): Option<bool>
  {
    if EqualsIgnoringAsciiCase(t, "true") then Some(true)
    else if EqualsIgnoringAsciiCase(t, "false") then Some(false)
    else None
  }

  /** `Boolean.ToString()`. */
  function FormatBoolean(b: bool): string
  {
    if b then "True" else "False"
  }

  lemma {:induction false} DigitsValueOfFormatNat(n: nat)
    ensures DigitsValue(FormatNat(n)) == n
  {
    var last := ('0' as int + n % 10) as char;
    if n >= 10 {
      var r := FormatNat(n / 10) + [last];
      assert r[..|r| - 1] == FormatNat(n / 10);
      DigitsValueOfFormatNat(n / 10);
    }
  }

  lemma {:induction false} TrimStartOfPlain(isTrimmed: char -> bool, lead: string, s: string)
    requires forall i :: 0 <= i < |lead| ==> isTrimmed(lead[i])
    requires s != [] && !isTrimmed(s[0])
    ensures TrimStart(isTrimmed, lead + s) == s
  {
    if lead != [] {
      assert (lead + s)[1..] == lead[1..] + s;
      TrimStartOfPlain(isTrimmed, lead[1..], s);
    } else {
      assert lead + s == s;
    }
  }

  lemma {:induction false} TrimEndOfPlain(isTrimmed: char -> bool, s: string, trail: string)
    requires forall i :: 0 <= i < |trail| ==> isTrimmed(trail[i])
    requires s != [] && !isTrimmed(s[|s| - 1])
    ensures TrimEnd(isTrimmed, s + trail) == s
  {
    if trail != [] {
      var shorter := trail[..|trail| - 1];
      assert (s + trail)[..|s + trail| - 1] == s + shorter;
      TrimEndOfPlain(isTrimmed, s, shorter);
    } else {
      assert s + trail == s;
    }
  }

  /** Trimming removes exactly the padding around a text that neither starts nor ends with a trimmed character. */
  lemma TrimOfPadded(isTrimmed: char -> bool, lead: string, s: string, trail: string)
    requires forall i :: 0 <= i < |lead| ==> isTrimmed(lead[i])
    requires forall i :: 0 <= i < |trail| ==> isTrimmed(trail[i])
    requires s != [] && !isTrimmed(s[0]) && !isTrimmed(s[|s| - 1])
    ensures Trim(isTrimmed, lead + s + trail) == s
  {
    assert lead + s + trail == lead + (s + trail);
    TrimStartOfPlain(isTrimmed, lead, s + trail);
    TrimEndOfPlain(isTrimmed, s, trail);
  }

  /** A formatted integer reads back as itself when it is in the Int32 range, and is rejected otherwise. */
  lemma ParseSignedDigitsOfFormatted(n: int)
    ensures ParseSignedDigits(FormatInt32(n)) == if Int32Min <= n <= Int32Max then Some(n) else None
  {
    if n < 0 {
      var t := "-" + FormatNat(-n);
      assert t[0] == '-' && t[1..] == FormatNat(-n);
      DigitsValueOfFormatNat(-n);
    } else {
      var t := FormatNat(n);
      assert IsDigit(t[0]);
      DigitsValueOfFormatNat(n);
    }
  }

  /** Every Int32 survives formatting, padding with white space and parsing. */
  lemma TryParseInt32OfFormatted(n: int, lead: string, trail: string)
    requires Int32Min <= n <= Int32Max
    requires forall i :: 0 <= i < |lead| ==> IsNumberWhite(lead[i])
    requires forall i :: 0 <= i < |trail| ==> IsNumberWhite(trail[i])
    ensures TryParseInt32(lead + FormatInt32(n) + trail) == Some(n)
  {
    TrimOfPadded(IsNumberWhite, lead, FormatInt32(n), trail);
    ParseSignedDigitsOfFormatted(n);
  }

  /** A value outside the Int32 range is rejected even when it is written correctly. */
  lemma TryParseInt32OutOfRange(n: int)
    requires n < Int32Min || Int32Max < n
    ensures TryParseInt32(FormatInt32(n)) == None
  {
    TrimOfPadded(IsNumberWhite, "", FormatInt32(n), "");
    assert "" + FormatInt32(n) + "" == FormatInt32(n);
    ParseSignedDigitsOfFormatted(n);
  }

  /** A leading plus sign is accepted. */
  lemma TryParseInt32WithPlus(n: nat)
    requires n <= Int32Max
    ensures TryParseInt32("+" + FormatNat(n)) == Some(n)
  {
    var digits := FormatNat(n);
    var t := "+" + digits;
    assert ParseSignedDigits(t) == Some(n) by {
      assert t[0] == '+' && t[1..] == digits;
      assert digits != [] && AllDigits(digits);
      DigitsValueOfFormatNat(n);
    }
    assert Trim(IsNumberWhite, t) == t by {
      assert t[0] == '+' && t[|t| - 1] == digits[|digits| - 1];
      assert IsDigit(digits[|digits| - 1]);
      TrimOfPadded(IsNumberWhite, "", t, "");
      assert "" + t + "" == t;
    }
    assert TryParseInt32(t) == ParseSignedDigits(Trim(IsNumberWhite, t));
  }

  predicate NoDigit(s: string)
  {
    forall i :: 0 <= i < |s| ==> !IsDigit(s[i])
  }

  lemma SignedDigitsNeedDigits(t: string)
    requires NoDigit(t)
    ensures ParseSignedDigits(t) == None
  {
    var digits := if |t| > 0 && (t[0] == '-' || t[0] == '+') then t[1..] else t;
    if digits != [] {
      assert digits[0] == t[|t| - |digits|];
      assert !IsDigit(digits[0]);
    }
  }

  lemma TrimKeepsNoDigit(s: string)
    requires NoDigit(s)
    ensures NoDigit(Trim(IsNumberWhite, s))
  {
    var u := TrimStart(IsNumberWhite, s);
    var t := TrimEnd(IsNumberWhite, u);
    assert NoDigit(u) by {
      forall i | 0 <= i < |u|
        ensures !IsDigit(u[i])
      {
        assert u[i] == s[|s| - |u| + i];
      }
    }
    forall i | 0 <= i < |t|
      ensures !IsDigit(t[i])
    {
      assert t[i] == u[i];
    }
  }

  /** Text that holds no digit at all never parses as a number. */
  lemma TryParseInt32NeedsDigits(s: string)
    requires forall i :: 0 <= i < |s| ==> !IsDigit(s[i])
    ensures TryParseInt32(s) == None
  {
    TrimKeepsNoDigit(s);
    SignedDigitsNeedDigits(Trim(IsNumberWhite, s));
  }

  /** Both results of `Boolean.ToString()` parse back, whatever trimmed characters surround them. */
  lemma TryParseBooleanOfFormatted(b: bool, lead: string, trail: string)
    requires forall i :: 0 <= i < |lead| ==> IsBooleanTrimmed(lead[i])
    requires forall i :: 0 <= i < |trail| ==> IsBooleanTrimmed(trail[i])
    ensures TryParseBoolean(lead + FormatBoolean(b) + trail) == Some(b)
  {
    TrimOfPadded(IsBooleanTrimmed, lead, FormatBoolean(b), trail);
    BooleanLiteralOfFormatted(b);
  }

  lemma BooleanLiteralOfFormatted(b: bool)
    ensures BooleanLiteral(FormatBoolean(b)) == Some(b)
  {
    if b {
      assert AsciiLower('T') == 't';
      assert EqualsIgnoringAsciiCase("True", "true");
    } else {
      assert AsciiLower('F') == 'f';
      assert "False"[0] != "true"[0];
      assert EqualsIgnoringAsciiCase("False", "false");
    }
  }
}

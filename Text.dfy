/**
 * The text operations the definition reader relies on: Python's `str.strip()`
 * and `str.upper()`, and the numeric-attribute idiom used throughout the
 * exporter, `int(s, 16) if s.startswith('0x') else int(s)`, together with
 * the decimal and hexadecimal renderings that the idiom reads back.
 */
module Text {
  import opened Wrappers

  /** The characters Python's `str.isspace()` accepts, i.e. what `strip()` removes. */
  predicate IsSpace(c: char) {
    var n := c as int;
    (9 <= n <= 13) || (28 <= n <= 32) || n == 0x85 || n == 0xA0 || n == 0x1680
    || (0x2000 <= n <= 0x200A) || n == 0x2028 || n == 0x2029 || n == 0x202F
    || n == 0x205F || n == 0x3000
  }

  /** `s.lstrip()`: drops the leading white space. */
  function StripLeft(s: string): string
    decreases |s|
  {
    if |s| > 0 && IsSpace(s[0]) then StripLeft(s[1..]) else s
  }

  /** `s.rstrip()`: drops the trailing white space. */
  function StripRight(s: string): string
    decreases |s|
  {
    if |s| > 0 && IsSpace(s[|s| - 1]) then StripRight(s[..|s| - 1]) else s
  }

  /** `lstrip` keeps a suffix, removes only white space, and stops at the first other character. */
  lemma {:induction false} StripLeftFacts(s: string)
    ensures var r := StripLeft(s);
      && |r| <= |s| && r == s[|s| - |r|..]
      && (forall i :: 0 <= i < |s| - |r| ==> IsSpace(s[i]))
      && (r == [] || !IsSpace(r[0]))
    decreases |s|
  {
    if |s| > 0 && IsSpace(s[0]) {
      var t := s[1..];
      StripLeftFacts(t);
      var r := StripLeft(t);
      assert t[|t| - |r|..] == s[|s| - |r|..];
      forall i | 0 <= i < |s| - |r|
        ensures IsSpace(s[i])
      {
        if i > 0 {
          assert s[i] == t[i - 1];
        }
      }
    }
  }

  /** `rstrip` keeps a prefix, removes only white space, and stops at the last other character. */
  lemma {:induction false} StripRightFacts(s: string)
    ensures var r := StripRight(s);
      && |r| <= |s| && r == s[..|r|]
      && (forall i :: |r| <= i < |s| ==> IsSpace(s[i]))
      && (r == [] || !IsSpace(r[|r| - 1]))
    decreases |s|
  {
    if |s| > 0 && IsSpace(s[|s| - 1]) {
      var t := s[..|s| - 1];
      StripRightFacts(t);
      var r := StripRight(t);
      assert t[..|r|] == s[..|r|];
      forall i | |r| <= i < |s|
        ensures IsSpace(s[i])
      {
        if i < |t| {
          assert s[i] == t[i];
        }
      }
    }
  }

  /** How many white-space characters `s` starts with. */
  function LeadingSpaces(s: string): int {
    |s| - |StripLeft(s)|
  }

  /**
   * `s.strip()`: the longest infix of `s` that neither starts nor ends with
   * white space, obtained by removing only white space from both ends.
   */
  function Strip(s: string): (r: string)
    ensures r == [] || (!IsSpace(r[0]) && !IsSpace(r[|r| - 1]))
    ensures var i := LeadingSpaces(s);
      && 0 <= i && i + |r| <= |s| && r == s[i..i + |r|]
      && (forall k :: 0 <= k < i ==> IsSpace(s[k]))
      && (forall k :: i + |r| <= k < |s| ==> IsSpace(s[k]))
  {
    StripFacts(s);
    StripRight(StripLeft(s))
  }

  lemma StripFacts(s: string)
    ensures var l := StripLeft(s); var r := StripRight(l); var i := |s| - |l|;
      && (r == [] || (!IsSpace(r[0]) && !IsSpace(r[|r| - 1])))
      && 0 <= i && i + |r| <= |s| && r == s[i..i + |r|]
      && (forall k :: 0 <= k < i ==> IsSpace(s[k]))
      && (forall k :: i + |r| <= k < |s| ==> IsSpace(s[k]))
  {
    var l := StripLeft(s);
    StripLeftFacts(s);
    var r := StripRight(l);
    StripRightFacts(l);
    var i := |s| - |l|;
    forall k | 0 <= k < |r|
      ensures r[k] == s[i + k]
    {
      assert r[k] == l[k];
    }
    assert r == s[i..i + |r|];
    forall k | i + |r| <= k < |s|
      ensures IsSpace(s[k])
    {
      assert s[k] == l[k - i];
    }
    if r != [] {
      assert r[0] == l[0];
    }
  }

  /** Stripping twice removes nothing more than stripping once. */
  lemma {:induction false} StripIdempotent(s: string)
    ensures Strip(Strip(s)) == Strip(s)
  {
    var t := Strip(s);
    assert StripLeft(t) == t;
    assert StripRight(t) == t;
  }

  /** `c.upper()` for the ASCII letters; every other character is kept. */
  function UpperChar(c: char): char {
    if 'a' <= c <= 'z' then (c as int - 32) as char else c
  }

  /** `s.upper()`, per character. */
  function ToUpper(s: string): (r: string)
    ensures |r| == |s|
    ensures forall i :: 0 <= i < |s| ==> r[i] == UpperChar(s[i])
    ensures forall i :: 0 <= i < |r| ==> !('a' <= r[i] <= 'z')
  {
    seq(|s|, i requires 0 <= i < |s| => UpperChar(s[i]))
  }

  /** Upper-casing is idempotent, so patterns may be upper-cased again harmlessly. */
  lemma ToUpperIdempotent(s: string)
    ensures ToUpper(ToUpper(s)) == ToUpper(s)
  {
  }

  /** The value of one digit in radix 10 or 16 (hexadecimal digits in either case). */
  function DigitOf(c: char, radix: nat): (r: Option<nat>)
    requires radix == 10 || radix == 16
    ensures r.Some? ==> r.value < radix
  {
    if '0' <= c <= '9' then Some(c as int - '0' as int)
    else if radix == 16 && 'a' <= c <= 'f' then Some(c as int - 'a' as int + 10)
    else if radix == 16 && 'A' <= c <= 'F' then Some(c as int - 'A' as int + 10)
    else None
  }

  /** The value of a non-empty digit string, most significant digit first. */
  function DigitsValue(s: string, radix: nat): Option<nat>
    requires radix == 10 || radix == 16
    decreases |s|
  {
    if s == [] then None
    else
      var d := DigitOf(s[|s| - 1], radix);
      if d.None? then None
      else if |s| == 1 then d
      else
        match DigitsValue(s[..|s| - 1], radix)
        case None => None
        case Some(v) => Some(v * radix + d.value)
  }

  /** A digit string has a value exactly when it is non-empty and made of digits only. */
  lemma {:induction false} DigitsValueSome(s: string, radix: nat)
    requires radix == 10 || radix == 16
    ensures DigitsValue(s, radix).Some? <==> s != [] && forall i :: 0 <= i < |s| ==> DigitOf(s[i], radix).Some?
    decreases |s|
  {
    if |s| > 1 {
      var init := s[..|s| - 1];
      DigitsValueSome(init, radix);
      assert forall i :: 0 <= i < |init| ==> init[i] == s[i];
    }
  }

  /** The digits of a decimal literal: the text after an optional sign. */
  function DecimalBody(s: string): string {
    if |s| > 0 && (s[0] == '-' || s[0] == '+') then s[1..] else s
  }

  /**
   * `int(s)` restricted to an optional sign followed by ASCII decimal digits;
   * every other text raises `ValueError` here and gives `None`.
   */
  function ParseDecimal(s: string): (r: Option<int>)
    ensures s == "" ==> r.None?
    ensures r.Some? && |s| > 0 && s[0] == '-' ==> r.value <= 0
    ensures r.Some? && (|s| == 0 || s[0] != '-') ==> r.value >= 0
  {
    var magnitude := DigitsValue(DecimalBody(s), 10);
    if magnitude.None? then None
    else if s[0] == '-' then Some(0 - magnitude.value)
    else Some(magnitude.value)
  }

  /** `int(s)` succeeds exactly on a non-empty run of decimal digits after the optional sign. */
  lemma ParseDecimalIff(s: string)
    ensures ParseDecimal(s).Some? <==>
      DecimalBody(s) != [] && forall i :: 0 <= i < |DecimalBody(s)| ==> '0' <= DecimalBody(s)[i] <= '9'
  {
    DigitsValueSome(DecimalBody(s), 10);
  }

  predicate HasHexPrefix(s: string) {
    |s| >= 2 && s[0] == '0' && s[1] == 'x'
  }

  /**
   * `int(s, 16) if s.startswith('0x') else int(s)`: a `0x` prefix selects
   * hexadecimal digits, anything else is read as a decimal literal.
   */
  function ParseHexOrDecimal(s: string): (r: Option<int>)
    ensures HasHexPrefix(s) && r.Some? ==> r.value >= 0
    ensures !HasHexPrefix(s) ==> r == ParseDecimal(s)
    ensures s == "" ==> r.None?
  {
    if HasHexPrefix(s) then
      match DigitsValue(s[2..], 16)
      case None => None
      case Some(v) => Some(v)
    else ParseDecimal(s)
  }

  /** With the `0x` prefix the idiom succeeds exactly on a non-empty run of hexadecimal digits (either case). */
  lemma ParseHexIff(s: string)
    requires HasHexPrefix(s)
    ensures ParseHexOrDecimal(s).Some? <==> |s| > 2 && forall i :: 2 <= i < |s| ==> DigitOf(s[i], 16).Some?
  {
    DigitsValueSome(s[2..], 16);
    assert forall i :: 2 <= i < |s| ==> s[i] == s[2..][i - 2];
  }

  /** The digit character for `d`, upper-case for the hexadecimal letters. */
  function DigitChar(d: nat): char
    requires d < 16
  {
    if d < 10 then ('0' as int + d) as char else ('A' as int + d - 10) as char
  }

  /** The digit character of `d` reads back as `d`, in radix 16 and, below 10, in radix 10. */
  lemma DigitCharValue(d: nat)
    requires d < 16
    ensures DigitOf(DigitChar(d), 16) == Some(d)
    ensures d < 10 ==> DigitOf(DigitChar(d), 10) == Some(d)
  {
  }

  /** The digits of `n` in the given radix, without leading zeros. */
  function DigitsText(n: nat, radix: nat): (r: string)
    requires radix == 10 || radix == 16
    ensures |r| >= 1
    ensures radix == 10 ==> forall i :: 0 <= i < |r| ==> '0' <= r[i] <= '9'
  {
    if n < radix then [DigitChar(n)]
    else DigitsText(n / radix, radix) + [DigitChar(n % radix)]
  }

  /** Division by the radix, spelled out for the two radixes in use. */
  lemma DivideByRadix(n: nat, radix: nat)
    requires radix == 10 || radix == 16
    ensures n == (n / radix) * radix + n % radix && n % radix < radix
    ensures n >= radix ==> 0 < n / radix < n
  {
    if radix == 10 {
      assert n == (n / 10) * 10 + n % 10;
    } else {
      assert n == (n / 16) * 16 + n % 16;
    }
  }

  /** Reading back the digits of `n` gives `n`. */
  lemma {:induction false} DigitsRoundTrip(n: nat, radix: nat)
    requires radix == 10 || radix == 16
    ensures DigitsValue(DigitsText(n, radix), radix) == Some(n)
  {
    if n >= radix {
      var q, d := n / radix, n % radix;
      DivideByRadix(n, radix);
      var prefix := DigitsText(q, radix);
      var c := DigitChar(d);
      DigitCharValue(d);
      DigitsRoundTrip(q, radix);
      assert DigitsText(n, radix) == prefix + [c];
      DigitsValueSnoc(prefix, c, radix);
    } else {
      DigitCharValue(n);
    }
  }

  /** Appending one digit multiplies the value by the radix and adds the digit. */
  lemma DigitsValueSnoc(s: string, c: char, radix: nat)
    requires radix == 10 || radix == 16
    requires DigitsValue(s, radix).Some? && DigitOf(c, radix).Some?
    ensures DigitsValue(s + [c], radix) == Some(DigitsValue(s, radix).value * radix + DigitOf(c, radix).value)
  {
    var t := s + [c];
    assert t[..|t| - 1] == s;
  }

  /** `str(v)` for an integer. */
  function DecimalText(v: int): string {
    if v < 0 then "-" + DigitsText(-v, 10) else DigitsText(v, 10)
  }

  /** `'%X' % n`, without any prefix. */
  function HexText(n: nat): string {
    DigitsText(n, 16)
  }

  /** `int(str(v)) == v`, and the exporter's idiom reads `str(v)` back too. */
  lemma DecimalRoundTrip(v: int)
    ensures ParseDecimal(DecimalText(v)) == Some(v)
    ensures ParseHexOrDecimal(DecimalText(v)) == Some(v)
  {
    var t := DecimalText(v);
    DecimalTextShape(v);
    DigitsRoundTrip(if v < 0 then -v else v, 10);
  }

  /** `str(v)` is the digits of `|v|`, after a minus sign exactly when `v` is negative. */
  lemma DecimalTextShape(v: int)
    ensures var t := DecimalText(v);
      && t != [] && !HasHexPrefix(t)
      && (t[0] == '-' <==> v < 0)
      && DecimalBody(t) == DigitsText(if v < 0 then -v else v, 10)
  {
    var t := DecimalText(v);
    if v < 0 {
      assert t[1..] == DigitsText(-v, 10);
    } else {
      assert '0' <= t[0] <= '9';
      assert |t| < 2 || '0' <= t[1] <= '9';
    }
  }

  /** The exporter's idiom reads a `0x`-prefixed rendering of `n` back as `n`. */
  lemma HexRoundTrip(n: nat)
    ensures ParseHexOrDecimal("0x" + HexText(n)) == Some(n)
  {
    DigitsRoundTrip(n, 16);
    assert ("0x" + HexText(n))[2..] == HexText(n);
  }
}

/** ECMAScript `parseInt(s)` (no radix) and the decimal rendering of template literals. */
module Numbers {
  import opened Wrappers

  predicate IsDecimalDigit(c: char) {
    '0' <= c <= '9'
  }

  /** The value of `c` as a digit of radix up to 36; 36 for a character that is no digit. */
  function DigitValue(c: char): (v: nat)
    ensures v <= 36
    ensures IsDecimalDigit(c) ==> v == c as int - '0' as int
  {
    if '0' <= c <= '9' then c as int - '0' as int
    else if 'a' <= c <= 'z' then c as int - 'a' as int + 10
    else if 'A' <= c <= 'Z' then c as int - 'A' as int + 10
    else 36
  }

  predicate IsRadixDigit(c: char, radix: nat) {
    DigitValue(c) < radix
  }

  /** The length of the longest prefix of `s` made of digits of `radix`. */
  function DigitRun(s: string, radix: nat): (k: nat)
    ensures k <= |s|
    ensures forall i :: 0 <= i < k ==> IsRadixDigit(s[i], radix)
    ensures k < |s| ==> !IsRadixDigit(s[k], radix)
  {
    if s == [] || !IsRadixDigit(s[0], radix) then 0 else 1 + DigitRun(s[1..], radix)
  }

  /** The number that the digit string `ds` denotes in `radix`. */
  function ValueOf(ds: string, radix: nat): nat {
    if ds == [] then 0 else ValueOf(ds[..|ds| - 1], radix) * radix + DigitValue(ds[|ds| - 1])
  }

  /** StrWhiteSpaceChar: the characters `parseInt` skips before the number. */
  predicate IsJsWhitespace(c: char) {
    c == '\t' || c == '\n' || c == '\U{000B}' || c == '\U{000C}' || c == '\r' || c == ' '
    || c == '\U{00A0}' || c == '\U{1680}' || ('\U{2000}' <= c <= '\U{200A}')
    || c == '\U{2028}' || c == '\U{2029}' || c == '\U{202F}' || c == '\U{205F}'
    || c == '\U{3000}' || c == '\U{FEFF}'
  }

  /** `s` without its leading white space. */
  function TrimStart(s: string): (t: string)
    ensures |t| <= |s| && t == s[|s| - |t|..]
    ensures t != [] ==> !IsJsWhitespace(t[0])
  {
    if s != [] && IsJsWhitespace(s[0]) then TrimStart(s[1..]) else s
  }

  /** The leading run of digits of `body` in `radix`, read as a number; `None` when there is none. */
  function ParseDigits(body: string, radix: nat): Option<nat> {
    var k := DigitRun(body, radix);
    if k == 0 then None else Some(ValueOf(body[..k], radix))
  }

  /** An unsigned number: a `0x`/`0X` prefix selects radix 16, otherwise radix 10. */
  function ParseMagnitude(u: string): Option<nat> {
    if |u| >= 2 && u[0] == '0' && (u[1] == 'x' || u[1] == 'X') then ParseDigits(u[2..], 16)
    else ParseDigits(u, 10)
  }

  /**
   * `parseInt(s)`: skip white space, read an optional sign, read a `0x`/`0X` prefix as radix 16,
   * then take the longest run of digits; `None` is NaN (no digit at all). `-0` is the integer 0.
   */
  function ParseInt(s: string): (r: Option<int>)
  {
    var t := TrimStart(s);
    if t != [] && t[0] == '-' then
      match ParseMagnitude(t[1..])
      case None => None
      case Some(m) => Some(-(m as int))
    else
      var u := if t != [] && t[0] == '+' then t[1..] else t;
      match ParseMagnitude(u)
      case None => None
      case Some(m) => Some(m as int)
  }

  function DigitChar(d: nat): char
    requires d < 10
  {
    ('0' as int + d) as char
  }

  /** The decimal numeral of `n`, as `${n}` renders it. */
  function Decimal(n: nat): (s: string)
    ensures |s| >= 1
    ensures forall i :: 0 <= i < |s| ==> IsDecimalDigit(s[i])
    ensures n >= 1 ==> s[0] != '0'
  {
    if n < 10 then [DigitChar(n)] else Decimal(n / 10) + [DigitChar(n % 10)]
  }

  /** Reading a numeral back gives the number: `Decimal` and `ValueOf` are inverse. */
  lemma {:induction false} ValueOfDecimal(n: nat)
    ensures ValueOf(Decimal(n), 10) == n
  {
    var s := Decimal(n);
    if n >= 10 {
      ValueOfDecimal(n / 10);
      assert s[..|s| - 1] == Decimal(n / 10);
    }
  }

  /** A run of digits followed by a non-digit: the run is exactly the digit prefix. */
  lemma {:induction false} DigitRunOfPrefix(ds: string, rest: string, radix: nat)
    requires forall i :: 0 <= i < |ds| ==> IsRadixDigit(ds[i], radix)
    requires rest == [] || !IsRadixDigit(rest[0], radix)
    ensures DigitRun(ds + rest, radix) == |ds|
  {
    if ds != [] {
      assert (ds + rest)[1..] == ds[1..] + rest;
      DigitRunOfPrefix(ds[1..], rest, radix);
    }
  }

  /** Text that starts with a digit, and not with `0x`, reads as its leading run of decimal digits. */
  lemma ParseUnsigned(t: string)
    requires t != [] && IsDecimalDigit(t[0])
    requires |t| >= 2 && t[0] == '0' ==> t[1] != 'x' && t[1] != 'X'
    ensures ParseInt(t) == match ParseDigits(t, 10) case None => None case Some(m) => Some(m)
  {
    assert !IsJsWhitespace(t[0]);
    assert TrimStart(t) == t;
  }

  /** Decimal digits followed by a non-digit: the digits are what is read. */
  lemma ParseDigitsPrefix(ds: string, rest: string)
    requires ds != [] && forall i :: 0 <= i < |ds| ==> IsDecimalDigit(ds[i])
    requires rest == [] || !IsDecimalDigit(rest[0])
    ensures ParseDigits(ds + rest, 10) == Some(ValueOf(ds, 10))
  {
    DigitRunOfPrefix(ds, rest, 10);
    assert (ds + rest)[..|ds|] == ds;
  }

  /**
   * Leading-digit prefixes parse: a numeral followed by anything that does not continue it
   * (`"12abc"`, `"3 copies"`) reads as the numeral's value.
   */
  lemma ParseIntNumeralPrefix(n: nat, rest: string)
    requires rest == [] || !IsDecimalDigit(rest[0])
    requires n == 0 && rest != [] ==> rest[0] != 'x' && rest[0] != 'X'
    ensures ParseInt(Decimal(n) + rest) == Some(n)
  {
    var d := Decimal(n);
    var s := d + rest;
    assert s[0] == d[0];
    if n == 0 {
      assert d == "0";
      assert |s| >= 2 ==> s[1] == rest[0];
    }
    ParseUnsigned(s);
    ParseDigitsPrefix(d, rest);
    ValueOfDecimal(n);
  }

  /** `parseInt` inverts the decimal rendering. */
  lemma ParseIntDecimal(n: nat)
    ensures ParseInt(Decimal(n)) == Some(n)
  {
    ParseIntNumeralPrefix(n, "");
    assert Decimal(n) + "" == Decimal(n);
  }

  /** A leading minus sign negates the number that follows. */
  lemma ParseMinus(u: string)
    ensures ParseInt("-" + u) == match ParseMagnitude(u) case None => None case Some(m) => Some(-(m as int))
  {
    var s := "-" + u;
    assert s[0] == '-' && !IsJsWhitespace(s[0]);
    assert TrimStart(s) == s;
    assert s[1..] == u;
  }

  /** A minus sign in front of a numeral negates it. */
  lemma ParseIntNegative(n: nat)
    ensures ParseInt("-" + Decimal(n)) == Some(-(n as int))
  {
    var d := Decimal(n);
    ParseMinus(d);
    assert ParseMagnitude(d) == ParseDigits(d, 10) by {
      if n == 0 {
        assert d == "0";
      } else {
        assert d[0] != '0';
      }
    }
    assert d + "" == d;
    ParseDigitsPrefix(d, "");
    ValueOfDecimal(n);
  }

  /** Text that starts with neither white space, a sign, nor a digit is NaN. */
  lemma ParseIntNaN(s: string)
    requires s == [] || (!IsJsWhitespace(s[0]) && !IsDecimalDigit(s[0]) && s[0] != '-' && s[0] != '+')
    ensures ParseInt(s) == None
  {
    assert TrimStart(s) == s;
  }
}

/** JavaScript's global `parseInt(string)` without a radix (section 19.2.5
    of ECMAScript 2024): skip leading whitespace, take an optional sign,
    then read hexadecimal digits after a `0x` or `0X` marker and decimal
    digits otherwise, stopping at the first character that is not a digit.
    No digits gives `NaN`, modelled as `None`.  A decimal rendering of
    integers serves as the independent reference the parser is checked
    against. */
module Numbers {
  import opened Wrappers
  import opened Text

  predicate IsDigit(c: char) {
    '0' <= c <= '9'
  }

  predicate AllDigits(s: string) {
    forall i :: 0 <= i < |s| ==> IsDigit(s[i])
  }

  function DigitValue(c: char): nat
    requires IsDigit(c)
  {
    c as int - '0' as int
  }

  function DigitChar(d: nat): (c: char)
    requires d < 10
    ensures IsDigit(c) && DigitValue(c) == d
  {
    ('0' as int + d) as char
  }

  /** The longest prefix of `s` made of decimal digits. */
  function DigitPrefix(s: string): (ds: string)
    ensures AllDigits(ds)
    decreases |s|
  {
    if |s| > 0 && IsDigit(s[0]) then [s[0]] + DigitPrefix(s[1..]) else ""
  }

  /** The digit prefix is the longest one: it is a prefix of `s`, and the
      character after it, if any, is not a digit. */
  lemma {:induction false} DigitPrefixSpec(s: string)
    ensures |DigitPrefix(s)| <= |s| && DigitPrefix(s) == s[..|DigitPrefix(s)|]
    ensures |DigitPrefix(s)| == |s| || !IsDigit(s[|DigitPrefix(s)|])
    decreases |s|
  {
    if |s| > 0 && IsDigit(s[0]) {
      DigitPrefixSpec(s[1..]);
      var tail := DigitPrefix(s[1..]);
      assert s[..|tail| + 1] == [s[0]] + s[1..][..|tail|];
    }
  }

  /** The number a run of decimal digits denotes, most significant first. */
  function Value(ds: string): nat
    requires AllDigits(ds)
    decreases |ds|
  {
    if |ds| == 0 then 0
    else 10 * Value(ds[..|ds| - 1]) + DigitValue(ds[|ds| - 1])
  }

  predicate IsHexDigit(c: char) {
    IsDigit(c) || 'a' <= c <= 'f' || 'A' <= c <= 'F'
  }

  predicate AllHexDigits(s: string) {
    forall i :: 0 <= i < |s| ==> IsHexDigit(s[i])
  }

  function HexDigitValue(c: char): (d: nat)
    requires IsHexDigit(c)
    ensures d < 16
  {
    if IsDigit(c) then DigitValue(c)
    else if 'a' <= c <= 'f' then c as int - 'a' as int + 10
    else c as int - 'A' as int + 10
  }

  /** The longest prefix of `s` made of hexadecimal digits. */
  function HexPrefix(s: string): (hs: string)
    ensures AllHexDigits(hs)
    decreases |s|
  {
    if |s| > 0 && IsHexDigit(s[0]) then [s[0]] + HexPrefix(s[1..]) else ""
  }

  /** The hexadecimal digit prefix is the longest one: it is a prefix of
      `s`, and the character after it, if any, is not a hexadecimal digit. */
  lemma {:induction false} HexPrefixSpec(s: string)
    ensures |HexPrefix(s)| <= |s| && HexPrefix(s) == s[..|HexPrefix(s)|]
    ensures |HexPrefix(s)| == |s| || !IsHexDigit(s[|HexPrefix(s)|])
    decreases |s|
  {
    if |s| > 0 && IsHexDigit(s[0]) {
      HexPrefixSpec(s[1..]);
      var tail := HexPrefix(s[1..]);
      assert s[..|tail| + 1] == [s[0]] + s[1..][..|tail|];
    }
  }

  /** The number a run of hexadecimal digits denotes, most significant
      first. */
  function HexValue(hs: string): nat
    requires AllHexDigits(hs)
    decreases |hs|
  {
    if |hs| == 0 then 0
    else 16 * HexValue(hs[..|hs| - 1]) + HexDigitValue(hs[|hs| - 1])
  }

  /** `parseInt(s)` with no radix: `None` is `NaN`.  Leading whitespace is
      skipped, then the rest is read as a signed number.  A number needs at
      least one decimal digit somewhere in `s` (a hexadecimal one starts
      with `0`). */
  function ParseInt(s: string): (n: Option<int>)
    ensures n.Some? ==> exists i :: 0 <= i < |s| && IsDigit(s[i])
  {
    TrimmedNeedsDigit(s);
    ParseSigned(TrimStart(s))
  }

  /** A text without decimal digits reads as `NaN` once leading whitespace
      is skipped. */
  lemma TrimmedNeedsDigit(s: string)
    ensures ParseSigned(TrimStart(s)).Some? ==> exists i :: 0 <= i < |s| && IsDigit(s[i])
  {
    if forall i :: 0 <= i < |s| ==> !IsDigit(s[i]) {
      var t := TrimStart(s);
      TrimStartSpec(s);
      assert forall i :: 0 <= i < |t| ==> t[i] == s[|s| - |t| + i];
    }
  }

  /** An optional sign followed by a magnitude: a minus sign negates, a
      plus sign is skipped. */
  function ParseSigned(t: string): Option<int> {
    if |t| > 0 && t[0] == '-' then Negate(ParseMagnitude(t[1..]))
    else if |t| > 0 && t[0] == '+' then ParseMagnitude(t[1..])
    else ParseMagnitude(t)
  }

  /** `0x` or `0X`: the marker that switches an unspecified radix to 16. */
  predicate HexMarked(u: string) {
    |u| >= 2 && u[0] == '0' && (u[1] == 'x' || u[1] == 'X')
  }

  /** The longest run of digits at the start of `u`, hexadecimal after a
      `0x` marker and decimal otherwise; anything after the digits is
      ignored, and no digits at all is `NaN`. */
  function ParseMagnitude(u: string): Option<int> {
    if HexMarked(u) then
      var hs := HexPrefix(u[2..]);
      if |hs| == 0 then None else Some(HexValue(hs) as int)
    else
      var ds := DigitPrefix(u);
      if |ds| == 0 then None else Some(Value(ds) as int)
  }

  /** Negation, with `-NaN` being `NaN`. */
  function Negate(x: Option<int>): Option<int> {
    match x
    case None => None
    case Some(n) => Some(-n)
  }

  /** The canonical decimal rendering of a natural number: digits only, no
      leading zero except for zero itself. */
  function ShowNat(n: nat): (s: string)
    ensures |s| >= 1 && AllDigits(s)
    ensures s[0] == '0' ==> n == 0
    decreases n
  {
    if n < 10 then [DigitChar(n)] else ShowNat(n / 10) + [DigitChar(n % 10)]
  }

  /** The canonical decimal rendering of an integer, as `String(n)` gives
      it for an integral number. */
  function Show(n: int): string {
    if n < 0 then ['-'] + ShowNat(-n) else ShowNat(n)
  }

  /** Reading back a rendered natural number gives the number. */
  lemma {:induction false} ValueShowNat(n: nat)
    ensures Value(ShowNat(n)) == n
    decreases n
  {
    if n >= 10 {
      var s := ShowNat(n);
      assert s[..|s| - 1] == ShowNat(n / 10);
      ValueShowNat(n / 10);
    }
  }

  /** The digit prefix stops exactly where the digits stop. */
  lemma {:induction false} DigitPrefixOfDigits(ds: string, rest: string)
    requires AllDigits(ds)
    requires rest == [] || !IsDigit(rest[0])
    ensures DigitPrefix(ds + rest) == ds
    decreases |ds|
  {
    if |ds| == 0 {
      assert ds + rest == rest;
    } else {
      assert (ds + rest)[1..] == ds[1..] + rest;
      DigitPrefixOfDigits(ds[1..], rest);
    }
  }

  /** What may follow a written number without changing how it reads:
      nothing, or a character that is neither a digit nor the `x` of a
      hexadecimal marker. */
  predicate EndsNumber(rest: string) {
    rest == [] || (!IsDigit(rest[0]) && rest[0] != 'x' && rest[0] != 'X')
  }

  /** A text that starts with a digit or a sign has no leading whitespace,
      so `parseInt` reads it from the first character. */
  lemma ParseIntFromFirst(s: string)
    requires |s| > 0 && (s[0] == '-' || IsDigit(s[0]))
    ensures ParseInt(s) == ParseSigned(s)
  {
    assert !IsWhitespace(s[0]);
  }

  /** Reading a run of decimal digits followed by a non-digit. */
  lemma ParseMagnitudeOf(u: string, digits: string, rest: string)
    requires |digits| >= 1 && AllDigits(digits)
    requires EndsNumber(rest)
    requires u == digits + rest
    ensures ParseMagnitude(u) == Some(Value(digits) as int)
  {
    assert !HexMarked(u) by {
      if |u| >= 2 {
        assert u[1] == if |digits| >= 2 then digits[1] else rest[0];
      }
    }
    DigitPrefixOfDigits(digits, rest);
  }

  /** Reading an unsigned run of digits followed by a non-digit. */
  lemma ParseSignedDigits(t: string, digits: string, rest: string)
    requires |digits| >= 1 && AllDigits(digits)
    requires EndsNumber(rest)
    requires t == digits + rest
    ensures ParseSigned(t) == Some(Value(digits) as int)
  {
    assert t[0] == digits[0];
    ParseMagnitudeOf(t, digits, rest);
  }

  /** A leading minus sign negates what follows. */
  lemma ParseSignedMinus(t: string)
    requires |t| > 0 && t[0] == '-'
    ensures ParseSigned(t) == Negate(ParseMagnitude(t[1..]))
  {
  }

  /** Reading a minus sign, a run of digits and then a non-digit. */
  lemma ParseSignedNegative(t: string, digits: string, rest: string)
    requires |digits| >= 1 && AllDigits(digits)
    requires EndsNumber(rest)
    requires |t| > 0 && t[0] == '-' && t[1..] == digits + rest
    ensures ParseSigned(t) == Some(-(Value(digits) as int))
  {
    ParseSignedMinus(t);
    ParseMagnitudeOf(t[1..], digits, rest);
  }

  /** Reading back a rendered natural number followed by a non-digit. */
  lemma ParseIntShowNat(m: nat, rest: string)
    requires EndsNumber(rest)
    ensures ParseInt(ShowNat(m) + rest) == Some(m)
  {
    var t := ShowNat(m) + rest;
    ValueShowNat(m);
    ParseSignedDigits(t, ShowNat(m), rest);
    ParseIntFromFirst(t);
  }

  /** Reading back a rendered negative number followed by a non-digit. */
  lemma ParseIntShowNegative(m: nat, rest: string)
    requires EndsNumber(rest)
    ensures ParseInt(['-'] + ShowNat(m) + rest) == Some(-(m as int))
  {
    var t := ['-'] + ShowNat(m) + rest;
    assert t[1..] == ShowNat(m) + rest;
    ValueShowNat(m);
    ParseSignedNegative(t, ShowNat(m), rest);
    ParseIntFromFirst(t);
  }

  /** `parseInt` inverts the decimal rendering, and ignores whatever
      non-digit text follows it: `parseInt("42abc")` is 42. */
  lemma ParseIntShow(n: int, rest: string)
    requires EndsNumber(rest)
    ensures ParseInt(Show(n) + rest) == Some(n)
  {
    if n < 0 {
      ParseIntShowNegative(-n, rest);
    } else {
      ParseIntShowNat(n, rest);
    }
  }

  /** The hexadecimal digit prefix stops exactly where the hexadecimal
      digits stop. */
  lemma {:induction false} HexPrefixOfDigits(hs: string, rest: string)
    requires AllHexDigits(hs)
    requires rest == [] || !IsHexDigit(rest[0])
    ensures HexPrefix(hs + rest) == hs
    decreases |hs|
  {
    if |hs| == 0 {
      assert hs + rest == rest;
    } else {
      assert (hs + rest)[1..] == hs[1..] + rest;
      HexPrefixOfDigits(hs[1..], rest);
    }
  }

  /** A run of hexadecimal digits after a marker. */
  lemma ParseMagnitudeHex(u: string, hs: string, rest: string)
    requires HexMarked(u) && u[2..] == hs + rest
    requires AllHexDigits(hs)
    requires rest == [] || !IsHexDigit(rest[0])
    ensures ParseMagnitude(u) == if |hs| == 0 then None else Some(HexValue(hs) as int)
  {
    HexPrefixOfDigits(hs, rest);
  }

  /** After a `0x` marker the digits are read in radix 16:
      `parseInt("0x1A")` is 26, and a marker with no hexadecimal digit after
      it, as in `parseInt("0xg")`, is `NaN` rather than 0. */
  lemma ParseIntHex(t: string, hs: string, rest: string)
    requires HexMarked(t) && t[2..] == hs + rest
    requires AllHexDigits(hs)
    requires rest == [] || !IsHexDigit(rest[0])
    ensures ParseInt(t) == if |hs| == 0 then None else Some(HexValue(hs) as int)
  {
    ParseIntFromFirst(t);
    ParseMagnitudeHex(t, hs, rest);
  }

  /** Leading whitespace is skipped: `parseInt("  7")` is 7. */
  lemma ParseIntSkipsWhitespace(ws: string, s: string)
    requires AllWhitespace(ws)
    ensures ParseInt(ws + s) == ParseInt(s)
  {
    TrimStartSkipsWhitespace(ws, s);
  }

  /** A text without any decimal digit is `NaN`: the contrapositive of the
      contract of `ParseInt`. */
  lemma ParseIntWithoutDigits(s: string)
    requires forall i :: 0 <= i < |s| ==> !IsDigit(s[i])
    ensures ParseInt(s) == None
  {
  }

  // ---------------------------------------------------------------------
  // Every shape of input: leading whitespace, an optional sign, then a
  // decimal run, a hexadecimal run, or no number at all
  // ---------------------------------------------------------------------

  /** The sign `parseInt` accepts before the digits: none, `+` or `-`. */
  datatype Sign = Unsigned | Plus | Minus

  function SignText(sign: Sign): string {
    match sign
    case Unsigned => ""
    case Plus => "+"
    case Minus => "-"
  }

  /** `n` with the sign applied. */
  function Signed(sign: Sign, n: nat): int {
    if sign == Minus then -(n as int) else n as int
  }

  /** Leading whitespace up to a character that is not whitespace is what
      `trimStart` drops. */
  lemma TrimStartAfter(ws: string, x: string)
    requires AllWhitespace(ws)
    requires x == [] || !IsWhitespace(x[0])
    ensures TrimStart(ws + x) == x
  {
    TrimStartSkipsWhitespace(ws, x);
  }

  /** After the sign, the rest is read as a magnitude, negated for `-`. */
  lemma ParseSignedOf(sign: Sign, u: string)
    requires sign == Unsigned ==> u == [] || (u[0] != '+' && u[0] != '-')
    ensures ParseSigned(SignText(sign) + u)
         == if sign == Minus then Negate(ParseMagnitude(u)) else ParseMagnitude(u)
  {
    if sign != Unsigned {
      assert (SignText(sign) + u)[1..] == u;
    } else {
      assert SignText(sign) + u == u;
    }
  }

  /** Whitespace, a sign and a magnitude: `parseInt` skips the whitespace
      and applies the sign to the magnitude. */
  lemma ParseIntSigned(s: string, ws: string, sign: Sign, u: string)
    requires AllWhitespace(ws)
    requires sign == Unsigned ==> u == [] || (!IsWhitespace(u[0]) && u[0] != '+' && u[0] != '-')
    requires s == ws + (SignText(sign) + u)
    ensures ParseInt(s) == if sign == Minus then Negate(ParseMagnitude(u)) else ParseMagnitude(u)
  {
    var x := SignText(sign) + u;
    assert x == [] || !IsWhitespace(x[0]) by {
      if sign != Unsigned {
        assert x[0] == SignText(sign)[0];
      } else {
        assert x == u;
      }
    }
    TrimStartAfter(ws, x);
    ParseSignedOf(sign, u);
  }

  /** A magnitude that does not start with a digit reads as `NaN`. */
  lemma ParseMagnitudeNoDigit(u: string)
    requires u == [] || !IsDigit(u[0])
    ensures ParseMagnitude(u) == None
  {
  }

  /** `parseInt` of whitespace, a sign and a decimal run: the run is read
      whole, leading zeros included (`parseInt(" +007x")` is 7), up to a
      character that is not a digit, unless the run and what follows form
      a `0x` marker. */
  lemma ParseIntDecimal(s: string, ws: string, sign: Sign, ds: string, rest: string)
    requires AllWhitespace(ws)
    requires |ds| >= 1 && AllDigits(ds)
    requires rest == [] || !IsDigit(rest[0])
    requires !HexMarked(ds + rest)
    requires s == ws + (SignText(sign) + (ds + rest))
    ensures ParseInt(s) == Some(Signed(sign, Value(ds)))
  {
    var u := ds + rest;
    var m := ParseMagnitude(u);
    assert m == Some(Value(ds) as int) by {
      ParseMagnitudeDecimal(ds, rest);
    }
    assert ParseInt(s) == if sign == Minus then Negate(m) else m by {
      assert u[0] == ds[0];
      ParseIntSigned(s, ws, sign, u);
    }
    SignedMagnitude(sign, m, Value(ds));
  }

  /** Applying the sign to a magnitude that was read. */
  lemma SignedMagnitude(sign: Sign, m: Option<int>, n: nat)
    requires m == Some(n as int)
    ensures (if sign == Minus then Negate(m) else m) == Some(Signed(sign, n))
  {
  }

  /** A decimal run that does not begin a `0x` marker is read whole, up
      to the first character that is not a digit. */
  lemma ParseMagnitudeDecimal(ds: string, rest: string)
    requires |ds| >= 1 && AllDigits(ds)
    requires rest == [] || !IsDigit(rest[0])
    requires !HexMarked(ds + rest)
    ensures ParseMagnitude(ds + rest) == Some(Value(ds) as int)
  {
    DigitPrefixOfDigits(ds, rest);
  }

  /** `parseInt` of whitespace, a sign and a `0x` marker: the hexadecimal
      run after the marker is read and signed (`parseInt("-0x1A")` is
      -26), and an empty run is `NaN`. */
  lemma ParseIntSignedHex(s: string, ws: string, sign: Sign, u: string, hs: string, rest: string)
    requires AllWhitespace(ws)
    requires HexMarked(u) && u[2..] == hs + rest
    requires AllHexDigits(hs)
    requires rest == [] || !IsHexDigit(rest[0])
    requires s == ws + (SignText(sign) + u)
    ensures ParseInt(s) == if |hs| == 0 then None else Some(Signed(sign, HexValue(hs)))
  {
    var m := ParseMagnitude(u);
    assert m == if |hs| == 0 then None else Some(HexValue(hs) as int) by {
      ParseMagnitudeHex(u, hs, rest);
    }
    assert ParseInt(s) == if sign == Minus then Negate(m) else m by {
      ParseIntSigned(s, ws, sign, u);
    }
    if |hs| > 0 {
      SignedMagnitude(sign, m, HexValue(hs));
    }
  }

  /** `parseInt` of whitespace, a sign and then no digit is `NaN`:
      `parseInt("a1")`, `parseInt("-")` and `parseInt("+ 5")` all are. */
  lemma ParseIntNoNumber(s: string, ws: string, sign: Sign, u: string)
    requires AllWhitespace(ws)
    requires u == [] || !IsDigit(u[0])
    requires sign == Unsigned ==> u == [] || (!IsWhitespace(u[0]) && u[0] != '+' && u[0] != '-')
    requires s == ws + (SignText(sign) + u)
    ensures ParseInt(s) == None
  {
    ParseIntSigned(s, ws, sign, u);
    ParseMagnitudeNoDigit(u);
  }
}

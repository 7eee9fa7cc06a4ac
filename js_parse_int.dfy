/** JavaScript's global `parseInt(string)` called without a radix (section
    19.2.5 of ECMA-262), on integral results. */
module JsParseInt {
  import opened JsStrings

  /** A number `parseInt` can return: NaN or an integer. */
  datatype Number = NaN | Int(value: int)

  /** StrWhiteSpaceChar: the white space and line terminators that
      `parseInt` skips before the number. */
  predicate IsStrWhiteSpace(c: char) {
    var n := c as int;
    n == 0x09 || n == 0x0A || n == 0x0B || n == 0x0C || n == 0x0D || n == 0x20
    || n == 0xA0 || n == 0x1680 || (0x2000 <= n <= 0x200A) || n == 0x2028
    || n == 0x2029 || n == 0x202F || n == 0x205F || n == 0x3000 || n == 0xFEFF
  }

  function TrimStart(s: string): (r: string)
    ensures |r| <= |s| && r == s[|s| - |r|..]
    ensures forall i :: 0 <= i < |s| - |r| ==> IsStrWhiteSpace(s[i])
    ensures r == [] || !IsStrWhiteSpace(r[0])
  {
    if s != [] && IsStrWhiteSpace(s[0]) then
      var r := TrimStart(s[1..]);
      assert r == s[|s| - |r|..];
      assert forall i :: 1 <= i < |s| - |r| ==> s[i] == s[1..][i - 1];
      r
    else s
  }

  /** The value of `c` as a digit in base `radix` (10 or 16). */
  function DigitOf(c: char, radix: nat): (d: Option<nat>)
    ensures d.Some? ==> d.value < radix
  {
    if '0' <= c <= '9' && (c as int - '0' as int) < radix then Some(c as int - '0' as int)
    else if radix == 16 && 'a' <= c <= 'f' then Some(c as int - 'a' as int + 10)
    else if radix == 16 && 'A' <= c <= 'F' then Some(c as int - 'A' as int + 10)
    else None
  }

  predicate AllDigits(s: string, radix: nat) {
    forall i :: 0 <= i < |s| ==> DigitOf(s[i], radix).Some?
  }

  /** Length of the longest prefix of `s` made of digits in base `radix`. */
  function DigitRun(s: string, radix: nat): (n: nat)
    ensures n <= |s|
    ensures AllDigits(s[..n], radix)
    ensures n < |s| ==> DigitOf(s[n], radix).None?
  {
    if s == [] || DigitOf(s[0], radix).None? then 0
    else
      var k := DigitRun(s[1..], radix);
      assert s[..k + 1] == [s[0]] + s[1..][..k];
      k + 1
  }

  /** The value of a string of digits in base `radix`, most significant first. */
  function DigitsValue(s: string, radix: nat): nat
    requires AllDigits(s, radix)
  {
    if s == [] then 0
    else DigitsValue(s[..|s| - 1], radix) * radix + DigitOf(s[|s| - 1], radix).value
  }

  /** The magnitude parseInt reads after the sign: a `0x`/`0X` prefix selects
      base 16 (base 10 otherwise), then the longest run of digits is taken;
      no digits at all gives None (NaN). */
  function ParseMagnitude(u: string): Option<nat> {
    var hex := |u| >= 2 && u[0] == '0' && (u[1] == 'x' || u[1] == 'X');
    var radix := if hex then 16 else 10;
    var w := if hex then u[2..] else u;
    var n := DigitRun(w, radix);
    if n == 0 then None else Some(DigitsValue(w[..n], radix))
  }

  /** parseInt after the leading white space: an optional sign, then the
      magnitude. */
  function ParseSigned(t: string): Number {
    var negative := t != [] && t[0] == '-';
    var u := if t != [] && (t[0] == '-' || t[0] == '+') then t[1..] else t;
    match ParseMagnitude(u)
    case None => NaN
    case Some(m) =>
      var v: int := m;
      Int(if negative then -v else v)
  }

  /** parseInt(s): skip leading white space, then read a signed number. */
  function ParseInt(s: string): (r: Number)
    ensures TrimStart(s) == [] ==> r.NaN?
  {
    ParseSigned(TrimStart(s))
  }

  lemma {:induction false} DigitCharValue(d: nat)
    requires d < 10
    ensures DigitOf(DigitChar(d), 10) == Some(d)
  {
  }

  /** Decimal formatting and digit evaluation are inverse. */
  lemma {:induction false} DecimalValue(n: nat)
    ensures AllDigits(NatToDecimal(n), 10)
    ensures DigitsValue(NatToDecimal(n), 10) == n
  {
    var s := NatToDecimal(n);
    if n < 10 {
      DigitCharValue(n);
    } else {
      DecimalValue(n / 10);
      DigitCharValue(n % 10);
      assert s[..|s| - 1] == NatToDecimal(n / 10);
    }
  }

  lemma {:induction false} DigitRunAppend(digits: string, rest: string, radix: nat)
    requires AllDigits(digits, radix)
    requires rest == [] || DigitOf(rest[0], radix).None?
    ensures DigitRun(digits + rest, radix) == |digits|
  {
    if digits != [] {
      assert (digits + rest)[1..] == digits[1..] + rest;
      DigitRunAppend(digits[1..], rest, radix);
    }
  }

  lemma MagnitudeOfDecimal(m: nat, rest: string)
    requires rest == [] || (!IsDecimalDigit(rest[0]) && !(m == 0 && (rest[0] == 'x' || rest[0] == 'X')))
    ensures ParseMagnitude(NatToDecimal(m) + rest) == Some(m)
  {
    var digits := NatToDecimal(m);
    var u := digits + rest;
    DecimalValue(m);
    assert !(|u| >= 2 && u[0] == '0' && (u[1] == 'x' || u[1] == 'X')) by {
      if |u| >= 2 && u[0] == '0' {
        assert |digits| == 1;
        assert u[1] == rest[0];
      }
    }
    DigitRunAppend(digits, rest, 10);
    assert u[..|digits|] == digits;
  }

  /** parseInt reads back what String(n) writes, whatever white space comes
      before and whatever non-digit comes after, except that "0" followed by
      "x" or "X" starts a hexadecimal number. */
  lemma ParseIntRoundTrip(space: string, n: int, rest: string)
    requires forall i :: 0 <= i < |space| ==> IsStrWhiteSpace(space[i])
    requires rest == [] || (!IsDecimalDigit(rest[0]) && !(n == 0 && (rest[0] == 'x' || rest[0] == 'X')))
    ensures ParseInt(space + IntToDecimal(n) + rest) == Int(n)
  {
    var t := IntToDecimal(n) + rest;
    assert space + IntToDecimal(n) + rest == space + t;
    TrimStartSkipsSpace(space, t);
    SignedRoundTrip(n, rest);
  }

  lemma SignedRoundTrip(n: int, rest: string)
    requires rest == [] || (!IsDecimalDigit(rest[0]) && !(n == 0 && (rest[0] == 'x' || rest[0] == 'X')))
    ensures ParseSigned(IntToDecimal(n) + rest) == Int(n)
  {
    if n < 0 {
      NegativeRoundTrip(-n, rest);
      assert IntToDecimal(n) == "-" + NatToDecimal(-n);
    } else {
      var d := NatToDecimal(n) + rest;
      assert IntToDecimal(n) == NatToDecimal(n);
      assert IsDecimalDigit(d[0]);
      SignedOfUnsigned(d);
      MagnitudeOfDecimal(n, rest);
    }
  }

  lemma SignedOfUnsigned(d: string)
    requires d == [] || IsDecimalDigit(d[0])
    ensures ParseSigned(d) == match ParseMagnitude(d) case None => NaN case Some(m) => Int(m)
  {
  }

  lemma NegativeRoundTrip(m: nat, rest: string)
    requires m > 0
    requires rest == [] || !IsDecimalDigit(rest[0])
    ensures ParseSigned("-" + NatToDecimal(m) + rest) == Int(-(m as int))
  {
    var d := NatToDecimal(m) + rest;
    MagnitudeOfDecimal(m, rest);
    assert "-" + NatToDecimal(m) + rest == "-" + d;
    SignedOfMinus(d);
  }

  lemma SignedOfMinus(d: string)
    ensures ParseSigned("-" + d) == match ParseMagnitude(d) case None => NaN case Some(m) => Int(-(m as int))
  {
    assert ("-" + d)[1..] == d;
  }

  lemma {:induction false} TrimStartSkipsSpace(space: string, s: string)
    requires forall i :: 0 <= i < |space| ==> IsStrWhiteSpace(space[i])
    requires s == [] || !IsStrWhiteSpace(s[0])
    ensures TrimStart(space + s) == s
  {
    if space != [] {
      assert (space + s)[1..] == space[1..] + s;
      TrimStartSkipsSpace(space[1..], s);
    }
  }

  /** parseInt of any decimal text: white space, an optional sign, a
      non-empty run of decimal digits (leading zeros allowed) and a tail that
      does not continue the run; only "0" followed by "x" or "X" reads as a
      hexadecimal prefix instead. */
  lemma ParseIntOfDecimalText(space: string, sign: string, d: string, rest: string)
    requires forall i :: 0 <= i < |space| ==> IsStrWhiteSpace(space[i])
    requires sign == "" || sign == "+" || sign == "-"
    requires d != [] && AllDigits(d, 10)
    requires rest == [] || DigitOf(rest[0], 10).None?
    requires !(d == "0" && rest != [] && (rest[0] == 'x' || rest[0] == 'X'))
    ensures var m: int := DigitsValue(d, 10);
      ParseInt(space + sign + (d + rest)) == Int(if sign == "-" then -m else m)
  {
    ParseIntOfDigitStart(space, sign, d, rest);
    MagnitudeOfDigits(d, rest);
  }

  /** parseInt of any hexadecimal text: white space, an optional sign, "0x"
      or "0X", then a run of hexadecimal digits and a tail that does not
      continue it; an empty run gives NaN. */
  lemma ParseIntOfHexText(space: string, sign: string, x: char, h: string, rest: string)
    requires forall i :: 0 <= i < |space| ==> IsStrWhiteSpace(space[i])
    requires sign == "" || sign == "+" || sign == "-"
    requires x == 'x' || x == 'X'
    requires AllDigits(h, 16)
    requires rest == [] || DigitOf(rest[0], 16).None?
    ensures var m: int := DigitsValue(h, 16);
      ParseInt(space + sign + (['0', x] + (h + rest)))
        == if h == [] then NaN else Int(if sign == "-" then -m else m)
  {
    ParseIntOfHexPrefix(space, sign, x, h + rest);
    MagnitudeOfHex(x, h, rest);
  }

  lemma ParseIntOfDigitStart(space: string, sign: string, d: string, rest: string)
    requires forall i :: 0 <= i < |space| ==> IsStrWhiteSpace(space[i])
    requires sign == "" || sign == "+" || sign == "-"
    requires d != [] && DigitOf(d[0], 10).Some?
    ensures ParseInt(space + sign + (d + rest))
      == match ParseMagnitude(d + rest) case None => NaN case Some(m) => Int(if sign == "-" then -(m as int) else m)
  {
    var u := d + rest;
    assert IsDecimalDigit(u[0]) by {
      assert u[0] == d[0];
    }
    ParseIntOfSigned(space, sign, u);
  }

  lemma ParseIntOfHexPrefix(space: string, sign: string, x: char, w: string)
    requires forall i :: 0 <= i < |space| ==> IsStrWhiteSpace(space[i])
    requires sign == "" || sign == "+" || sign == "-"
    ensures ParseInt(space + sign + (['0', x] + w))
      == match ParseMagnitude(['0', x] + w) case None => NaN case Some(m) => Int(if sign == "-" then -(m as int) else m)
  {
    var u := ['0', x] + w;
    assert IsDecimalDigit(u[0]) by {
      assert u[0] == '0';
    }
    ParseIntOfSigned(space, sign, u);
  }

  /** White space, then a sign whose next character is a decimal digit. */
  lemma ParseIntOfSigned(space: string, sign: string, u: string)
    requires forall i :: 0 <= i < |space| ==> IsStrWhiteSpace(space[i])
    requires sign == "" || sign == "+" || sign == "-"
    requires u != [] && IsDecimalDigit(u[0])
    ensures ParseInt(space + sign + u)
      == match ParseMagnitude(u) case None => NaN case Some(m) => Int(if sign == "-" then -(m as int) else m)
  {
    var t := sign + u;
    assert space + sign + u == space + t;
    assert t[0] == '+' || t[0] == '-' || IsDecimalDigit(t[0]);
    TrimStartSkipsSpace(space, t);
    SignedOfSign(sign, u);
  }

  lemma MagnitudeOfDigits(d: string, rest: string)
    requires d != [] && AllDigits(d, 10)
    requires rest == [] || DigitOf(rest[0], 10).None?
    requires !(d == "0" && rest != [] && (rest[0] == 'x' || rest[0] == 'X'))
    ensures ParseMagnitude(d + rest) == Some(DigitsValue(d, 10))
  {
    var u := d + rest;
    assert !(|u| >= 2 && u[0] == '0' && (u[1] == 'x' || u[1] == 'X')) by {
      if |u| >= 2 && u[0] == '0' {
        if |d| >= 2 {
          assert u[1] == d[1] && DigitOf(d[1], 10).Some?;
        } else {
          assert d == "0";
          assert u[1] == rest[0];
        }
      }
    }
    DigitRunAppend(d, rest, 10);
    assert u[..|d|] == d;
  }

  lemma MagnitudeOfHex(x: char, h: string, rest: string)
    requires x == 'x' || x == 'X'
    requires AllDigits(h, 16)
    requires rest == [] || DigitOf(rest[0], 16).None?
    ensures ParseMagnitude(['0', x] + (h + rest)) == if h == [] then None else Some(DigitsValue(h, 16))
  {
    var u := ['0', x] + (h + rest);
    assert u[2..] == h + rest;
    DigitRunAppend(h, rest, 16);
    assert (h + rest)[..|h|] == h;
  }

  /** After an optional sign whose next character is a decimal digit,
      the sign applies to the magnitude. */
  lemma SignedOfSign(sign: string, u: string)
    requires sign == "" || sign == "+" || sign == "-"
    requires u != [] && IsDecimalDigit(u[0])
    ensures ParseSigned(sign + u)
      == match ParseMagnitude(u) case None => NaN case Some(m) => Int(if sign == "-" then -(m as int) else m)
  {
    if sign == "" {
      assert sign + u == u;
      SignedOfUnsigned(u);
    } else {
      assert (sign + u)[1..] == u;
    }
  }

  /** A text whose first character after white space and sign is not a digit
      parses to NaN; "undefined", the text of a missing body, is one. */
  lemma ParseIntNoDigits(s: string)
    requires var t := TrimStart(s);
      var u := if t != [] && (t[0] == '-' || t[0] == '+') then t[1..] else t;
      u == [] || !IsDecimalDigit(u[0])
    ensures ParseInt(s) == NaN
  {
    var t := TrimStart(s);
    var u := if t != [] && (t[0] == '-' || t[0] == '+') then t[1..] else t;
    MagnitudeOfNonDigit(u);
    assert ParseSigned(t) == NaN;
  }

  /** Without a leading digit there is neither a hexadecimal prefix nor a
      digit run, so no magnitude. */
  lemma MagnitudeOfNonDigit(u: string)
    requires u == [] || !IsDecimalDigit(u[0])
    ensures ParseMagnitude(u) == None
  {
    if u != [] {
      assert u[0] != '0';
      assert DigitOf(u[0], 10).None?;
    }
    assert DigitRun(u, 10) == 0;
  }

  lemma ParseIntOfUndefined()
    ensures ParseInt("undefined") == NaN
  {
    assert !IsStrWhiteSpace('u');
    TrimStartSkipsSpace("", "undefined");
    assert "" + "undefined" == "undefined";
    ParseIntNoDigits("undefined");
  }

  lemma ParseIntOfHexadecimal()
    ensures ParseInt("0x1A") == Int(26)
    ensures ParseInt("0x") == NaN
  {
    TrimStartSkipsSpace("", "0x1A");
    SignedOfUnsigned("0x1A");
    HexMagnitude();
    TrimStartSkipsSpace("", "0x");
    SignedOfUnsigned("0x");
    EmptyHexMagnitude();
  }

  lemma HexMagnitude()
    ensures ParseMagnitude("0x1A") == Some(26)
  {
    assert "0x1A"[2..] == "1A";
    assert AllDigits("1A", 16) by {
      assert DigitOf('1', 16).Some? && DigitOf('A', 16).Some?;
    }
    DigitRunAppend("1A", "", 16);
    assert "1A" + "" == "1A" && "1A"[..2] == "1A";
    assert "1A"[..1] == "1" && "1"[..0] == "";
    assert DigitsValue("1A", 16) == 26;
  }

  lemma EmptyHexMagnitude()
    ensures ParseMagnitude("0x") == None
  {
    assert "0x"[2..] == "";
  }

  lemma ParseIntStopsAtFirstNonDigit()
    ensures ParseInt(" \n-42 ms") == Int(-42)
  {
    assert " \n-42 ms" == " \n" + ("-" + (NatToDecimal(42) + " ms")) by {
      DecimalOf42();
    }
    assert IsStrWhiteSpace(' ') && IsStrWhiteSpace('\n');
    TrimStartSkipsSpace(" \n", "-" + (NatToDecimal(42) + " ms"));
    SignedOfMinus(NatToDecimal(42) + " ms");
    MagnitudeOfDecimal(42, " ms");
  }

  lemma DecimalOf42()
    ensures NatToDecimal(42) == "42"
  {
    assert NatToDecimal(4) == "4";
  }
}

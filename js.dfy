/** The JavaScript coercions the handlers rely on: truthiness of optional request fields,
    `x || fallback`, and the global `parseInt` with no radix argument. */
module Js {
  import opened Wrappers
  import Text

  /** The truthiness of an optional string field: `undefined`, `null` and `''` are falsy. */
  predicate Truthy(v: Option<string>) {
    v.Some? && v.value != ""
  }

  /** `v || fallback` for an optional string field. */
  function OrElse(v: Option<string>, fallback: string): string {
    if Truthy(v) then v.value else fallback
  }

  /** `v || null` for an optional string field: the empty string becomes null. */
  function OrNull(v: Option<string>): (r: Option<string>)
    ensures r.Some? <==> Truthy(v)
    ensures r.Some? ==> r == v
  {
    if Truthy(v) then v else None
  }

  // ---------------------------------------------------------------- parseInt

  predicate IsAlphaNumeric(c: char) {
    ('0' <= c <= '9') || ('a' <= c <= 'z') || ('A' <= c <= 'Z')
  }

  /** The value of a digit in radix 36: `0`-`9`, then `a`/`A` = 10 up to `z`/`Z` = 35. */
  function DigitValue(c: char): nat
    requires IsAlphaNumeric(c)
  {
    if '0' <= c <= '9' then c as int - '0' as int
    else if 'a' <= c <= 'z' then c as int - 'a' as int + 10
    else c as int - 'A' as int + 10
  }

  predicate IsDigit(c: char, radix: nat) {
    IsAlphaNumeric(c) && DigitValue(c) < radix
  }

  predicate AllDigits(s: string, radix: nat) {
    forall i :: 0 <= i < |s| ==> IsDigit(s[i], radix)
  }

  /** The longest prefix of `s` made of radix-`radix` digits. */
  function DigitPrefix(s: string, radix: nat): (r: string)
    ensures Text.IsPrefix(r, s)
    ensures AllDigits(r, radix)
    ensures |r| == |s| || !IsDigit(s[|r|], radix)
  {
    if s != [] && IsDigit(s[0], radix) then [s[0]] + DigitPrefix(s[1..], radix) else []
  }

  /** The number a digit string denotes, most significant digit first. */
  function ValueOf(ds: string, radix: nat): nat
    requires AllDigits(ds, radix)
  {
    if ds == [] then 0 else ValueOf(ds[..|ds| - 1], radix) * radix + DigitValue(ds[|ds| - 1])
  }

  /** The digits of `parseInt` after white space and sign: a `0x`/`0X` prefix switches to
      radix 16, then the longest run of digits is read. `None` when no digit follows. */
  function ParseUnsigned(u: string): Option<nat> {
    var hex := |u| >= 2 && u[0] == '0' && (u[1] == 'x' || u[1] == 'X');
    var radix := if hex then 16 else 10;
    var digits := DigitPrefix(if hex then u[2..] else u, radix);
    if digits == [] then None else Some(ValueOf(digits, radix))
  }

  /** `parseInt` after the leading white space: an optional sign, then the digits. */
  function ParseSigned(t: string): Option<int> {
    var negative := t != [] && t[0] == '-';
    var u := if t != [] && (t[0] == '-' || t[0] == '+') then t[1..] else t;
    match ParseUnsigned(u)
    case None => None
    case Some(n) => var v: int := n; if negative then Some(-v) else Some(v)
  }

  /** `parseInt(s)`: skip leading white space, take an optional sign, then read the digits.
      `None` is `NaN`, the result when no digit follows. */
  function ParseInt(s: string): Option<int> {
    ParseSigned(Text.TrimStart(s))
  }

  /** `parseInt(v)` for an optional field. `parseInt(undefined)` and `parseInt(null)` read
      the strings "undefined" and "null", which hold no digit (`ParseIntOfMissing`). */
  function ParseField(v: Option<string>): Option<int> {
    match v
    case None => None
    case Some(s) => ParseInt(s)
  }

  // ----------------------------------------------------- integers as strings

  function DigitChar(d: nat): (c: char)
    requires d < 10
    ensures IsDigit(c, 10) && DigitValue(c) == d
  {
    ('0' as int + d) as char
  }

  /** The decimal digits of `n`, most significant first, with no leading zero. */
  function DecimalDigits(n: nat): (r: string)
    ensures |r| >= 1 && AllDigits(r, 10)
    ensures |r| >= 2 ==> r[0] != '0'
  {
    if n < 10 then [DigitChar(n)] else DecimalDigits(n / 10) + [DigitChar(n % 10)]
  }

  /** `String(i)` for an integral JavaScript number. */
  function IntToString(i: int): string {
    if i < 0 then "-" + DecimalDigits(-i) else DecimalDigits(i)
  }

  lemma AllDigitsAppend(a: string, b: string, radix: nat)
    requires AllDigits(a, radix) && AllDigits(b, radix)
    ensures AllDigits(a + b, radix)
  {
  }

  /** A leading zero does not change the value of a digit string. */
  lemma {:induction false} ValueOfLeadingZero(ds: string)
    requires AllDigits(ds, 10)
    ensures AllDigits("0" + ds, 10)
    ensures ValueOf("0" + ds, 10) == ValueOf(ds, 10)
  {
    var z := "0" + ds;
    if ds != [] {
      assert z[..|z| - 1] == "0" + ds[..|ds| - 1];
      ValueOfLeadingZero(ds[..|ds| - 1]);
    }
  }

  lemma {:induction false} ValueOfDecimalDigits(n: nat)
    ensures ValueOf(DecimalDigits(n), 10) == n
  {
    if n >= 10 {
      var ds := DecimalDigits(n);
      assert ds[..|ds| - 1] == DecimalDigits(n / 10);
      ValueOfDecimalDigits(n / 10);
    }
  }

  lemma {:induction false} DigitPrefixOfDigits(ds: string, rest: string, radix: nat)
    requires AllDigits(ds, radix)
    requires rest == [] || !IsDigit(rest[0], radix)
    ensures DigitPrefix(ds + rest, radix) == ds
  {
    if ds != [] {
      assert (ds + rest)[1..] == ds[1..] + rest;
      DigitPrefixOfDigits(ds[1..], rest, radix);
    }
  }

  lemma {:induction false} TrimStartAfterSpace(ws: string, s: string)
    requires Text.AllSpace(ws)
    requires s == [] || !Text.IsSpace(s[0])
    ensures Text.TrimStart(ws + s) == s
  {
    if ws != [] {
      assert (ws + s)[1..] == ws[1..] + s;
      TrimStartAfterSpace(ws[1..], s);
    } else {
      assert ws + s == s;
    }
  }

  lemma ParseUnsignedDecimal(n: nat, rest: string)
    requires rest == [] || !IsDigit(rest[0], 10)
    requires n == 0 && rest != [] ==> rest[0] != 'x' && rest[0] != 'X'
    ensures ParseUnsigned(DecimalDigits(n) + rest) == Some(n)
  {
    var ds := DecimalDigits(n);
    var u := ds + rest;
    ValueOfDecimalDigits(n);
    if |u| >= 2 && u[0] == '0' {
      assert |ds| == 1 && ds[0] == '0';
      assert u[1] == rest[0];
    }
    DigitPrefixOfDigits(ds, rest, 10);
  }

  lemma ParseSignedNegative(n: nat, u: string)
    requires n > 0 && ParseUnsigned(u) == Some(n)
    ensures ParseSigned("-" + u) == Some(-(n as int))
  {
    var x := "-" + u;
    assert x[0] == '-' && x[1..] == u;
  }

  lemma ParseSignedUnsigned(n: nat, u: string)
    requires u != [] && IsDigit(u[0], 10) && ParseUnsigned(u) == Some(n)
    ensures ParseSigned(u) == Some(n)
  {
  }

  lemma ParseSignedToString(i: int, rest: string)
    requires rest == [] || !IsDigit(rest[0], 10)
    requires i == 0 && rest != [] ==> rest[0] != 'x' && rest[0] != 'X'
    ensures ParseSigned(IntToString(i) + rest) == Some(i)
  {
    if i < 0 {
      NegativeToString(-i, rest);
    } else {
      NonNegativeToString(i, rest);
    }
  }

  lemma NegativeToString(n: nat, rest: string)
    requires n > 0
    requires rest == [] || !IsDigit(rest[0], 10)
    ensures ParseSigned(IntToString(-(n as int)) + rest) == Some(-(n as int))
  {
    var u := DecimalDigits(n) + rest;
    ParseUnsignedDecimal(n, rest);
    assert IntToString(-(n as int)) + rest == "-" + u;
    ParseSignedNegative(n, u);
  }

  lemma NonNegativeToString(n: nat, rest: string)
    requires rest == [] || !IsDigit(rest[0], 10)
    requires n == 0 && rest != [] ==> rest[0] != 'x' && rest[0] != 'X'
    ensures ParseSigned(IntToString(n) + rest) == Some(n)
  {
    var x := DecimalDigits(n) + rest;
    ParseUnsignedDecimal(n, rest);
    assert IntToString(n) + rest == x;
    assert DecimalDigits(n)[0] == x[0];
    ParseSignedUnsigned(n, x);
  }

  /** `parseInt` reads back what `String` writes for an integer, after any leading white
      space and up to the first character that cannot continue the number. The one
      exception is `0` followed by `x`/`X`, which `parseInt` takes as a hexadecimal prefix. */
  lemma ParseIntToString(ws: string, i: int, rest: string)
    requires Text.AllSpace(ws)
    requires rest == [] || !IsDigit(rest[0], 10)
    requires i == 0 && rest != [] ==> rest[0] != 'x' && rest[0] != 'X'
    ensures ParseInt(ws + IntToString(i) + rest) == Some(i)
  {
    var x := IntToString(i) + rest;
    assert ws + IntToString(i) + rest == ws + x;
    assert x[0] == '-' || IsDigit(x[0], 10);
    TrimStartAfterSpace(ws, x);
    ParseSignedToString(i, rest);
  }

  /** Without a digit after the optional sign, `parseInt` is `NaN`. */
  lemma ParseIntNoDigit(ws: string, sign: string, rest: string)
    requires Text.AllSpace(ws)
    requires sign == "" || sign == "-" || sign == "+"
    requires rest == [] || (!IsDigit(rest[0], 10) && !Text.IsSpace(rest[0]) && rest[0] != '-' && rest[0] != '+')
    ensures ParseInt(ws + sign + rest) == None
  {
    var x := sign + rest;
    assert ws + sign + rest == ws + x;
    TrimStartAfterSpace(ws, x);
    var u := if x != [] && (x[0] == '-' || x[0] == '+') then x[1..] else x;
    assert u == rest;
    assert DigitPrefix(rest, 10) == [];
    assert !(|rest| >= 2 && rest[0] == '0');
  }

  /** `parseInt(undefined)` and `parseInt(null)` are `NaN`: `ParseField` is `parseInt`
      applied to the field as JavaScript turns it into a string. */
  lemma ParseIntOfMissing()
    ensures ParseInt("undefined") == None && ParseInt("null") == None
    ensures ParseField(None) == ParseInt("undefined")
  {
    TrimStartAfterSpace("", "undefined");
    TrimStartAfterSpace("", "null");
    assert "" + "undefined" == "undefined";
    assert "" + "null" == "null";
  }
}

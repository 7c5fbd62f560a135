/**
 * Integers as the codec writes and reads them. Coordinates and edge indices
 * are printed in decimal with a leading `-` for negatives. They are read back
 * by JavaScript's `parseInt` and `parseFloat`, which skip leading whitespace,
 * take an optional sign, read the longest run of digits and ignore whatever
 * follows; `parseInt` also reads hexadecimal after a `0x` or `0X` prefix.
 */
module Decimal {
  import opened Text

  predicate IsDigit(c: char) { '0' <= c <= '9' }

  predicate IsHexDigit(c: char) { IsDigit(c) || ('a' <= c <= 'f') || ('A' <= c <= 'F') }

  /** The characters a printed integer is made of. */
  predicate IsNumeralChar(c: char) { IsDigit(c) || c == '-' }

  function DigitChar(d: nat): (c: char)
    requires d < 10
    ensures IsDigit(c) && DigitValue(c) == d
  {
    "0123456789"[d]
  }

  /** The value of a hexadecimal digit; only digits are ever read with it,
      so any other character is given 0. */
  function DigitValue(c: char): nat {
    if IsDigit(c) then (c as int - '0' as int) as nat
    else if 'a' <= c <= 'f' then (c as int - 'a' as int + 10) as nat
    else if 'A' <= c <= 'F' then (c as int - 'A' as int + 10) as nat
    else 0
  }

  /** Decimal digits of `n`, most significant first, without leading zeros. */
  function NatToString(n: nat): (r: string)
    ensures |r| >= 1 && All(r, IsDigit)
    ensures |r| > 1 ==> r[0] != '0'
  {
    if n < 10 then [DigitChar(n)] else NatToString(n / 10) + [DigitChar(n % 10)]
  }

  /** JavaScript's rendering of an integral number. */
  function IntToString(n: int): (r: string)
    ensures |r| >= 1 && All(r, IsNumeralChar)
    ensures IsDigit(r[|r| - 1])
    ensures r[0] == '-' <==> n < 0
  {
    if n < 0 then "-" + NatToString(-n) else NatToString(n)
  }

  /** Value of a non-empty digit string in the given base. */
  function DigitsValue(s: string, base: nat): nat
    requires |s| >= 1
  {
    if |s| == 1 then DigitValue(s[0])
    else DigitsValue(s[..|s| - 1], base) * base + DigitValue(s[|s| - 1])
  }

  /** The longest run of digits of `isDigit` at the start of `u`, read in
      `base`; `None` when there is none. */
  function DigitPrefix(u: string, isDigit: char -> bool, base: nat): (r: Option<nat>) {
    var d := Span(u, isDigit);
    if d == 0 then None else Some(DigitsValue(u[..d], base))
  }

  /** Text after leading whitespace, without its sign. */
  function Unsigned(s: string): string {
    var t := TrimStart(s);
    if |t| > 0 && (t[0] == '-' || t[0] == '+') then t[1..] else t
  }

  /** Whether the sign after leading whitespace is `-`. */
  predicate Negative(s: string) {
    var t := TrimStart(s);
    |t| > 0 && t[0] == '-'
  }

  function Signed(mag: Option<nat>, neg: bool): Option<int> {
    if mag.None? then None else Some(if neg then -(mag.value as int) else mag.value as int)
  }

  predicate HasHexPrefix(u: string) { |u| >= 2 && u[0] == '0' && (u[1] == 'x' || u[1] == 'X') }

  /** JavaScript's `parseInt` without a radix; `None` stands for `NaN`. */
  function JsParseInt(s: string): Option<int> {
    var u := Unsigned(s);
    if HasHexPrefix(u) then Signed(DigitPrefix(u[2..], IsHexDigit, 16), Negative(s))
    else Signed(DigitPrefix(u, IsDigit, 10), Negative(s))
  }

  /** JavaScript's `parseFloat`, on the integral numerals the codec writes:
      whitespace, sign and the run of decimal digits. */
  function JsParseFloat(s: string): Option<int> {
    Signed(DigitPrefix(Unsigned(s), IsDigit, 10), Negative(s))
  }

  lemma {:induction false} DigitsOfNat(n: nat)
    ensures DigitsValue(NatToString(n), 10) == n
  {
    if n >= 10 {
      var s := NatToString(n);
      DigitsOfNat(n / 10);
      assert s[..|s| - 1] == NatToString(n / 10);
    }
  }

  /** The digit run of a printed natural number ends where the number ends,
      whatever non-digit follows it. */
  lemma NatPrefix(n: nat, rest: string)
    requires rest == [] || !IsDigit(rest[0])
    ensures DigitPrefix(NatToString(n) + rest, IsDigit, 10) == Some(n)
  {
    var ds := NatToString(n);
    var u := ds + rest;
    forall i | 0 <= i < |ds| ensures IsDigit(u[i]) {
      assert u[i] == ds[i];
    }
    if |rest| > 0 { assert u[|ds|] == rest[0]; }
    SpanIs(u, IsDigit, |ds|);
    assert u[..|ds|] == ds;
    DigitsOfNat(n);
  }

  lemma NoLeadingWs(s: string)
    requires |s| > 0 && !IsWs(s[0])
    ensures TrimStart(s) == s
  {
    SpanIs(s, IsWs, 0);
  }

  /** A printed integer starts with a digit or `-`, never with whitespace. */
  lemma PrintedStart(n: int, rest: string)
    ensures TrimStart(IntToString(n) + rest) == IntToString(n) + rest
  {
    var s := IntToString(n) + rest;
    assert s[0] == IntToString(n)[0];
    NoLeadingWs(s);
  }

  /** The sign and the digits of a printed integer. */
  lemma PrintedUnsigned(n: int, rest: string)
    ensures Unsigned(IntToString(n) + rest) == NatToString(if n < 0 then -n else n) + rest
    ensures Negative(IntToString(n) + rest) <==> n < 0
  {
    var s := IntToString(n) + rest;
    PrintedStart(n, rest);
    if n < 0 {
      assert s[1..] == NatToString(-n) + rest;
    } else {
      assert s[0] == NatToString(n)[0];
    }
  }

  /** `parseInt` reads a printed integer back, whatever follows it unless that
      continues the number: a digit, or an `x` that turns a leading `0` into a
      hexadecimal prefix. */
  lemma JsParseIntOfString(n: int, rest: string)
    requires rest == [] || (!IsDigit(rest[0]) && rest[0] != 'x' && rest[0] != 'X')
    ensures JsParseInt(IntToString(n) + rest) == Some(n)
  {
    var m: nat := if n < 0 then -n else n;
    PrintedUnsigned(n, rest);
    var u := NatToString(m) + rest;
    if |NatToString(m)| > 1 {
      assert u[0] == NatToString(m)[0];
      assert u[1] == NatToString(m)[1];
    } else if |rest| > 0 {
      assert u[1] == rest[0];
    }
    assert !HasHexPrefix(u);
    NatPrefix(m, rest);
  }

  /** `parseFloat` reads a printed integer back. */
  lemma JsParseFloatOfString(n: int)
    ensures JsParseFloat(IntToString(n)) == Some(n)
  {
    var m: nat := if n < 0 then -n else n;
    PrintedUnsigned(n, "");
    assert IntToString(n) + "" == IntToString(n);
    NatPrefix(m, "");
    assert NatToString(m) + "" == NatToString(m);
  }

  /** Both parsers skip leading whitespace. */
  lemma ParseSkipsWs(w: char, s: string)
    requires IsWs(w)
    ensures JsParseInt([w] + s) == JsParseInt(s)
    ensures JsParseFloat([w] + s) == JsParseFloat(s)
  {
    var ws := [w] + s;
    assert ws[1..] == s;
    assert Span(ws, IsWs) == 1 + Span(s, IsWs);
    assert ws[1 + Span(s, IsWs)..] == s[Span(s, IsWs)..];
    assert TrimStart(ws) == TrimStart(s);
  }

  /** Both parsers fail exactly when no digit follows the whitespace and sign. */
  lemma ParseFails(s: string)
    ensures JsParseFloat(s).None? <==> (Unsigned(s) == [] || !IsDigit(Unsigned(s)[0]))
    ensures !HasHexPrefix(Unsigned(s)) ==> JsParseInt(s) == JsParseFloat(s)
  {
  }

  /** A printed integer holds no separator of the wire-schema grammar. */
  lemma NumeralHasNo(n: int, c: char)
    requires !IsNumeralChar(c)
    ensures c !in IntToString(n)
  {
    NotInAll(IntToString(n), IsNumeralChar, c);
  }
}

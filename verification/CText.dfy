/** C strings: what a buffer of a given size keeps of a text, and decimal numbers in text. */
module CText {
  const LONG_MAX: int := 0x7fff_ffff_ffff_ffff
  const LONG_MIN: int := -0x8000_0000_0000_0000

  // What snprintf(buf, size, "%s", s) leaves in buf.
  function Clip(s: string, size: nat): (r: string)
    requires size > 0
    ensures r <= s && |r| < size
    ensures |s| < size ==> r == s
    ensures |s| >= size ==> |r| == size - 1
  {
    if |s| < size then s else s[..size - 1]
  }

  predicate IsSpace(c: char) {
    c == ' ' || '\t' <= c <= '\r'
  }

  predicate IsDigit(c: char) {
    '0' <= c <= '9'
  }

  predicate AllDigits(s: string) {
    forall i :: 0 <= i < |s| ==> IsDigit(s[i])
  }

  function Digit(d: nat): (c: char)
    requires d < 10
    ensures IsDigit(c)
  {
    '0' + d as char
  }

  function DigitValue(c: char): (d: nat)
    requires IsDigit(c)
    ensures d < 10
  {
    c as int - '0' as int
  }

  // printf's %llu
  function PrintNat(n: nat): (s: string)
    ensures s != "" && AllDigits(s)
  {
    if n < 10 then [Digit(n)] else PrintNat(n / 10) + [Digit(n % 10)]
  }

  // printf's %lld
  function PrintInt(n: int): string {
    if n < 0 then "-" + PrintNat(-n) else PrintNat(n)
  }

  // The number a run of decimal digits denotes.
  function DigitsValue(s: string): nat
    requires AllDigits(s)
  {
    if s == "" then 0 else 10 * DigitsValue(s[..|s| - 1]) + DigitValue(s[|s| - 1])
  }

  // The length of the longest prefix of digits.
  function DigitRun(s: string): (n: nat)
    ensures n <= |s| && AllDigits(s[..n])
    ensures n < |s| ==> !IsDigit(s[n])
  {
    if s == "" || !IsDigit(s[0]) then 0 else
    var n := 1 + DigitRun(s[1..]);
    assert forall i :: 1 <= i < n ==> s[i] == s[1..][..n - 1][i - 1];
    n
  }

  function SkipSpace(s: string): string {
    if s != "" && IsSpace(s[0]) then SkipSpace(s[1..]) else s
  }

  // A number read from the front of a text, and the text after it.
  datatype Scan = Scan(value: int, rest: string)

  function Saturate(v: int): int {
    if v > LONG_MAX then LONG_MAX else if v < LONG_MIN then LONG_MIN else v
  }

  // strtol(s, &end, 10): white space, an optional sign, digits; out-of-range values saturate,
  // and with no digits the value is 0 and end stays at s.
  function Strtol(s: string): Scan {
    var t := SkipSpace(s);
    var signed := t != "" && (t[0] == '-' || t[0] == '+');
    var u := if signed then t[1..] else t;
    var n := DigitRun(u);
    if n == 0 then Scan(0, s)
    else
      var magnitude: int := DigitsValue(u[..n]);
      Scan(Saturate(if signed && t[0] == '-' then -magnitude else magnitude), u[n..])
  }

  lemma {:induction false} PrintedValue(n: nat)
    ensures DigitsValue(PrintNat(n)) == n
  {
    if n < 10 {
      assert PrintNat(n)[..0] == "";
    } else {
      PrintedValue(n / 10);
      var s := PrintNat(n);
      assert s[..|s| - 1] == PrintNat(n / 10);
    }
  }

  lemma {:induction false} DigitRunStops(digits: string, rest: string)
    requires AllDigits(digits)
    requires rest == "" || !IsDigit(rest[0])
    ensures DigitRun(digits + rest) == |digits|
  {
    var s := digits + rest;
    if digits == "" {
      assert s == rest;
    } else {
      assert s[1..] == digits[1..] + rest;
      assert AllDigits(digits[1..]);
      DigitRunStops(digits[1..], rest);
    }
  }

  // The printed form is decimal, most significant digit first.
  lemma PrintAppendsDigit(n: nat, d: nat)
    requires d < 10
    ensures PrintNat(10 * n + d) == (if n == 0 then "" else PrintNat(n)) + ["0123456789"[d]]
  {
    assert (10 * n + d) / 10 == n && (10 * n + d) % 10 == d;
  }

  lemma {:induction false} SpaceSkipped(space: string, s: string)
    requires forall i :: 0 <= i < |space| ==> space[i] == ' ' || '\t' <= space[i] <= '\r'
    requires s == "" || !IsSpace(s[0])
    ensures SkipSpace(space + s) == s
  {
    if space == "" {
      assert space + s == s;
    } else {
      assert (space + s)[1..] == space[1..] + s;
      SpaceSkipped(space[1..], s);
    }
  }

  // What strtol makes of white space, a sign and a number: the number with its sign, or the end of
  // the range it is past, and the text where the digits stop.
  lemma ScanExactly(space: string, sign: string, n: nat, rest: string)
    requires forall i :: 0 <= i < |space| ==> space[i] == ' ' || '\t' <= space[i] <= '\r'
    requires sign == "" || sign == "+" || sign == "-"
    requires rest == "" || !('0' <= rest[0] <= '9')
    ensures var value := if sign == "-" then 0 - n else n;
            Strtol(space + (sign + (PrintNat(n) + rest))) ==
            Scan(if value > 0x7fff_ffff_ffff_ffff then 0x7fff_ffff_ffff_ffff
                 else if value < -0x8000_0000_0000_0000 then -0x8000_0000_0000_0000
                 else value, rest)
  {
    var digits := PrintNat(n);
    var u := digits + rest;
    var t := sign + u;
    assert IsDigit(u[0]);
    assert sign == "" ==> t == u;
    assert sign != "" ==> t[0] == sign[0] && t[1..] == u;
    SpaceSkipped(space, t);
    DigitRunStops(digits, rest);
    assert u[..|digits|] == digits && u[|digits|..] == rest;
    PrintedValue(n);
  }

  // Without a digit there it reads nothing.
  lemma NothingScanned(space: string, sign: string, rest: string)
    requires forall i :: 0 <= i < |space| ==> space[i] == ' ' || '\t' <= space[i] <= '\r'
    requires sign == "" || sign == "+" || sign == "-"
    requires sign == "" && rest != "" ==> !IsSpace(rest[0]) && rest[0] != '+' && rest[0] != '-'
    requires rest == "" || !('0' <= rest[0] <= '9')
    ensures Strtol(space + (sign + rest)) == Scan(0, space + (sign + rest))
  {
    var t := sign + rest;
    assert sign == "" ==> t == rest;
    assert sign != "" ==> t[0] == sign[0] && t[1..] == rest;
    SpaceSkipped(space, t);
  }

  // strtol undoes %lld, and stops where the digits stop.
  lemma ScanUndoesPrintInt(n: int, rest: string)
    requires -0x8000_0000_0000_0000 <= n <= 0x7fff_ffff_ffff_ffff
    requires rest == "" || !('0' <= rest[0] <= '9')
    ensures Strtol(PrintInt(n) + rest) == Scan(n, rest)
  {
    var sign, m := if n < 0 then "-" else "", if n < 0 then -n else n;
    assert PrintInt(n) + rest == "" + (sign + (PrintNat(m) + rest));
    ScanExactly("", sign, m, rest);
  }

  // strtol undoes %llu, and stops where the digits stop.
  lemma ScanUndoesPrint(n: nat, rest: string)
    requires n <= LONG_MAX
    requires rest == "" || !IsDigit(rest[0])
    ensures Strtol(PrintNat(n) + rest) == Scan(n, rest)
  {
    var s := PrintNat(n) + rest;
    assert IsDigit(s[0]);
    assert SkipSpace(s) == s;
    DigitRunStops(PrintNat(n), rest);
    assert s[..|PrintNat(n)|] == PrintNat(n);
    assert s[|PrintNat(n)|..] == rest;
    PrintedValue(n);
  }
}

/** When a schedule expression fires next, and the expression the scheduler writes for an interval. */
module CronExpr {
  import opened Wrappers
  import opened CText
  import opened Widths

  // What the unit after the number of an "every:" expression multiplies by.
  function UnitSeconds(rest: string): int {
    if rest != "" && rest[0] == 'm' then 60
    else if rest != "" && rest[0] == 'h' then 3600
    else 1
  }

  // nc_cron_next_run. The time stamp of an "at:" expression comes from strptime and mktime;
  // parseAt stands for the pair and gives a value that is not positive where either fails.
  function NextRun(parseAt: string -> int, expr: string, after: int): Option<int> {
    if "every:" <= expr then
      var scan := Strtol(expr[6..]);
      if scan.value <= 0 then None else Some(after + scan.value * UnitSeconds(scan.rest))
    else if "at:" <= expr then
      var ts := parseAt(expr[3..]);
      if ts > 0 then Some(ts) else None
    else
      Some(after + 60)
  }

  // The text sched_expr rebuilds for an interval: the largest unit that divides it exactly,
  // otherwise whole seconds.
  function IntervalExpr(everyMs: Uint64): string {
    if everyMs % 3600000 == 0 then "every:" + PrintNat(everyMs / 3600000) + "h"
    else if everyMs % 60000 == 0 then "every:" + PrintNat(everyMs / 60000) + "m"
    else "every:" + PrintNat(everyMs / 1000) + "s"
  }

  // An interval's text, split into the count and the unit.
  function IntervalCount(everyMs: Uint64): nat {
    if everyMs % 3600000 == 0 then everyMs / 3600000
    else if everyMs % 60000 == 0 then everyMs / 60000
    else everyMs / 1000
  }

  function IntervalUnit(everyMs: Uint64): string {
    if everyMs % 3600000 == 0 then "h" else if everyMs % 60000 == 0 then "m" else "s"
  }

  lemma IntervalSeconds(everyMs: Uint64)
    ensures IntervalCount(everyMs) * UnitSeconds(IntervalUnit(everyMs)) == everyMs / 1000
    ensures IntervalCount(everyMs) <= TWO_TO_64 / 1000
  {
  }

  lemma AfterPrefix(p: string, a: string, b: string)
    ensures (p + a + b)[|p|..] == a + b
  {
  }

  lemma TextScan(n: nat, unit: string)
    requires n <= LONG_MAX && (unit == "" || !IsDigit(unit[0]))
    ensures Strtol(("every:" + PrintNat(n) + unit)[6..]) == Scan(n, unit)
  {
    ScanUndoesPrint(n, unit);
    AfterPrefix("every:", PrintNat(n), unit);
  }

  // The count and unit an interval's text is read back as.
  lemma IntervalScan(everyMs: Uint64)
    ensures IntervalExpr(everyMs) == "every:" + PrintNat(IntervalCount(everyMs)) + IntervalUnit(everyMs)
    ensures Strtol(IntervalExpr(everyMs)[6..]) == Scan(IntervalCount(everyMs), IntervalUnit(everyMs))
  {
    IntervalSeconds(everyMs);
    TextScan(IntervalCount(everyMs), IntervalUnit(everyMs));
  }

  // Printing an interval and reading it back is exact to the second for every 64-bit interval
  // of at least a second; a shorter one is rejected. The text fits the 32-byte buffer, and
  // neither the multiplication nor (for a clock not near the end of its range) the addition
  // leaves the range of a signed 64-bit integer.
  lemma IntervalRoundTrip(parseAt: string -> int, everyMs: Uint64, after: int)
    ensures NextRun(parseAt, IntervalExpr(everyMs), after) ==
            if everyMs >= 1000 then Some(after + everyMs / 1000) else None
    ensures var scan := Strtol(IntervalExpr(everyMs)[6..]);
            0 <= scan.value * UnitSeconds(scan.rest) <= LONG_MAX
    ensures 0 <= after <= LONG_MAX - TWO_TO_64 / 1000 ==> after + everyMs / 1000 <= LONG_MAX
    ensures |IntervalExpr(everyMs)| < 32
  {
    IntervalScan(everyMs);
    IntervalSeconds(everyMs);
    var n, unit := IntervalCount(everyMs), IntervalUnit(everyMs);
    assert IntervalExpr(everyMs)[..6] == "every:";
    assert n == 0 <==> everyMs / 1000 == 0;
    assert n < Pow10(17) by { assert Pow10(5) == 100000 && Pow10(10) == 10000000000 && Pow10(14) == 100000000000000; }
    PrintLength(n, 17);
  }

  // A user's own "every:" text: a positive number of seconds, minutes or hours from now on, any other
  // letter, or none, standing for seconds; zero or a negative number is refused.
  lemma {:induction false} EveryTextExactly(parseAt: string -> int, negative: bool, n: nat, unit: string, after: int)
    requires n <= LONG_MAX && (unit == "" || !('0' <= unit[0] <= '9'))
    ensures NextRun(parseAt, "every:" + ((if negative then "-" else "") + (PrintNat(n) + unit)), after) ==
            if n == 0 || negative then None
            else if unit != "" && unit[0] == 'm' then Some(after + 60 * n)
            else if unit != "" && unit[0] == 'h' then Some(after + 3600 * n)
            else Some(after + n)
  {
    SignedScan(negative, n, unit);
    UnitTimes(n, unit);
    EveryTextNext(parseAt, (if negative then "-" else "") + (PrintNat(n) + unit), after);
  }

  lemma UnitTimes(n: nat, unit: string)
    ensures n * UnitSeconds(unit) ==
            if unit != "" && unit[0] == 'm' then 60 * n else if unit != "" && unit[0] == 'h' then 3600 * n else n
  {
  }

  lemma SignedScan(negative: bool, n: nat, unit: string)
    requires n <= LONG_MAX && (unit == "" || !('0' <= unit[0] <= '9'))
    ensures Strtol((if negative then "-" else "") + (PrintNat(n) + unit)) == Scan(if negative then 0 - n else n, unit)
  {
    var sign := if negative then "-" else "";
    ScanExactly("", sign, n, unit);
    assert "" + (sign + (PrintNat(n) + unit)) == sign + (PrintNat(n) + unit);
  }

  lemma EveryTextNext(parseAt: string -> int, text: string, after: int)
    ensures var scan := Strtol(text);
            NextRun(parseAt, "every:" + text, after) ==
            if scan.value <= 0 then None else Some(after + scan.value * UnitSeconds(scan.rest))
  {
    assert ("every:" + text)[6..] == text;
    assert ("every:" + text)[..6] == "every:";
  }

  function Pow10(k: nat): nat {
    if k == 0 then 1 else 10 * Pow10(k - 1)
  }

  lemma {:induction false} PrintLength(n: nat, k: nat)
    requires k >= 1 && n < Pow10(k)
    ensures |PrintNat(n)| <= k
  {
    if n >= 10 {
      assert k >= 2;
      PrintLength(n / 10, k - 1);
    }
  }
}

/** How the dynamic buffer grows: capacities, the doubling loop, and the cost of a whole run. */
module BufferGrowth {
  import opened Powers
  import opened Widths

  const FIRST := 256

  // 256 * 2^k, up to 2^63
  ghost predicate Capacity(c: nat) {
    exists k: nat :: k <= 55 && c == FIRST * Pow2(k)
  }

  lemma LargestCapacity()
    ensures FIRST * Pow2(55) == TWO_TO_63
  {
    WordSizes();
  }

  lemma CapacityDoubles(c: nat)
    requires Capacity(c)
    ensures FIRST <= c <= TWO_TO_63
    ensures c < TWO_TO_63 ==> Capacity(2 * c) && 2 * c <= TWO_TO_63
  {
    var k: nat :| k <= 55 && c == FIRST * Pow2(k);
    LargestCapacity();
    Pow2Monotone(k, 55);
    if k < 55 {
      assert 2 * c == FIRST * Pow2(k + 1);
      Pow2Monotone(k + 1, 55);
    }
  }

  lemma FirstCapacity()
    ensures Capacity(FIRST)
  {
    assert FIRST == FIRST * Pow2(0);
  }

  // ---- The doubling loop, in size_t ----

  // new_cap after n rounds of new_cap *= 2
  function Doubled(c: nat, n: nat): nat {
    if n == 0 then c else (2 * Doubled(c, n - 1)) % TWO_TO_64
  }

  lemma {:induction false} DoubledIs(k: nat, n: nat)
    requires k <= 55
    ensures Doubled(FIRST * Pow2(k), n) == if k + n <= 55 then FIRST * Pow2(k + n) else 0
  {
    LargestCapacity();
    Pow2Monotone(k, 55);
    if n > 0 {
      DoubledIs(k, n - 1);
      if k + n <= 55 {
        Pow2Monotone(k + n, 55);
      }
    }
  }

  // The loop ends exactly when what is needed is at most 2^63: beyond that the doubled capacity
  // wraps to 0 and stays there.
  lemma DoublingEndsExactly(c: nat, needed: nat)
    requires Capacity(c)
    ensures (exists n: nat :: Doubled(c, n) >= needed) <==> needed <= TWO_TO_63
  {
    var k: nat :| k <= 55 && c == FIRST * Pow2(k);
    LargestCapacity();
    DoubledIs(k, 55 - k);
    if needed > TWO_TO_63 {
      forall n: nat ensures Doubled(c, n) < needed {
        DoubledIs(k, n);
        if k + n <= 55 {
          Pow2Monotone(k + n, 55);
        }
      }
    }
  }

  // The capacity the loop ends with.
  ghost function Reached(c: nat, needed: nat): (r: nat)
    requires Capacity(c) && needed <= TWO_TO_63
    ensures Capacity(r) && r >= needed && r >= c
    ensures r == c || r < 2 * needed
    decreases TWO_TO_63 - c
  {
    CapacityDoubles(c);
    if c >= needed then c else Reached(2 * c, needed)
  }

  // The capacity nc_buf_grow picks.
  ghost function Grown(cap: nat, needed: nat): (r: nat)
    requires cap == 0 || Capacity(cap)
    requires cap < needed <= TWO_TO_63
    ensures Capacity(r) && r >= needed && r >= 2 * cap
    ensures r == FIRST || r < 2 * needed
  {
    if cap != 0 then CapacityDoubles(cap); Reached(2 * cap, needed)
    else FirstCapacity(); Reached(FIRST, needed)
  }

  // ---- Whole runs ----

  datatype BufOp = Append(n: nat) | Reset

  // copied counts the bytes all growths have moved, peak is the largest len + 1 so far.
  datatype Size = Size(len: nat, cap: nat, copied: nat, peak: nat)

  const UNUSED := Size(0, 0, 0, 1)

  ghost predicate Sound(s: Size) {
    && (s.cap == 0 || Capacity(s.cap))
    && s.len + 1 <= s.peak
    && (if s.cap == 0 then s.len == 0 && s.copied == 0
        else s.len + 1 <= s.cap && s.copied + FIRST <= s.cap)
    && (s.cap <= FIRST || s.cap < 2 * s.peak)
  }

  ghost predicate Fits(s: Size, op: BufOp) {
    op.Append? ==> s.len + op.n + 1 <= TWO_TO_63
  }

  ghost function Resized(s: Size, op: BufOp): (t: Size)
    requires Sound(s) && Fits(s, op)
  {
    match op
    case Reset => s.(len := 0)
    case Append(n) =>
      var needed := s.len + n + 1;
      var peak := if needed > s.peak then needed else s.peak;
      if needed > s.cap
      then Size(s.len + n, Grown(s.cap, needed), s.copied + s.cap, peak)
      else s.(len := s.len + n, peak := peak)
  }

  // Every operation keeps the bounds: room for the terminator, a capacity of at most twice the
  // most ever needed, and growths that copied less in all than the capacity now.
  lemma ResizedSound(s: Size, op: BufOp)
    requires Sound(s) && Fits(s, op)
    ensures Sound(Resized(s, op))
  {
  }

  ghost predicate FitRun(s: Size, ops: seq<BufOp>)
    requires Sound(s)
    decreases |ops|
  {
    ops != [] ==> Fits(s, ops[0]) && (ResizedSound(s, ops[0]); FitRun(Resized(s, ops[0]), ops[1..]))
  }

  ghost function Run(s: Size, ops: seq<BufOp>): (t: Size)
    requires Sound(s) && FitRun(s, ops)
    ensures Sound(t)
    decreases |ops|
  {
    if ops == [] then s else ResizedSound(s, ops[0]); Run(Resized(s, ops[0]), ops[1..])
  }

  function Max(a: nat, b: nat): nat {
    if a >= b then a else b
  }

  // The most room a run ever needs: the largest length on the way, and the terminator.
  function LargestNeed(len: nat, ops: seq<BufOp>): nat
    decreases |ops|
  {
    if ops == [] then len + 1
    else
      match ops[0]
      case Append(n) => Max(len + 1, LargestNeed(len + n, ops[1..]))
      case Reset => Max(len + 1, LargestNeed(0, ops[1..]))
  }

  lemma {:induction false} PeakIsLargestNeed(s: Size, ops: seq<BufOp>)
    requires Sound(s) && FitRun(s, ops)
    ensures Run(s, ops).peak == Max(s.peak, LargestNeed(s.len, ops))
    decreases |ops|
  {
    if ops != [] {
      ResizedSound(s, ops[0]);
      PeakIsLargestNeed(Resized(s, ops[0]), ops[1..]);
      NeedAtLeast(Resized(s, ops[0]).len, ops[1..]);
    }
  }

  lemma NeedAtLeast(len: nat, ops: seq<BufOp>)
    ensures LargestNeed(len, ops) >= len + 1
  {
  }

  // Over every run from an unused buffer: the capacity is 0 or 256 * 2^k and at most 256 or twice
  // the most room ever needed, the terminator fits, and all growths together copied fewer bytes
  // than it.
  lemma RunBounds(ops: seq<BufOp>)
    requires FitRun(UNUSED, ops)
    ensures var t := Run(UNUSED, ops);
            && (t.cap == 0 || exists k: nat :: t.cap == 256 * Pow2(k))
            && t.cap <= Max(256, 2 * LargestNeed(0, ops))
            && (t.cap > 0 ==> t.len + 1 <= t.cap && t.copied < t.cap)
            && (t.cap == 0 ==> t.len == 0 && t.copied == 0)
  {
    PeakIsLargestNeed(UNUSED, ops);
    NeedAtLeast(0, ops);
    var t := Run(UNUSED, ops);
    if t.cap != 0 {
      var k: nat :| k <= 55 && t.cap == FIRST * Pow2(k);
      assert t.cap == 256 * Pow2(k);
    }
  }
}

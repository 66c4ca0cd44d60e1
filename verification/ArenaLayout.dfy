/** The bump arena as arithmetic: the alignment mask, and where a sequence of allocations lands. */
module ArenaLayout {
  import opened Wrappers
  import opened Powers
  import opened Widths

  // ---- The mask ----

  // Bitwise and, digit by digit.
  function BitAnd(x: nat, y: nat): nat {
    if x == 0 || y == 0 then 0 else (x % 2) * (y % 2) + 2 * BitAnd(x / 2, y / 2)
  }

  // ~x for a size_t
  function Complement(x: nat): nat
    requires x < TWO_TO_64
  {
    TWO_TO_64 - 1 - x
  }

  // (pos + align - 1) & ~(align - 1), in size_t arithmetic
  function AlignUp(pos: nat, align: nat): nat
    requires 1 <= align < TWO_TO_64
  {
    BitAnd((pos + align - 1) % TWO_TO_64, Complement(align - 1))
  }

  lemma SmallMod(x: nat, m: nat)
    requires x < m
    ensures x % m == x
  {
  }

  lemma ModUnique(x: nat, q: nat, m: nat, r: nat)
    requires x == q * m + r && r < m
    ensures x % m == r
  {
    var d := x / m - q;
    assert x == (x / m) * m + x % m;
    assert d * m == (x / m) * m - q * m == r - x % m;
    assert (-d) * m == -(d * m);
    if d > 0 {
      AtLeastOnce(d, m);
    } else if d < 0 {
      AtLeastOnce(-d, m);
    }
  }

  lemma AtLeastOnce(d: nat, m: nat)
    requires d >= 1
    ensures d * m >= m
  {
  }

  lemma ModDouble(x: nat, p: nat)
    requires p > 0
    ensures x % (2 * p) == 2 * (x / 2 % p) + x % 2
  {
    var h := x / 2;
    var q, r := h / p, h % p;
    assert h == q * p + r;
    assert x == q * (2 * p) + (2 * r + x % 2) by {
      assert q * (2 * p) == 2 * (q * p);
    }
    ModUnique(x, q, 2 * p, 2 * r + x % 2);
  }

  lemma AndStep(x: nat, y: nat)
    ensures BitAnd(x, y) == (x % 2) * (y % 2) + 2 * BitAnd(x / 2, y / 2)
  {
  }

  lemma {:induction false} AllOnes(x: nat, n: nat)
    requires x < Pow2(n)
    ensures BitAnd(x, Pow2(n) - 1) == x
  {
    if n > 0 {
      AllOnes(x / 2, n - 1);
      AndStep(x, Pow2(n) - 1);
    }
  }

  // Masking with n - k ones above k zeros clears the low k bits.
  lemma {:induction false} MaskClearsLowBits(x: nat, n: nat, k: nat)
    requires k <= n && x < Pow2(n)
    ensures Pow2(k) <= Pow2(n)
    ensures BitAnd(x, Pow2(n) - Pow2(k)) == x - x % Pow2(k)
  {
    Pow2Monotone(k, n);
    if k == 0 {
      AllOnes(x, n);
    } else {
      var mask := Pow2(n - 1) - Pow2(k - 1);
      MaskClearsLowBits(x / 2, n - 1, k - 1);
      assert Pow2(n) - Pow2(k) == 2 * mask;
      AndStep(x, 2 * mask);
      ModDouble(x, Pow2(k - 1));
    }
  }

  ghost predicate PowerOfTwo(a: nat) {
    exists k: nat :: k < 64 && a == Pow2(k)
  }

  lemma PowerBounds(align: nat)
    requires PowerOfTwo(align)
    ensures 1 <= align < TWO_TO_64
  {
    var k: nat :| k < 64 && align == Pow2(k);
    WordSizes();
    Pow2Monotone(k, 63);
  }

  lemma MaskWord(x: nat, k: nat)
    requires x < TWO_TO_64 && k < 64
    ensures Pow2(k) <= TWO_TO_64
    ensures BitAnd(x, TWO_TO_64 - Pow2(k)) == x - x % Pow2(k)
  {
    WordSizes();
    MaskClearsLowBits(x, 64, k);
  }

  lemma AlignUpIs(pos: nat, align: nat)
    requires PowerOfTwo(align) && pos + align - 1 < TWO_TO_64
    ensures 1 <= align < TWO_TO_64
    ensures AlignUp(pos, align) == pos + align - 1 - (pos + align - 1) % align
  {
    PowerBounds(align);
    var k: nat :| k < 64 && align == Pow2(k);
    MaskWord(pos + align - 1, k);
    SmallMod(pos + align - 1, TWO_TO_64);
    assert Complement(align - 1) == TWO_TO_64 - Pow2(k);
  }

  lemma Smaller(d: nat, q: nat, a: nat)
    requires d < q
    ensures d * a + a <= q * a
  {
    assert (q - d - 1) * a >= 0;
    assert (q - d - 1) * a == q * a - d * a - a;
  }

  // Rounding pos + a - 1 down to a multiple of a is rounding pos up to one.
  lemma RoundedUp(pos: nat, a: nat)
    requires a > 0
    ensures var r := pos + a - 1 - (pos + a - 1) % a;
            r % a == 0 && pos <= r < pos + a
  {
    var x := pos + a - 1;
    var q := x / a;
    assert x == q * a + x % a;
    ModUnique(q * a, q, a, 0);
  }

  lemma MultipleBelow(r: nat, m: nat, a: nat)
    requires a > 0 && r % a == 0 && m % a == 0 && m < r
    ensures m + a <= r
  {
    var q, d := r / a, m / a;
    assert r == q * a && m == d * a;
    if q <= d {
      Smaller(q, d + 1, a);
    } else {
      Smaller(d, q, a);
    }
  }

  // The mask gives the least multiple of a power of two that is not below the position.
  lemma AlignUpLeast(pos: nat, align: nat, m: nat)
    requires PowerOfTwo(align) && pos + align - 1 < TWO_TO_64
    ensures 1 <= align < TWO_TO_64
    ensures AlignUp(pos, align) % align == 0
    ensures pos <= AlignUp(pos, align) < pos + align
    ensures m >= pos && m % align == 0 ==> m >= AlignUp(pos, align)
  {
    AlignUpIs(pos, align);
    RoundedUp(pos, align);
    if m % align == 0 && m < AlignUp(pos, align) {
      MultipleBelow(AlignUp(pos, align), m, align);
    }
  }

  // ---- Allocating ----

  datatype Block = Block(offset: nat, size: nat, align: nat)

  // The position after nc_arena_alloc and the block it returns, in size_t arithmetic.
  datatype Placed = Placed(pos: nat, block: Option<Block>)

  function Allocated(cap: nat, pos: nat, size: nat, align: nat): Placed
    requires 1 <= align < TWO_TO_64
  {
    var p := AlignUp(pos, align);
    var end := (p + size) % TWO_TO_64;
    if end > cap then Placed(pos, None) else Placed(end, Some(Block(p, size, align)))
  }

  // The caller's side: an alignment that is a power of two, and sizes that do not wrap.
  ghost predicate Allowed(cap: nat, size: nat, align: nat) {
    PowerOfTwo(align) && cap + size + align - 1 < TWO_TO_64
  }

  lemma AllocatedIs(cap: nat, pos: nat, size: nat, align: nat)
    requires pos <= cap && Allowed(cap, size, align)
    ensures 1 <= align < TWO_TO_64
    ensures var r := Allocated(cap, pos, size, align);
            match r.block
            case None => r.pos == pos && AlignUp(pos, align) + size > cap && pos + align - 1 + size > cap
            case Some(b) =>
              && b.size == size && b.align == align
              && b.offset % align == 0
              && pos <= b.offset && b.offset + size == r.pos <= cap
              && r.pos <= pos + size + align - 1
  {
    AlignUpLeast(pos, align, 0);
    SmallMod(AlignUp(pos, align) + size, TWO_TO_64);
  }

  // An aligned place behind a position.
  predicate Place(m: nat, pos: nat, align: nat)
    requires align > 0
  {
    pos <= m && m % align == 0
  }

  // A block goes to the first aligned place behind the earlier ones, and an allocation fails
  // exactly when the block does not fit there or, what is the same, at no aligned place.
  lemma FailsExactly(cap: nat, pos: nat, size: nat, align: nat)
    requires pos <= cap && Allowed(cap, size, align)
    ensures 1 <= align < TWO_TO_64
    ensures var block := Allocated(cap, pos, size, align).block;
            && (block.None? <==> AlignUp(pos, align) + size > cap)
            && (block.None? <==> forall m: nat :: Place(m, pos, align) ==> m + size > cap)
            && (block.Some? ==> forall m: nat :: Place(m, pos, align) ==> block.value.offset <= m)
  {
    AllocatedIs(cap, pos, size, align);
    AlignUpLeast(pos, align, 0);
    forall m: nat | Place(m, pos, align) ensures AlignUp(pos, align) <= m {
      AlignUpLeast(pos, align, m);
    }
    assert Place(AlignUp(pos, align), pos, align);
  }

  // ---- Whole sequences of allocations ----

  datatype Request = Request(size: nat, align: nat)

  // What a run of requests on an arena of some capacity leaves: the position and, request by
  // request, the block or nothing.
  datatype Layout = Layout(pos: nat, blocks: seq<Option<Block>>)

  ghost predicate AllAllowed(cap: nat, requests: seq<Request>) {
    forall i :: 0 <= i < |requests| ==> Allowed(cap, requests[i].size, requests[i].align)
  }

  ghost function LaidOut(cap: nat, requests: seq<Request>): (l: Layout)
    requires AllAllowed(cap, requests)
    ensures |l.blocks| == |requests|
  {
    if requests == [] then Layout(0, [])
    else
      var before, r := LaidOut(cap, requests[..|requests| - 1]), requests[|requests| - 1];
      PowerBounds(r.align);
      var placed := Allocated(cap, before.pos, r.size, r.align);
      Layout(placed.pos, before.blocks + [placed.block])
  }

  // A block lies inside the used part of the buffer, aligned relative to its base.
  predicate Inside(b: Block, pos: nat) {
    b.offset + b.size <= pos && b.align > 0 && b.offset % b.align == 0
  }

  // Blocks come one behind the other.
  predicate InOrder(blocks: seq<Option<Block>>, pos: nat) {
    && (forall i :: 0 <= i < |blocks| && blocks[i].Some? ==> Inside(blocks[i].value, pos))
    && (forall i, j :: 0 <= i < j < |blocks| && blocks[i].Some? && blocks[j].Some? ==>
          blocks[i].value.offset + blocks[i].value.size <= blocks[j].value.offset)
  }

  // Over every sequence of allocations: the blocks are pairwise disjoint, in order, aligned and
  // inside the buffer.
  lemma {:induction false} BlocksDisjoint(cap: nat, requests: seq<Request>)
    requires AllAllowed(cap, requests)
    ensures var l := LaidOut(cap, requests);
            l.pos <= cap && InOrder(l.blocks, l.pos)
  {
    if requests != [] {
      var init, r := requests[..|requests| - 1], requests[|requests| - 1];
      BlocksDisjoint(cap, init);
      AllocatedIs(cap, LaidOut(cap, init).pos, r.size, r.align);
    }
  }

  function WorstCase(requests: seq<Request>): nat
    requires forall i :: 0 <= i < |requests| ==> requests[i].align >= 1
  {
    if requests == [] then 0
    else
      var r := requests[|requests| - 1];
      WorstCase(requests[..|requests| - 1]) + r.size + r.align - 1
  }

  lemma AlignsPositive(cap: nat, requests: seq<Request>)
    requires AllAllowed(cap, requests)
    ensures forall i :: 0 <= i < |requests| ==> requests[i].align >= 1
  {
  }

  // The position never exceeds the sum of sizes and padding, and a sequence whose sum fits the
  // capacity gets every block.
  lemma {:induction false} FitsWithoutFailure(cap: nat, requests: seq<Request>)
    requires AllAllowed(cap, requests)
    ensures forall i :: 0 <= i < |requests| ==> requests[i].align >= 1
    ensures var l := LaidOut(cap, requests);
            && l.pos <= WorstCase(requests)
            && (WorstCase(requests) <= cap ==> forall i :: 0 <= i < |requests| ==> l.blocks[i].Some?)
  {
    AlignsPositive(cap, requests);
    if requests != [] {
      var init, r := requests[..|requests| - 1], requests[|requests| - 1];
      FitsWithoutFailure(cap, init);
      BlocksDisjoint(cap, init);
      AllocatedIs(cap, LaidOut(cap, init).pos, r.size, r.align);
    }
  }
}

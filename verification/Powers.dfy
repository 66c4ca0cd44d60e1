/** Powers of two. */
module Powers {
  import opened Widths

  function Pow2(k: nat): (p: nat)
    ensures p >= 1
  {
    if k == 0 then 1 else 2 * Pow2(k - 1)
  }

  lemma {:induction false} Pow2Monotone(j: nat, k: nat)
    requires j <= k
    ensures Pow2(j) <= Pow2(k)
  {
    if j < k {
      Pow2Monotone(j, k - 1);
    }
  }

  lemma WordSizes()
    ensures Pow2(55) == 36028797018963968 && Pow2(63) == TWO_TO_63 && Pow2(64) == TWO_TO_64
  {
    assert Pow2(8) == 256 && Pow2(16) == 65536 && Pow2(24) == 16777216 && Pow2(32) == 4294967296;
    assert Pow2(40) == 1099511627776 && Pow2(48) == 281474976710656 && Pow2(55) == 36028797018963968;
    assert Pow2(60) == 1152921504606846976 && Pow2(63) == TWO_TO_63;
  }
}

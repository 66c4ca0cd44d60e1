/** Bytes, and C strings held in byte buffers. */
module Bytes {
  newtype byte = x: int | 0 <= x < 256

  // What a reader of a NUL-terminated string sees of a buffer's bytes.
  function CString(b: seq<byte>): (s: seq<byte>)
    ensures s <= b && NulFree(s)
  {
    if b == [] || b[0] == 0 then [] else [b[0]] + CString(b[1..])
  }

  ghost predicate NulFree(s: seq<byte>) {
    forall i :: 0 <= i < |s| ==> s[i] != 0
  }

  // A string runs up to its terminator.
  lemma {:induction false} CStringOf(s: seq<byte>, rest: seq<byte>)
    requires NulFree(s)
    requires rest == [] || rest[0] == 0
    ensures CString(s + rest) == s
  {
    if s == [] {
      assert s + rest == rest;
    } else {
      assert (s + rest)[1..] == s[1..] + rest;
      CStringOf(s[1..], rest);
    }
  }

  // (int)n for a size_t n: the low 32 bits, read as signed.
  function ToInt32(n: nat): int {
    var low := n % 0x1_0000_0000;
    if low < 0x8000_0000 then low else low - 0x1_0000_0000
  }
}

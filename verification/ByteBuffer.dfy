/** The dynamic byte buffer: a heap block that doubles when it is full, always NUL-terminated. */
module ByteBuffer {
  import opened Bytes
  import opened BufferGrowth
  import opened Widths

  class NcBuf {
    var data: array?<byte>
    var len: nat
    var cap: nat
    ghost var size: Size

    ghost predicate Valid()
      reads this, data
    {
      && Sound(size) && size.len == len && size.cap == cap
      && (data == null <==> cap == 0)
      && (data != null ==> data.Length == cap && len < cap && data[len] == 0)
      && (data == null ==> len == 0)
    }

    ghost function Contents(): (s: seq<byte>)
      reads this, data
      requires Valid()
      ensures |s| == len
    {
      if data == null then [] else data[..len]
    }

    // nc_buf_init
    constructor ()
      ensures Valid() && Contents() == [] && size == UNUSED && data == null
    {
      data := null;
      len := 0;
      cap := 0;
      size := UNUSED;
    }

    // nc_buf_grow: doubles until the need is met, in size_t arithmetic.
    method Grow(needed: nat)
      requires Valid() && cap < needed <= TWO_TO_63
      modifies this
      ensures data != null && fresh(data) && data.Length == cap == Grown(old(cap), needed)
      ensures old(len) == len && size == old(size)
      ensures data[..len] == old(Contents())
    {
      if cap != 0 {
        CapacityDoubles(cap);
      } else {
        FirstCapacity();
      }
      var newCap := DoubleUntil(if cap != 0 then cap * 2 % TWO_TO_64 else FIRST, needed);
      var p := new byte[newCap];
      if data != null {
        forall i | 0 <= i < data.Length {
          p[i] := data[i];
        }
      }
      data := p;
      cap := newCap;
    }

    // The loop of nc_buf_grow.
    static method DoubleUntil(c: nat, needed: nat) returns (newCap: nat)
      requires Capacity(c) && needed <= TWO_TO_63
      ensures newCap == Reached(c, needed)
    {
      newCap := c;
      while newCap < needed
        invariant Capacity(newCap)
        invariant Reached(c, needed) == Reached(newCap, needed)
        decreases needed - newCap
      {
        CapacityDoubles(newCap);
        newCap := newCap * 2 % TWO_TO_64;
      }
    }

    // nc_buf_append, and nc_buf_appendz and nc_buf_appendf on the bytes they come to
    method Append(s: seq<byte>)
      requires Valid() && len + |s| + 1 <= TWO_TO_63
      modifies this, data
      ensures Valid() && data != null && (data == old(data) || fresh(data))
      ensures Contents() == old(Contents()) + s
      ensures size == Resized(old(size), BufOp.Append(|s|))
    {
      var needed := len + |s| + 1;
      ghost var before := Contents();
      ResizedSound(size, BufOp.Append(|s|));
      if needed > cap {
        Grow(needed);
      }
      Store(s);
      size := Resized(size, BufOp.Append(|s|));
      assert data[..len] == before + s;
    }

    // memcpy behind the present contents, and the terminator.
    method Store(s: seq<byte>)
      requires data != null && len + |s| < data.Length
      modifies `len, data
      ensures len == old(len) + |s| && data[len] == 0
      ensures data[..len] == old(data[..len]) + s
    {
      forall i | 0 <= i < |s| {
        data[len + i] := s[i];
      }
      len := len + |s|;
      data[len] := 0;
    }

    // nc_buf_reset keeps the block.
    method Clear()
      requires Valid()
      modifies this, data
      ensures Valid() && data == old(data) && cap == old(cap)
      ensures Contents() == [] && size == Resized(old(size), BufOp.Reset)
    {
      len := 0;
      size := size.(len := 0);
      if data != null {
        data[0] := 0;
      }
    }

    // nc_buf_take hands the block over and leaves the buffer unused.
    method Take() returns (p: array?<byte>)
      requires Valid()
      modifies this
      ensures Valid() && Contents() == [] && data == null && size == UNUSED
      ensures p == old(data)
      ensures p != null ==> old(len) < p.Length && p[..old(len)] == old(Contents()) && p[old(len)] == 0
    {
      p := data;
      data := null;
      len := 0;
      cap := 0;
      size := UNUSED;
    }
  }
}

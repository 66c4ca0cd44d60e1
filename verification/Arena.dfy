/** The bump arena object: allocating, filling and duplicating into one buffer. */
module Arena {
  import opened Wrappers
  import opened Widths
  import opened Bytes
  import opened ArenaLayout

  class Arena {
    const buf: array<byte>
    var pos: nat
    ghost var blocks: seq<Block>  // what was allocated since the last reset

    ghost predicate Valid()
      reads this
    {
      && pos <= buf.Length
      && (forall i :: 0 <= i < |blocks| ==> Inside(blocks[i], pos))
      && (forall i, j :: 0 <= i < j < |blocks| ==> blocks[i].offset + blocks[i].size <= blocks[j].offset)
    }

    ghost function BytesOf(b: Block): seq<byte>
      reads this, buf
      requires b.offset + b.size <= buf.Length
    {
      buf[b.offset..b.offset + b.size]
    }

    // nc_arena_from_buf, and nc_arena_new on a fresh buffer
    constructor (buf: array<byte>)
      ensures Valid() && this.buf == buf && pos == 0 && blocks == []
    {
      this.buf := buf;
      pos := 0;
      blocks := [];
    }

    // nc_arena_alloc: the offset of the block, or nothing, which changes nothing.
    method Alloc(size: nat, align: nat) returns (p: Option<nat>)
      requires Valid() && Allowed(buf.Length, size, align)
      modifies this
      ensures Valid()
      ensures 1 <= align < TWO_TO_64
      ensures var placed := Allocated(buf.Length, old(pos), size, align);
              && pos == placed.pos
              && (p.None? <==> placed.block.None?)
              && (p.Some? ==> placed.block.value == Block(p.value, size, align))
      ensures match p
              case None => pos == old(pos) && blocks == old(blocks)
              case Some(offset) =>
                && blocks == old(blocks) + [Block(offset, size, align)]
                && old(pos) <= offset && offset + size == pos && offset % align == 0
    {
      AllocatedIs(buf.Length, pos, size, align);
      var offset := AlignUp(pos, align);
      if (offset + size) % TWO_TO_64 > buf.Length {
        return None;
      }
      pos := (offset + size) % TWO_TO_64;
      blocks := blocks + [Block(offset, size, align)];
      return Some(offset);
    }

    // Writes a block's bytes at its offset.
    method Fill(offset: nat, bytes: seq<byte>)
      requires offset + |bytes| <= buf.Length
      modifies buf
      ensures buf[offset..offset + |bytes|] == bytes
      ensures buf[..offset] == old(buf[..offset])
      ensures buf[offset + |bytes|..] == old(buf[offset + |bytes|..])
    {
      forall i | 0 <= i < |bytes| {
        buf[offset + i] := bytes[i];
      }
    }

    // What was there before an allocation is there after writing into the new block.
    twostate lemma EarlierKept(offset: nat)
      requires old(Valid()) && old(pos) <= offset <= buf.Length
      requires buf[..offset] == old(buf[..offset])
      ensures forall b :: b in old(blocks) ==> b.offset + b.size <= old(pos) && BytesOf(b) == old(BytesOf(b))
    {
      forall b | b in old(blocks) ensures b.offset + b.size <= old(pos) && BytesOf(b) == old(BytesOf(b)) {
        var i :| 0 <= i < |old(blocks)| && old(blocks)[i] == b;
        assert Inside(b, old(pos));
        assert BytesOf(b) == buf[..offset][b.offset..b.offset + b.size];
        assert old(BytesOf(b)) == old(buf[..offset])[b.offset..b.offset + b.size];
      }
    }

    // nc_arena_zalloc
    method ZAlloc(size: nat, align: nat) returns (p: Option<nat>)
      requires Valid() && Allowed(buf.Length, size, align)
      modifies this, buf
      ensures Valid()
      ensures match p
              case None => pos == old(pos) && blocks == old(blocks) && buf[..] == old(buf[..])
              case Some(offset) =>
                && blocks == old(blocks) + [Block(offset, size, align)]
                && offset + size <= buf.Length
                && buf[offset..offset + size] == seq(size, _ => 0 as byte)
      ensures forall b :: b in old(blocks) ==> b.offset + b.size <= old(pos) && BytesOf(b) == old(BytesOf(b))
    {
      p := Alloc(size, align);
      if p.Some? {
        Fill(p.value, seq(size, _ => 0 as byte));
        EarlierKept(p.value);
      } else {
        EarlierKept(pos);
      }
    }

    // nc_arena_strndup: the first n bytes of the source, which must hold as many, and a terminator.
    method StrnDup(source: Option<seq<byte>>, n: nat) returns (p: Option<nat>)
      requires Valid() && Allowed(buf.Length, n + 1, 1)
      requires source.Some? ==> n <= |source.value|
      modifies this, buf
      ensures Valid()
      ensures match p
              case None => pos == old(pos) && blocks == old(blocks) && buf[..] == old(buf[..])
              case Some(offset) =>
                && source.Some?
                && blocks == old(blocks) + [Block(offset, n + 1, 1)]
                && offset + n + 1 <= buf.Length
                && buf[offset..offset + n + 1] == source.value[..n] + [0]
      ensures source.Some? ==> (p.None? <==> old(pos) + n + 1 > buf.Length)
      ensures forall b :: b in old(blocks) ==> b.offset + b.size <= old(pos) && BytesOf(b) == old(BytesOf(b))
    {
      if source.None? {
        EarlierKept(pos);
        return None;
      }
      AllocatedIs(buf.Length, pos, n + 1, 1);
      p := Alloc(n + 1, 1);
      if p.Some? {
        Fill(p.value, source.value[..n] + [0]);
        EarlierKept(p.value);
      } else {
        EarlierKept(pos);
      }
    }

    // nc_arena_strdup of a NUL-terminated string
    method StrDup(source: Option<seq<byte>>) returns (p: Option<nat>)
      requires Valid()
      requires source.Some? ==> Allowed(buf.Length, |CString(source.value)| + 1, 1)
      modifies this, buf
      ensures Valid()
      ensures match p
              case None => pos == old(pos) && blocks == old(blocks) && buf[..] == old(buf[..])
              case Some(offset) =>
                && source.Some?
                && var s := CString(source.value);
                && blocks == old(blocks) + [Block(offset, |s| + 1, 1)]
                && offset + |s| + 1 <= buf.Length
                && buf[offset..offset + |s| + 1] == s + [0]
                && CString(buf[offset..]) == s
      ensures forall b :: b in old(blocks) ==> b.offset + b.size <= old(pos) && BytesOf(b) == old(BytesOf(b))
    {
      if source.None? {
        EarlierKept(pos);
        return None;
      }
      var s := CString(source.value);
      p := StrnDup(source, |s|);
      if p.Some? {
        var end := p.value + |s| + 1;
        assert source.value[..|s|] == s;
        assert buf[p.value..] == buf[p.value..end] + buf[end..];
        assert s + [0] + buf[end..] == s + ([0] + buf[end..]);
        CStringOf(s, [0] + buf[end..]);
      }
    }

    // nc_arena_reset
    method ResetArena()
      modifies this
      ensures Valid() && pos == 0 && blocks == []
    {
      pos := 0;
      blocks := [];
    }
  }
}

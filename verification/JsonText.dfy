/** JSON string escaping, and a reader of JSON strings after section 7 of RFC 8259. */
module JsonText {
  import opened Wrappers
  import opened Bytes
  import opened Hex
  import opened Widths
  import opened ByteBuffer

  const QUOTE: byte := 34
  const BACKSLASH: byte := 92

  // ---- Escaping ----

  function EscapeByte(c: byte): (e: seq<byte>)
    ensures 1 <= |e| <= 6
  {
    if c == QUOTE || c == BACKSLASH then [BACKSLASH, c]
    else if c == 10 then [BACKSLASH, 110]
    else if c == 13 then [BACKSLASH, 114]
    else if c == 9 then [BACKSLASH, 116]
    else if c < 32 then [BACKSLASH, 117, 48, 48, HexDigit(c as int / 16), HexDigit(c as int % 16)]
    else [c]
  }

  function EscapeAll(s: seq<byte>): seq<byte> {
    if s == [] then [] else EscapeByte(s[0]) + EscapeAll(s[1..])
  }

  function Escaped(s: seq<byte>): seq<byte> {
    [QUOTE] + EscapeAll(s) + [QUOTE]
  }

  // Only quotation marks, backslashes and control characters are escaped; line feed, carriage return
  // and tab have a short escape, as have the first two, and the other control characters a long one.
  lemma EscapesExactly(c: byte)
    ensures EscapeByte(c) == [c] <==> c >= 32 && c != 34 && c != 92
    ensures |EscapeByte(c)| == if c in [34, 92, 10, 13, 9] then 2 else if c < 32 then 6 else 1
  {
  }

  lemma {:induction false} EscapeAppend(s: seq<byte>, c: byte)
    ensures EscapeAll(s + [c]) == EscapeAll(s) + EscapeByte(c)
  {
    if s == [] {
      assert [c][1..] == [];
      assert EscapeAll([c]) == EscapeByte(c) + EscapeAll([]);
    } else {
      assert (s + [c])[1..] == s[1..] + [c];
      EscapeAppend(s[1..], c);
      assert EscapeByte(s[0]) + (EscapeAll(s[1..]) + EscapeByte(c))
          == EscapeByte(s[0]) + EscapeAll(s[1..]) + EscapeByte(c);
    }
  }

  lemma {:induction false} EscapePrefix(s: seq<byte>, n: nat)
    requires n <= |s|
    ensures |EscapeAll(s[..n])| <= |EscapeAll(s)|
  {
    if n > 0 {
      assert s[..n][1..] == s[1..][..n - 1];
      EscapePrefix(s[1..], n - 1);
    }
  }

  method Put(out: NcBuf, piece: seq<byte>)
    requires out.Valid() && out.len + |piece| + 1 <= TWO_TO_63
    modifies out, out.data
    ensures out.Valid() && (out.data == old(out.data) || fresh(out.data))
    ensures out.Contents() == old(out.Contents()) + piece
  {
    out.Append(piece);
  }

  // The switch of nc_json_escape.
  method PutEscaped(out: NcBuf, c: byte)
    requires out.Valid() && out.len + |EscapeByte(c)| + 1 <= TWO_TO_63
    modifies out, out.data
    ensures out.Valid() && (out.data == old(out.data) || fresh(out.data))
    ensures out.Contents() == old(out.Contents()) + EscapeByte(c)
  {
    var piece;
    match c {
      case 34 => piece := [BACKSLASH, QUOTE];
      case 92 => piece := [BACKSLASH, BACKSLASH];
      case 10 => piece := [BACKSLASH, 110];
      case 13 => piece := [BACKSLASH, 114];
      case 9 => piece := [BACKSLASH, 116];
      case _ =>
        if c < 0x20 {
          piece := [BACKSLASH, 117, 48, 48, HexDigit(c as int / 16), HexDigit(c as int % 16)];
        } else {
          piece := [c];
        }
    }
    Put(out, piece);
  }

  // One more character of the text has been put out.
  lemma EscapeNext(before: seq<byte>, s: seq<byte>, p: nat)
    requires p < |s|
    ensures before + EscapeAll(s[..p]) + EscapeByte(s[p]) == before + EscapeAll(s[..p + 1])
    ensures |EscapeAll(s[..p])| + |EscapeByte(s[p])| <= |EscapeAll(s)|
  {
    assert s[..p + 1] == s[..p] + [s[p]];
    EscapeAppend(s[..p], s[p]);
    EscapePrefix(s, p + 1);
  }

  // The loop's step at place p of a text s.
  method PutNext(out: NcBuf, c: byte, ghost before: seq<byte>, ghost s: seq<byte>, ghost p: nat)
    requires out.Valid() && p < |s| && s[p] == c
    requires out.Contents() == before + EscapeAll(s[..p])
    requires |before| + |EscapeAll(s)| + 1 <= TWO_TO_63
    modifies out, out.data
    ensures out.Valid() && (out.data == old(out.data) || fresh(out.data))
    ensures out.Contents() == before + EscapeAll(s[..p + 1])
  {
    EscapeNext(before, s, p);
    PutEscaped(out, c);
  }

  // The loop of nc_json_escape.
  method PutAll(out: NcBuf, text: seq<byte>)
    requires out.Valid() && 0 in text
    requires out.len + |EscapeAll(CString(text))| + 1 <= TWO_TO_63
    modifies out, out.data
    ensures out.Valid() && (out.data == old(out.data) || fresh(out.data))
    ensures out.Contents() == old(out.Contents()) + EscapeAll(CString(text))
  {
    ghost var s, before := CString(text), out.Contents();
    CStringStops(text);
    assert before + EscapeAll(s[..0]) == before;
    var p := 0;
    while text[p] != 0
      invariant p <= |s|
      invariant out.Valid() && (out.data == old(out.data) || fresh(out.data))
      invariant out.Contents() == before + EscapeAll(s[..p])
      decreases |s| - p
    {
      PutNext(out, text[p], before, s, p);
      p := p + 1;
    }
    assert s[..p] == s;
  }

  lemma EscapedWhole(before: seq<byte>, s: seq<byte>)
    ensures before + [QUOTE] + EscapeAll(s) + [QUOTE] == before + Escaped(s)
    ensures |Escaped(s)| == |EscapeAll(s)| + 2
  {
  }

  // nc_json_escape on a NUL-terminated text. Success is 0, whatever was written.
  method JsonEscape(out: NcBuf, text: seq<byte>) returns (rc: int)
    requires out.Valid() && 0 in text
    requires out.len + |Escaped(CString(text))| + 1 <= TWO_TO_63
    modifies out, out.data
    ensures out.Valid() && rc == 0
    ensures out.Contents() == old(out.Contents()) + Escaped(CString(text))
  {
    EscapedWhole(out.Contents(), CString(text));
    Put(out, [QUOTE]);
    PutAll(out, text);
    Put(out, [QUOTE]);
    return 0;
  }

  lemma {:induction false} CStringStops(text: seq<byte>)
    requires 0 in text
    ensures |CString(text)| < |text| && text[|CString(text)|] == 0
  {
    if text[0] != 0 {
      CStringStops(text[1..]);
    }
  }

  // ---- Reading ----

  // The bytes one character or escape stands for, and how much of the text it takes.
  datatype Piece = Piece(bytes: seq<byte>, length: nat)

  datatype Read = Read(bytes: seq<byte>, rest: seq<byte>)

  // The UTF-8 encoding of a code point.
  function Utf8(code: nat): seq<byte>
    requires code < 0x110000
  {
    if code < 0x80 then [code as byte]
    else if code < 0x800 then [(0xC0 + code / 0x40) as byte, (0x80 + code % 0x40) as byte]
    else if code < 0x10000 then
      [(0xE0 + code / 0x1000) as byte, (0x80 + code / 0x40 % 0x40) as byte, (0x80 + code % 0x40) as byte]
    else
      [(0xF0 + code / 0x40000) as byte, (0x80 + code / 0x1000 % 0x40) as byte,
       (0x80 + code / 0x40 % 0x40) as byte, (0x80 + code % 0x40) as byte]
  }

  // The number of a "\uXXXX" escape at the front of a text.
  function CodeUnit(t: seq<byte>): (u: Option<nat>)
    ensures u.Some? ==> |t| >= 6 && u.value < 0x10000
  {
    if |t| < 6 || t[0] != BACKSLASH || t[1] != 117 then None
    else
      var a, b, c, d := HexValue(t[2]), HexValue(t[3]), HexValue(t[4]), HexValue(t[5]);
      if a < 0 || b < 0 || c < 0 || d < 0 then None
      else Some(((a * 16 + b) * 16 + c) * 16 + d)
  }

  // A "\uXXXX" escape, or a surrogate pair of two.
  function ReadUnicode(t: seq<byte>): (p: Option<Piece>)
    ensures p.Some? ==> 1 <= p.value.length <= |t|
  {
    match CodeUnit(t)
    case None => None
    case Some(u) =>
      if u < 0xD800 || u > 0xDFFF then Some(Piece(Utf8(u), 6))
      else if u > 0xDBFF then None
      else
        match CodeUnit(t[6..])
        case None => None
        case Some(v) =>
          if v < 0xDC00 || v > 0xDFFF then None
          else Some(Piece(Utf8(0x10000 + (u - 0xD800) * 0x400 + (v - 0xDC00)), 12))
  }

  function ReadEscape(t: seq<byte>): (p: Option<Piece>)
    requires |t| >= 2
    ensures p.Some? ==> 1 <= p.value.length <= |t|
  {
    var c := t[1];
    if c == QUOTE || c == BACKSLASH || c == 47 then Some(Piece([c], 2))
    else if c == 98 then Some(Piece([8], 2))
    else if c == 102 then Some(Piece([12], 2))
    else if c == 110 then Some(Piece([10], 2))
    else if c == 114 then Some(Piece([13], 2))
    else if c == 116 then Some(Piece([9], 2))
    else ReadUnicode(t)
  }

  // One character of a string; a control character must be escaped.
  function ReadPiece(t: seq<byte>): (p: Option<Piece>)
    requires t != []
    ensures p.Some? ==> 1 <= p.value.length <= |t|
  {
    if t[0] < 32 then None
    else if t[0] != BACKSLASH then Some(Piece([t[0]], 1))
    else if |t| < 2 then None
    else ReadEscape(t)
  }

  // The characters up to the closing quotation mark.
  function ReadChars(t: seq<byte>): Option<Read>
    decreases |t|
  {
    if t == [] then None
    else if t[0] == QUOTE then Some(Read([], t[1..]))
    else
      match ReadPiece(t)
      case None => None
      case Some(p) =>
        match ReadChars(t[p.length..])
        case None => None
        case Some(r) => Some(Read(p.bytes + r.bytes, r.rest))
  }

  function ReadString(t: seq<byte>): Option<Read> {
    if t != [] && t[0] == QUOTE then ReadChars(t[1..]) else None
  }

  // ---- Reading undoes escaping ----

  lemma PieceReadBack(c: byte, tail: seq<byte>)
    ensures EscapeByte(c)[0] != QUOTE
    ensures ReadPiece(EscapeByte(c) + tail) == Some(Piece([c], |EscapeByte(c)|))
  {
    var t := EscapeByte(c) + tail;
    if c < 32 && c != 10 && c != 13 && c != 9 {
      DigitRoundTrip(c as int / 16);
      DigitRoundTrip(c as int % 16);
      assert t[0] == BACKSLASH && t[1] == 117 && t[2] == 48 && t[3] == 48;
      assert CodeUnit(t) == Some(c as int);
    }
  }

  lemma {:induction false} CharsReadBack(s: seq<byte>, tail: seq<byte>)
    ensures ReadChars(EscapeAll(s) + [QUOTE] + tail) == Some(Read(s, tail))
  {
    if s == [] {
      assert EscapeAll(s) + [QUOTE] + tail == [QUOTE] + tail;
      assert ([QUOTE] + tail)[1..] == tail;
    } else {
      var e, more := EscapeByte(s[0]), EscapeAll(s[1..]) + [QUOTE] + tail;
      assert EscapeAll(s) + [QUOTE] + tail == e + more;
      PieceReadBack(s[0], more);
      assert (e + more)[|e|..] == more;
      CharsReadBack(s[1..], tail);
      assert [s[0]] + s[1..] == s;
    }
  }

  // Reading an escaped text, whatever follows it, gives back the text and what follows.
  lemma ReadsBack(s: seq<byte>, tail: seq<byte>)
    ensures ReadString(Escaped(s) + tail) == Some(Read(s, tail))
  {
    CharsReadBack(s, tail);
    assert (Escaped(s) + tail)[1..] == EscapeAll(s) + [QUOTE] + tail;
  }

  // So where an escaped text ends, and what it was, can be told from any continuation.
  lemma SelfDelimiting(s: seq<byte>, tail: seq<byte>, s': seq<byte>, tail': seq<byte>)
    requires Escaped(s) + tail == Escaped(s') + tail'
    ensures s == s' && tail == tail'
  {
    ReadsBack(s, tail);
    ReadsBack(s', tail');
  }

  // No control character is left, and every quotation mark between the two at the ends follows a
  // backslash.
  lemma {:induction false} NoControlCharacters(s: seq<byte>)
    ensures forall i :: 0 <= i < |EscapeAll(s)| ==> EscapeAll(s)[i] >= 32
    ensures forall i :: 0 <= i < |EscapeAll(s)| && EscapeAll(s)[i] == QUOTE ==>
              i > 0 && EscapeAll(s)[i - 1] == BACKSLASH
  {
    if s != [] {
      NoControlCharacters(s[1..]);
    }
  }
}

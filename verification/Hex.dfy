/** Hexadecimal encoding and decoding. */
module Hex {
  import opened Wrappers
  import opened Bytes
  import opened Nibbles

  function HexDigit(n: nat): (c: byte)
    requires n < 16
  {
    if n < 10 then (48 + n) as byte else (87 + n) as byte
  }

  // hex_val: the value of a hexadecimal digit in either case, -1 for any other character.
  function HexValue(c: byte): (v: int)
    ensures -1 <= v < 16
  {
    if 48 <= c <= 57 then c as int - 48
    else if 97 <= c <= 102 then c as int - 87
    else if 65 <= c <= 70 then c as int - 55
    else -1
  }

  function Encode(data: seq<byte>): (hex: seq<byte>)
    ensures |hex| == 2 * |data|
  {
    if data == [] then []
    else
      var last := data[|data| - 1] as int;
      Encode(data[..|data| - 1]) + [HexDigit(last / 16), HexDigit(last % 16)]
  }

  ghost predicate AllHex(hex: seq<byte>) {
    forall i :: 0 <= i < |hex| ==> HexValue(hex[i]) >= 0
  }

  // The bytes of a text of an even number of hexadecimal digits.
  function Decode(hex: seq<byte>): (data: Option<seq<byte>>)
    ensures data.Some? ==> |hex| == 2 * |data.value|
  {
    if hex == [] then Some([])
    else if |hex| == 1 then None
    else
      var n := |hex|;
      var hi, lo := HexValue(hex[n - 2]), HexValue(hex[n - 1]);
      match Decode(hex[..n - 2])
      case Some(data) => if hi < 0 || lo < 0 then None else Some(data + [(16 * hi + lo) as byte])
      case None => None
  }

  // Decoding accepts exactly the even-length texts of hexadecimal digits.
  lemma {:induction false} DecodesExactly(hex: seq<byte>)
    ensures Decode(hex).Some? <==> |hex| % 2 == 0 && AllHex(hex)
  {
    if |hex| >= 2 {
      DecodesExactly(hex[..|hex| - 2]);
      assert AllHex(hex) <==>
             AllHex(hex[..|hex| - 2]) && HexValue(hex[|hex| - 2]) >= 0 && HexValue(hex[|hex| - 1]) >= 0;
    }
  }

  lemma DigitRoundTrip(n: nat)
    requires n < 16
    ensures HexValue(HexDigit(n)) == n
  {
  }

  lemma PairRoundTrip(b: byte)
    ensures 16 * HexValue(HexDigit(b as int / 16)) + HexValue(HexDigit(b as int % 16)) == b as int
  {
  }

  lemma DecodeAppend(hex: seq<byte>, c: byte, d: byte)
    ensures Decode(hex + [c, d]) ==
            if Decode(hex).Some? && HexValue(c) >= 0 && HexValue(d) >= 0
            then Some(Decode(hex).value + [(16 * HexValue(c) + HexValue(d)) as byte])
            else None
  {
  }

  lemma EncodeAppend(data: seq<byte>, b: byte)
    ensures Encode(data + [b]) == Encode(data) + [HexDigit(b as int / 16), HexDigit(b as int % 16)]
  {
  }

  // Decoding undoes encoding, for every sequence of bytes.
  lemma {:induction false} DecodeEncode(data: seq<byte>)
    ensures Decode(Encode(data)) == Some(data)
  {
    if data != [] {
      var init, last := data[..|data| - 1], data[|data| - 1];
      DecodeEncode(init);
      PairRoundTrip(last);
      EncodeAppend(init, last);
      DecodeAppend(Encode(init), HexDigit(last as int / 16), HexDigit(last as int % 16));
      assert data == init + [last];
    }
  }

  // "0123456789abcdef"
  const DIGITS: seq<byte> := [48, 49, 50, 51, 52, 53, 54, 55, 56, 57, 97, 98, 99, 100, 101, 102]

  // "0123456789ABCDEF"
  const CAPITALS: seq<byte> := [48, 49, 50, 51, 52, 53, 54, 55, 56, 57, 65, 66, 67, 68, 69, 70]

  // A digit's value is its place among the digits, in either case; nothing else is a digit.
  lemma DigitsExactly(c: byte)
    ensures 0 <= HexValue(c) <==> c in DIGITS || c in CAPITALS
    ensures HexValue(c) >= 0 ==> c == DIGITS[HexValue(c)] || c == CAPITALS[HexValue(c)]
    ensures HexValue(c) < 0 ==> HexValue(c) == -1
  {
    assert c in DIGITS ==> 48 <= c <= 57 || 97 <= c <= 102;
    assert c in CAPITALS ==> 48 <= c <= 57 || 65 <= c <= 70;
    if HexValue(c) >= 0 {
      assert DIGITS[HexValue(c)] == c || CAPITALS[HexValue(c)] == c;
    }
  }

  // Every byte is two lower-case digits, the high one first.
  lemma {:induction false} EncodesAt(data: seq<byte>, i: nat)
    requires i < |data|
    ensures Encode(data)[2 * i] == DIGITS[data[i] as int / 16]
    ensures Encode(data)[2 * i + 1] == DIGITS[data[i] as int % 16]
  {
    if i < |data| - 1 {
      EncodesAt(data[..|data| - 1], i);
    }
  }

  function Lower(c: byte): byte {
    if 65 <= c <= 90 then c + 32 else c
  }

  function Lowered(hex: seq<byte>): (r: seq<byte>)
    ensures |r| == |hex|
  {
    seq(|hex|, i requires 0 <= i < |hex| => Lower(hex[i]))
  }

  lemma PairLowered(c: byte, d: byte)
    requires HexValue(c) >= 0 && HexValue(d) >= 0
    ensures var b := (16 * HexValue(c) + HexValue(d)) as byte;
            [HexDigit(b as int / 16), HexDigit(b as int % 16)] == [Lower(c), Lower(d)]
  {
  }

  lemma LoweredAppend(hex: seq<byte>, c: byte, d: byte)
    ensures Lowered(hex + [c, d]) == Lowered(hex) + [Lower(c), Lower(d)]
  {
  }

  // Encoding undoes decoding up to the case of the digits.
  lemma {:induction false} EncodeDecode(hex: seq<byte>)
    requires Decode(hex).Some?
    ensures Encode(Decode(hex).value) == Lowered(hex)
  {
    if |hex| >= 2 {
      var n := |hex|;
      var init, c, d := hex[..n - 2], hex[n - 2], hex[n - 1];
      EncodeDecode(init);
      DecodeAppend(init, c, d);
      assert hex == init + [c, d];
      EncodeAppend(Decode(init).value, (16 * HexValue(c) + HexValue(d)) as byte);
      PairLowered(c, d);
      LoweredAppend(init, c, d);
    }
  }

  lemma EncodeNext(data: seq<byte>, i: nat)
    requires i < |data|
    ensures Encode(data[..i + 1]) ==
            Encode(data[..i]) + [HexDigit(data[i] as int / 16), HexDigit(data[i] as int % 16)]
  {
    EncodeAppend(data[..i], data[i]);
    assert data[..i + 1] == data[..i] + [data[i]];
  }

  // The two digits of byte i.
  method PutPair(out: array<byte>, i: nat, b: byte)
    requires 2 * i + 2 <= out.Length
    modifies out
    ensures out[..2 * i + 2] == old(out[..2 * i]) + [HexDigit(b as int / 16), HexDigit(b as int % 16)]
    ensures forall k :: 2 * i + 2 <= k < out.Length ==> out[k] == old(out[k])
  {
    var hi, lo := SplitByte(b);
    out[i * 2] := HexDigit(hi);
    out[i * 2 + 1] := HexDigit(lo);
    assert out[..2 * i] == old(out[..2 * i]);
  }

  // nc_hex_encode
  method HexEncode(data: array<byte>, len: nat, out: array<byte>)
    requires len <= data.Length && 2 * len + 1 <= out.Length && data != out
    modifies out
    ensures out[..2 * len] == Encode(data[..len]) && out[2 * len] == 0
    ensures out[2 * len + 1..] == old(out[2 * len + 1..])
  {
    for i := 0 to len
      invariant out[..2 * i] == Encode(data[..][..i])
      invariant forall k :: 2 * len < k < out.Length ==> out[k] == old(out[k])
    {
      EncodeNext(data[..], i);
      PutPair(out, i, data[i]);
    }
    assert data[..][..len] == data[..len];
    out[len * 2] := 0;
  }

  lemma DecodeNext(hex: seq<byte>, i: nat)
    requires 2 * i + 2 <= |hex|
    ensures var hi, lo := HexValue(hex[2 * i]), HexValue(hex[2 * i + 1]);
            Decode(hex[..2 * i + 2]) ==
            if Decode(hex[..2 * i]).Some? && hi >= 0 && lo >= 0
            then Some(Decode(hex[..2 * i]).value + [(16 * hi + lo) as byte])
            else None
  {
    DecodeAppend(hex[..2 * i], hex[2 * i], hex[2 * i + 1]);
    assert hex[..2 * i + 2] == hex[..2 * i] + [hex[2 * i], hex[2 * i + 1]];
  }

  // A text that stops decoding at some pair of digits does not decode.
  lemma BadPair(hex: seq<byte>, i: nat)
    requires 2 * i + 2 <= |hex| && (HexValue(hex[2 * i]) < 0 || HexValue(hex[2 * i + 1]) < 0)
    ensures Decode(hex) == None
  {
  }

  lemma OddText(hex: seq<byte>)
    requires |hex| % 2 == 1
    ensures Decode(hex) == None
  {
  }

  // nc_hex_decode; the count of bytes is returned as an int, and a failure may leave a prefix written.
  method HexDecode(hex: array<byte>, hexLen: nat, out: array<byte>, outSize: nat) returns (n: int)
    requires hexLen <= hex.Length && outSize <= out.Length && hex != out
    modifies out
    ensures n == if hexLen / 2 > outSize || Decode(hex[..hexLen]).None? then -1 else ToInt32(hexLen / 2)
    ensures hexLen / 2 <= outSize && Decode(hex[..hexLen]).Some? ==> out[..hexLen / 2] == Decode(hex[..hexLen]).value
    ensures out[outSize..] == old(out[outSize..])
  {
    ghost var text := hex[..hexLen];
    if hexLen % 2 == 1 {
      OddText(text);
      return -1;
    }
    var byteLen := hexLen / 2;
    if outSize < byteLen {
      return -1;
    }
    for i := 0 to byteLen
      invariant Decode(text[..2 * i]) == Some(out[..i])
      invariant forall k :: outSize <= k < out.Length ==> out[k] == old(out[k])
    {
      var hi := HexValue(hex[i * 2]);
      var lo := HexValue(hex[i * 2 + 1]);
      if hi < 0 || lo < 0 {
        BadPair(text, i);
        return -1;
      }
      DecodeNext(text, i);
      var b := JoinByte(hi, lo);
      out[i] := b;
      assert out[..i + 1] == out[..i] + [out[i]];
    }
    assert text[..2 * byteLen] == text;
    return ToInt32(byteLen);
  }
}

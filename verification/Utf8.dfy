/** The UTF-8 routines of kernel/utf8/src/utf8.c, on the bytes from a pointer to the end of
its buffer. */
module Utf8 {
  type Byte = bv8
  type Codepoint = bv32
  type Bytes = seq<Byte>

  datatype Decoded = Decoded(codepoint: Codepoint, bytes: nat, valid: bool)

  /** `ak_utf8_is_continuation_byte` */
  predicate IsContinuation(b: Byte) {
    b & 0xC0 == 0x80
  }

  /** `ak_utf8_char_len` */
  function CharLen(data: Bytes): (n: nat)
    ensures n <= 4 && n <= |data| && (data != [] ==> n >= 1)
  {
    if data == [] then 0
    else
      var first := data[0];
      if first & 0x80 == 0 then 1
      else if first & 0xE0 == 0xC0 then
        (if |data| >= 2 && IsContinuation(data[1]) then 2 else 1)
      else if first & 0xF0 == 0xE0 then
        (if |data| >= 3 && IsContinuation(data[1]) && IsContinuation(data[2]) then 3 else 1)
      else if first & 0xF8 == 0xF0 then
        (if |data| >= 4 && IsContinuation(data[1]) && IsContinuation(data[2]) && IsContinuation(data[3]) then 4 else 1)
      else 1
  }

  function Two(a: Byte, b: Byte): Codepoint {
    (((a & 0x1F) as bv32) << 6) | (b & 0x3F) as bv32
  }

  function Three(a: Byte, b: Byte, c: Byte): Codepoint {
    (((a & 0x0F) as bv32) << 12) | (((b & 0x3F) as bv32) << 6) | (c & 0x3F) as bv32
  }

  function Four(a: Byte, b: Byte, c: Byte, d: Byte): Codepoint {
    (((a & 0x07) as bv32) << 18) | (((b & 0x3F) as bv32) << 12) | (((c & 0x3F) as bv32) << 6) | (d & 0x3F) as bv32
  }

  /** `ak_utf8_decode` */
  function Decode(data: Bytes): Decoded {
    if data == [] then Decoded(0, 0, false)
    else
      var first := data[0];
      var bad := Decoded(first as bv32, 1, false);
      if first & 0x80 == 0 then Decoded(first as bv32, 1, true)
      else if first & 0xE0 == 0xC0 then
        if |data| >= 2 && IsContinuation(data[1]) then
          var c := Two(first, data[1]);
          Decoded(c, 2, c >= 0x80)
        else bad
      else if first & 0xF0 == 0xE0 then
        if |data| >= 3 && IsContinuation(data[1]) && IsContinuation(data[2]) then
          var c := Three(first, data[1], data[2]);
          Decoded(c, 3, c >= 0x800 && (c < 0xD800 || c > 0xDFFF))
        else bad
      else if first & 0xF8 == 0xF0 then
        if |data| >= 4 && IsContinuation(data[1]) && IsContinuation(data[2]) && IsContinuation(data[3]) then
          var c := Four(first, data[1], data[2], data[3]);
          Decoded(c, 4, c >= 0x1_0000 && c <= 0x10_FFFF)
        else bad
      else bad
  }

  // ---------------------------------------------------------------- RFC 3629

  /** A Unicode scalar value: not a surrogate. */
  predicate IsScalar(c: Codepoint) {
    c < 0xD800 || 0xE000 <= c <= 0x10_FFFF
  }

  /** Section 3 of RFC 3629: the bits of the number fill the x's of the pattern its size
      calls for. */
  function Encode(c: Codepoint): (r: Bytes)
    requires IsScalar(c)
    ensures 1 <= |r| <= 4
  {
    if c < 0x80 then [c as bv8]
    else if c < 0x800 then [Head(0xC0, c >> 6), Tail(c)]
    else if c < 0x1_0000 then [Head(0xE0, c >> 12), Tail(c >> 6), Tail(c)]
    else [Head(0xF0, c >> 18), Tail(c >> 12), Tail(c >> 6), Tail(c)]
  }

  /** An octet: the marker of its pattern, and the low bits of what is left of the number. */
  function Head(marker: Byte, bits: Codepoint): Byte {
    marker | (bits & 0x3F) as bv8
  }

  function Tail(bits: Codepoint): Byte {
    Head(0x80, bits)
  }

  /** UTF8-tail of section 4 of RFC 3629 */
  predicate IsTail(b: Byte) {
    0x80 <= b <= 0xBF
  }

  /** UTF8-char of section 4 of RFC 3629 */
  predicate IsChar(s: Bytes) {
    || (|s| == 1 && s[0] <= 0x7F)
    || (|s| == 2 && 0xC2 <= s[0] <= 0xDF && IsTail(s[1]))
    || (|s| == 3 && IsTail(s[2]) &&
        (|| (s[0] == 0xE0 && 0xA0 <= s[1] <= 0xBF)
         || (0xE1 <= s[0] <= 0xEC && IsTail(s[1]))
         || (s[0] == 0xED && 0x80 <= s[1] <= 0x9F)
         || (0xEE <= s[0] <= 0xEF && IsTail(s[1]))))
    || (|s| == 4 && IsTail(s[2]) && IsTail(s[3]) &&
        (|| (s[0] == 0xF0 && 0x90 <= s[1] <= 0xBF)
         || (0xF1 <= s[0] <= 0xF3 && IsTail(s[1]))
         || (s[0] == 0xF4 && 0x80 <= s[1] <= 0x8F)))
  }

  lemma DecodeLength(data: Bytes)
    ensures Decode(data).bytes == CharLen(data)
  {
  }

  lemma TwoValid(x: Byte, y: Byte)
    requires x & 0xE0 == 0xC0 && IsContinuation(y)
    ensures Two(x, y) >= 0x80 <==> IsChar([x, y])
  {
  }

  lemma ThreeValid(x: Byte, y: Byte, z: Byte)
    requires x & 0xF0 == 0xE0 && IsContinuation(y) && IsContinuation(z)
    ensures var c := Three(x, y, z); c >= 0x800 && (c < 0xD800 || c > 0xDFFF) <==> IsChar([x, y, z])
  {
  }

  lemma FourValid(x: Byte, y: Byte, z: Byte, w: Byte)
    requires x & 0xF8 == 0xF0 && IsContinuation(y) && IsContinuation(z) && IsContinuation(w)
    ensures 0x1_0000 <= Four(x, y, z, w) <= 0x10_FFFF <==> IsChar([x, y, z, w])
  {
  }

  /** What decodes as valid is what begins with a character of the grammar. */
  lemma ValidIffChar(data: Bytes)
    ensures Decode(data).valid <==> data != [] && IsChar(data[..CharLen(data)])
  {
    hide Two, Three, Four;
    if CharLen(data) == 2 {
      assert data[..2] == [data[0], data[1]];
      TwoValid(data[0], data[1]);
    } else if CharLen(data) == 3 {
      assert data[..3] == [data[0], data[1], data[2]];
      ThreeValid(data[0], data[1], data[2]);
    } else if CharLen(data) == 4 {
      assert data[..4] == [data[0], data[1], data[2], data[3]];
      FourValid(data[0], data[1], data[2], data[3]);
    }
  }

  /** No character of the grammar is the beginning of another, and each one's length is
      told by its bytes. */
  lemma CharIsCharLen(c: Bytes, rest: Bytes)
    requires IsChar(c)
    ensures CharLen(c + rest) == |c| && (c + rest)[..|c|] == c && (c + rest)[|c|..] == rest
  {
  }

  /** A character of the grammar is one byte that is not a continuation, then ones that are. */
  lemma CharShape(c: Bytes)
    requires IsChar(c)
    ensures 1 <= |c| <= 4 && !IsContinuation(c[0])
    ensures forall i :: 1 <= i < |c| ==> IsContinuation(c[i])
  {
  }

  lemma TwoRound(c: Codepoint)
    requires 0x80 <= c < 0x800
    ensures var (x, y) := (Head(0xC0, c >> 6), Tail(c));
      x & 0x80 != 0 && x & 0xE0 == 0xC0 && IsContinuation(y) && Two(x, y) == c
  {
  }

  lemma ThreeRound(c: Codepoint)
    requires 0x800 <= c < 0x1_0000
    ensures var (x, y, z) := (Head(0xE0, c >> 12), Tail(c >> 6), Tail(c));
      && x & 0x80 != 0 && x & 0xE0 != 0xC0 && x & 0xF0 == 0xE0
      && IsContinuation(y) && IsContinuation(z) && Three(x, y, z) == c
  {
  }

  lemma FourRound(c: Codepoint)
    requires 0x1_0000 <= c <= 0x10_FFFF
    ensures var (x, y, z, w) := (Head(0xF0, c >> 18), Tail(c >> 12), Tail(c >> 6), Tail(c));
      && x & 0x80 != 0 && x & 0xE0 != 0xC0 && x & 0xF0 != 0xE0 && x & 0xF8 == 0xF0
      && IsContinuation(y) && IsContinuation(z) && IsContinuation(w) && Four(x, y, z, w) == c
  {
  }

  /** Decoding what was encoded gives the scalar back, whatever follows. */
  lemma DecodeEncode(c: Codepoint, rest: Bytes)
    requires IsScalar(c)
    ensures Decode(Encode(c) + rest) == Decoded(c, |Encode(c)|, true)
  {
    if c < 0x80 {
    } else if c < 0x800 {
      TwoRound(c);
    } else if c < 0x1_0000 {
      ThreeRound(c);
    } else {
      FourRound(c);
    }
  }

  predicate PackedTwo(c: Codepoint, x: Byte, y: Byte) {
    var (p, q) := (Head(0xC0, c >> 6), Tail(c));
    c < 0x800 && p == x && q == y
  }

  predicate PackedThree(c: Codepoint, x: Byte, y: Byte, z: Byte) {
    var (p, q, r) := (Head(0xE0, c >> 12), Tail(c >> 6), Tail(c));
    c < 0x1_0000 && p == x && q == y && r == z
  }

  predicate PackedFour(c: Codepoint, x: Byte, y: Byte, z: Byte, w: Byte) {
    var (p, q, r, s) := (Head(0xF0, c >> 18), Tail(c >> 12), Tail(c >> 6), Tail(c));
    c < 0x20_0000 && p == x && q == y && r == z && s == w
  }

  lemma TwoBits(x: Byte, y: Byte)
    requires x & 0xE0 == 0xC0 && IsContinuation(y)
    ensures PackedTwo(Two(x, y), x, y)
  {
  }

  lemma ThreeFields(x: Byte, y: Byte, z: Byte)
    requires x & 0xF0 == 0xE0 && IsContinuation(y) && IsContinuation(z)
    ensures var c := Three(x, y, z);
      c < 0x1_0000 && Head(0xE0, c >> 12) == x && Tail(c >> 6) == y && Tail(c) == z
  {
  }

  lemma ThreeBits(x: Byte, y: Byte, z: Byte)
    requires x & 0xF0 == 0xE0 && IsContinuation(y) && IsContinuation(z)
    ensures PackedThree(Three(x, y, z), x, y, z)
  {
    ThreeFields(x, y, z);
  }

  lemma FourFields(x: Byte, y: Byte, z: Byte, w: Byte)
    requires x & 0xF8 == 0xF0 && IsContinuation(y) && IsContinuation(z) && IsContinuation(w)
    ensures var c := Four(x, y, z, w);
      c < 0x20_0000 && Head(0xF0, c >> 18) == x && Tail(c >> 12) == y && Tail(c >> 6) == z && Tail(c) == w
  {
  }

  lemma FourBits(x: Byte, y: Byte, z: Byte, w: Byte)
    requires x & 0xF8 == 0xF0 && IsContinuation(y) && IsContinuation(z) && IsContinuation(w)
    ensures PackedFour(Four(x, y, z, w), x, y, z, w)
  {
    FourFields(x, y, z, w);
  }

  lemma EncodedAsTwo(c: Codepoint, x: Byte, y: Byte)
    requires 0x80 <= c && PackedTwo(c, x, y)
    ensures IsScalar(c) && Encode(c) == [x, y]
  {
  }

  lemma EncodedAsThree(c: Codepoint, x: Byte, y: Byte, z: Byte)
    requires IsScalar(c) && 0x800 <= c && PackedThree(c, x, y, z)
    ensures Encode(c) == [x, y, z]
  {
  }

  lemma EncodedAsFour(c: Codepoint, x: Byte, y: Byte, z: Byte, w: Byte)
    requires 0x1_0000 <= c <= 0x10_FFFF && PackedFour(c, x, y, z, w)
    ensures IsScalar(c) && Encode(c) == [x, y, z, w]
  {
  }

  lemma DecodedTwo(data: Bytes)
    requires Decode(data).valid && Decode(data).bytes == 2
    ensures IsScalar(Decode(data).codepoint) && Encode(Decode(data).codepoint) == data[..2]
  {
    TwoBits(data[0], data[1]);
    EncodedAsTwo(Two(data[0], data[1]), data[0], data[1]);
  }

  lemma DecodedThree(data: Bytes)
    requires Decode(data).valid && Decode(data).bytes == 3
    ensures IsScalar(Decode(data).codepoint) && Encode(Decode(data).codepoint) == data[..3]
  {
    ThreeBits(data[0], data[1], data[2]);
    EncodedAsThree(Three(data[0], data[1], data[2]), data[0], data[1], data[2]);
  }

  lemma DecodedFour(data: Bytes)
    requires Decode(data).valid && Decode(data).bytes == 4
    ensures IsScalar(Decode(data).codepoint) && Encode(Decode(data).codepoint) == data[..4]
  {
    FourBits(data[0], data[1], data[2], data[3]);
    EncodedAsFour(Four(data[0], data[1], data[2], data[3]), data[0], data[1], data[2], data[3]);
  }

  /** Encoding what was decoded gives the consumed bytes back, whenever they were valid. */
  lemma EncodeDecode(data: Bytes)
    requires Decode(data).valid
    ensures IsScalar(Decode(data).codepoint)
    ensures Encode(Decode(data).codepoint) == data[..Decode(data).bytes]
  {
    DecodeLength(data);
    if Decode(data).bytes == 2 {
      DecodedTwo(data);
    } else if Decode(data).bytes == 3 {
      DecodedThree(data);
    } else if Decode(data).bytes == 4 {
      DecodedFour(data);
    }
  }

  // ---------------------------------------------------------------- any bytes

  /** How many bytes the first one announces, by its value; 1 if it announces none. */
  function Announced(b: Byte): (n: nat) {
    if 0xC0 <= b <= 0xDF then 2 else if 0xE0 <= b <= 0xEF then 3 else if 0xF0 <= b <= 0xF7 then 4 else 1
  }

  /** Whatever the bytes, a character is as long as its first byte announces if so many
      tails follow, and one byte long if not. */
  lemma CharLenIs(data: Bytes)
    ensures data != [] ==>
              var n := Announced(data[0]);
              CharLen(data) == if |data| >= n && forall i :: 1 <= i < n ==> IsTail(data[i]) then n else 1
  {
    if data != [] {
      FirstByte(data[0]);
      forall i | 1 <= i < |data|
        ensures IsContinuation(data[i]) <==> IsTail(data[i])
      {
        TailByte(data[i]);
      }
    }
  }

  lemma FirstByte(b: Byte)
    ensures b & 0x80 == 0 <==> b < 0x80
    ensures b & 0xE0 == 0xC0 <==> 0xC0 <= b <= 0xDF
    ensures b & 0xF0 == 0xE0 <==> 0xE0 <= b <= 0xEF
    ensures b & 0xF8 == 0xF0 <==> 0xF0 <= b <= 0xF7
  {
  }

  lemma TailByte(b: Byte)
    ensures IsContinuation(b) <==> IsTail(b)
  {
  }

  /** A byte on its own that is not valid stands for itself. */
  lemma DecodeStray(data: Bytes)
    ensures data == [] ==> Decode(data) == Decoded(0, 0, false)
    ensures data != [] && CharLen(data) == 1 && data[0] >= 0x80 ==> Decode(data) == Decoded(data[0] as bv32, 1, false)
  {
    DecodeLength(data);
    if data != [] {
      FirstByte(data[0]);
    }
  }
}

/**
 * The four reconstruction formulas of the recognizer (`transform_1` ..
 * `transform_4`), written with the same masks and shifts, and their relation
 * to the RFC 3629 encoder: on a well-formed sequence they produce the scalar
 * value whose encoding it is, and they undo `Encode`.
 */
module Transforms {
  import opened Unicode

  function Transform1(a: Byte): bv32 {
    a
  }

  function Transform2(a: Byte, b: Byte): bv32 {
    ((a & 0x1F) << 6) | (b & 0x3F)
  }

  function Transform3(a: Byte, b: Byte, c: Byte): bv32 {
    ((a & 0x0F) << 12) | ((b & 0x3F) << 6) | (c & 0x3F)
  }

  function Transform4(a: Byte, b: Byte, c: Byte, d: Byte): bv32 {
    ((a & 0x07) << 18) | ((b & 0x3F) << 12) | ((c & 0x3F) << 6) | (d & 0x3F)
  }

  /** The formula of the alternative that parsed `bytes`; each alternative's arity fixes which one. */
  function Transform(bytes: seq<Byte>): bv32
    requires 1 <= |bytes| <= 4
  {
    if |bytes| == 1 then Transform1(bytes[0])
    else if |bytes| == 2 then Transform2(bytes[0], bytes[1])
    else if |bytes| == 3 then Transform3(bytes[0], bytes[1], bytes[2])
    else Transform4(bytes[0], bytes[1], bytes[2], bytes[3])
  }

  /**
   * A well-formed sequence (Table 3-7) reconstructs to a scalar value, of
   * the length that value's shortest encoding has (no overlong form), and
   * that sequence is exactly the encoding of the value.
   */
  lemma TransformOfWellFormed(bytes: seq<Byte>)
    requires WellFormed(bytes)
    ensures IsScalarValue(Transform(bytes))
    ensures var c: Char := Transform(bytes); EncodedLength(c) == |bytes| && Encode(c) == bytes
  {
    var b := bytes;
    if |b| == 2 {
      assert InRange(b[1], ContinuationRange(b[0], 1));
      Decodes2(b[0], b[1]);
      assert b == [b[0], b[1]];
    } else if |b| == 3 {
      assert InRange(b[1], ContinuationRange(b[0], 1));
      assert InRange(b[2], ContinuationRange(b[0], 2));
      Decodes3(b[0], b[1], b[2]);
      assert b == [b[0], b[1], b[2]];
    } else if |b| == 4 {
      assert InRange(b[1], ContinuationRange(b[0], 1));
      assert InRange(b[2], ContinuationRange(b[0], 2));
      assert InRange(b[3], ContinuationRange(b[0], 3));
      Decodes4(b[0], b[1], b[2], b[3]);
      assert b == [b[0], b[1], b[2], b[3]];
    }
  }

  lemma Decodes2(a: Byte, b: Byte)
    requires 0xC2 <= a <= 0xDF && 0x80 <= b <= 0xBF
    ensures IsScalarValue(Transform2(a, b))
    ensures var c: Char := Transform2(a, b); EncodedLength(c) == 2 && Encode(c) == [a, b]
  {
    DecodeBits2(a, b);
  }

  lemma Decodes3(a: Byte, b: Byte, c: Byte)
    requires 0xE0 <= a <= 0xEF && 0x80 <= b <= 0xBF && 0x80 <= c <= 0xBF
    requires a == 0xE0 ==> 0xA0 <= b
    requires a == 0xED ==> b <= 0x9F
    ensures IsScalarValue(Transform3(a, b, c))
    ensures var v: Char := Transform3(a, b, c); EncodedLength(v) == 3 && Encode(v) == [a, b, c]
  {
    DecodeBits3(a, b, c);
  }

  lemma Decodes4(a: Byte, b: Byte, c: Byte, d: Byte)
    requires 0xF0 <= a <= 0xF4 && 0x80 <= b <= 0xBF && 0x80 <= c <= 0xBF && 0x80 <= d <= 0xBF
    requires a == 0xF0 ==> 0x90 <= b
    requires a == 0xF4 ==> b <= 0x8F
    ensures IsScalarValue(Transform4(a, b, c, d))
    ensures var v: Char := Transform4(a, b, c, d); EncodedLength(v) == 4 && Encode(v) == [a, b, c, d]
  {
    DecodeBits4(a, b, c, d);
  }

  /** The reconstruction undoes the encoder: `Transform(Encode(c)) == c` for every scalar value. */
  lemma TransformOfEncoding(c: Char)
    ensures Transform(Encode(c)) == c
  {
    if c <= 0x7F {
    } else if c <= 0x7FF {
      EncodeBits2Inverse(c);
    } else if c <= 0xFFFF {
      EncodeBits3Inverse(c);
    } else {
      EncodeBits4Inverse(c);
    }
  }

  // Bit-level facts, stated over individual words so that the solver can
  // settle them by bit-blasting.

  lemma DecodeBits2(a: Byte, b: Byte)
    requires 0xC2 <= a <= 0xDF && 0x80 <= b <= 0xBF
    ensures 0x80 <= Transform2(a, b) <= 0x7FF
    ensures Lead2(Transform2(a, b)) == a && Tail(Transform2(a, b), 0) == b
  {}

  lemma DecodeBits3(a: Byte, b: Byte, c: Byte)
    requires 0xE0 <= a <= 0xEF && 0x80 <= b <= 0xBF && 0x80 <= c <= 0xBF
    requires a == 0xE0 ==> 0xA0 <= b
    requires a == 0xED ==> b <= 0x9F
    ensures 0x800 <= Transform3(a, b, c) <= 0xFFFF
    ensures !(0xD800 <= Transform3(a, b, c) <= 0xDFFF)
    ensures Lead3(Transform3(a, b, c)) == a
    ensures Tail(Transform3(a, b, c), 6) == b && Tail(Transform3(a, b, c), 0) == c
  {}

  lemma DecodeBits4(a: Byte, b: Byte, c: Byte, d: Byte)
    requires 0xF0 <= a <= 0xF4 && 0x80 <= b <= 0xBF && 0x80 <= c <= 0xBF && 0x80 <= d <= 0xBF
    requires a == 0xF0 ==> 0x90 <= b
    requires a == 0xF4 ==> b <= 0x8F
    ensures 0x10000 <= Transform4(a, b, c, d) <= 0x10FFFF
    ensures Lead4(Transform4(a, b, c, d)) == a && Tail(Transform4(a, b, c, d), 12) == b
    ensures Tail(Transform4(a, b, c, d), 6) == c && Tail(Transform4(a, b, c, d), 0) == d
  {}

  lemma EncodeBits2Inverse(c: bv32)
    requires 0x80 <= c <= 0x7FF
    ensures Transform2(Lead2(c), Tail(c, 0)) == c
  {}

  lemma EncodeBits3Inverse(c: bv32)
    requires 0x800 <= c <= 0xFFFF
    ensures Transform3(Lead3(c), Tail(c, 6), Tail(c, 0)) == c
  {}

  lemma EncodeBits4Inverse(c: bv32)
    requires 0x10000 <= c <= 0x10FFFF
    ensures Transform4(Lead4(c), Tail(c, 12), Tail(c, 6), Tail(c, 0)) == c
  {}
}

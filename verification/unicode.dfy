/**
 * Unicode scalar values and their UTF-8 encoding, as fixed by RFC 3629 and
 * by the Unicode Standard (section 3.9, Table 3-7). These definitions are the
 * reference the recognizer is measured against; nothing here is taken from
 * the recognizer's own table.
 *
 * Every quantity is a 32-bit word (Rust `u32`). An input byte is a word below
 * 0x100: that is exactly the value the source's `a as u32` produces from a
 * `u8`, so the mask-and-shift formulas can be written as the source writes them.
 */
module Unicode {

  /** An input octet, widened to 32 bits. */
  type Byte = b: bv32 | b <= 0xFF

  datatype Option<+T> = None | Some(value: T)

  /** A Unicode scalar value: a code point that is not a surrogate. */
  predicate IsScalarValue(c: bv32) {
    c <= 0x10FFFF && !(0xD800 <= c <= 0xDFFF)
  }

  /** Rust's `char`: the words for which `IsScalarValue` holds. */
  type Char = c: bv32 | c <= 0x10FFFF && !(0xD800 <= c <= 0xDFFF)

  /** Rust's `char::from_u32`: `None` exactly for the words that are not scalar values. */
  function FromU32(c: bv32): Option<Char> {
    if IsScalarValue(c) then Some(c) else None
  }

  /** Rust's `Option::unwrap`; the panic on `None` is the precondition. */
  function Unwrap<T>(o: Option<T>): T
    requires o.Some?
  {
    o.value
  }

  /** Number of octets RFC 3629 (section 3) uses for `c`: the shortest form. */
  function EncodedLength(c: Char): nat {
    if c <= 0x7F then 1
    else if c <= 0x7FF then 2
    else if c <= 0xFFFF then 3
    else 4
  }

  // The octets of RFC 3629 section 3: a marker in the lead octet followed by
  // the high bits of the value, then six bits per continuation octet.

  function Lead2(c: bv32): Byte
    requires 0x80 <= c <= 0x7FF
  {
    0xC0 | (c >> 6)
  }

  function Lead3(c: bv32): Byte
    requires 0x800 <= c <= 0xFFFF
  {
    0xE0 | (c >> 12)
  }

  function Lead4(c: bv32): Byte
    requires 0x10000 <= c <= 0x10FFFF
  {
    0xF0 | (c >> 18)
  }

  /** The continuation octet carrying bits `shift .. shift + 5` of `c`. */
  function Tail(c: bv32, shift: bv32): Byte
    requires shift <= 18
  {
    0x80 | ((c >> shift) & 0x3F)
  }

  /** The UTF-8 encoding of `c` (RFC 3629, section 3). */
  function Encode(c: Char): (r: seq<Byte>)
    ensures |r| == EncodedLength(c)
  {
    if c <= 0x7F then [c]
    else if c <= 0x7FF then [Lead2(c), Tail(c, 0)]
    else if c <= 0xFFFF then [Lead3(c), Tail(c, 6), Tail(c, 0)]
    else [Lead4(c), Tail(c, 12), Tail(c, 6), Tail(c, 0)]
  }

  /** The encoding of a sequence of scalar values: their encodings, concatenated. */
  function EncodeAll(cs: seq<Char>): seq<Byte> {
    if |cs| == 0 then [] else Encode(cs[0]) + EncodeAll(cs[1..])
  }

  /**
   * Length of the well-formed sequence a lead octet starts, per Table 3-7;
   * 0 for an octet that starts none (0x80..0xC1 and 0xF5..0xFF).
   */
  function SequenceLength(lead: Byte): nat {
    if lead <= 0x7F then 1
    else if 0xC2 <= lead <= 0xDF then 2
    else if 0xE0 <= lead <= 0xEF then 3
    else if 0xF0 <= lead <= 0xF4 then 4
    else 0
  }

  /**
   * The inclusive range Table 3-7 allows for the octet `k` places after
   * `lead` (k >= 1): the second octet is narrowed after E0, ED, F0 and F4,
   * every other continuation octet lies in 80..BF.
   */
  function ContinuationRange(lead: Byte, k: nat): (Byte, Byte) {
    if k == 1 && lead == 0xE0 then (0xA0, 0xBF)
    else if k == 1 && lead == 0xED then (0x80, 0x9F)
    else if k == 1 && lead == 0xF0 then (0x90, 0xBF)
    else if k == 1 && lead == 0xF4 then (0x80, 0x8F)
    else (0x80, 0xBF)
  }

  predicate InRange(b: Byte, range: (Byte, Byte)) {
    range.0 <= b <= range.1
  }

  /** `bytes` is one well-formed UTF-8 sequence in the sense of Table 3-7. */
  predicate WellFormed(bytes: seq<Byte>) {
    && |bytes| > 0
    && SequenceLength(bytes[0]) == |bytes|
    && forall k :: 1 <= k < |bytes| ==> InRange(bytes[k], ContinuationRange(bytes[0], k))
  }

  /** Every encoding is one well-formed sequence of Table 3-7. */
  lemma EncodeWellFormed(c: Char)
    ensures WellFormed(Encode(c))
  {
    if c <= 0x7F {
    } else if c <= 0x7FF {
      EncodeWellFormed2(c);
    } else if c <= 0xFFFF {
      EncodeWellFormed3(c);
    } else {
      EncodeWellFormed4(c);
    }
  }

  lemma EncodeWellFormed2(c: Char)
    requires 0x80 <= c <= 0x7FF
    ensures WellFormed(Encode(c))
  {
    EncodeBits2(c);
    var e := Encode(c);
    assert e == [Lead2(c), Tail(c, 0)];
    assert InRange(e[1], ContinuationRange(e[0], 1));
  }

  lemma EncodeWellFormed3(c: Char)
    requires 0x800 <= c <= 0xFFFF
    ensures WellFormed(Encode(c))
  {
    EncodeBits3(c);
    assert Encode(c) == [Lead3(c), Tail(c, 6), Tail(c, 0)];
    WellFormed3(Lead3(c), Tail(c, 6), Tail(c, 0));
  }

  lemma WellFormed3(a: Byte, b: Byte, c: Byte)
    requires 0xE0 <= a <= 0xEF && 0x80 <= b <= 0xBF && 0x80 <= c <= 0xBF
    requires a == 0xE0 ==> 0xA0 <= b
    requires a == 0xED ==> b <= 0x9F
    ensures WellFormed([a, b, c])
  {
    assert InRange(b, ContinuationRange(a, 1));
    assert InRange(c, ContinuationRange(a, 2));
  }

  lemma EncodeWellFormed4(c: Char)
    requires 0x10000 <= c
    ensures WellFormed(Encode(c))
  {
    EncodeBits4(c);
    assert Encode(c) == [Lead4(c), Tail(c, 12), Tail(c, 6), Tail(c, 0)];
    WellFormed4(Lead4(c), Tail(c, 12), Tail(c, 6), Tail(c, 0));
  }

  lemma WellFormed4(a: Byte, b: Byte, c: Byte, d: Byte)
    requires 0xF0 <= a <= 0xF4 && 0x80 <= b <= 0xBF && 0x80 <= c <= 0xBF && 0x80 <= d <= 0xBF
    requires a == 0xF0 ==> 0x90 <= b
    requires a == 0xF4 ==> b <= 0x8F
    ensures WellFormed([a, b, c, d])
  {
    assert InRange(b, ContinuationRange(a, 1));
    assert InRange(c, ContinuationRange(a, 2));
    assert InRange(d, ContinuationRange(a, 3));
  }

  lemma EncodeBits2(c: bv32)
    requires 0x80 <= c <= 0x7FF
    ensures 0xC2 <= Lead2(c) <= 0xDF && 0x80 <= Tail(c, 0) <= 0xBF
  {}

  lemma EncodeBits3(c: bv32)
    requires 0x800 <= c <= 0xFFFF && !(0xD800 <= c <= 0xDFFF)
    ensures 0xE0 <= Lead3(c) <= 0xEF
    ensures 0x80 <= Tail(c, 6) <= 0xBF && 0x80 <= Tail(c, 0) <= 0xBF
    ensures Lead3(c) == 0xE0 ==> 0xA0 <= Tail(c, 6)
    ensures Lead3(c) == 0xED ==> Tail(c, 6) <= 0x9F
  {}

  lemma EncodeBits4(c: bv32)
    requires 0x10000 <= c <= 0x10FFFF
    ensures 0xF0 <= Lead4(c) <= 0xF4
    ensures 0x80 <= Tail(c, 12) <= 0xBF && 0x80 <= Tail(c, 6) <= 0xBF && 0x80 <= Tail(c, 0) <= 0xBF
    ensures Lead4(c) == 0xF0 ==> 0x90 <= Tail(c, 12)
    ensures Lead4(c) == 0xF4 ==> Tail(c, 12) <= 0x8F
  {}
}

/**
 * Concrete inputs: the two inputs the repository's tests decode, and one
 * input for each other way a sequence can be malformed (overlong, truncated,
 * invalid lead after a valid codepoint).
 */
module Scenarios {
  import opened Unicode
  import opened Combinators
  import opened Recognizer
  import opened CodepointProperties
  import opened Decoder

  const Man: seq<Byte> := [0xF0, 0x9F, 0x91, 0xA8]
  const Woman: seq<Byte> := [0xF0, 0x9F, 0x91, 0xA9]
  const Girl: seq<Byte> := [0xF0, 0x9F, 0x91, 0xA7]
  const Boy: seq<Byte> := [0xF0, 0x9F, 0x91, 0xA6]
  const Joiner: seq<Byte> := [0xE2, 0x80, 0x8D]

  /** The family emoji: man, ZWJ, woman, ZWJ, girl, ZWJ, boy, as 25 UTF-8 bytes. */
  const Family: seq<Byte> := Man + Joiner + Woman + Joiner + Girl + Joiner + Boy

  const FamilyChars: seq<Char> := [0x1F468, 0x200D, 0x1F469, 0x200D, 0x1F467, 0x200D, 0x1F466]

  /** The 25 bytes decode to seven codepoints with the spans the test expects. */
  lemma FamilyDecodes()
    ensures Decode(Family) == Ok([
      Token(0x1F468, Span(0, 4)), Token(0x200D, Span(4, 7)),
      Token(0x1F469, Span(7, 11)), Token(0x200D, Span(11, 14)),
      Token(0x1F467, Span(14, 18)), Token(0x200D, Span(18, 21)),
      Token(0x1F466, Span(21, 25))
    ])
  {
    FamilyEncoding();
    FamilyTokens();
    DecodeEncodeAll(FamilyChars);
  }

  lemma FamilyEncoding()
    ensures EncodeAll(FamilyChars) == Family
  {
    assert Encode(0x1F468) == Man;
    assert Encode(0x200D) == Joiner;
    assert Encode(0x1F469) == Woman;
    assert Encode(0x1F467) == Girl;
    assert Encode(0x1F466) == Boy;
    var cs := FamilyChars;
    assert EncodeAll(cs[6..]) == Boy by { assert cs[6..][1..] == []; }
    assert EncodeAll(cs[5..]) == Joiner + Boy by { assert cs[5..][1..] == cs[6..]; }
    assert EncodeAll(cs[4..]) == Girl + Joiner + Boy by { assert cs[4..][1..] == cs[5..]; }
    assert EncodeAll(cs[3..]) == Joiner + Girl + Joiner + Boy by { assert cs[3..][1..] == cs[4..]; }
    assert EncodeAll(cs[2..]) == Woman + Joiner + Girl + Joiner + Boy by { assert cs[2..][1..] == cs[3..]; }
    assert EncodeAll(cs[1..]) == Joiner + Woman + Joiner + Girl + Joiner + Boy by { assert cs[1..][1..] == cs[2..]; }
    assert EncodeAll(cs) == Man + (Joiner + Woman + Joiner + Girl + Joiner + Boy);
  }

  lemma FamilyTokens()
    ensures Tokenize(FamilyChars, 0) == [
      Token(0x1F468, Span(0, 4)), Token(0x200D, Span(4, 7)),
      Token(0x1F469, Span(7, 11)), Token(0x200D, Span(11, 14)),
      Token(0x1F467, Span(14, 18)), Token(0x200D, Span(18, 21)),
      Token(0x1F466, Span(21, 25))
    ]
  {
    assert |Encode(0x1F468)| == 4 && |Encode(0x1F469)| == 4 && |Encode(0x1F467)| == 4 && |Encode(0x1F466)| == 4;
    assert |Encode(0x200D)| == 3;
    var cs := FamilyChars;
    assert Tokenize(cs[6..], 21) == [Token(0x1F466, Span(21, 25))] + Tokenize(cs[7..], 25);
    assert Tokenize(cs[5..], 18) == [Token(0x200D, Span(18, 21))] + Tokenize(cs[6..], 21);
    assert Tokenize(cs[4..], 14) == [Token(0x1F467, Span(14, 18))] + Tokenize(cs[5..], 18);
    assert Tokenize(cs[3..], 11) == [Token(0x200D, Span(11, 14))] + Tokenize(cs[4..], 14);
    assert Tokenize(cs[2..], 7) == [Token(0x1F469, Span(7, 11))] + Tokenize(cs[3..], 11);
    assert Tokenize(cs[1..], 4) == [Token(0x200D, Span(4, 7))] + Tokenize(cs[2..], 7);
    assert Tokenize(cs, 0) == [Token(0x1F468, Span(0, 4))] + Tokenize(cs[1..], 4);
  }

  /**
   * ED A0 80 would encode the surrogate U+D800: decoding fails at offset 1,
   * on the byte A0, expecting the range 0x80 ..= 0x9F; the span reported is [1, 2).
   */
  lemma SurrogateRejected()
    ensures Decode([0xED, 0xA0, 0x80]) == Err(Failure(1, {"0x80 ..= 0x9F"}, Some(0xA0)))
    ensures Decode([0xED, 0xA0, 0x80]).error.ReportedSpan() == Span(1, 2)
  {
    var s: seq<Byte> := [0xED, 0xA0, 0x80];
    ContinuationRejected(s, 0, 1);
    assert ContinuationMatcher(0xED, 1).name == "0x80 ..= 0x9F";
  }

  /** E0 80 80 is an overlong form of U+0000: decoding fails at offset 1 expecting 0xA0 ..= 0xBF. */
  lemma OverlongRejected()
    ensures Decode([0xE0, 0x80, 0x80]) == Err(Failure(1, {"0xA0 ..= 0xBF"}, Some(0x80)))
  {
    var s: seq<Byte> := [0xE0, 0x80, 0x80];
    ContinuationRejected(s, 0, 1);
    assert ContinuationMatcher(0xE0, 1).name == "0xA0 ..= 0xBF";
  }

  /** E2 82 is cut short: decoding fails at the end of input, where a continuation byte was expected. */
  lemma TruncatedRejected()
    ensures Decode([0xE2, 0x82]) == Err(Failure(2, {ContinuationByte}, None))
    ensures Decode([0xE2, 0x82]).error.ReportedSpan() == Span(2, 2)
  {
    var s: seq<Byte> := [0xE2, 0x82];
    ContinuationRejected(s, 0, 2);
    assert ContinuationMatcher(0xE2, 2).name == ContinuationByte;
  }

  /**
   * "A" followed by FF: the first codepoint decodes, the second byte starts
   * no sequence, so the whole decode fails there and reports no codepoints.
   */
  lemma InvalidLeadAfterValid()
    ensures Decode([0x41, 0xFF]) == Err(Failure(1, {StartByte}, Some(0xFF)))
  {
    var s: seq<Byte> := [0x41, 0xFF];
    DecodesEncoding(s, 0, 0x41);
    InvalidLead(s, 1);
  }

  /**
   * C3 A9 FF: "é" followed by FF. `codepoint` would fail at offset 1, inside
   * the first sequence, but the decoder never starts there: it walks the whole
   * encoding C3 A9 and fails at offset 2, the next sequence start.
   */
  lemma FailureAtNextSequenceStart()
    ensures Codepoint([0xC3, 0xA9, 0xFF], 1).Err?
    ensures Decode([0xC3, 0xA9, 0xFF]) == Err(Failure(2, {StartByte}, Some(0xFF)))
  {
    var s: seq<Byte> := [0xC3, 0xA9, 0xFF];
    InvalidLead(s, 1);
    DecodesEncoding(s, 0, 0xE9);
    InvalidLead(s, 2);
  }
}

# chumsky-utf8dec in Dafny

A model of the UTF-8 decoder in `src/lib.rs` of chumsky-utf8dec. It covers the
two parsers the crate exports:

- `codepoint` recognises one UTF-8 sequence. It has nine alternatives, one per
  class of lead byte. Each alternative is a labelled lead-byte matcher, then the
  labelled continuation-byte matchers its class needs, then one of four
  mask-and-shift formulas. The alternatives are tried with `choice`. The
  resulting word goes through `char::from_u32(..).unwrap()`.
- `decoder` applies `codepoint` repeatedly and pairs each `char` with its byte
  span. The whole input must be consumed.

The model is pure functions over a byte sequence and an offset:

| file | module | contents |
|---|---|---|
| `unicode.dfy` | `Unicode` | Scalar values, `char::from_u32`, `unwrap`. The RFC 3629 (section 3) encoder `Encode`. The well-formedness table of the Unicode Standard (section 3.9, Table 3-7). These are the references the decoder is measured against. |
| `combinators.dfy` | `Combinators` | `one_of(..).labelled(..)` (`Expect`), sequencing with `then` (`ExpectAll`), and `choice` with its failure merging (`Choice`). |
| `transforms.dfy` | `Transforms` | `transform_1` .. `transform_4`, with the source's masks and shifts. Bit-level proofs that they invert `Encode`. |
| `recognizer.dfy` | `Recognizer` | The nine alternatives (`Alternatives`), the choice over them (`Raw`), `Codepoint`, and `TableDecode`, a decoder read directly off Table 3-7, proved equal to the choice. |
| `codepoint_properties.dfy` | `CodepointProperties` | What `codepoint` guarantees: where it fails and with which label, how many bytes it takes, and that it accepts exactly the encodings of scalar values. |
| `decoder.dfy` | `Decoder` | `decoder` (`DecodeFrom`, `Decode`), its spans, the round trip in both directions, and stopping at the first error. |
| `scenarios.dfy` | `Scenarios` | Concrete inputs: the two inputs of the crate's tests, plus an overlong, a truncated and an invalid-lead input. |

Representation choices:

- A byte is a 32-bit word below 0x100, and a value is a 32-bit word.
  - This is exactly what the source's `a as u32` yields from a `u8`, so the
    formulas of lines 48-57 appear unchanged.
  - `Char` is the subset of words that are scalar values.
- A failure records three things:
  - the offset of the offending byte;
  - the set of labels expected there;
  - the byte found there, or nothing at end of input.
- The span a failure reports is `[at, at + 1)`, or `[at, at)` at end of input.
- `unwrap` is a function whose precondition is `Some`. `Codepoint` calls it, so
  `Codepoint` verifying is itself the proof that the unwrap never panics.

## Model

| member | source | states |
|---|---|---|
| Combinators.ExpectAll | src/lib.rs:61-92 | A `then` chain of matchers succeeds exactly when every matcher accepts its byte, and yields those bytes. Otherwise it fails at the first matcher that rejects, with that matcher's label, having accepted every byte before. |
| Combinators.Choice | src/lib.rs:59-93 | `choice` succeeds iff some alternative does, and gives the first success. When all fail, the failure is at the furthest offset any alternative reached. Its label set is exactly the union of the labels of the alternatives that failed there. |
| Combinators.ChoiceOfFurthest | src/lib.rs:59-93 | When one alternative gets strictly further than all others, which fail, `choice` reports exactly that alternative's outcome. |
| Combinators.ChoiceOfUniform | src/lib.rs:59-93 | When every alternative fails in the same way, `choice` fails in that way. |
| Recognizer.ParseAlternative | src/lib.rs:59-92 | One alternative succeeds exactly when its lead matcher and every continuation matcher accept. It then consumes one byte per matcher and yields the transform of those bytes. A failure is at the lead iff the lead is rejected, and otherwise at the first rejected continuation, with that matcher's label. |
| Recognizer.ChoiceOfIsChoice | src/lib.rs:59-93 | Trying the alternatives one after another gives the outcome `Choice` prescribes for the outcomes of all of them. |
| Recognizer.LeadNames | src/lib.rs:32-40 | All nine lead matchers carry the label "a UTF-8 start byte". |
| Recognizer.LeadDisjoint | src/lib.rs:32-40 | No byte is accepted by two of the nine lead matchers. |
| Recognizer.LeadCoverage | src/lib.rs:32-40 | Some lead matcher accepts a byte iff Table 3-7 lets that byte start a sequence: 00-7F, C2-DF, E0-EF or F0-F4. |
| Recognizer.LeadShape | src/lib.rs:59-92 | The alternative a lead byte selects has the length Table 3-7 gives that lead. Its k-th continuation matcher accepts exactly the Table 3-7 range for position k. Its label is the range written as a Rust range for the four narrowed ranges, and "a UTF-8 continuation byte" otherwise. |
| Recognizer.RawIsTableDecode | src/lib.rs:59-93 | The choice over the nine alternatives equals the Table 3-7 decoder on every input. The two agree on successes, failure offsets, labels and the byte found. |
| Recognizer.RawSound | src/lib.rs:59-94 | A success of the choice is a scalar value, and the bytes it consumed are exactly that value's shortest encoding. A failure lies within the four bytes starting at the offset. |
| Recognizer.Codepoint | src/lib.rs:23-96 | A result of `codepoint` is a `char` together with the number of bytes consumed, which lie within the input. That number is the length of the `char`'s shortest encoding, so it is never overlong. A failure lies within the four bytes starting at the offset. |
| Transforms.TransformOfWellFormed | src/lib.rs:48-57 | On a sequence that is well formed by Table 3-7, the transform of its arity yields a scalar value. The value's shortest encoding has that length and is exactly that sequence. |
| Transforms.TransformOfEncoding | src/lib.rs:48-57 | The transforms undo the RFC 3629 encoder, for every scalar value. |
| CodepointProperties.UnwrapNeverPanics | src/lib.rs:94 | Whenever the choice succeeds, `char::from_u32` of its word is `Some`. |
| CodepointProperties.CodepointIsTable | src/lib.rs:23-96 | `codepoint` succeeds exactly when the Table 3-7 decoder does. It then gives the same value and length; a failure is the same failure. |
| CodepointProperties.CodepointSpells | src/lib.rs:59-96 | The bytes a success consumed are exactly the RFC 3629 encoding of the `char` it yields, so it is never a surrogate and never above U+10FFFF. |
| CodepointProperties.InvalidLead | src/lib.rs:32-40 | A lead byte in 80-C1 or F5-FF fails at the lead, consuming nothing, expecting a start byte. A failure at the lead happens for those bytes and at end of input, and for nothing else. |
| CodepointProperties.LengthFromLead | src/lib.rs:59-92 | A success consumes the length the lead byte fixes: 1 for 00-7F, 2 for C2-DF, 3 for E0-EF, 4 for F0-F4. |
| CodepointProperties.ContinuationRejected | src/lib.rs:42-46 | After a valid lead, decoding fails k bytes in iff the bytes before are in their ranges and byte k is not, or is missing. The failure is then at exactly that offset with that position's label, e.g. "0x80 ..= 0x9F" after ED. |
| CodepointProperties.DecodesEncoding | src/lib.rs:23-96 | Where the encoding of a scalar value begins, `codepoint` yields that value and consumes exactly its encoded length. |
| CodepointProperties.AcceptsExactlyEncodings | src/lib.rs:23-96 | `codepoint` yields `c` having consumed `n` bytes iff the input at the offset begins with the encoding of `c` and `n` is its length. |
| CodepointProperties.FailsAtLongestValidPrefix | src/lib.rs:59-93 | The failure offset ends the longest prefix that still begins some encoding. The bytes up to it can be completed to an encoding; with the offending byte added they begin none. |
| Decoder.DecodeFrom | src/lib.rs:18 | The repetition from an offset returns tokens whose spans are non-empty and tile the rest of the input back to back. A failure lies between the offset and the end of input. |
| Decoder.Decode | src/lib.rs:9-19 | The same for the whole input, from offset 0. |
| Decoder.DecodeEmpty | src/lib.rs:18 | The empty input decodes to no codepoints and no error. |
| Decoder.DecodeFromEncoding | src/lib.rs:18 | Decoding from where the encoding of a sequence of scalar values starts yields exactly that sequence. The spans are laid out back to back from that offset. |
| Decoder.DecodeEncodeAll | src/lib.rs:9-19 | Decoding the encoding of a sequence of scalar values gives back that sequence, with spans from offset 0. |
| Decoder.DecodeFromSound | src/lib.rs:18 | A successful decode from an offset read the encodings of its codepoints back to back up to the end. Its tokens are those codepoints with back-to-back spans. |
| Decoder.DecodeSound | src/lib.rs:9-19 | A successful decode of the whole input reads it as the concatenated encodings of its codepoints. |
| Decoder.DecodeOkIffEncoding | src/lib.rs:9-19 | The decoder succeeds on exactly the inputs that are the encoding of some sequence of scalar values. |
| Decoder.EncodeAllInjective | src/lib.rs:9-19 | Distinct sequences of scalar values have distinct encodings, because the decoder recovers each sequence from its encoding. |
| Decoder.DecodeFromFirstError | src/lib.rs:18 | A failed decode from an offset reports the failure of `codepoint` at a sequence start before the end of input. That start is reached by walking whole encodings from the offset: the bytes before it are the concatenated encodings of some scalar values. |
| Decoder.DecodeFirstError | src/lib.rs:9-19 | The whole-input form: the failure is that of `codepoint` at the sequence start reached by walking whole encodings from offset 0, and that start lies before the end of input. |
| Scenarios.FamilyDecodes | src/lib.rs:98-117 | The family emoji's 25 bytes decode to U+1F468, U+200D, U+1F469, U+200D, U+1F467, U+200D, U+1F466. Their spans are [0,4) [4,7) [7,11) [11,14) [14,18) [18,21) [21,25). |
| Scenarios.SurrogateRejected | src/lib.rs:119-138 | ED A0 80 fails at offset 1, expecting "0x80 ..= 0x9F" and finding A0, with span [1,2). |
| Scenarios.OverlongRejected | src/lib.rs:62-65 | E0 80 80, an overlong encoding of U+0000, fails at offset 1 expecting "0xA0 ..= 0xBF". |
| Scenarios.TruncatedRejected | src/lib.rs:66-69 | E2 82 fails at the end of input expecting "a UTF-8 continuation byte", with the empty span [2,2). |
| Scenarios.InvalidLeadAfterValid | src/lib.rs:18 | "A" followed by FF fails at offset 1 expecting a start byte, and reports no codepoints. |
| Scenarios.FailureAtNextSequenceStart | src/lib.rs:18 | On C3 A9 FF, `codepoint` would fail at offset 1, but the decoder reads C3 A9 as one codepoint and fails at offset 2 on FF, expecting a start byte. |

## Left out

- Recognizer.Codepoint: a failure at the lead byte carries the label "a UTF-8 start byte" only. In the crate, the outer `.labelled("a Unicode codepoint")` (line 95) rewrites the labels of a failure at the parser's start. The end-of-input check after `repeated()` adds its own expectation at that offset. The model keeps the failure's offset and the byte found, which are unchanged, and keeps the inner label. Failures at a continuation byte are not affected, and there the model's labels are the crate's.
- The chumsky traits (`Input`, `ValueInput`, `ParserExtra`, `LabelError`, `Rich`) are not modelled. The input is a byte sequence, a span is a pair of offsets, and an error is a `Failure`. The source context attached by `with_context` (a file name) is not modelled.
- The lazy `IterParser` is not modelled. `decoder` is modelled by what `collect` followed by `parse` produces: every token, or the failure.
- The crate does no I/O, concurrency or floating point, and neither does the model.

/**
 * What `codepoint` guarantees, stated against the reference definitions of
 * module Unicode: where it fails and with which label, how many bytes it
 * takes, and that it accepts exactly the RFC 3629 encodings of scalar values.
 */
module CodepointProperties {
  import opened Unicode
  import opened Combinators
  import opened Transforms
  import opened Recognizer

  /**
   * The `unwrap` after `char::from_u32` never panics: whenever the choice
   * over the nine alternatives succeeds, the word it reconstructed is a
   * Unicode scalar value.
   */
  lemma UnwrapNeverPanics(s: seq<Byte>, p: nat)
    requires p <= |s|
    ensures Raw(s, p).Ok? ==> FromU32(Raw(s, p).value.value).Some?
  {
    RawIsTableDecode(s, p);
    if TableDecode(s, p).Ok? {
      TransformOfWellFormed(s[p..p + TableDecode(s, p).value.len]);
    }
  }

  /** `codepoint` reports the outcome of the Table 3-7 decoder, turned into a `char`. */
  lemma CodepointIsTable(s: seq<Byte>, p: nat)
    requires p <= |s|
    ensures Codepoint(s, p).Ok? <==> TableDecode(s, p).Ok?
    ensures Codepoint(s, p).Err? ==> Codepoint(s, p).error == TableDecode(s, p).error
    ensures Codepoint(s, p).Ok? ==>
      Codepoint(s, p).value.value == TableDecode(s, p).value.value && Codepoint(s, p).value.len == TableDecode(s, p).value.len
  {
    CodepointOfRaw(s, p);
    RawIsTableDecode(s, p);
  }

  /** The bytes a success of `codepoint` consumed are exactly the encoding of the `char` it yields. */
  lemma CodepointSpells(s: seq<Byte>, p: nat)
    requires p <= |s| && Codepoint(s, p).Ok?
    ensures s[p..p + Codepoint(s, p).value.len] == Encode(Codepoint(s, p).value.value)
  {
    CodepointOfRaw(s, p);
    RawSound(s, p);
  }

  /**
   * A lead byte in 0x80..0xC1 or 0xF5..0xFF matches none of the nine
   * classes: decoding fails at the lead itself, having consumed nothing,
   * expecting a start byte. Failing at the lead happens for no other byte.
   */
  lemma InvalidLead(s: seq<Byte>, p: nat)
    requires p <= |s|
    ensures p < |s| && (0x80 <= s[p] <= 0xC1 || 0xF5 <= s[p]) ==>
      Codepoint(s, p) == Err(Failure(p, {StartByte}, Some(s[p])))
    ensures Codepoint(s, p).Err? && Codepoint(s, p).error.at == p <==> p == |s| || SequenceLength(s[p]) == 0
  {
    CodepointIsTable(s, p);
  }

  /** The lead byte alone fixes how many bytes a success consumes: the length Table 3-7 gives it. */
  lemma LengthFromLead(s: seq<Byte>, p: nat)
    requires p <= |s|
    ensures Codepoint(s, p).Ok? ==> p < |s| && Codepoint(s, p).value.len == SequenceLength(s[p])
    ensures Codepoint(s, p).Ok? && s[p] <= 0x7F ==> Codepoint(s, p).value.len == 1
    ensures Codepoint(s, p).Ok? && 0xC2 <= s[p] <= 0xDF ==> Codepoint(s, p).value.len == 2
    ensures Codepoint(s, p).Ok? && 0xE0 <= s[p] <= 0xEF ==> Codepoint(s, p).value.len == 3
    ensures Codepoint(s, p).Ok? && 0xF0 <= s[p] <= 0xF4 ==> Codepoint(s, p).value.len == 4
  {
    CodepointIsTable(s, p);
  }

  /**
   * After a valid lead, decoding fails `k` bytes in exactly when the bytes
   * before are in their ranges and that byte is not in its range (or is
   * missing); the failure then names that position's range: the narrowed one
   * after E0, ED, F0 or F4, else "a UTF-8 continuation byte".
   */
  lemma ContinuationRejected(s: seq<Byte>, p: nat, k: nat)
    requires p < |s| && 1 <= k < SequenceLength(s[p])
    ensures Codepoint(s, p).Err? && Codepoint(s, p).error.at == p + k <==> AcceptedBelow(s, p, k) && !ContinuesAt(s, p, k)
    ensures AcceptedBelow(s, p, k) && !ContinuesAt(s, p, k) ==>
      Codepoint(s, p) == Err(Failure(p + k, {ContinuationMatcher(s[p], k).name}, FoundAt(s, p + k)))
  {
    CodepointIsTable(s, p);
    if AcceptedBelow(s, p, k) && !ContinuesAt(s, p, k) {
      FirstOutOfRangeUnique(s, p, k);
    }
  }

  /**
   * Round trip: at any position where the encoding of a scalar value begins,
   * `codepoint` yields that value and consumes exactly its encoded length.
   */
  lemma DecodesEncoding(s: seq<Byte>, p: nat, c: Char)
    requires p <= |s| && Encode(c) <= s[p..]
    ensures Codepoint(s, p) == Ok(Parsed(c, |Encode(c)|))
  {
    TableDecodesEncoding(s, p, c);
    CodepointIsTable(s, p);
    var r := Codepoint(s, p);
    assert r.value.value == c && r.value.len == |Encode(c)|;
  }

  lemma {:induction false} TableDecodesEncoding(s: seq<Byte>, p: nat, c: Char)
    requires p <= |s| && Encode(c) <= s[p..]
    ensures TableDecode(s, p) == Ok(Parsed(c as bv32, |Encode(c)|))
  {
    var e := Encode(c);
    EncodeWellFormed(c);
    assert s[p] == e[0];
    forall i | 1 <= i < |e| ensures ContinuesAt(s, p, i) {
      assert s[p + i] == e[i];
    }
    assert s[p..p + |e|] == e;
    TransformOfEncoding(c);
  }

  /**
   * `codepoint` accepts exactly the encodings of scalar values: it returns
   * `c` having consumed `n` bytes if and only if the bytes at `p` begin with
   * the encoding of `c` and `n` is its length.
   */
  lemma AcceptsExactlyEncodings(s: seq<Byte>, p: nat, c: Char, n: nat)
    requires p <= |s|
    ensures Codepoint(s, p) == Ok(Parsed(c, n)) <==> Encode(c) <= s[p..] && n == |Encode(c)|
  {
    if Encode(c) <= s[p..] {
      DecodesEncoding(s, p, c);
    }
    if Codepoint(s, p) == Ok(Parsed(c, n)) {
      CodepointSpells(s, p);
      assert s[p..p + n] == Encode(c);
      assert Encode(c) == s[p..][..n];
    }
  }

  /**
   * The failure position is the end of the longest prefix that can still be
   * completed to an encoding: the bytes from `p` up to it begin some scalar
   * value's encoding, and with the offending byte added they begin none.
   */
  lemma FailsAtLongestValidPrefix(s: seq<Byte>, p: nat)
    requires p <= |s| && Codepoint(s, p).Err?
    ensures var q := Codepoint(s, p).error.at;
      exists c: Char :: s[p..q] <= Encode(c) && q - p < |Encode(c)|
    ensures var q := Codepoint(s, p).error.at;
      q < |s| ==> forall c: Char :: !(s[p..q + 1] <= Encode(c))
  {
    CodepointIsTable(s, p);
    TableFailsAtLongestValidPrefix(s, p);
  }

  lemma TableFailsAtLongestValidPrefix(s: seq<Byte>, p: nat)
    requires p <= |s| && TableDecode(s, p).Err?
    ensures var q := TableDecode(s, p).error.at;
      exists c: Char :: s[p..q] <= Encode(c) && q - p < |Encode(c)|
    ensures var q := TableDecode(s, p).error.at;
      q < |s| ==> forall c: Char :: !(s[p..q + 1] <= Encode(c))
  {
    if p == |s| || SequenceLength(s[p]) == 0 {
      LeadFailureExplained(s, p);
    } else {
      ContinuationFailureExplained(s, p, FirstOutOfRange(s, p));
    }
  }

  lemma LeadFailureExplained(s: seq<Byte>, p: nat)
    requires p <= |s| && (p == |s| || SequenceLength(s[p]) == 0)
    ensures s[p..p] <= Encode(0) && 0 < |Encode(0)|
    ensures p < |s| ==> forall c: Char :: !(s[p..p + 1] <= Encode(c))
  {
    assert Encode(0) == [0];
    if p < |s| {
      NoEncodingStartsWith(s, p, 0);
    }
  }

  lemma ContinuationFailureExplained(s: seq<Byte>, p: nat, k: nat)
    requires p < |s| && 1 <= k < SequenceLength(s[p]) && AcceptedBelow(s, p, k) && !ContinuesAt(s, p, k)
    ensures p + k <= |s|
    ensures exists c: Char :: s[p..p + k] <= Encode(c) && k < |Encode(c)|
    ensures p + k < |s| ==> forall c: Char :: !(s[p..p + k + 1] <= Encode(c))
  {
    if k > 1 {
      assert ContinuesAt(s, p, k - 1);
    }
    var c := Completion(s, p, k);
    if p + k < |s| {
      NoEncodingStartsWith(s, p, k);
    }
  }

  /**
   * No encoding begins with the bytes from `p` through the first offending
   * one: a lead that starts no sequence (`k == 0`), or a byte out of range
   * `k` places after a valid lead.
   */
  lemma NoEncodingStartsWith(s: seq<Byte>, p: nat, k: nat)
    requires p + k < |s|
    requires k == 0 ==> SequenceLength(s[p]) == 0
    requires k > 0 ==> k < SequenceLength(s[p]) && !ContinuesAt(s, p, k)
    ensures forall c: Char :: !(s[p..p + k + 1] <= Encode(c))
  {
    forall c: Char ensures !(s[p..p + k + 1] <= Encode(c)) {
      var e := Encode(c);
      EncodeWellFormed(c);
      if k < |e| && e[0] == s[p] {
        assert k > 0 && e[k] != s[p + k];
        assert s[p..p + k + 1][k] != e[k];
      }
    }
  }

  /**
   * A valid lead followed by `k - 1` bytes in their ranges can be completed to
   * an encoding: fill each remaining position with the low end of its range.
   */
  lemma Completion(s: seq<Byte>, p: nat, k: nat) returns (c: Char)
    requires p < |s| && 1 <= k < SequenceLength(s[p]) && AcceptedBelow(s, p, k)
    requires p + k <= |s|
    ensures s[p..p + k] <= Encode(c) && k < |Encode(c)|
  {
    var n := SequenceLength(s[p]);
    var fill := seq<Byte>(n - k, i requires 0 <= i < n - k => ContinuationRange(s[p], k + i).0);
    var t := s[p..p + k] + fill;
    forall i | 1 <= i < |t| ensures InRange(t[i], ContinuationRange(t[0], i)) {
      if i < k {
        assert ContinuesAt(s, p, i);
      }
    }
    TransformOfWellFormed(t);
    c := Transform(t);
    assert s[p..p + k] == t[..k];
  }
}

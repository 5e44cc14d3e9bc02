/**
 * The codepoint recognizer: nine alternatives, one per class of lead byte,
 * each a labelled lead-byte matcher followed by the continuation-byte
 * matchers its class needs and the reconstruction formula of its arity,
 * tried with `choice`; the reconstructed word is then turned into a `char`
 * with `char::from_u32(..).unwrap()`.
 *
 * In this model the `unwrap` is a precondition, so `Codepoint` verifying
 * is the proof that the unwrap never panics.
 */
module Recognizer {
  import opened Unicode
  import opened Combinators
  import opened Transforms

  const StartByte := "a UTF-8 start byte"
  const ContinuationByte := "a UTF-8 continuation byte"

  function Start(lo: Byte, hi: Byte): Matcher {
    OneOf(lo, hi, StartByte)
  }

  const Continuation := OneOf(0x80, 0xBF, ContinuationByte)
  const ContinueE0 := OneOf(0xA0, 0xBF, "0xA0 ..= 0xBF")
  const ContinueED := OneOf(0x80, 0x9F, "0x80 ..= 0x9F")
  const ContinueF0 := OneOf(0x90, 0xBF, "0x90 ..= 0xBF")
  const ContinueF4 := OneOf(0x80, 0x8F, "0x80 ..= 0x8F")

  /** A lead-byte matcher followed by the matchers of its continuation bytes. */
  datatype Pattern = Pattern(lead: Matcher, continuations: seq<Matcher>)

  /** The patterns of the recognizer have at most three continuation bytes. */
  type Alternative = a: Pattern | |a.continuations| <= 3 witness Pattern(Start(0x00, 0x7F), [])

  /** The nine alternatives of the `choice`, in the order they are tried. */
  const Alternatives: seq<Alternative> := [
    Pattern(Start(0x00, 0x7F), []),
    Pattern(Start(0xC2, 0xDF), [Continuation]),
    Pattern(Start(0xE0, 0xE0), [ContinueE0, Continuation]),
    Pattern(Start(0xE1, 0xEC), [Continuation, Continuation]),
    Pattern(Start(0xED, 0xED), [ContinueED, Continuation]),
    Pattern(Start(0xEE, 0xEF), [Continuation, Continuation]),
    Pattern(Start(0xF0, 0xF0), [ContinueF0, Continuation, Continuation]),
    Pattern(Start(0xF1, 0xF3), [Continuation, Continuation, Continuation]),
    Pattern(Start(0xF4, 0xF4), [ContinueF4, Continuation, Continuation])
  ]

  /**
   * One alternative at position `p`: the lead matcher, then each continuation
   * matcher in turn, then the reconstruction formula over the bytes matched.
   */
  function ParseAlternative(a: Alternative, s: seq<Byte>, p: nat): (r: Result<Parsed<bv32>>)
    requires p <= |s|
    ensures r.Ok? <==>
      AcceptsAt(a.lead, s, p) && forall k :: 0 <= k < |a.continuations| ==> AcceptsAt(a.continuations[k], s, p + 1 + k)
    ensures r.Ok? ==> r.value.len == 1 + |a.continuations| && p + r.value.len <= |s|
    ensures r.Ok? ==> r.value.value == Transform(s[p..p + r.value.len])
    ensures r.Err? ==> p <= r.error.at <= p + |a.continuations| && r.error.at <= |s|
    ensures r.Err? ==> (r.error.at == p <==> !AcceptsAt(a.lead, s, p))
    ensures r.Err? && r.error.at == p ==> r.error == Mismatch(a.lead, s, p)
    ensures r.Err? && r.error.at > p ==>
      && (forall k :: 0 <= k < r.error.at - p - 1 ==> AcceptsAt(a.continuations[k], s, p + 1 + k))
      && !AcceptsAt(a.continuations[r.error.at - p - 1], s, r.error.at)
      && r.error == Mismatch(a.continuations[r.error.at - p - 1], s, r.error.at)
  {
    match Expect(a.lead, s, p)
    case Err(e) => Err(e)
    case Ok(b) =>
      match ExpectAll(a.continuations, s, p + 1)
      case Err(e) => Err(e)
      case Ok(bs) =>
        assert [b] + bs == s[p..p + 1 + |bs|];
        Ok(Parsed(Transform([b] + bs), 1 + |bs|))
  }

  /** The outcome of each of `alts` at position `p`, in order. */
  function Attempts(alts: seq<Alternative>, s: seq<Byte>, p: nat): (rs: seq<Result<Parsed<bv32>>>)
    requires p <= |s|
    ensures |rs| == |alts|
    ensures forall j :: 0 <= j < |rs| ==> rs[j] == ParseAlternative(alts[j], s, p)
  {
    seq(|alts|, j requires 0 <= j < |alts| => ParseAlternative(alts[j], s, p))
  }

  /**
   * `choice` over `alts`, run the way the parser runs it: the first
   * alternative is tried, and only when it fails are the others tried.
   */
  function ChoiceOf(alts: seq<Alternative>, s: seq<Byte>, p: nat): Result<Parsed<bv32>>
    requires |alts| > 0 && p <= |s|
    decreases |alts|
  {
    var r := ParseAlternative(alts[0], s, p);
    if r.Ok? || |alts| == 1 then r
    else
      match ChoiceOf(alts[1..], s, p)
      case Ok(v) => Ok(v)
      case Err(e) => Err(Merge(r.error, e))
  }

  /** Trying the alternatives lazily gives the outcome `Choice` prescribes for all of their outcomes. */
  lemma {:induction false} ChoiceOfIsChoice(alts: seq<Alternative>, s: seq<Byte>, p: nat)
    requires |alts| > 0 && p <= |s|
    ensures ChoiceOf(alts, s, p) == Choice(Attempts(alts, s, p))
    decreases |alts|
  {
    if |alts| == 1 {
      assert Attempts(alts, s, p) == [ParseAlternative(alts[0], s, p)];
    } else {
      ChoiceOfIsChoice(alts[1..], s, p);
      AttemptsCons(alts, s, p);
      ChoiceOfStep(alts, s, p);
    }
  }

  lemma AttemptsCons(alts: seq<Alternative>, s: seq<Byte>, p: nat)
    requires |alts| > 1 && p <= |s|
    ensures Attempts(alts, s, p) == [ParseAlternative(alts[0], s, p)] + Attempts(alts[1..], s, p)
  {}

  lemma ChoiceOfStep(alts: seq<Alternative>, s: seq<Byte>, p: nat)
    requires |alts| > 1 && p <= |s|
    requires ChoiceOf(alts[1..], s, p) == Choice(Attempts(alts[1..], s, p))
    requires Attempts(alts, s, p) == [ParseAlternative(alts[0], s, p)] + Attempts(alts[1..], s, p)
    ensures ChoiceOf(alts, s, p) == Choice(Attempts(alts, s, p))
  {
    ChoiceCons(ParseAlternative(alts[0], s, p), Attempts(alts[1..], s, p));
  }

  /** The `choice` over the nine alternatives: the reconstructed 32-bit word before `from_u32`. */
  function Raw(s: seq<Byte>, p: nat): Result<Parsed<bv32>>
    requires p <= |s|
  {
    ChoiceOf(Alternatives, s, p)
  }

  /**
   * `codepoint`: one UTF-8 sequence at position `p`. A success is a scalar
   * value together with the number of bytes it took, and those bytes are
   * exactly its RFC 3629 encoding, so the value is never a surrogate, never
   * above U+10FFFF and never encoded overlong. A failure lies within the
   * (at most four-byte) sequence that starts at `p`.
   */
  function Codepoint(s: seq<Byte>, p: nat): (r: Result<Parsed<Char>>)
    requires p <= |s|
    ensures r.Ok? ==> p + r.value.len <= |s|
    ensures r.Ok? ==> r.value.len == EncodedLength(r.value.value)
    ensures r.Err? ==> p <= r.error.at <= |s| && r.error.at < p + 4
  {
    RawSound(s, p);
    match Raw(s, p)
    case Err(e) => Err(e)
    case Ok(Parsed(c, n)) => Ok(Parsed(Unwrap(FromU32(c)), n))
  }

  /** `Codepoint` passes the choice's outcome through, its word turned into a `char`. */
  lemma CodepointOfRaw(s: seq<Byte>, p: nat)
    requires p <= |s|
    ensures Codepoint(s, p).Ok? <==> Raw(s, p).Ok?
    ensures Codepoint(s, p).Err? ==> Codepoint(s, p).error == Raw(s, p).error
    ensures Codepoint(s, p).Ok? ==>
      Codepoint(s, p).value.value as bv32 == Raw(s, p).value.value && Codepoint(s, p).value.len == Raw(s, p).value.len
  {
    RawSound(s, p);
  }

  /**
   * What `Codepoint` needs of the `choice`: a success reconstructs a scalar
   * value from exactly its shortest encoding, a failure lies within the
   * sequence that starts at `p`.
   */
  lemma RawSound(s: seq<Byte>, p: nat)
    requires p <= |s|
    ensures Raw(s, p).Ok? ==> var r := Raw(s, p).value;
      && IsScalarValue(r.value) && p + r.len <= |s|
      && var c: Char := r.value; EncodedLength(c) == r.len && s[p..p + r.len] == Encode(c)
    ensures Raw(s, p).Err? ==> p <= Raw(s, p).error.at <= |s| && Raw(s, p).error.at < p + 4
  {
    RawIsTableDecode(s, p);
    if TableDecode(s, p).Ok? {
      TransformOfWellFormed(s[p..p + TableDecode(s, p).value.len]);
    }
  }

  // --- The table against Table 3-7 ---------------------------------------

  /** The text of a range label: the range as a Rust inclusive range of hex literals. */
  function RangeName(range: (Byte, Byte)): string {
    Hex(range.0) + " ..= " + Hex(range.1)
  }

  function Hex(b: Byte): string {
    "0x" + [HexDigit(b >> 4), HexDigit(b & 0xF)]
  }

  function HexDigit(d: bv32): char
    requires d < 16
  {
    "0123456789ABCDEF"[d as int]
  }

  /**
   * The matcher expected `k` bytes after `lead`: the Table 3-7 range, named
   * "a UTF-8 continuation byte" when it is the generic 80..BF and by the
   * range itself when it is narrowed.
   */
  function ContinuationMatcher(lead: Byte, k: nat): Matcher {
    var range := ContinuationRange(lead, k);
    OneOf(range.0, range.1, if range == (0x80, 0xBF) then ContinuationByte else RangeName(range))
  }

  /** All nine lead matchers carry the same label. */
  lemma LeadNames()
    ensures forall j :: 0 <= j < |Alternatives| ==> Alternatives[j].lead.name == StartByte
  {}

  /** The nine lead ranges are pairwise disjoint. */
  lemma LeadDisjoint(b: Byte)
    ensures forall i, j :: 0 <= i < j < |Alternatives| ==> !(Alternatives[i].lead.Accepts(b) && Alternatives[j].lead.Accepts(b))
  {}

  /** The union of the nine lead ranges is exactly the set of lead bytes of Table 3-7. */
  lemma LeadCoverage(b: Byte)
    ensures (exists j :: 0 <= j < |Alternatives| && Alternatives[j].lead.Accepts(b)) <==> SequenceLength(b) > 0
  {
    if SequenceLength(b) > 0 {
      var j := if b <= 0x7F then 0 else if b <= 0xDF then 1 else if b == 0xE0 then 2 else if b <= 0xEC then 3
        else if b == 0xED then 4 else if b <= 0xEF then 5 else if b == 0xF0 then 6 else if b <= 0xF3 then 7 else 8;
      assert Alternatives[j].lead.Accepts(b);
    }
  }

  /**
   * The alternative a lead byte selects has the length and the continuation
   * ranges Table 3-7 gives that lead byte, and the labels `ContinuationMatcher` names.
   */
  lemma LeadShape(b: Byte, j: nat)
    requires j < |Alternatives| && Alternatives[j].lead.Accepts(b)
    ensures 1 + |Alternatives[j].continuations| == SequenceLength(b)
    ensures forall k :: 0 <= k < |Alternatives[j].continuations| ==> Alternatives[j].continuations[k] == ContinuationMatcher(b, k + 1)
  {
    if j == 0 {
      assert Alternatives[j].continuations == [];
    } else if j == 1 {
      assert Alternatives[j].continuations == [Continuation];
      GenericContinuation(b, 1);
    } else if j <= 5 {
      LeadShape3(b, j);
    } else {
      LeadShape4(b, j);
    }
  }

  lemma LeadShape3(b: Byte, j: nat)
    requires 2 <= j <= 5 && Alternatives[j].lead.Accepts(b)
    ensures SequenceLength(b) == 3 && |Alternatives[j].continuations| == 2
    ensures Alternatives[j].continuations[0] == ContinuationMatcher(b, 1)
    ensures Alternatives[j].continuations[1] == ContinuationMatcher(b, 2)
  {
    if j == 2 {
      NarrowedNames();
    } else if j == 4 {
      NarrowedNames();
    } else {
      GenericContinuation(b, 1);
    }
    GenericContinuation(b, 2);
  }

  lemma LeadShape4(b: Byte, j: nat)
    requires 6 <= j <= 8 && Alternatives[j].lead.Accepts(b)
    ensures SequenceLength(b) == 4 && |Alternatives[j].continuations| == 3
    ensures Alternatives[j].continuations[0] == ContinuationMatcher(b, 1)
    ensures Alternatives[j].continuations[1] == ContinuationMatcher(b, 2)
    ensures Alternatives[j].continuations[2] == ContinuationMatcher(b, 3)
  {
    if j == 6 {
      NarrowedNames();
    } else if j == 8 {
      NarrowedNames();
    } else {
      GenericContinuation(b, 1);
    }
    GenericContinuation(b, 2);
    GenericContinuation(b, 3);
  }

  /** The four narrowed second-byte matchers carry their range, written as a Rust range, as label. */
  lemma NarrowedNames()
    ensures ContinuationMatcher(0xE0, 1) == ContinueE0
    ensures ContinuationMatcher(0xED, 1) == ContinueED
    ensures ContinuationMatcher(0xF0, 1) == ContinueF0
    ensures ContinuationMatcher(0xF4, 1) == ContinueF4
  {
    HexNames();
    RangeNames();
  }

  lemma RangeNames()
    requires Hex(0x80) == "0x80" && Hex(0x8F) == "0x8F" && Hex(0x90) == "0x90"
    requires Hex(0x9F) == "0x9F" && Hex(0xA0) == "0xA0" && Hex(0xBF) == "0xBF"
    ensures RangeName((0xA0, 0xBF)) == "0xA0 ..= 0xBF" && RangeName((0x80, 0x9F)) == "0x80 ..= 0x9F"
    ensures RangeName((0x90, 0xBF)) == "0x90 ..= 0xBF" && RangeName((0x80, 0x8F)) == "0x80 ..= 0x8F"
  {}

  lemma HexNames()
    ensures Hex(0x80) == "0x80" && Hex(0x8F) == "0x8F" && Hex(0x90) == "0x90"
    ensures Hex(0x9F) == "0x9F" && Hex(0xA0) == "0xA0" && Hex(0xBF) == "0xBF"
  {
    assert HexDigit(8) == '8' && HexDigit(9) == '9' && HexDigit(0xA) == 'A';
    assert HexDigit(0xB) == 'B' && HexDigit(0xF) == 'F' && HexDigit(0) == '0';
  }

  /** Every other continuation matcher is the generic one. */
  lemma GenericContinuation(b: Byte, k: nat)
    requires k >= 2 || (b != 0xE0 && b != 0xED && b != 0xF0 && b != 0xF4)
    ensures ContinuationMatcher(b, k) == Continuation
  {}

  /** `k` bytes after `lead`, the matcher of the table accepts exactly the Table 3-7 range. */
  predicate ContinuesAt(s: seq<Byte>, p: nat, k: nat)
    requires p < |s|
  {
    p + k < |s| && InRange(s[p + k], ContinuationRange(s[p], k))
  }

  /** The bytes after the lead at `p`, up to (not including) `k` places after it, are in their ranges. */
  predicate AcceptedBelow(s: seq<Byte>, p: nat, k: nat)
    requires p < |s|
  {
    forall i :: 1 <= i < k ==> ContinuesAt(s, p, i)
  }

  /** A whole well-formed sequence starts at `p`. */
  predicate WellFormedAt(s: seq<Byte>, p: nat) {
    p < |s| && SequenceLength(s[p]) > 0 && AcceptedBelow(s, p, SequenceLength(s[p]))
  }

  /**
   * The first byte after the lead at `p` that lies outside its Table 3-7
   * range (or is missing), when the sequence is not well formed.
   */
  function FirstOutOfRange(s: seq<Byte>, p: nat): (k: nat)
    requires p < |s| && SequenceLength(s[p]) > 0 && !AcceptedBelow(s, p, SequenceLength(s[p]))
    ensures 1 <= k < SequenceLength(s[p]) && AcceptedBelow(s, p, k) && !ContinuesAt(s, p, k)
  {
    if !ContinuesAt(s, p, 1) then 1 else if !ContinuesAt(s, p, 2) then 2 else 3
  }

  /** Any offset with the properties of `FirstOutOfRange` is that one. */
  lemma FirstOutOfRangeUnique(s: seq<Byte>, p: nat, k: nat)
    requires p < |s| && 1 <= k < SequenceLength(s[p]) && AcceptedBelow(s, p, k) && !ContinuesAt(s, p, k)
    ensures !AcceptedBelow(s, p, SequenceLength(s[p])) && FirstOutOfRange(s, p) == k
  {
    var f := FirstOutOfRange(s, p);
    if f < k {
      assert false;
    } else if f > k {
      assert false;
    }
  }

  /**
   * A decoder read off Table 3-7 directly, independent of the table of
   * alternatives: a byte that starts no sequence (or end of input) fails at
   * `p` with the start-byte label; otherwise a well-formed sequence is
   * reconstructed with the formula of its length, and anything else fails at
   * the first byte outside its range with that position's label.
   */
  function TableDecode(s: seq<Byte>, p: nat): (r: Result<Parsed<bv32>>)
    requires p <= |s|
    ensures r.Ok? <==> WellFormedAt(s, p)
    ensures r.Ok? ==> var n := r.value.len;
      && n == SequenceLength(s[p]) && p + n <= |s| && WellFormed(s[p..p + n])
    ensures r.Err? ==> p <= r.error.at < p + 4 && r.error.at <= |s|
    ensures r.Err? && r.error.at == p <==> p == |s| || SequenceLength(s[p]) == 0
  {
    if p == |s| || SequenceLength(s[p]) == 0 then Err(Failure(p, {StartByte}, FoundAt(s, p)))
    else if AcceptedBelow(s, p, SequenceLength(s[p])) then
      var n := SequenceLength(s[p]);
      assert n > 1 ==> ContinuesAt(s, p, n - 1);
      assert WellFormed(s[p..p + n]) by {
        forall k | 1 <= k < n ensures InRange(s[p..p + n][k], ContinuationRange(s[p], k)) {
          assert ContinuesAt(s, p, k);
        }
      }
      Ok(Parsed(Transform(s[p..p + n]), n))
    else
      var k := FirstOutOfRange(s, p);
      assert k > 1 ==> ContinuesAt(s, p, k - 1);
      Err(Mismatch(ContinuationMatcher(s[p], k), s, p + k))
  }

  /**
   * The `choice` over the nine alternatives computes exactly the Table 3-7
   * decoder: same successes, same failure offsets, same labels, same bytes found.
   */
  lemma RawIsTableDecode(s: seq<Byte>, p: nat)
    requires p <= |s|
    ensures Raw(s, p) == TableDecode(s, p)
  {
    if p == |s| || SequenceLength(s[p]) == 0 {
      RawRejectsLead(s, p);
    } else {
      var j := RawSelects(s, p);
      AlternativeIsTableDecode(s, p, j);
    }
  }

  lemma AlternativeIsTableDecode(s: seq<Byte>, p: nat, j: nat)
    requires p < |s| && j < |Alternatives| && Alternatives[j].lead.Accepts(s[p])
    ensures ParseAlternative(Alternatives[j], s, p) == TableDecode(s, p)
  {
    if ParseAlternative(Alternatives[j], s, p).Ok? {
      AcceptedIsTableDecode(s, p, j);
    } else {
      RejectedIsTableDecode(s, p, j);
    }
  }

  lemma AcceptedIsTableDecode(s: seq<Byte>, p: nat, j: nat)
    requires p < |s| && j < |Alternatives| && Alternatives[j].lead.Accepts(s[p])
    requires ParseAlternative(Alternatives[j], s, p).Ok?
    ensures ParseAlternative(Alternatives[j], s, p) == TableDecode(s, p)
  {
    var r := ParseAlternative(Alternatives[j], s, p);
    AlternativeAccepts(s, p, j);
    var n := r.value.len;
    assert r == Ok(Parsed(Transform(s[p..p + n]), n));
  }

  lemma RejectedIsTableDecode(s: seq<Byte>, p: nat, j: nat)
    requires p < |s| && j < |Alternatives| && Alternatives[j].lead.Accepts(s[p])
    requires ParseAlternative(Alternatives[j], s, p).Err?
    ensures ParseAlternative(Alternatives[j], s, p) == TableDecode(s, p)
  {
    var r := ParseAlternative(Alternatives[j], s, p);
    AlternativeRejects(s, p, j);
    var k := r.error.at - p;
    FirstOutOfRangeUnique(s, p, k);
    assert r == Err(Mismatch(ContinuationMatcher(s[p], k), s, p + k));
  }

  /** A byte that starts no sequence, or end of input, fails every alternative at its lead. */
  lemma RawRejectsLead(s: seq<Byte>, p: nat)
    requires p == |s| || (p < |s| && SequenceLength(s[p]) == 0)
    ensures Raw(s, p) == Err(Failure(p, {StartByte}, FoundAt(s, p)))
  {
    LeadNames();
    if p < |s| {
      LeadCoverage(s[p]);
    }
    ChoiceOfIsChoice(Alternatives, s, p);
    ChoiceOfUniform(Attempts(Alternatives, s, p), Failure(p, {StartByte}, FoundAt(s, p)));
  }

  /** A lead byte of Table 3-7 selects one alternative, and `choice` reports exactly its outcome. */
  lemma RawSelects(s: seq<Byte>, p: nat) returns (j: nat)
    requires p < |s| && SequenceLength(s[p]) > 0
    ensures j < |Alternatives| && Alternatives[j].lead.Accepts(s[p])
    ensures Raw(s, p) == ParseAlternative(Alternatives[j], s, p)
  {
    LeadCoverage(s[p]);
    j :| 0 <= j < |Alternatives| && Alternatives[j].lead.Accepts(s[p]);
    OthersFailAtLead(s, p, j);
    ChoiceOfIsChoice(Alternatives, s, p);
    ChoiceOfFurthest(Attempts(Alternatives, s, p), j);
  }

  /** Every alternative but the one whose lead matches fails at the lead, short of the selected one. */
  lemma OthersFailAtLead(s: seq<Byte>, p: nat, j: nat)
    requires p < |s| && j < |Alternatives| && Alternatives[j].lead.Accepts(s[p])
    ensures var rs := Attempts(Alternatives, s, p);
      forall i :: 0 <= i < |rs| && i != j ==> rs[i].Err? && (rs[j].Ok? || rs[i].error.at < rs[j].error.at)
  {
    LeadDisjoint(s[p]);
    var rs := Attempts(Alternatives, s, p);
    assert rs[j].Err? ==> rs[j].error.at > p;
    forall i | 0 <= i < |rs| && i != j ensures rs[i].Err? && rs[i].error.at == p {
      assert !Alternatives[i].lead.Accepts(s[p]);
    }
  }

  /** The continuation matchers of the selected alternative test exactly the Table 3-7 ranges. */
  lemma ContinuationsAgree(s: seq<Byte>, p: nat, j: nat)
    requires p < |s| && j < |Alternatives| && Alternatives[j].lead.Accepts(s[p])
    ensures 1 + |Alternatives[j].continuations| == SequenceLength(s[p])
    ensures forall k :: 0 <= k < |Alternatives[j].continuations| ==>
      Alternatives[j].continuations[k] == ContinuationMatcher(s[p], k + 1)
    ensures forall k :: 0 <= k < |Alternatives[j].continuations| ==>
      (AcceptsAt(Alternatives[j].continuations[k], s, p + 1 + k) <==> ContinuesAt(s, p, k + 1))
  {
    LeadShape(s[p], j);
  }

  lemma AlternativeAccepts(s: seq<Byte>, p: nat, j: nat)
    requires p < |s| && j < |Alternatives| && Alternatives[j].lead.Accepts(s[p])
    ensures var r := ParseAlternative(Alternatives[j], s, p);
      && (r.Ok? <==> WellFormedAt(s, p))
      && (r.Ok? ==> r.value.len == SequenceLength(s[p]) && WellFormed(s[p..p + r.value.len]))
  {
    var a := Alternatives[j];
    var r := ParseAlternative(a, s, p);
    ContinuationsAgree(s, p, j);
    if r.Ok? {
      var w := s[p..p + r.value.len];
      forall k | 1 <= k < |w| ensures InRange(w[k], ContinuationRange(w[0], k)) {
        assert AcceptsAt(a.continuations[k - 1], s, p + k);
      }
      forall k | 1 <= k < SequenceLength(s[p]) ensures ContinuesAt(s, p, k) {
        assert AcceptsAt(a.continuations[k - 1], s, p + k);
      }
    }
    if WellFormedAt(s, p) {
      forall k | 0 <= k < |a.continuations| ensures AcceptsAt(a.continuations[k], s, p + 1 + k) {
        assert ContinuesAt(s, p, k + 1);
      }
    }
  }

  lemma AlternativeRejects(s: seq<Byte>, p: nat, j: nat)
    requires p < |s| && j < |Alternatives| && Alternatives[j].lead.Accepts(s[p])
    ensures var r := ParseAlternative(Alternatives[j], s, p);
      r.Err? ==> var k := r.error.at - p;
        && 1 <= k < SequenceLength(s[p])
        && AcceptedBelow(s, p, k) && !ContinuesAt(s, p, k)
        && r.error == Mismatch(ContinuationMatcher(s[p], k), s, p + k)
  {
    var a := Alternatives[j];
    var r := ParseAlternative(a, s, p);
    ContinuationsAgree(s, p, j);
    if r.Err? {
      var k := r.error.at - p;
      forall i | 1 <= i < k ensures ContinuesAt(s, p, i) {
        assert AcceptsAt(a.continuations[i - 1], s, p + i);
      }
    }
  }
}

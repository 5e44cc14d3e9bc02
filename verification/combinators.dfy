/**
 * The few parser-combinator primitives the decoder is assembled from, reduced
 * to pure functions over a byte sequence and a position: `one_of(lo..=hi)`
 * with its `labelled` name, sequencing with `then`, and `choice` with the way
 * it reports the failure of all of its alternatives.
 */
module Combinators {
  import opened Unicode

  /** A half-open byte range `[start, end)`. */
  datatype Span = Span(start: nat, end: nat)

  /**
   * A parse failure: the offset of the offending position, the labels that
   * were expected there, and what was found (`None` at end of input).
   */
  datatype Failure = Failure(at: nat, expected: set<string>, found: Option<Byte>) {
    /** The span reported: the offending byte, or an empty span at end of input. */
    function ReportedSpan(): Span {
      if found.Some? then Span(at, at + 1) else Span(at, at)
    }
  }

  datatype Result<+T> = Ok(value: T) | Err(error: Failure)

  /** A parsed value together with the number of bytes it consumed. */
  datatype Parsed<+T> = Parsed(value: T, len: nat)

  /** `one_of(lo..=hi).labelled(name)`: one byte in an inclusive range. */
  datatype Matcher = OneOf(lo: Byte, hi: Byte, name: string) {
    predicate Accepts(b: Byte) {
      lo <= b <= hi
    }
  }

  predicate AcceptsAt(m: Matcher, s: seq<Byte>, i: nat) {
    i < |s| && m.Accepts(s[i])
  }

  function FoundAt(s: seq<Byte>, i: nat): Option<Byte> {
    if i < |s| then Some(s[i]) else None
  }

  /** The failure a labelled `one_of` reports at position `i`. */
  function Mismatch(m: Matcher, s: seq<Byte>, i: nat): Failure {
    Failure(i, {m.name}, FoundAt(s, i))
  }

  /** One labelled `one_of` at position `i`. */
  function Expect(m: Matcher, s: seq<Byte>, i: nat): (r: Result<Byte>)
    requires i <= |s|
    ensures r.Ok? <==> AcceptsAt(m, s, i)
    ensures r.Ok? ==> r.value == s[i]
    ensures r.Err? ==> r.error == Mismatch(m, s, i)
  {
    if AcceptsAt(m, s, i) then Ok(s[i]) else Err(Mismatch(m, s, i))
  }

  /**
   * Matchers chained with `then`, the first at position `i`: either every
   * matcher accepts its byte, or the failure is that of the first matcher
   * that does not, at its own position.
   */
  function ExpectAll(ms: seq<Matcher>, s: seq<Byte>, i: nat): (r: Result<seq<Byte>>)
    requires i <= |s|
    decreases |ms|
    ensures r.Ok? <==> forall k :: 0 <= k < |ms| ==> AcceptsAt(ms[k], s, i + k)
    ensures r.Ok? ==> i + |ms| <= |s| && r.value == s[i..i + |ms|]
    ensures r.Err? ==> i <= r.error.at < i + |ms| && r.error.at <= |s|
    ensures r.Err? ==> forall k :: 0 <= k < r.error.at - i ==> AcceptsAt(ms[k], s, i + k)
    ensures r.Err? ==> !AcceptsAt(ms[r.error.at - i], s, r.error.at)
    ensures r.Err? ==> r.error == Mismatch(ms[r.error.at - i], s, r.error.at)
  {
    if |ms| == 0 then Ok([])
    else
      match Expect(ms[0], s, i)
      case Err(e) => Err(e)
      case Ok(b) =>
        match ExpectAll(ms[1..], s, i + 1)
        case Err(e) => Err(e)
        case Ok(bs) => Ok([b] + bs)
  }

  /**
   * How two alternatives' failures combine: the one that got further wins;
   * at the same offset their expected labels are merged.
   */
  function Merge(e1: Failure, e2: Failure): (e: Failure)
    ensures e.at == if e1.at < e2.at then e2.at else e1.at
  {
    if e1.at > e2.at then e1
    else if e2.at > e1.at then e2
    else Failure(e1.at, e1.expected + e2.expected, e1.found)
  }

  /**
   * `choice`, given the outcome of each alternative in order (alternatives are
   * pure, so trying one never affects another): the first success, or, when
   * every alternative fails, the furthest failure with the labels of all the
   * alternatives that failed that far.
   */
  function Choice<T>(rs: seq<Result<T>>): (r: Result<T>)
    requires |rs| > 0
    ensures r.Ok? <==> exists j :: 0 <= j < |rs| && rs[j].Ok?
    ensures r.Ok? ==> exists j :: 0 <= j < |rs| && r == rs[j] && forall i :: 0 <= i < j ==> rs[i].Err?
    ensures r.Err? ==> forall j :: 0 <= j < |rs| ==> rs[j].error.at <= r.error.at
    ensures r.Err? ==> exists j :: 0 <= j < |rs| && rs[j].error.at == r.error.at && rs[j].error.found == r.error.found
    ensures r.Err? ==> forall j :: 0 <= j < |rs| && rs[j].error.at == r.error.at ==> rs[j].error.expected <= r.error.expected
    ensures r.Err? ==> forall l :: l in r.error.expected ==>
      exists j :: 0 <= j < |rs| && rs[j].error.at == r.error.at && l in rs[j].error.expected
  {
    if rs[0].Ok? || |rs| == 1 then rs[0]
    else
      var rest := Choice(rs[1..]);
      assert forall j :: 1 <= j < |rs| ==> rs[j] == rs[1..][j - 1];
      match rest
      case Ok(v) => Ok(v)
      case Err(e) => Err(Merge(rs[0].error, e))
  }

  /** `choice` tries its first alternative, and the rest only when that one fails. */
  lemma ChoiceCons<T>(r: Result<T>, rs: seq<Result<T>>)
    requires |rs| > 0
    ensures Choice([r] + rs) == if r.Ok? then r else
      match Choice(rs)
      case Ok(v) => Ok(v)
      case Err(e) => Err(Merge(r.error, e))
  {
    assert ([r] + rs)[1..] == rs;
  }

  /**
   * When every alternative but one fails, each at an offset short of where
   * that one fails (or that one succeeds), `choice` reports exactly its outcome.
   */
  lemma ChoiceOfFurthest<T>(rs: seq<Result<T>>, j: nat)
    requires 0 <= j < |rs|
    requires forall i :: 0 <= i < |rs| && i != j ==> rs[i].Err?
    requires forall i :: 0 <= i < |rs| && i != j ==> rs[j].Ok? || rs[i].error.at < rs[j].error.at
    ensures Choice(rs) == rs[j]
  {
    var r := Choice(rs);
    if r.Err? {
      var i :| 0 <= i < |rs| && rs[i].error.at == r.error.at && rs[i].error.found == r.error.found;
      assert i == j;
      assert r.error.expected == rs[j].error.expected;
    }
  }

  /** When every alternative fails in the same way, so does `choice`. */
  lemma ChoiceOfUniform<T>(rs: seq<Result<T>>, e: Failure)
    requires |rs| > 0
    requires forall i :: 0 <= i < |rs| ==> rs[i] == Err(e)
    ensures Choice(rs) == Err(e)
  {
    var r := Choice(rs);
    assert r.Err?;
    assert r.error.at == e.at;
    assert r.error.expected == e.expected;
  }
}

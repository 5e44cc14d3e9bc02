/**
 * The sequence decoder: `codepoint` applied repeatedly from offset 0, each
 * result paired with the span of bytes it was decoded from. The whole input
 * must be consumed; the first position at which `codepoint` fails (other than
 * the end of input) makes the whole decode fail with that failure, and no
 * codepoints are reported at all.
 */
module Decoder {
  import opened Unicode
  import opened Combinators
  import opened Recognizer
  import opened CodepointProperties

  /** One decoded codepoint with the span it was decoded from. */
  datatype Token = Token(value: Char, span: Span)

  /** The codepoints of a token sequence, in order. */
  function Values(ts: seq<Token>): (cs: seq<Char>)
    ensures |cs| == |ts| && forall i :: 0 <= i < |ts| ==> cs[i] == ts[i].value
  {
    seq(|ts|, i requires 0 <= i < |ts| => ts[i].value)
  }

  /** The token sequence for codepoints `cs` laid out back to back from offset `start`. */
  function Tokenize(cs: seq<Char>, start: nat): seq<Token> {
    if |cs| == 0 then []
    else
      var n := EncodedLength(cs[0]);
      [Token(cs[0], Span(start, start + n))] + Tokenize(cs[1..], start + n)
  }

  /** The tokens' spans are non-empty and cover `[from, to)` back to back, in order. */
  predicate Tiles(ts: seq<Token>, from: nat, to: nat) {
    if |ts| == 0 then from == to
    else ts[0].span.start == from < ts[0].span.end && Tiles(ts[1..], ts[0].span.end, to)
  }

  /** A token just before a tiling, with a non-empty span ending where the tiling starts, extends it. */
  lemma TilesCons(t: Token, ts: seq<Token>, to: nat)
    requires t.span.start < t.span.end && Tiles(ts, t.span.end, to)
    ensures Tiles([t] + ts, t.span.start, to)
  {
    assert ([t] + ts)[1..] == ts;
  }

  /**
   * `codepoint().map_with_span(..).repeated()` from offset `p`, followed by the
   * end-of-input check: a failure at the end of input ends the repetition
   * normally, any other failure is the result.
   */
  function DecodeFrom(s: seq<Byte>, p: nat): (r: Result<seq<Token>>)
    requires p <= |s|
    decreases |s| - p
    ensures r.Ok? ==> Tiles(r.value, p, |s|)
    ensures r.Err? ==> p <= r.error.at <= |s|
  {
    match Codepoint(s, p)
    case Err(e) => if p == |s| then Ok([]) else Err(e)
    case Ok(Parsed(c, n)) =>
      match DecodeFrom(s, p + n)
      case Err(e) => Err(e)
      case Ok(ts) =>
        var t := Token(c, Span(p, p + n));
        TilesCons(t, ts, |s|);
        Ok([t] + ts)
  }

  /** After a codepoint, the repetition goes on from the byte following it, and its outcome decides. */
  lemma DecodeFromStep(s: seq<Byte>, p: nat, c: Char, n: nat)
    requires p <= |s| && Codepoint(s, p) == Ok(Parsed(c, n))
    ensures p + n <= |s|
    ensures DecodeFrom(s, p).Ok? <==> DecodeFrom(s, p + n).Ok?
    ensures DecodeFrom(s, p).Ok? ==> DecodeFrom(s, p).value == [Token(c, Span(p, p + n))] + DecodeFrom(s, p + n).value
    ensures DecodeFrom(s, p).Err? ==> DecodeFrom(s, p).error == DecodeFrom(s, p + n).error
  {}

  /** `decoder` run over the whole input. */
  function Decode(s: seq<Byte>): (r: Result<seq<Token>>)
    ensures r.Ok? ==> Tiles(r.value, 0, |s|)
    ensures r.Err? ==> r.error.at <= |s|
  {
    DecodeFrom(s, 0)
  }

  /** The empty input decodes to no codepoints and no error. */
  lemma DecodeEmpty()
    ensures Decode([]) == Ok([])
  {
    InvalidLead([], 0);
  }

  /**
   * Round trip, encoder first: decoding from where the encoding of `cs`
   * starts, running to the end of the input, yields exactly `cs`, each
   * codepoint spanning its own encoding.
   */
  lemma {:induction false} DecodeFromEncoding(s: seq<Byte>, p: nat, cs: seq<Char>)
    requires p <= |s| && s[p..] == EncodeAll(cs)
    ensures DecodeFrom(s, p) == Ok(Tokenize(cs, p))
    decreases |cs|
  {
    if |cs| == 0 {
      InvalidLead(s, p);
    } else {
      var n := EncodeAllSplit(s, p, cs);
      DecodesEncoding(s, p, cs[0]);
      DecodeFromEncoding(s, p + n, cs[1..]);
      DecodeFromCons(s, p, cs[0], n, Tokenize(cs[1..], p + n));
      TokenizeCons(cs, p);
    }
  }

  lemma TokenizeCons(cs: seq<Char>, start: nat)
    requires |cs| > 0
    ensures Tokenize(cs, start) == [Token(cs[0], Span(start, start + |Encode(cs[0])|))] + Tokenize(cs[1..], start + |Encode(cs[0])|)
  {}

  /** Where the encoding of non-empty `cs` starts, the encoding of `cs[0]` starts, followed by that of the rest. */
  lemma EncodeAllSplit(s: seq<Byte>, p: nat, cs: seq<Char>) returns (n: nat)
    requires p <= |s| && s[p..] == EncodeAll(cs) && |cs| > 0
    ensures n == |Encode(cs[0])| && p + n <= |s|
    ensures Encode(cs[0]) <= s[p..] && s[p + n..] == EncodeAll(cs[1..])
  {
    n := |Encode(cs[0])|;
    assert s[p..] == Encode(cs[0]) + EncodeAll(cs[1..]);
    assert s[p + n..] == s[p..][n..];
  }

  /** A codepoint followed by a successful decode of the rest is a successful decode one token longer. */
  lemma DecodeFromCons(s: seq<Byte>, p: nat, c: Char, n: nat, ts: seq<Token>)
    requires p <= |s| && Codepoint(s, p) == Ok(Parsed(c, n))
    requires p + n <= |s| && DecodeFrom(s, p + n) == Ok(ts)
    ensures DecodeFrom(s, p) == Ok([Token(c, Span(p, p + n))] + ts)
  {
    DecodeFromStep(s, p, c, n);
  }

  /** `Decode(EncodeAll(cs))` gives back `cs`, with spans laid out from offset 0. */
  lemma DecodeEncodeAll(cs: seq<Char>)
    ensures Decode(EncodeAll(cs)) == Ok(Tokenize(cs, 0))
  {
    var s := EncodeAll(cs);
    assert s[0..] == s;
    DecodeFromEncoding(s, 0, cs);
  }

  /**
   * Round trip, decoder first: a successful decode from `p` read the
   * encodings of its codepoints back to back, up to the end of the input.
   */
  lemma {:induction false} DecodeFromSound(s: seq<Byte>, p: nat)
    requires p <= |s| && DecodeFrom(s, p).Ok?
    ensures var ts := DecodeFrom(s, p).value;
      s[p..] == EncodeAll(Values(ts)) && ts == Tokenize(Values(ts), p)
    decreases |s| - p
  {
    if Codepoint(s, p).Err? {
      DecodeFromEnd(s, p);
      assert Values([]) == [];
    } else {
      var c := Codepoint(s, p).value.value;
      var n := Codepoint(s, p).value.len;
      DecodeFromStep(s, p, c, n);
      CodepointSpells(s, p);
      DecodeFromSound(s, p + n);
      SoundCons(s, p, c, n, DecodeFrom(s, p + n).value);
    }
  }

  /** When `codepoint` fails and the repetition still succeeds, it was at the end of the input. */
  lemma DecodeFromEnd(s: seq<Byte>, p: nat)
    requires p <= |s| && DecodeFrom(s, p).Ok? && Codepoint(s, p).Err?
    ensures p == |s| && DecodeFrom(s, p) == Ok([])
  {}

  /** One more token in front of a sound decode, spelling the bytes just before it, keeps the decode sound. */
  lemma SoundCons(s: seq<Byte>, p: nat, c: Char, n: nat, rest: seq<Token>)
    requires p + n <= |s| && s[p..p + n] == Encode(c)
    requires s[p + n..] == EncodeAll(Values(rest)) && rest == Tokenize(Values(rest), p + n)
    ensures var ts := [Token(c, Span(p, p + n))] + rest;
      s[p..] == EncodeAll(Values(ts)) && ts == Tokenize(Values(ts), p)
  {
    var ts := [Token(c, Span(p, p + n))] + rest;
    var vs := Values(ts);
    assert vs[0] == c && vs[1..] == Values(rest);
    assert EncodeAll(vs) == Encode(c) + EncodeAll(Values(rest));
    TokenizeCons(vs, p);
    assert s[p..] == s[p..p + n] + s[p + n..];
  }

  /** A successful decode of the whole input reads it as the encodings of its codepoints, back to back. */
  lemma DecodeSound(s: seq<Byte>)
    requires Decode(s).Ok?
    ensures s == EncodeAll(Values(Decode(s).value))
    ensures Decode(s).value == Tokenize(Values(Decode(s).value), 0)
  {
    DecodeFromSound(s, 0);
    assert s[0..] == s;
  }

  /** The decoder accepts exactly the inputs that are encodings of some sequence of scalar values. */
  lemma DecodeOkIffEncoding(s: seq<Byte>)
    ensures Decode(s).Ok? <==> exists cs :: s == EncodeAll(cs)
  {
    if Decode(s).Ok? {
      DecodeSound(s);
    }
    if cs :| s == EncodeAll(cs) {
      DecodeEncodeAll(cs);
    }
  }

  /** Distinct codepoint sequences have distinct encodings. */
  lemma EncodeAllInjective(cs: seq<Char>, ds: seq<Char>)
    requires EncodeAll(cs) == EncodeAll(ds)
    ensures cs == ds
  {
    DecodeEncodeAll(cs);
    DecodeEncodeAll(ds);
    TokenizeValues(cs, 0);
    TokenizeValues(ds, 0);
  }

  /** The codepoints of `Tokenize(cs, start)` are `cs`. */
  lemma {:induction false} TokenizeValues(cs: seq<Char>, start: nat)
    ensures Values(Tokenize(cs, start)) == cs
    decreases |cs|
  {
    if |cs| > 0 {
      var n := EncodedLength(cs[0]);
      TokenizeValues(cs[1..], start + n);
      assert Values(Tokenize(cs, start)) == [cs[0]] + Values(Tokenize(cs[1..], start + n));
    }
  }

  /**
   * Decoding stops at the first error and skips nothing: a failed decode
   * from `p` is the failure of `codepoint` at some offset `q` before the end
   * of the input, where every byte from `p` up to `q` was decoded as whole
   * encodings.
   */
  lemma {:induction false} DecodeFromFirstError(s: seq<Byte>, p: nat)
    requires p <= |s| && DecodeFrom(s, p).Err?
    ensures exists q: nat, cs: seq<Char> ::
      p <= q < |s| && s[p..q] == EncodeAll(cs) && Codepoint(s, q) == Err(DecodeFrom(s, p).error)
    decreases |s| - p
  {
    var e := DecodeFrom(s, p).error;
    if Codepoint(s, p).Err? {
      assert s[p..p] == EncodeAll([]);
    } else {
      var c := Codepoint(s, p).value.value;
      var n := Codepoint(s, p).value.len;
      DecodeFromStep(s, p, c, n);
      CodepointSpells(s, p);
      DecodeFromFirstError(s, p + n);
      var q: nat, cs: seq<Char> :| p + n <= q < |s| && s[p + n..q] == EncodeAll(cs) && Codepoint(s, q) == Err(e);
      PrefixCons(s, p, n, q, c, cs);
    }
  }

  /** Bytes spelling `c` followed by bytes spelling `cs` spell `[c] + cs`. */
  lemma PrefixCons(s: seq<Byte>, p: nat, n: nat, q: nat, c: Char, cs: seq<Char>)
    requires p + n <= q <= |s| && s[p..p + n] == Encode(c) && s[p + n..q] == EncodeAll(cs)
    ensures s[p..q] == EncodeAll([c] + cs)
  {
    assert s[p..q] == s[p..p + n] + s[p + n..q];
    assert ([c] + cs)[1..] == cs;
  }

  /** The whole-input form of `DecodeFromFirstError`. */
  lemma DecodeFirstError(s: seq<Byte>)
    requires Decode(s).Err?
    ensures exists q: nat, cs: seq<Char> :: q < |s| && s[..q] == EncodeAll(cs) && Codepoint(s, q) == Err(Decode(s).error)
  {
    DecodeFromFirstError(s, 0);
    var q: nat, cs: seq<Char> :| 0 <= q < |s| && s[0..q] == EncodeAll(cs) && Codepoint(s, q) == Err(Decode(s).error);
    assert s[..q] == s[0..q];
  }
}

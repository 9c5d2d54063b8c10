/**
 * UTF-8 as Python's `bytes.decode('utf-8')` reads it with the default
 * `errors='strict'`: the well-formed byte sequences of Table 3-7 of the
 * Unicode Standard (no overlong forms, no surrogates, nothing above
 * U+10FFFF). The first ill-formed position raises `UnicodeDecodeError` with
 * the range and the reason CPython reports: a maximal invalid subpart is
 * what the range covers.
 *
 * `Encode` is the encoder (`str.encode('utf-8')`); decoding accepts exactly
 * the images of `Encode`.
 */
module Utf8 {
  import opened Prelude

  /** The bytes of one code point: one to four, by the size of the scalar value. */
  function EncodeChar(c: char): (w: seq<byte>)
    ensures 1 <= |w| <= 4
  {
    var v := c as int;
    if v < 0x80 then [v]
    else if v < 0x800 then [0xC0 + v / 64, 0x80 + v % 64]
    else if v < 0x1_0000 then [0xE0 + v / 4096, 0x80 + v / 64 % 64, 0x80 + v % 64]
    else [0xF0 + v / 262144, 0x80 + v / 4096 % 64, 0x80 + v / 64 % 64, 0x80 + v % 64]
  }

  /** `str.encode('utf-8')`. */
  function Encode(s: string): seq<byte>
  {
    if |s| == 0 then [] else EncodeChar(s[0]) + Encode(s[1..])
  }

  /** The length a lead byte announces; 0 for a byte that cannot start a sequence. */
  function SequenceLength(lead: byte): (n: nat)
    ensures n <= 4
  {
    if lead < 0x80 then 1
    else if lead < 0xC2 then 0
    else if lead < 0xE0 then 2
    else if lead < 0xF0 then 3
    else if lead < 0xF5 then 4
    else 0
  }

  predicate IsContinuation(x: byte)
  {
    0x80 <= x < 0xC0
  }

  /**
   * The range allowed for the byte after a lead byte. Narrower after E0
   * (no overlong form), ED (no surrogate), F0 (no overlong form) and F4
   * (nothing above U+10FFFF).
   */
  predicate SecondOk(lead: byte, x: byte)
  {
    if lead == 0xE0 then 0xA0 <= x < 0xC0
    else if lead == 0xED then 0x80 <= x < 0xA0
    else if lead == 0xF0 then 0x90 <= x < 0xC0
    else if lead == 0xF4 then 0x80 <= x < 0x90
    else IsContinuation(x)
  }

  /**
   * How many bytes at the start of `b` form a prefix of a well-formed
   * sequence of length `n`: the decoder stops at the first byte that does not
   * fit (or at the end of the input).
   */
  function ValidPrefix(b: seq<byte>, n: nat): (k: nat)
    requires 2 <= n <= 4 && |b| >= 1
    ensures 1 <= k <= n && k <= |b|
  {
    if |b| < 2 || !SecondOk(b[0], b[1]) then 1
    else if n == 2 || |b| < 3 || !IsContinuation(b[2]) then 2
    else if n == 3 || |b| < 4 || !IsContinuation(b[3]) then 3
    else 4
  }

  /** A well-formed multi-byte sequence for one code point. */
  predicate IsSequence(w: seq<byte>)
  {
    2 <= |w| <= 4 && SequenceLength(w[0]) == |w| && ValidPrefix(w, |w|) == |w|
  }

  /**
   * The scalar value a well-formed multi-byte sequence stands for: the
   * payload bits of its bytes. Each length covers its own range, so no
   * value has two encodings, and no surrogate is produced.
   */
  function Scalar(w: seq<byte>): (v: nat)
    requires IsSequence(w)
    ensures |w| == 2 ==> 0x80 <= v < 0x800
    ensures |w| == 3 ==> 0x800 <= v < 0x1_0000 && !(0xD800 <= v < 0xE000)
    ensures |w| == 4 ==> 0x1_0000 <= v < 0x11_0000
  {
    var p1 := w[1] as int - 0x80;
    var p2 := if |w| > 2 then w[2] as int - 0x80 else 0;
    var p3 := if |w| > 3 then w[3] as int - 0x80 else 0;
    if |w| == 2 then (w[0] as int - 0xC0) * 64 + p1
    else if |w| == 3 then (w[0] as int - 0xE0) * 4096 + p1 * 64 + p2
    else (w[0] as int - 0xF0) * 262144 + p1 * 4096 + p2 * 64 + p3
  }

  /** Why decoding stopped, in CPython's words. */
  datatype Reason = InvalidStartByte | InvalidContinuationByte | UnexpectedEndOfData

  /**
   * A `UnicodeDecodeError`: the positions `start` (inclusive) to `end`
   * (exclusive) of the offending bytes, the reason, and the byte at `start`.
   */
  datatype DecodeError = DecodeError(start: nat, end: nat, reason: Reason, first: byte)

  /**
   * What the decoder makes of the bytes at the front of the input: a code
   * point and how many bytes it took, or a reason to stop and how many bytes
   * the error covers.
   */
  datatype Step = Read(c: char, size: nat) | Stop(size: nat, reason: Reason)

  function First(b: seq<byte>): (st: Step)
    requires |b| >= 1
    ensures 1 <= st.size <= |b|
    ensures st.Read? ==> st.size == SequenceLength(b[0])
  {
    var n := SequenceLength(b[0]);
    if n == 0 then Stop(1, InvalidStartByte)
    else if n == 1 then Read(b[0] as char, 1)
    else
      var k := ValidPrefix(b, n);
      if k < n && k == |b| then Stop(k, UnexpectedEndOfData)
      else if k < n then Stop(k, InvalidContinuationByte)
      else Read(Scalar(b[..n]) as char, n)
  }

  /** `[c] + s` carried through a result. */
  function Prepend(c: char, r: Result<string, DecodeError>): Result<string, DecodeError>
  {
    match r
    case Success(s) => Success([c] + s)
    case Failure(e) => r
  }

  /**
   * Decodes the bytes `b` that begin at position `offset` of the whole input;
   * `offset` only enters the positions an error reports.
   */
  function DecodeFrom(b: seq<byte>, offset: nat): (r: Result<string, DecodeError>)
    ensures r.Failure? ==> offset <= r.error.start < r.error.end <= offset + |b|
    ensures r.Success? ==> |r.value| <= |b|
    decreases |b|
  {
    if |b| == 0 then Success([])
    else
      match First(b)
      case Read(c, n) => Prepend(c, DecodeFrom(b[n..], offset + n))
      case Stop(k, reason) => Failure(DecodeError(offset, offset + k, reason, b[0]))
  }

  /** Unfolds `DecodeFrom` by one code point. */
  lemma DecodeFromRead(b: seq<byte>, offset: nat)
    requires |b| >= 1 && First(b).Read?
    ensures DecodeFrom(b, offset)
         == Prepend(First(b).c, DecodeFrom(b[First(b).size..], offset + First(b).size))
  {
  }

  /** `bytes.decode('utf-8')`. */
  function Decode(b: seq<byte>): (r: Result<string, DecodeError>)
    ensures r.Success? ==> |r.value| <= |b|
    ensures r.Failure? ==> r.error.start < r.error.end <= |b|
  {
    DecodeFrom(b, 0)
  }

  /** The reason as the message spells it. */
  function ReasonText(reason: Reason): string
  {
    match reason
    case InvalidStartByte => "invalid start byte"
    case InvalidContinuationByte => "invalid continuation byte"
    case UnexpectedEndOfData => "unexpected end of data"
  }

  /**
   * Python's `str(UnicodeDecodeError)` for the 'utf-8' codec: it names the
   * codec, says "byte 0x.." for a one-byte range and "bytes" otherwise, and
   * ends with the reason.
   */
  function Message(e: DecodeError): (m: string)
    ensures "'utf-8' codec can't decode byte" <= m
    ensures e.end == e.start + 1 <==> "'utf-8' codec can't decode byte 0x" <= m
    ensures |ReasonText(e.reason)| < |m| && m[|m| - |ReasonText(e.reason)|..] == ReasonText(e.reason)
  {
    var reason := ReasonText(e.reason);
    if e.end == e.start + 1 then
      "'utf-8' codec can't decode byte 0x" + Hex2(e.first) + " in position " + Decimal(e.start) + ": " + reason
    else
      var m := "'utf-8' codec can't decode bytes in position " + Decimal(e.start) + "-"
        + Decimal(if e.end == 0 then 0 else e.end - 1) + ": " + reason;
      assert m[31] == 's' != "'utf-8' codec can't decode byte 0x"[31];
      m
  }

  /** The encoding of one code point is a well-formed sequence for it. */
  lemma EncodeCharDecodes(c: char)
    ensures var w := EncodeChar(c);
      if |w| == 1 then SequenceLength(w[0]) == 1 && w[0] as char == c
      else IsSequence(w) && Scalar(w) == c as int
  {
    var v := c as int;
    var w := EncodeChar(c);
    if v < 0x80 {
    } else if v < 0x800 {
      assert w[0] == 0xC0 + v / 64 && SequenceLength(w[0]) == 2;
    } else if v < 0x1_0000 {
      ThreeByteForm(v);
    } else {
      FourByteForm(v);
    }
  }

  lemma ThreeByteForm(v: nat)
    requires 0x800 <= v < 0x1_0000 && !(0xD800 <= v < 0xE000)
    ensures var w := [0xE0 + v / 4096, 0x80 + v / 64 % 64, 0x80 + v % 64];
      IsSequence(w) && Scalar(w) == v
  {
    var w: seq<byte> := [0xE0 + v / 4096, 0x80 + v / 64 % 64, 0x80 + v % 64];
    assert v / 64 == v / 4096 * 64 + v / 64 % 64;
    assert SecondOk(w[0], w[1]);
  }

  lemma FourByteForm(v: nat)
    requires 0x1_0000 <= v < 0x11_0000
    ensures var w := [0xF0 + v / 262144, 0x80 + v / 4096 % 64, 0x80 + v / 64 % 64, 0x80 + v % 64];
      IsSequence(w) && Scalar(w) == v
  {
    var w: seq<byte> := [0xF0 + v / 262144, 0x80 + v / 4096 % 64, 0x80 + v / 64 % 64, 0x80 + v % 64];
    assert v / 4096 == v / 262144 * 64 + v / 4096 % 64;
    assert v / 64 == v / 4096 * 64 + v / 64 % 64;
    assert SecondOk(w[0], w[1]);
  }

  /** The decoder only looks at the bytes of the sequence it is reading. */
  lemma FirstOfEncoding(c: char, rest: seq<byte>)
    ensures First(EncodeChar(c) + rest) == Read(c, |EncodeChar(c)|)
    ensures (EncodeChar(c) + rest)[|EncodeChar(c)|..] == rest
  {
    var w := EncodeChar(c);
    EncodeCharDecodes(c);
    assert (w + rest)[0] == w[0];
    if |w| >= 2 {
      assert (w + rest)[..|w|] == w;
      assert ValidPrefix(w + rest, |w|) == |w| by {
        assert (w + rest)[1] == w[1];
        assert |w| >= 3 ==> (w + rest)[2] == w[2];
        assert |w| >= 4 ==> (w + rest)[3] == w[3];
      }
    }
    assert (w + rest)[|w|..] == rest;
  }

  /** Sequence identities, proved apart from the decoder so that they stay cheap. */
  lemma ConsAppend<T>(s: seq<T>, t: seq<T>)
    requires |s| >= 1
    ensures [s[0]] + (s[1..] + t) == s + t
  {
  }

  lemma SplitAt<T>(b: seq<T>, n: nat)
    requires n <= |b|
    ensures b[..n] + b[n..] == b
  {
  }

  lemma AppendAssoc<T>(a: seq<T>, b: seq<T>, c: seq<T>)
    ensures (a + b) + c == a + (b + c)
  {
  }

  /** `s + t` carried through a result. */
  function PrependAll(s: string, r: Result<string, DecodeError>): Result<string, DecodeError>
  {
    match r
    case Success(t) => Success(s + t)
    case Failure(e) => r
  }

  lemma PrependThenAll(s: string, r: Result<string, DecodeError>)
    requires |s| >= 1
    ensures Prepend(s[0], PrependAll(s[1..], r)) == PrependAll(s, r)
  {
    if r.Success? {
      ConsAppend(s, r.value);
    }
  }

  /** The encoding of one code point, in front of any bytes, is read back as that code point. */
  lemma DecodeEncodedChar(c: char, rest: seq<byte>, offset: nat)
    ensures DecodeFrom(EncodeChar(c) + rest, offset)
         == Prepend(c, DecodeFrom(rest, offset + |EncodeChar(c)|))
  {
    FirstOfEncoding(c, rest);
    DecodeFromRead(EncodeChar(c) + rest, offset);
  }

  /** Unfolds `DecodeFrom` at a place where it stops. */
  lemma DecodeFromStop(b: seq<byte>, offset: nat)
    requires |b| >= 1 && First(b).Stop?
    ensures DecodeFrom(b, offset)
         == Failure(DecodeError(offset, offset + First(b).size, First(b).reason, b[0]))
  {
  }

  /**
   * Decoding reads the encoding of `s` back as `s` and then goes on with
   * whatever follows it, positions counted on.
   */
  lemma {:induction false} DecodeFromEncodeThen(s: string, q: seq<byte>, offset: nat)
    ensures DecodeFrom(Encode(s) + q, offset) == PrependAll(s, DecodeFrom(q, offset + |Encode(s)|))
    decreases |s|
  {
    if |s| == 0 {
      assert Encode(s) + q == q;
      match DecodeFrom(q, offset)
      case Success(t) => assert s + t == t;
      case Failure(e) =>
    } else {
      var w, rest := EncodeChar(s[0]), Encode(s[1..]);
      assert Encode(s) + q == w + (rest + q) by {
        AppendAssoc(w, rest, q);
      }
      DecodeEncodedChar(s[0], rest + q, offset);
      DecodeFromEncodeThen(s[1..], q, offset + |w|);
      assert |Encode(s)| == |w| + |rest|;
      PrependThenAll(s, DecodeFrom(q, offset + |w| + |rest|));
    }
  }

  /** Strict decoding gives back every string from its encoding. */
  lemma DecodeFromEncode(s: string, offset: nat)
    ensures DecodeFrom(Encode(s), offset) == Success(s)
  {
    DecodeFromEncodeThen(s, [], offset);
    assert Encode(s) + [] == Encode(s);
    assert s + [] == s;
  }

  /** Round trip over the encoder: `s.encode('utf-8').decode('utf-8') == s`. */
  lemma DecodeEncode(s: string)
    ensures Decode(Encode(s)) == Success(s)
  {
    DecodeFromEncode(s, 0);
  }

  lemma DivMod64(q: int, r: int)
    requires 0 <= q && 0 <= r < 64
    ensures (q * 64 + r) / 64 == q && (q * 64 + r) % 64 == r
  {
  }

  /** A well-formed multi-byte sequence is the encoding of the code point it stands for. */
  lemma ScalarEncodes(w: seq<byte>)
    requires IsSequence(w)
    ensures EncodeChar(Scalar(w) as char) == w
  {
    if |w| == 2 {
      DivMod64(w[0] as int - 0xC0, w[1] as int - 0x80);
    } else if |w| == 3 {
      ThreeByteScalar(w);
    } else {
      FourByteScalar(w);
    }
  }

  lemma ThreeByteScalar(w: seq<byte>)
    requires IsSequence(w) && |w| == 3
    ensures var v := Scalar(w);
      v / 4096 == w[0] - 0xE0 && v / 64 % 64 == w[1] - 0x80 && v % 64 == w[2] - 0x80
  {
    var v := Scalar(w);
    var hi := (w[0] as int - 0xE0) * 64 + (w[1] as int - 0x80);
    assert v == hi * 64 + (w[2] as int - 0x80);
    DivMod64(hi, w[2] as int - 0x80);
    DivMod64(w[0] as int - 0xE0, w[1] as int - 0x80);
    assert v / 4096 == v / 64 / 64;
  }

  lemma FourByteScalar(w: seq<byte>)
    requires IsSequence(w) && |w| == 4
    ensures var v := Scalar(w);
      v / 262144 == w[0] - 0xF0 && v / 4096 % 64 == w[1] - 0x80
      && v / 64 % 64 == w[2] - 0x80 && v % 64 == w[3] - 0x80
  {
    var v := Scalar(w);
    var top := (w[0] as int - 0xF0) * 64 + (w[1] as int - 0x80);
    var hi := top * 64 + (w[2] as int - 0x80);
    assert v == hi * 64 + (w[3] as int - 0x80);
    DivMod64(hi, w[3] as int - 0x80);
    DivMod64(top, w[2] as int - 0x80);
    DivMod64(w[0] as int - 0xF0, w[1] as int - 0x80);
    assert v / 4096 == v / 64 / 64;
    assert v / 262144 == v / 4096 / 64;
  }

  /** A code point read at the front re-encodes to the bytes it was read from. */
  lemma FirstEncodes(b: seq<byte>)
    requires |b| >= 1 && First(b).Read?
    ensures EncodeChar(First(b).c) == b[..First(b).size]
  {
    var n := SequenceLength(b[0]);
    if n >= 2 {
      assert IsSequence(b[..n]);
      ScalarEncodes(b[..n]);
    }
  }

  /** Strict decoding accepts only encodings: what it returns re-encodes to the input. */
  lemma {:induction false} EncodeDecodeFrom(b: seq<byte>, offset: nat)
    requires DecodeFrom(b, offset).Success?
    ensures Encode(DecodeFrom(b, offset).value) == b
    decreases |b|
  {
    if |b| > 0 {
      var n := First(b).size;
      FirstEncodes(b);
      EncodeDecodeFrom(b[n..], offset + n);
      var s := DecodeFrom(b, offset).value;
      assert s == [First(b).c] + DecodeFrom(b[n..], offset + n).value;
      SplitAt(b, n);
    }
  }

  /** Strict UTF-8 accepts a byte string exactly when it is the encoding of some string. */
  lemma DecodeOk(b: seq<byte>, s: string)
    ensures Decode(b) == Success(s) <==> b == Encode(s)
  {
    if Decode(b) == Success(s) {
      EncodeDecodeFrom(b, 0);
    }
    if b == Encode(s) {
      DecodeEncode(s);
    }
  }

  /**
   * What each reason means: an invalid start byte is a one-byte range over a
   * byte no sequence starts with; an unexpected end runs to the end of the
   * input; an invalid continuation stops before a byte that does not fit,
   * inside the sequence its lead byte announced.
   */
  lemma FirstStops(b: seq<byte>)
    requires |b| >= 1 && First(b).Stop?
    ensures var st := First(b);
      && (st.reason == InvalidStartByte ==> st.size == 1 && SequenceLength(b[0]) == 0)
      && (st.reason == UnexpectedEndOfData ==> st.size == |b| && SequenceLength(b[0]) >= 2)
      && (st.reason == InvalidContinuationByte ==> st.size < |b| && st.size < SequenceLength(b[0]))
  {
  }

  lemma {:induction false} ErrorReasons(b: seq<byte>, offset: nat)
    requires DecodeFrom(b, offset).Failure?
    ensures var e := DecodeFrom(b, offset).error;
      && (e.reason == InvalidStartByte ==> e.end == e.start + 1 && SequenceLength(e.first) == 0)
      && (e.reason == UnexpectedEndOfData ==> e.end == offset + |b| && SequenceLength(e.first) >= 2)
      && (e.reason == InvalidContinuationByte ==>
            e.end < offset + |b| && e.end - e.start < SequenceLength(e.first))
    decreases |b|
  {
    match First(b)
    case Read(_, n) => ErrorReasons(b[n..], offset + n);
    case Stop(_, _) => FirstStops(b);
  }

  /**
   * The error is reported at the first ill-formed place: after well-formed
   * text, the range starts where the bytes that do not fit start.
   */
  lemma ErrorAfterText(s: string, q: seq<byte>)
    requires |q| >= 1 && First(q).Stop?
    ensures Decode(Encode(s) + q)
         == Failure(DecodeError(|Encode(s)|, |Encode(s)| + First(q).size, First(q).reason, q[0]))
  {
    DecodeFromEncodeThen(s, q, 0);
    DecodeFromStop(q, |Encode(s)|);
  }
}

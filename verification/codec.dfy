/**
 The binary-to-text codec of CppSQLite3.cpp (`sqlite3_encode_binary` and
 `sqlite3_decode_binary`), as pure functions over byte sequences.

 An encoding is an offset byte `e`, then every input byte `x` written as
 `(x - e) mod 256`, where the three values 0x00, 0x01 and 0x27 are replaced by
 the two-byte escapes 0x01 0x01, 0x01 0x02 and 0x01 0x03. The offset is the
 first candidate in 1..255 (0x27 excluded) that needs the fewest escapes.
 */
module Codec {

  /** An unsigned char. */
  type byte = x: int | 0 <= x < 256

  /** The quote character, which the text form must never contain. */
  const Quote: byte := 0x27
  /** The escape prefix. */
  const Escape: byte := 0x01
  /** The whole encoding of the empty buffer: the character 'x'. */
  const EmptyEncoding: byte := 0x78

  /** The offsets the encoder may choose: never 0 (the terminator) nor the quote. */
  predicate IsOffset(e: int) {
    1 <= e < 256 && e != Quote as int
  }

  /** The byte the encoder writes for `x` before escaping. */
  function Shift(x: byte, e: byte): byte {
    (x - e) % 256
  }

  /** The byte the decoder produces from a transformed byte `c`. */
  function Unshift(c: byte, e: byte): byte {
    (c + e) % 256
  }

  /** Transformed bytes that must be escaped. */
  predicate Special(c: byte) {
    c == 0 || c == Escape || c == Quote
  }

  /** The second byte of the escape for a special byte. */
  function Marker(c: byte): byte
    requires Special(c)
  {
    if c == 0 then 1 else if c == Escape then 2 else 3
  }

  /** The bytes the decoder accepts after an escape prefix. */
  predicate IsMarker(m: byte) {
    1 <= m <= 3
  }

  /** The special byte an escape marker stands for. */
  function Unmark(m: byte): byte
    requires IsMarker(m)
  {
    if m == 1 then 0 else if m == 2 then Escape else Quote
  }

  function EncodeByte(x: byte, e: byte): seq<byte> {
    var c := Shift(x, e);
    if Special(c) then [Escape, Marker(c)] else [c]
  }

  function EncodeBody(b: seq<byte>, e: byte): seq<byte> {
    if |b| == 0 then [] else EncodeByte(b[0], e) + EncodeBody(b[1..], e)
  }

  /** The number of bytes of `b` that need an escape under offset `e`. */
  function Escapes(b: seq<byte>, e: byte): nat {
    if |b| == 0 then 0
    else (if Special(Shift(b[0], e)) then 1 else 0) + Escapes(b[1..], e)
  }

  /** Number of occurrences of `v` in `b`: one cell of the encoder's histogram. */
  function Count(b: seq<byte>, v: byte): nat {
    if |b| == 0 then 0 else (if b[0] == v then 1 else 0) + Count(b[1..], v)
  }

  /** Scans the candidates `i`..255, keeping the first one with the fewest escapes. */
  function BestFrom(b: seq<byte>, i: int, e: byte): byte
    requires 2 <= i <= 256 && IsOffset(e)
    decreases 256 - i
  {
    if i == 256 then e
    else if i == Quote as int then BestFrom(b, i + 1, e)
    else if Escapes(b, i) < Escapes(b, e) then BestFrom(b, i + 1, i)
    else BestFrom(b, i + 1, e)
  }

  /** The offset the encoder uses for a non-empty buffer. */
  function BestOffset(b: seq<byte>): byte {
    BestFrom(b, 2, 1)
  }

  /** `e` is the smallest offset with the fewest escapes. */
  ghost predicate LeastMinimiser(b: seq<byte>, e: byte) {
    && IsOffset(e)
    && (forall c: byte :: IsOffset(c) ==> Escapes(b, e) <= Escapes(b, c))
    && (forall c: byte :: IsOffset(c) && c < e ==> Escapes(b, e) < Escapes(b, c))
  }

  /** The encoded text, without its 0x00 terminator. */
  function Encode(b: seq<byte>): seq<byte> {
    if |b| == 0 then [EmptyEncoding]
    else
      var e := BestOffset(b);
      [e] + EncodeBody(b, e)
  }

  /** The result of decoding: -1 in the source, or the decoded bytes. */
  datatype Decoded = Malformed | Bytes(data: seq<byte>)

  /** The decoder's return value. */
  function DecodedLength(d: Decoded): int {
    if d.Malformed? then -1 else |d.data|
  }

  function Prepend(x: byte, d: Decoded): Decoded {
    if d.Malformed? then Malformed else Bytes([x] + d.data)
  }

  /**
   Decodes the bytes after the offset byte, up to the first unescaped 0x00.
   Running out of bytes counts as malformed; on a terminated buffer (the only
   kind the source may be given) that case is never reached.
   */
  function DecodeBody(s: seq<byte>, e: byte): Decoded
    decreases |s|
  {
    if |s| == 0 then Malformed
    else if s[0] == 0 then Bytes([])
    else if s[0] == Escape then
      if |s| >= 2 && IsMarker(s[1]) then Prepend(Unshift(Unmark(s[1]), e), DecodeBody(s[2..], e))
      else Malformed
    else Prepend(Unshift(s[0], e), DecodeBody(s[1..], e))
  }

  /** A NUL-terminated encoded buffer: an offset byte, then text up to a 0x00. */
  predicate Terminated(buf: seq<byte>) {
    |buf| >= 1 && 0 in buf[1..]
  }

  function Decode(buf: seq<byte>): Decoded
    requires Terminated(buf)
  {
    DecodeBody(buf[1..], buf[0])
  }

  /** The text after the offset byte consists of single non-special bytes and escapes. */
  predicate Tokenised(s: seq<byte>)
    decreases |s|
  {
    if |s| == 0 then true
    else if s[0] == Escape then |s| >= 2 && IsMarker(s[1]) && Tokenised(s[2..])
    else !Special(s[0]) && Tokenised(s[1..])
  }

  // ---------------------------------------------------------------------------
  // Offset choice

  lemma {:induction false} BestFromIsLeastMinimiser(b: seq<byte>, i: int, e: byte)
    requires 2 <= i <= 256 && IsOffset(e) && e < i
    requires forall c: byte :: IsOffset(c) && c < i ==> Escapes(b, e) <= Escapes(b, c)
    requires forall c: byte :: IsOffset(c) && c < e ==> Escapes(b, e) < Escapes(b, c)
    ensures LeastMinimiser(b, BestFrom(b, i, e))
    decreases 256 - i
  {
    if i == 256 {
    } else if i == Quote as int || Escapes(b, i) >= Escapes(b, e) {
      KeepCandidate(b, i, e);
      BestFromIsLeastMinimiser(b, i + 1, e);
    } else {
      TakeCandidate(b, i, e);
      BestFromIsLeastMinimiser(b, i + 1, i);
    }
  }

  /** Passing over candidate `i` keeps `e` the least minimiser so far. */
  lemma KeepCandidate(b: seq<byte>, i: int, e: byte)
    requires 2 <= i < 256 && IsOffset(e)
    requires i == Quote as int || Escapes(b, i) >= Escapes(b, e)
    requires forall c: byte :: IsOffset(c) && c < i ==> Escapes(b, e) <= Escapes(b, c)
    ensures forall c: byte :: IsOffset(c) && c < i + 1 ==> Escapes(b, e) <= Escapes(b, c)
  {
    forall c: byte | IsOffset(c) && c < i + 1
      ensures Escapes(b, e) <= Escapes(b, c)
    {
      if c == i {
        assert c != Quote as int;
      }
    }
  }

  /** A candidate with strictly fewer escapes becomes the least minimiser so far. */
  lemma TakeCandidate(b: seq<byte>, i: int, e: byte)
    requires 2 <= i < 256 && IsOffset(e) && e < i && IsOffset(i)
    requires Escapes(b, i) < Escapes(b, e)
    requires forall c: byte :: IsOffset(c) && c < i ==> Escapes(b, e) <= Escapes(b, c)
    ensures forall c: byte :: IsOffset(c) && c < i + 1 ==> Escapes(b, i) <= Escapes(b, c)
    ensures forall c: byte :: IsOffset(c) && c < i ==> Escapes(b, i) < Escapes(b, c)
  {
  }

  /** The offset is the first candidate that needs the fewest escapes. */
  lemma BestOffsetIsLeastMinimiser(b: seq<byte>)
    ensures LeastMinimiser(b, BestOffset(b))
  {
    BestFromIsLeastMinimiser(b, 2, 1);
  }

  /** Only one offset can be the least minimiser. */
  lemma LeastMinimiserUnique(b: seq<byte>, e1: byte, e2: byte)
    requires LeastMinimiser(b, e1) && LeastMinimiser(b, e2)
    ensures e1 == e2
  {
  }

  // ---------------------------------------------------------------------------
  // Histogram

  /** The three byte values that need an escape under offset `e`. */
  lemma SpecialShift(x: byte, e: byte)
    ensures Special(Shift(x, e)) <==> (x == e || x == (e + 1) % 256 || x == (e + 39) % 256)
  {
  }

  /** The escape count for offset `e` is the sum of three histogram cells. */
  lemma {:induction false} EscapesByCounts(b: seq<byte>, e: byte)
    ensures Escapes(b, e) == Count(b, e) + Count(b, (e + 1) % 256) + Count(b, (e + 39) % 256)
    decreases |b|
  {
    if |b| != 0 {
      SpecialShift(b[0], e);
      EscapesByCounts(b[1..], e);
    }
  }

  // ---------------------------------------------------------------------------
  // Encoding: structure and length

  lemma {:induction false} EncodeBodyAppend(a: seq<byte>, b: seq<byte>, e: byte)
    ensures EncodeBody(a + b, e) == EncodeBody(a, e) + EncodeBody(b, e)
    decreases |a|
  {
    if |a| == 0 {
      assert a + b == b;
    } else {
      assert (a + b)[1..] == a[1..] + b;
      EncodeBodyAppend(a[1..], b, e);
    }
  }

  /** Each input byte costs one output byte, plus one per escape. */
  lemma {:induction false} EncodeBodyLength(b: seq<byte>, e: byte)
    ensures |EncodeBody(b, e)| == |b| + Escapes(b, e)
    decreases |b|
  {
    if |b| != 0 {
      EncodeBodyLength(b[1..], e);
    }
  }

  /** The returned length is one offset byte, one byte per input byte and one per escape. */
  lemma EncodeLength(b: seq<byte>)
    ensures |b| == 0 ==> |Encode(b)| == 1
    ensures |b| > 0 ==> |Encode(b)| == 1 + |b| + Escapes(b, BestOffset(b))
  {
    if |b| > 0 {
      EncodeBodyLength(b, BestOffset(b));
    }
  }

  lemma {:induction false} EncodeBodyTokenised(b: seq<byte>, e: byte)
    ensures Tokenised(EncodeBody(b, e))
    decreases |b|
  {
    if |b| != 0 {
      EncodeBodyTokenised(b[1..], e);
      var t := EncodeByte(b[0], e);
      var s := t + EncodeBody(b[1..], e);
      if |t| == 2 {
        assert s[2..] == EncodeBody(b[1..], e);
      } else {
        assert s[1..] == EncodeBody(b[1..], e);
      }
    }
  }

  /** Tokenised text contains neither 0x00 nor the quote. */
  lemma {:induction false} TokenisedAlphabet(s: seq<byte>)
    requires Tokenised(s)
    ensures 0 !in s && Quote !in s
    decreases |s|
  {
    if |s| != 0 {
      if s[0] == Escape {
        TokenisedAlphabet(s[2..]);
        assert s == [s[0], s[1]] + s[2..];
      } else {
        TokenisedAlphabet(s[1..]);
        assert s == [s[0]] + s[1..];
      }
    }
  }

  /**
   The alphabet guarantee: the first byte is an allowed offset, the text has
   no 0x00 and no quote, and 0x01 only starts an escape followed by 1, 2 or 3.
   */
  lemma EncodeAlphabet(b: seq<byte>)
    ensures IsOffset(Encode(b)[0])
    ensures 0 !in Encode(b) && Quote !in Encode(b)
    ensures Tokenised(Encode(b)[1..])
  {
    var out := Encode(b);
    if |b| == 0 {
      assert out[1..] == [];
    } else {
      var e := BestOffset(b);
      BestOffsetIsLeastMinimiser(b);
      EncodeBodyTokenised(b, e);
      assert out[1..] == EncodeBody(b, e);
      TokenisedAlphabet(out[1..]);
      assert out == [e] + out[1..];
    }
  }

  // ---------------------------------------------------------------------------
  // Decoding

  /** The decoder's shift undoes the encoder's. */
  lemma ShiftInverse(x: byte, e: byte)
    ensures Unshift(Shift(x, e), e) == x
  {
  }

  lemma DecodeEscapeHead(m: byte, e: byte, rest: seq<byte>)
    requires IsMarker(m)
    ensures DecodeBody([Escape, m] + rest, e) == Prepend(Unshift(Unmark(m), e), DecodeBody(rest, e))
  {
    assert ([Escape, m] + rest)[2..] == rest;
  }

  lemma DecodePlainHead(c: byte, e: byte, rest: seq<byte>)
    requires c != 0 && c != Escape
    ensures DecodeBody([c] + rest, e) == Prepend(Unshift(c, e), DecodeBody(rest, e))
  {
    assert ([c] + rest)[1..] == rest;
  }

  /** Decoding one encoded byte gives that byte back, whatever follows. */
  lemma EncodeByteDecodes(x: byte, e: byte, rest: seq<byte>)
    ensures DecodeBody(EncodeByte(x, e) + rest, e) == Prepend(x, DecodeBody(rest, e))
  {
    var c := Shift(x, e);
    ShiftInverse(x, e);
    if Special(c) {
      assert Unmark(Marker(c)) == c;
      DecodeEscapeHead(Marker(c), e, rest);
    } else {
      DecodePlainHead(c, e, rest);
    }
  }

  lemma {:induction false} DecodeEncodeBody(b: seq<byte>, e: byte, rest: seq<byte>)
    ensures DecodeBody(EncodeBody(b, e) + rest, e) == Prepend2(b, DecodeBody(rest, e))
    decreases |b|
  {
    if |b| == 0 {
      assert EncodeBody(b, e) + rest == rest;
    } else {
      DecodeEncodeBody(b[1..], e, rest);
      var tail := EncodeBody(b[1..], e) + rest;
      Assoc(EncodeByte(b[0], e), EncodeBody(b[1..], e), rest);
      EncodeByteDecodes(b[0], e, tail);
      PrependBoth(b, DecodeBody(rest, e));
    }
  }

  function Prepend2(a: seq<byte>, d: Decoded): Decoded {
    if d.Malformed? then Malformed else Bytes(a + d.data)
  }

  lemma PrependBoth(b: seq<byte>, d: Decoded)
    requires |b| > 0
    ensures Prepend(b[0], Prepend2(b[1..], d)) == Prepend2(b, d)
  {
    if d.Bytes? {
      Assoc([b[0]], b[1..], d.data);
      assert [b[0]] + b[1..] == b;
    }
  }

  /**
   The round trip: decoding the terminated encoding of any buffer, whatever
   follows the terminator, yields that buffer and returns its length.
   */
  lemma RoundTrip(b: seq<byte>, tail: seq<byte>)
    ensures Terminated(Encode(b) + [0] + tail)
    ensures Decode(Encode(b) + [0] + tail) == Bytes(b)
    ensures DecodedLength(Decode(Encode(b) + [0] + tail)) == |b|
  {
    var rest := [0] + tail;
    assert rest[0] == 0;
    Assoc(Encode(b), [0], tail);
    if |b| == 0 {
      DecodeAfterOffset(EmptyEncoding, rest);
    } else {
      RoundTripNonEmpty(b, rest);
    }
  }

  lemma RoundTripNonEmpty(b: seq<byte>, rest: seq<byte>)
    requires |b| > 0 && |rest| > 0 && rest[0] == 0
    ensures Terminated(Encode(b) + rest)
    ensures Decode(Encode(b) + rest) == Bytes(b)
  {
    EncodeNonEmpty(b);
    RoundTripWith(b, BestOffset(b), rest);
  }

  /** The offset byte heads a non-empty encoding. */
  lemma EncodeNonEmpty(b: seq<byte>)
    requires |b| > 0
    ensures Encode(b) == [BestOffset(b)] + EncodeBody(b, BestOffset(b))
  {
  }

  /** The round trip holds for whichever offset the text starts with. */
  lemma RoundTripWith(b: seq<byte>, e: byte, rest: seq<byte>)
    requires |rest| > 0 && rest[0] == 0
    ensures Terminated([e] + EncodeBody(b, e) + rest)
    ensures Decode([e] + EncodeBody(b, e) + rest) == Bytes(b)
  {
    var body := EncodeBody(b, e) + rest;
    BodyRoundTrip(b, e, rest);
    Assoc([e], EncodeBody(b, e), rest);
    DecodeAfterOffset(e, body);
  }

  lemma Assoc(x: seq<byte>, y: seq<byte>, z: seq<byte>)
    ensures x + y + z == x + (y + z)
  {
  }

  /** A body followed directly by the terminator decodes to the input bytes. */
  lemma BodyRoundTrip(b: seq<byte>, e: byte, rest: seq<byte>)
    requires |rest| > 0 && rest[0] == 0
    ensures 0 in EncodeBody(b, e) + rest
    ensures DecodeBody(EncodeBody(b, e) + rest, e) == Bytes(b)
  {
    assert (EncodeBody(b, e) + rest)[|EncodeBody(b, e)|] == 0;
    DecodeEncodeBody(b, e, rest);
    assert DecodeBody(rest, e) == Bytes([]);
    assert b + [] == b;
  }

  lemma DecodeAfterOffset(e: byte, body: seq<byte>)
    requires 0 in body
    ensures Terminated([e] + body)
    ensures Decode([e] + body) == DecodeBody(body, e)
  {
    assert ([e] + body)[1..] == body;
  }

  /**
   An escape prefix followed by anything but 1, 2 or 3, the terminator
   included, makes the whole decode fail, whatever valid text precedes it.
   */
  lemma DecodeRejectsBadEscape(b: seq<byte>, e: byte, m: byte, tail: seq<byte>)
    requires !IsMarker(m)
    requires m == 0 || 0 in tail
    ensures 0 in EncodeBody(b, e) + [Escape, m] + tail
    ensures DecodeBody(EncodeBody(b, e) + [Escape, m] + tail, e) == Malformed
  {
    var rest := [Escape, m] + tail;
    assert m == 0 ==> rest[1] == 0;
    assert m != 0 ==> (exists j :: 0 <= j < |tail| && tail[j] == 0 && rest[j + 2] == 0);
    assert 0 in rest;
    DecodeEncodeBody(b, e, rest);
    assert EncodeBody(b, e) + [Escape, m] + tail == EncodeBody(b, e) + rest;
  }

  /** Decoding never lengthens: each output byte consumes at least one input byte. */
  lemma {:induction false} DecodeShrinks(s: seq<byte>, e: byte)
    ensures DecodeBody(s, e).Bytes? ==> |DecodeBody(s, e).data| < |s|
    decreases |s|
  {
    if |s| > 0 && s[0] != 0 {
      if s[0] == Escape {
        if |s| >= 2 && IsMarker(s[1]) {
          DecodeShrinks(s[2..], e);
        }
      } else {
        DecodeShrinks(s[1..], e);
      }
    }
  }
}

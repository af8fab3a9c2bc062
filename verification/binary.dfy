/**
 `CppSQLite3Binary`: a heap buffer that holds either raw bytes (`mbEncoded`
 false) or their NUL-terminated text encoding (`mbEncoded` true), converting
 in place on demand. Buffer accesses the C++ code does not check are
 reported as `OutOfBounds` rather than assumed away.
 */
module BinaryBuffer {
  import opened Engine
  import opened Codec
  import CodecSize
  import CodecRoutines

  /**
   The members of a `CppSQLite3Binary`: `buf` is the buffer's contents (None
   for NULL); the lengths are C `int`s.
   */
  datatype Binary = Binary(buf: Option<seq<byte>>, binaryLen: int, bufferLen: int, encodedLen: int, encoded: bool)

  /** A freshly constructed object. */
  const Fresh: Binary := Binary(None, 0, 0, 0, false)

  /**
   The result of a member call: normal return with the new state and value,
   an exception (with the state the object is left in), or an access outside
   the buffer, after which the C++ behaviour is undefined.
   */
  datatype Access<T> = Fine(state: Binary, value: T) | Fails(state: Binary, error: Exception) | OutOfBounds

  function Available(b: Binary): nat {
    if b.buf.Some? then |b.buf.value| else 0
  }

  /** `clear()`: frees the buffer; the lengths are reset only if there was one. */
  function Clear(b: Binary): (r: Binary)
    ensures r.buf.None? && r.encoded == b.encoded && r.encodedLen == b.encodedLen
    ensures b.buf.Some? ==> r.binaryLen == 0 && r.bufferLen == 0
    ensures b.buf.None? ==> r == b
  {
    if b.buf.Some? then b.(buf := None, binaryLen := 0, bufferLen := 0) else b
  }

  lemma ClearIdempotent(b: Binary)
    ensures Clear(Clear(b)) == Clear(b)
  {
  }

  // ---------------------------------------------------------------------------
  // The buffer size

  const TwoTo31: int := 0x8000_0000
  const TwoTo32: int := 0x1_0000_0000

  /** A C `int` result: the two's-complement value congruent to `x` modulo 2^32. */
  function Int32(x: int): (r: int)
    ensures -TwoTo31 <= r < TwoTo31
    ensures (r - x) % TwoTo32 == 0
  {
    (x + TwoTo31) % TwoTo32 - TwoTo31
  }

  /** C division, which truncates toward zero. */
  function CDiv(a: int, d: int): (q: int)
    requires d > 0
    ensures a >= 0 ==> q == a / d
    ensures a < 0 ==> q == -((-a) / d)
  {
    if a >= 0 then a / d else -((-a) / d)
  }

  /** `mnBufferLen` as `allocBuffer` computes it, in 32-bit `int` arithmetic. */
  function AllocLenAsWritten(n: int): int {
    3 + CDiv(Int32(257 * n), 254)
  }

  /** The buffer size the comment in `allocBuffer` intends, without overflow. */
  function AllocLen(n: nat): nat {
    3 + (257 * n) / 254
  }

  /** The corrected size holds the raw bytes, and their encoding with its terminator. */
  lemma AllocLenFits(data: seq<byte>)
    ensures |data| <= AllocLen(|data|)
    ensures |Encode(data)| + 1 <= AllocLen(|data|)
  {
    CodecSize.EncodeSizeBound(data);
  }

  /** While 257 * n fits in an `int`, the source's arithmetic gives the intended size. */
  lemma AllocLenAsWrittenAgrees(n: nat)
    requires 257 * n < TwoTo31
    ensures AllocLenAsWritten(n) == AllocLen(n)
  {
  }

  /**
   For n = 16711936, 257 * n = 2^32 + 256 wraps to 256, so the buffer gets 4
   bytes, and `setBinary` copies n bytes into it.
   */
  lemma AllocLenAsWrittenOverflows(data: seq<byte>)
    requires |data| == 16711936
    ensures AllocLenAsWritten(|data|) == 4
    ensures AllocLenAsWritten(|data|) < |data|
    ensures AllocLenAsWritten(|data|) < |Encode(data)| + 1
  {
    WrapsAt16711936();
    EncodeLength(data);
  }

  lemma WrapsAt16711936()
    ensures AllocLenAsWritten(16711936) == 4
  {
    assert 257 * 16711936 == TwoTo32 + 256;
    assert (TwoTo32 + 256 + TwoTo31) % TwoTo32 == TwoTo31 + 256;
    assert Int32(257 * 16711936) == 256;
  }

  /**
   `allocBuffer(n)` with the intended size. The contents of a new buffer are
   unspecified in C++; the model fills them with zeros.
   */
  function AllocBuffer(b: Binary, n: nat): (r: Binary)
    ensures r.buf.Some? && |r.buf.value| == r.bufferLen == AllocLen(n)
    ensures r.binaryLen == n && !r.encoded && r.encodedLen == b.encodedLen
  {
    var c := Clear(b);
    c.(binaryLen := n, bufferLen := AllocLen(n), buf := Some(seq(AllocLen(n), _ => 0)), encoded := false)
  }

  /** `setBinary(p, n)`: a fresh buffer whose first n bytes are `data`. */
  function SetBinary(b: Binary, data: seq<byte>): (r: Binary)
    ensures r.buf.Some? && |r.buf.value| == r.bufferLen == AllocLen(|data|)
    ensures r.buf.value[..|data|] == data
    ensures r.binaryLen == |data| && !r.encoded
  {
    var a := AllocBuffer(b, |data|);
    AllocLenFits(data);
    a.(buf := Some(data + a.buf.value[|data|..]))
  }

  /** `setEncoded(p)`: a copy of the C string `text` and its terminator, marked encoded. */
  function SetEncoded(b: Binary, text: seq<byte>): (r: Binary)
    requires 0 !in text
    ensures r.buf == Some(text + [0]) && r.encoded
    ensures r.encodedLen == |text| && r.bufferLen == |text| + 1
    ensures r.binaryLen == (if b.buf.Some? then 0 else b.binaryLen)
  {
    var c := Clear(b);
    c.(encodedLen := |text|, bufferLen := |text| + 1, buf := Some(text + [0]), encoded := true)
  }

  /**
   `getEncoded()`: encodes the first `mnBinaryLen` bytes into the same buffer
   unless it is already encoded, and returns the buffer.
   */
  function GetEncoded(b: Binary): (r: Access<Option<seq<byte>>>)
    ensures b.encoded ==> r == Fine(b, b.buf)
    ensures !b.encoded && b.buf.None? ==> r.OutOfBounds?
    ensures !b.encoded && b.buf.Some? && 0 <= b.binaryLen <= Available(b) ==>
              var out := Encode(b.buf.value[..b.binaryLen]);
              (r.OutOfBounds? <==> |out| + 1 > Available(b))
              && (r.Fine? ==> r.state.encoded && r.state.encodedLen == |out|
                              && r.value == r.state.buf
                              && r.state.buf.Some? && |out| + 1 <= |r.state.buf.value|
                              && r.state.buf.value[..|out| + 1] == out + [0])
    ensures r.Fine? ==> r.state.encoded && r.state.bufferLen == b.bufferLen && r.state.binaryLen == b.binaryLen
    ensures !r.Fails?
  {
    if b.encoded then Fine(b, b.buf)
    else if b.buf.None? || b.binaryLen < 0 || b.binaryLen > Available(b) then OutOfBounds
    else
      var data := b.buf.value[..b.binaryLen];
      var out := Encode(data) + [0];
      if |out| > Available(b) then OutOfBounds
      else
        var written := out + b.buf.value[|out|..];
        var s := b.(buf := Some(written), encodedLen := |out| - 1, encoded := true);
        Fine(s, s.buf)
  }

  /**
   `getBinary()`: decodes the buffer in place if it is encoded. A malformed
   text throws CPPSQLITE_ERROR with `mnBinaryLen` left at -1.
   */
  function GetBinary(b: Binary): (r: Access<Option<seq<byte>>>)
    ensures !b.encoded ==> r == Fine(b, b.buf)
    ensures b.encoded && b.buf.Some? && Terminated(b.buf.value) ==>
              (r.Fails? <==> Decode(b.buf.value).Malformed?)
              && (r.Fails? ==> r.error == WrapperError(CannotDecodeBinary) && r.state.binaryLen == -1
                               && r.state.encoded)
              && (r.Fine? ==> !r.state.encoded && r.value == r.state.buf
                              && r.state.buf.Some? && 0 <= r.state.binaryLen < |r.state.buf.value|
                              && r.state.binaryLen == |Decode(b.buf.value).data|
                              && r.state.buf.value[..r.state.binaryLen] == Decode(b.buf.value).data)
    ensures r.OutOfBounds? <==> b.encoded && !(b.buf.Some? && Terminated(b.buf.value))
  {
    if !b.encoded then Fine(b, b.buf)
    else if b.buf.None? || !Terminated(b.buf.value) then OutOfBounds
    else
      var d := CodecRoutines.DecodeInPlace(b.buf.value);
      if d.1 == -1 then Fails(b.(buf := Some(d.0), binaryLen := -1), WrapperError(CannotDecodeBinary))
      else Fine(b.(buf := Some(d.0), binaryLen := d.1, encoded := false), Some(d.0))
  }

  /** `getBinaryLength()`: `getBinary()`, then `mnBinaryLen`. */
  function GetBinaryLength(b: Binary): (r: Access<int>)
    ensures r.Fine? <==> GetBinary(b).Fine?
    ensures r.Fine? ==> r.state == GetBinary(b).state && r.value == r.state.binaryLen
    ensures r.Fails? ==> GetBinary(b).Fails? && r.error == GetBinary(b).error
  {
    match GetBinary(b)
    case Fine(s, _) => Fine(s, s.binaryLen)
    case Fails(s, e) => Fails(s, e)
    case OutOfBounds => OutOfBounds
  }

  // ---------------------------------------------------------------------------
  // Round trips through the object

  /** Raw bytes set with `setBinary` come back encoded: the codec's text and its terminator. */
  lemma SetBinaryThenEncoded(b: Binary, data: seq<byte>)
    ensures var r := GetEncoded(SetBinary(b, data));
            r.Fine? && r.value.Some?
            && r.value.value[..|Encode(data)| + 1] == Encode(data) + [0]
            && r.state.encodedLen == |Encode(data)|
  {
    var s := SetBinary(b, data);
    AllocLenFits(data);
    assert s.buf.value[..s.binaryLen] == data;
  }

  /** ...and decoding that buffer in place gives the bytes back, with their length. */
  lemma SetBinaryEncodedDecoded(b: Binary, data: seq<byte>)
    ensures var e := GetEncoded(SetBinary(b, data));
            e.Fine? &&
            var r := GetBinaryLength(e.state);
            r.Fine? && r.value == |data| && r.state.buf.Some?
            && r.state.buf.value[..|data|] == data
  {
    SetBinaryThenEncoded(b, data);
    var e := GetEncoded(SetBinary(b, data));
    var buf := e.state.buf.value;
    var n := |Encode(data)| + 1;
    assert buf == buf[..n] + buf[n..];
    RoundTrip(data, buf[n..]);
  }

  /** The text of an encoding, stored with `setEncoded`, decodes to the original bytes. */
  lemma SetEncodedThenBinary(b: Binary, data: seq<byte>)
    ensures 0 !in Encode(data)
    ensures var r := GetBinaryLength(SetEncoded(b, Encode(data)));
            r.Fine? && r.value == |data| && r.state.buf.Some?
            && r.state.buf.value[..|data|] == data
  {
    EncodeAlphabet(data);
    RoundTrip(data, []);
    assert Encode(data) + [0] + [] == Encode(data) + [0];
  }

  /** A stored text with a bad escape makes `getBinary()` throw and leaves `mnBinaryLen` at -1. */
  lemma BadTextThrows(b: Binary, e: byte, prefix: seq<byte>, m: byte)
    requires IsOffset(e) && !IsMarker(m) && m != 0
    ensures var text := [e] + EncodeBody(prefix, e) + [Escape, m];
            0 !in text
            && var r := GetBinary(SetEncoded(b, text));
               r.Fails? && r.error == WrapperError(CannotDecodeBinary) && r.state.binaryLen == -1
  {
    var text := [e] + EncodeBody(prefix, e) + [Escape, m];
    EncodeBodyTokenised(prefix, e);
    TokenisedAlphabet(EncodeBody(prefix, e));
    assert 0 !in text;
    DecodeRejectsBadEscape(prefix, e, m, [0]);
    Assoc([e], EncodeBody(prefix, e), [Escape, m]);
    Assoc([e], EncodeBody(prefix, e) + [Escape, m], [0]);
    DecodeAfterOffset(e, EncodeBody(prefix, e) + [Escape, m] + [0]);
  }
}

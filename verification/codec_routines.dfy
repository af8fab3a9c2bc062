/**
 The two C routines of the codec, step for step: `sqlite3_encode_binary`
 with its histogram, its offset scan (which stops early at a zero count) and
 its output loop; and `sqlite3_decode_binary` run in place, on one buffer
 that it reads and overwrites at the same time.
 */
module CodecRoutines {
  import opened Codec
  import CodecSize

  /** The scan variable `e`, which the source leaves uninitialised. */
  datatype Offset = Unassigned | Assigned(e: byte)

  lemma CountSuffix(b: seq<byte>, i: nat, v: byte)
    requires i < |b|
    ensures Count(b[i..], v) == (if b[i] == v then 1 else 0) + Count(b[i + 1..], v)
  {
    assert b[i..][1..] == b[i + 1..];
  }

  lemma EncodeBodySnoc(b: seq<byte>, i: nat, e: byte)
    requires i < |b|
    ensures EncodeBody(b[..i + 1], e) == EncodeBody(b[..i], e) + EncodeByte(b[i], e)
  {
    assert b[..i + 1] == b[..i] + [b[i]];
    EncodeBodyAppend(b[..i], [b[i]], e);
    assert [b[i]][1..] == [];
  }

  /** The source's histogram `cnt`, filled from the last byte to the first. */
  method Histogram(input: seq<byte>) returns (cnt: seq<nat>)
    ensures |cnt| == 256
    ensures forall v: byte :: cnt[v] == Count(input, v)
  {
    cnt := seq(256, _ => 0);
    var i := |input| - 1;
    while i >= 0
      invariant -1 <= i < |input|
      invariant |cnt| == 256
      invariant forall v: byte :: cnt[v] == Count(input[i + 1..], v)
    {
      forall v: byte
        ensures Count(input[i..], v) == (if input[i] == v then 1 else 0) + Count(input[i + 1..], v)
      {
        CountSuffix(input, i, v);
      }
      cnt := cnt[input[i] := cnt[input[i]] + 1];
      i := i - 1;
    }
    assert input[0..] == input;
  }

  /**
   The source's offset scan: candidates 1..255 except the quote, a strictly
   smaller sum replaces the current choice, and a zero sum ends the scan.
   Starting from m = n it always assigns `e`, and the result is the least
   offset with the fewest escapes.
   */
  method ChooseOffset(input: seq<byte>, cnt: seq<nat>) returns (e: byte, m: nat)
    requires |input| >= 1
    requires |cnt| == 256 && forall v: byte :: cnt[v] == Count(input, v)
    ensures LeastMinimiser(input, e)
    ensures e == BestOffset(input)
    ensures m == Escapes(input, e) && m < |input|
  {
    var n := |input|;
    m := n;
    var o := Unassigned;
    var i := 1;
    while i < 256
      invariant 1 <= i <= 256
      invariant m <= n
      invariant o.Unassigned? ==> m == n
      invariant o.Assigned? ==> IsOffset(o.e) && o.e < i && m == Escapes(input, o.e)
      invariant forall c: byte :: IsOffset(c) && c < i ==> m <= Escapes(input, c)
      invariant o.Assigned? ==> forall c: byte :: IsOffset(c) && c < o.e ==> m < Escapes(input, c)
    {
      if i != Quote as int {
        EscapesByCounts(input, i);
        var sum := cnt[i] + cnt[(i + 1) % 256] + cnt[(i + Quote) % 256];
        if sum < m {
          m := sum;
          o := Assigned(i);
          if m == 0 {
            break;
          }
        }
      }
      i := i + 1;
    }
    CodecSize.OffsetAssigned(input);
    BestOffsetIsLeastMinimiser(input);
    if o.Unassigned? {
      assert false;
    }
    e := o.e;
    LeastMinimiserUnique(input, e, BestOffset(input));
  }

  /**
   Encodes `input` as the source does. `out` is the whole output buffer,
   terminator included; `len` is the return value, which excludes it.
   */
  /** The bytes the encoder's inner loop writes for one input byte. */
  method EmitByte(x: byte, e: byte) returns (piece: seq<byte>)
    ensures piece == EncodeByte(x, e)
    ensures |piece| == 1 || piece[0] == Escape
  {
    var c: byte := (x as int - e as int) % 256;
    if c == 0 {
      piece := [1, 1];
    } else if c == 1 {
      piece := [1, 2];
    } else if c == Quote as int {
      piece := [1, 3];
    } else {
      piece := [c];
    }
  }

  method EncodeBinary(input: seq<byte>) returns (out: seq<byte>, len: int)
    ensures out == Encode(input) + [0]
    ensures len == |out| - 1
  {
    var n := |input|;
    if n <= 0 {
      out := [EmptyEncoding, 0];
      len := 1;
      return;
    }
    var cnt := Histogram(input);
    var e, m := ChooseOffset(input, cnt);
    out := [e];
    var i := 0;
    while i < n
      invariant 0 <= i <= n
      invariant out == [e] + EncodeBody(input[..i], e)
    {
      var piece := EmitByte(input[i], e);
      EncodeBodySnoc(input, i, e);
      Assoc([e], EncodeBody(input[..i], e), piece);
      out := out + piece;
      i := i + 1;
    }
    assert input[..n] == input;
    EncodeNonEmpty(input);
    len := |out|;
    out := out + [0];
  }

  /**
   The in-place decoder: `buf` is read at `rd` and written at `wr`, and
   `wr < rd` always, so every byte is read before anything overwrites it.
   Returns the buffer after decoding and the source's return value.
   */
  function DecodeFrom(buf: seq<byte>, e: byte, rd: nat, wr: nat): (r: (seq<byte>, int))
    requires wr < rd <= |buf|
    ensures |r.0| == |buf| && r.1 < |buf|
    decreases |buf| - rd
  {
    if rd == |buf| then (buf, -1)
    else if buf[rd] == 0 then (buf, wr)
    else if buf[rd] == Escape then
      if rd + 1 < |buf| && IsMarker(buf[rd + 1]) then
        DecodeFrom(buf[wr := Unshift(Unmark(buf[rd + 1]), e)], e, rd + 2, wr + 1)
      else (buf, -1)
    else DecodeFrom(buf[wr := Unshift(buf[rd], e)], e, rd + 1, wr + 1)
  }

  /**
   Whatever the in-place decoder writes, it leaves the bytes before `wr`
   alone, returns -1 exactly when the text is malformed, and otherwise leaves
   the decoded bytes at `wr`.
   */
  lemma {:induction false} DecodeFromDecodes(buf: seq<byte>, e: byte, rd: nat, wr: nat)
    requires wr < rd <= |buf|
    ensures var r := DecodeFrom(buf, e, rd, wr);
            var d := DecodeBody(buf[rd..], e);
            && r.0[..wr] == buf[..wr]
            && r.1 == (if d.Malformed? then -1 else wr + |d.data|)
            && (r.1 >= 0 ==> wr <= r.1 && r.0[wr..r.1] == d.data)
    decreases |buf| - rd
  {
    var s := buf[rd..];
    if rd < |buf| && buf[rd] != 0 {
      if buf[rd] == Escape {
        if rd + 1 < |buf| && IsMarker(buf[rd + 1]) {
          DecodeFromStep(buf, e, rd, wr, 2, Unshift(Unmark(buf[rd + 1]), e));
        }
      } else {
        DecodeFromStep(buf, e, rd, wr, 1, Unshift(buf[rd], e));
      }
    }
  }

  /** One token of `k` bytes standing for `x`, then the rest of the run. */
  lemma {:induction false} DecodeFromStep(buf: seq<byte>, e: byte, rd: nat, wr: nat, k: nat, x: byte)
    requires wr < rd && rd + k <= |buf| && 1 <= k <= 2
    requires DecodeFrom(buf, e, rd, wr) == DecodeFrom(buf[wr := x], e, rd + k, wr + 1)
    requires DecodeBody(buf[rd..], e) == Prepend(x, DecodeBody(buf[rd + k..], e))
    ensures var r := DecodeFrom(buf, e, rd, wr);
            var d := DecodeBody(buf[rd..], e);
            && r.0[..wr] == buf[..wr]
            && r.1 == (if d.Malformed? then -1 else wr + |d.data|)
            && (r.1 >= 0 ==> wr <= r.1 && r.0[wr..r.1] == d.data)
    decreases |buf| - rd, 0
  {
    var buf' := buf[wr := x];
    assert buf'[rd + k..] == buf[rd + k..];
    DecodeFromDecodes(buf', e, rd + k, wr + 1);
    var r := DecodeFrom(buf', e, rd + k, wr + 1);
    StepCombine(buf, wr, x, r.0, r.1, DecodeBody(buf[rd + k..], e), DecodeBody(buf[rd..], e));
  }

  /** The run after one token, extended by that token's byte written at `wr`. */
  lemma StepCombine(buf: seq<byte>, wr: nat, x: byte, out: seq<byte>, end: int, d': Decoded, d: Decoded)
    requires wr < |buf| == |out| && end < |buf|
    requires d == Prepend(x, d')
    requires out[..wr + 1] == buf[wr := x][..wr + 1]
    requires end == (if d'.Malformed? then -1 else wr + 1 + |d'.data|)
    requires end >= 0 ==> wr + 1 <= end && out[wr + 1..end] == d'.data
    ensures out[..wr] == buf[..wr]
    ensures end == (if d.Malformed? then -1 else wr + |d.data|)
    ensures end >= 0 ==> wr <= end && out[wr..end] == d.data
  {
    if end >= 0 {
      Splice(buf, wr, x, out, end, d'.data);
    } else {
      assert out[..wr] == out[..wr + 1][..wr];
    }
  }

  /** One decoded byte written at `wr` in front of the bytes the rest of the run wrote. */
  lemma Splice(buf: seq<byte>, wr: nat, x: byte, out: seq<byte>, end: int, rest: seq<byte>)
    requires wr < |buf| == |out| && wr + 1 <= end <= |out|
    requires out[..wr + 1] == buf[wr := x][..wr + 1]
    requires out[wr + 1..end] == rest
    ensures out[..wr] == buf[..wr]
    ensures out[wr..end] == [x] + rest
  {
    assert out[..wr] == out[..wr + 1][..wr];
    assert out[wr] == out[..wr + 1][wr];
    assert out[wr..end] == [out[wr]] + out[wr + 1..end];
  }

  /**
   Decodes `buf` in place as the source does: returns -1 exactly when the
   text is malformed, and otherwise the decoded length, with the decoded
   bytes at the front of the returned buffer.
   */
  function DecodeInPlace(buf: seq<byte>): (r: (seq<byte>, int))
    requires Terminated(buf)
    ensures |r.0| == |buf|
    ensures r.1 < |buf|
    ensures r.1 == DecodedLength(Decode(buf))
    ensures r.1 >= 0 ==> r.0[..r.1] == Decode(buf).data
  {
    DecodeFromDecodes(buf, buf[0], 1, 0);
    DecodeFrom(buf, buf[0], 1, 0)
  }
}

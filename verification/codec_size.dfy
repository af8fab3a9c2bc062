/**
 The size guarantee of the binary codec: the best offset needs at most
 3n/254 escapes, so an encoding of n bytes, with its terminator, fits in
 2 + (257*n)/254 bytes. Each byte value needs an escape under exactly three
 offsets, so the escape counts of all 254 offsets sum to at most 3n, and the
 smallest of them is at most a 254th of that.
 */
module CodecSize {
  import opened Codec

  /** The sum of the escape counts of the offsets in [i, 256). */
  function SumEscapes(b: seq<byte>, i: int): nat
    requires 1 <= i <= 256
    decreases 256 - i
  {
    if i == 256 then 0
    else (if IsOffset(i) then Escapes(b, i) else 0) + SumEscapes(b, i + 1)
  }

  /** The number of offsets in [i, 256) under which the byte `x` needs an escape. */
  function Hits(x: byte, i: int): nat
    requires 1 <= i <= 256
    decreases 256 - i
  {
    if i == 256 then 0
    else (if IsOffset(i) && Special(Shift(x, i)) then 1 else 0) + Hits(x, i + 1)
  }

  function Ind(p: bool): nat {
    if p then 1 else 0
  }

  /** The offsets under which `x` needs an escape are x, x-1 and x-39 (mod 256). */
  lemma EscapingOffsets(x: byte, c: byte)
    ensures Special(Shift(x, c)) <==> (c == x || c == (x - 1) % 256 || c == (x - 39) % 256)
  {
  }

  lemma {:induction false} HitsBound(x: byte, i: int)
    requires 1 <= i <= 256
    ensures Hits(x, i) <= Ind(i <= x) + Ind(i <= (x - 1) % 256) + Ind(i <= (x - 39) % 256)
    decreases 256 - i
  {
    if i < 256 {
      HitsBound(x, i + 1);
      EscapingOffsets(x, i);
    }
  }

  /** Removing the first byte removes its hits from the sum. */
  lemma {:induction false} SumEscapesCons(b: seq<byte>, i: int)
    requires |b| > 0 && 1 <= i <= 256
    ensures SumEscapes(b, i) == Hits(b[0], i) + SumEscapes(b[1..], i)
    decreases 256 - i
  {
    if i < 256 {
      SumEscapesCons(b, i + 1);
    }
  }

  /** Every byte is counted by at most three offsets. */
  lemma {:induction false} SumEscapesBound(b: seq<byte>)
    ensures SumEscapes(b, 1) <= 3 * |b|
    decreases |b|
  {
    if |b| == 0 {
      ZeroSum(b, 1);
    } else {
      SumEscapesCons(b, 1);
      HitsBound(b[0], 1);
      SumEscapesBound(b[1..]);
    }
  }

  lemma {:induction false} ZeroSum(b: seq<byte>, i: int)
    requires |b| == 0 && 1 <= i <= 256
    ensures SumEscapes(b, i) == 0
    decreases 256 - i
  {
    if i < 256 {
      ZeroSum(b, i + 1);
    }
  }

  /** A lower bound on every offset's count bounds the sum from below. */
  lemma {:induction false} SumAtLeast(b: seq<byte>, i: int, m: nat)
    requires 1 <= i <= 256
    requires forall c: byte :: IsOffset(c) ==> m <= Escapes(b, c)
    ensures MulOffsets(m, i) <= SumEscapes(b, i)
    decreases 256 - i
  {
    if i < 256 {
      SumAtLeast(b, i + 1, m);
      if IsOffset(i) {
        assert m <= Escapes(b, i);
      }
    }
  }

  /** m times the number of offsets in [i, 256). */
  function MulOffsets(m: nat, i: int): nat
    requires 1 <= i <= 256
    decreases 256 - i
  {
    if i == 256 then 0 else (if IsOffset(i) then m else 0) + MulOffsets(m, i + 1)
  }

  lemma {:induction false} MulOffsetsValue(m: nat, i: int)
    requires 1 <= i <= 256
    ensures MulOffsets(m, i) == m * (256 - i - Ind(i <= Quote as int))
    decreases 256 - i
  {
    if i < 256 {
      MulOffsetsValue(m, i + 1);
      var k := 256 - (i + 1) - Ind(i + 1 <= Quote as int);
      MulSucc(m, k);
    }
  }

  lemma MulSucc(m: nat, x: nat)
    ensures m * (1 + x) == m + m * x
  {
  }

  /** The chosen offset needs at most 3n/254 escapes. */
  lemma FewEscapes(b: seq<byte>)
    ensures 254 * Escapes(b, BestOffset(b)) <= 3 * |b|
  {
    BestOffsetIsLeastMinimiser(b);
    MinimiserFewEscapes(b, BestOffset(b));
  }

  lemma MinimiserFewEscapes(b: seq<byte>, e: byte)
    requires LeastMinimiser(b, e)
    ensures 254 * Escapes(b, e) <= 3 * |b|
  {
    var m := Escapes(b, e);
    SumAtLeast(b, 1, m);
    MulOffsetsValue(m, 1);
    assert MulOffsets(m, 1) == m * 254;
    SumEscapesBound(b);
  }

  /**
   For a non-empty buffer some offset needs fewer escapes than there are
   bytes, so the source's scan, which starts from m = n, always assigns `e`.
   */
  lemma OffsetAssigned(b: seq<byte>)
    requires |b| >= 1
    ensures Escapes(b, BestOffset(b)) < |b|
    ensures exists c: byte :: IsOffset(c) && Escapes(b, c) < |b|
  {
    FewEscapes(b);
    BestOffsetIsLeastMinimiser(b);
    assert IsOffset(BestOffset(b));
  }

  /** The output-size bound: length plus terminator is at most 2 + (257*n)/254. */
  lemma EncodeSizeBound(b: seq<byte>)
    ensures |Encode(b)| + 1 <= 2 + (257 * |b|) / 254
  {
    EncodeLength(b);
    if |b| > 0 {
      FewEscapes(b);
      var k := |b| + Escapes(b, BestOffset(b));
      assert 254 * k <= 257 * |b|;
      DivLowerBound(k, 257 * |b|);
    }
  }

  lemma DivLowerBound(k: nat, x: nat)
    requires 254 * k <= x
    ensures k <= x / 254
  {
  }
}

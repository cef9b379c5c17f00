/** Two places where `bencode/codec.go` as written departs from what it evidently
    means to do, each modelled as written and shown on a concrete input, and one
    quirk of the decimal reader that the model keeps. `BencodeCodec` carries the
    corrected definitions. */
module BencodeFindings {
  import opened Common
  import opened BencodeCodec
  import opened BencodeReading

  // ---------------------------------------------------------------------------
  // encodeInt64 negates before formatting

  /** `encodeInt64` as written: `val = -val` for a negative value, then `i-`,
      `strconv.FormatInt(val, 10)` and `e`. */
  function EncodeInt64AsWritten(val: int64): (r: Bytes)
    ensures |r| > 0 && r[0] == CharI
  {
    if val == 0 then [CharI, Digit0, CharE]
    else if val < 0 then [CharI, Minus] + FormatInt(Neg64(val)) + [CharE]
    else [CharI] + FormatInt(val) + [CharE]
  }

  /** The code as written agrees with the corrected encoder on every value but
      `MinInt64`, where `-val` wraps back to a negative number and a second `-`
      is written. */
  lemma EncodeInt64AsWrittenAgrees(val: int64)
    ensures val != MinInt64 ==> EncodeInt64AsWritten(val) == EncodeInt64(val)
    ensures val == MinInt64 ==>
      EncodeInt64AsWritten(val) == [CharI, Minus, Minus] + FormatNat(-MinInt64) + [CharE]
  {
    if val == MinInt64 {
      var f := FormatNat(-MinInt64);
      assert FormatInt(Neg64(val)) == [Minus] + f;
      assert [CharI, Minus] + ([Minus] + f) + [CharE] == [CharI, Minus, Minus] + f + [CharE];
    } else if val < 0 {
      var f := FormatNat(-(val as int));
      assert FormatInt(Neg64(val)) == f;
      assert FormatInt(val) == [Minus] + f;
      assert [CharI, Minus] + f + [CharE] == [CharI] + ([Minus] + f) + [CharE];
    } else if val == 0 {
      assert FormatInt(0) == [Digit0];
    }
  }

  /** `i--9223372036854775808e`, which the code writes for `MinInt64`, does not
      decode: the digit loop stops at the second `-` and `decodeInt` finds it where
      it expects the closing `e`. */
  lemma MinInt64Undecodable()
    ensures IntAt(EncodeInt64AsWritten(MinInt64)) == Fail(ExpectedEndIdentifier)
  {
    EncodeInt64AsWrittenAgrees(MinInt64);
    var s := EncodeInt64AsWritten(MinInt64);
    assert s[1] == Minus && s[2] == Minus;
    assert Digits(s[2..]).count == 0;
    assert Decimal(s[1..]).count == 1;
  }

  /** With the sign left to `strconv.FormatInt`, `MinInt64` reads back. */
  lemma MinInt64RoundTrip()
    ensures IntAt(EncodeInt64(MinInt64)) == Ok(MinInt64, [])
  {
    IntRoundTrip(MinInt64, []);
    assert EncodeInt64(MinInt64) + [] == EncodeInt64(MinInt64);
  }

  // ---------------------------------------------------------------------------
  // decodeStr passes an unchecked length to make

  /** The largest slice `make` allocates on linux/amd64: 2^48 bytes. */
  const MaxAlloc: nat := 0x1_0000_0000_0000

  /** `decodeStr` as written: the length read by `readDecimal` reaches
      `make([]byte, strLen)` unchecked, which panics on a negative length and on
      one past the allocation limit. */
  function StrAtAsWritten(s: Bytes): (r: Decoded<Bytes>)
    ensures r.Ok? ==> |r.rest| < |s|
  {
    var d := Decimal(s);
    if d.count == 0 then Fail(InvalidStringLength)
    else
      var t := s[d.count..];
      if |t| == 0 || t[0] != Colon then Fail(ExpectedStringIdentifier)
      else
        var u := t[1..];
        if d.val < 0 then Fail(NegativeLengthPanic)
        else if d.val > MaxAlloc then Fail(LengthOutOfRangePanic)
        else if d.val > |u| then Fail(if |u| == 0 then EndOfInput else UnexpectedEndOfInput)
        else Ok(u[..d.val], u[d.val..])
  }

  /** The code as written differs from the corrected decoder only where it panics.
      On a negative length the corrected decoder reports `ErrInvalidStringLength`;
      on a length past the allocation limit it reads that many bytes, which is a
      short read unless the input really is that long. */
  lemma StrAtAsWrittenAgrees(s: Bytes)
    ensures StrAtAsWritten(s) != StrAt(s) <==>
      StrAtAsWritten(s) == Fail(NegativeLengthPanic) || StrAtAsWritten(s) == Fail(LengthOutOfRangePanic)
    ensures StrAtAsWritten(s) == Fail(NegativeLengthPanic) ==> StrAt(s) == Fail(InvalidStringLength)
    ensures StrAtAsWritten(s) == Fail(LengthOutOfRangePanic) ==>
      (StrAt(s).Ok? && |StrAt(s).value| > MaxAlloc)
      || StrAt(s) == Fail(EndOfInput) || StrAt(s) == Fail(UnexpectedEndOfInput)
  {
  }

  /** `281474976710657:x`: the length 2^48 + 1 makes `make` panic in the code as
      written, and the corrected decoder reports the short read. */
  lemma HugeLengthPanics()
    ensures var s := FormatNat(MaxAlloc + 1) + [Colon, 120];
      StrAtAsWritten(s) == Fail(LengthOutOfRangePanic) && StrAt(s) == Fail(UnexpectedEndOfInput)
  {
    var f := FormatNat(MaxAlloc + 1);
    var s := f + [Colon, 120];
    DecimalReadsFormat(false, MaxAlloc + 1, [Colon, 120]);
    assert [] + f + [Colon, 120] == s;
    assert s[|f|..] == [Colon, 120];
  }

  /** `d-1:ae`: the dictionary loop hands `-1:ae` to `decodeStr` as a key, whose
      length `-1` makes the code as written panic; the corrected decoder rejects
      the dictionary with `ErrInvalidStringLength`. */
  lemma NegativeKeyLengthPanics()
    ensures StrAtAsWritten([Minus, Digit0 + 1, Colon, 97, CharE]) == Fail(NegativeLengthPanic)
    ensures ValueAt([CharD, Minus, Digit0 + 1, Colon, 97, CharE]) == Fail(InvalidStringLength)
  {
    var key: Bytes := [Minus, Digit0 + 1, Colon, 97, CharE];
    var s: Bytes := [CharD] + key;
    assert Digits(key[1..]) == DecimalRead(1, 1) by {
      DigitRunExact(key[1..], 1);
      assert key[1..][..1] == [Digit0 + 1];
      assert DigitsValue([Digit0 + 1]) == 1 by { assert [Digit0 + 1][..0] == []; }
    }
    assert Decimal(key) == DecimalRead(-1, 2);
    assert key[2..][0] == Colon;
    ValueAtDict(key);
  }

  // ---------------------------------------------------------------------------
  // readDecimal wraps on overflow

  /** `readDecimal` does not check for overflow: `i9223372036854775808e` decodes
      to `MinInt64`, the magnitude wrapped around. */
  lemma DecimalOverflowWraps(t: Bytes)
    ensures IntAt([CharI] + FormatNat(-MinInt64) + [CharE] + t) == Ok(MinInt64, t)
  {
    var f := FormatNat(-MinInt64);
    FormatNatDigits(-MinInt64);
    DigitsReadBack(f, [CharE] + t);
    assert Wrap64(-MinInt64) == Wrap64(-MinInt64 - TwoTo64);
    PositiveReadBack(f, [CharE] + t);
    IntAtReads([], f, MinInt64, t);
    assert [CharI] + [] + f == [CharI] + f;
  }

  /** `ie`, with no digits at all, decodes to 0. */
  lemma EmptyIntegerIsZero(t: Bytes)
    ensures IntAt([CharI, CharE] + t) == Ok(0, t)
  {
    var s := [CharI, CharE] + t;
    assert s[1..] == [CharE] + t;
    assert s[2..] == t;
  }
}

/** What the parser of `BencodeCodec` makes of the encoders' output: integers,
    byte strings, and runs of list elements and dictionary entries are read back
    exactly, and whatever follows is left unread. */
module BencodeReading {
  import opened Common
  import opened BencodeCodec

  // ---------------------------------------------------------------------------
  // Reading back what the encoders write

  /** The digit loop of `readDecimal` reads back a run of digits that is not
      followed by another digit. */
  lemma DigitsReadBack(f: Bytes, t: Bytes)
    requires forall i :: 0 <= i < |f| ==> IsDigit(f[i])
    requires t == [] || !IsDigit(t[0])
    ensures Digits(f + t) == DecimalRead(Wrap64(DigitsValue(f)), |f|)
  {
    DigitReadsFormat(f, t);
    assert (f + t)[..|f|] == f;
  }

  /** `readDecimal` reads back an optional sign and a formatted magnitude, up to
      2^63 for a negative number. */
  lemma DecimalReadsFormat(neg: bool, a: nat, t: Bytes)
    requires if neg then a <= -MinInt64 else a <= MaxInt64
    requires t == [] || !IsDigit(t[0])
    ensures var p := if neg then [Minus] else [];
      Decimal(p + FormatNat(a) + t) == DecimalRead(if neg then -(a as int) else a, |p| + |FormatNat(a)|)
  {
    var f := FormatNat(a);
    FormatNatDigits(a);
    DigitsReadBack(f, t);
    if neg {
      NegativeReadBack(f, t, a);
    } else {
      PositiveReadBack(f, t);
    }
  }

  /** The magnitude 2^63 wraps to `MinInt64` in the digit loop and negating it
      leaves it there, which is the value `-2^63`. */
  lemma NegativeReadBack(f: Bytes, t: Bytes, a: nat)
    requires a <= -MinInt64
    requires Digits(f + t) == DecimalRead(Wrap64(a), |f|)
    ensures Decimal([Minus] + f + t) == DecimalRead(-(a as int), 1 + |f|)
  {
    var s := [Minus] + f + t;
    assert s[1..] == f + t;
    if a == -MinInt64 {
      assert Wrap64(a) == Wrap64(a - TwoTo64);
    }
  }

  lemma PositiveReadBack(f: Bytes, t: Bytes)
    requires |f| > 0 && IsDigit(f[0])
    ensures Decimal([] + f + t) == Digits(f + t)
  {
    assert [] + f + t == f + t;
    assert (f + t)[0] == f[0];
  }

  lemma DigitReadsFormat(f: Bytes, t: Bytes)
    requires forall i :: 0 <= i < |f| ==> IsDigit(f[i])
    requires t == [] || !IsDigit(t[0])
    ensures DigitRun(f + t) == |f|
  {
    var s := f + t;
    assert forall i :: 0 <= i < |f| ==> s[i] == f[i];
    assert |f| < |s| ==> s[|f|] == t[0];
    DigitRunExact(s, |f|);
  }

  /** `decodeInt` inverts `encodeInt64` and leaves whatever follows unread. */
  lemma IntRoundTrip(n: int64, t: Bytes)
    ensures IntAt(EncodeInt64(n) + t) == Ok(n, t)
  {
    var p: Bytes := if n < 0 then [Minus] else [];
    var f := FormatNat(Abs(n));
    EncodeInt64Form(n);
    DecimalReadsFormat(n < 0, Abs(n), [CharE] + t);
    IntAtReads(p, f, n, t);
  }

  lemma IntAtReads(p: Bytes, f: Bytes, val: int64, t: Bytes)
    requires Decimal(p + f + ([CharE] + t)) == DecimalRead(val, |p| + |f|)
    ensures IntAt([CharI] + p + f + [CharE] + t) == Ok(val, t)
  {
    var s := [CharI] + p + f + [CharE] + t;
    assert s[1..] == p + f + ([CharE] + t);
    assert s[1 + |p| + |f|] == CharE;
    IntAtStep(s);
    assert s[2 + |p| + |f|..] == t;
  }

  /** `decodeStr` inverts `encodeStr` and consumes exactly its output. */
  lemma StrRoundTrip(str: Bytes, t: Bytes)
    requires |str| <= MaxInt64
    ensures StrAt(EncodeStr(str) + t) == Ok(str, t)
  {
    var f := FormatNat(|str|);
    var s := EncodeStr(str) + t;
    assert s == [] + f + ([Colon] + str + t);
    DecimalReadsFormat(false, |str|, [Colon] + str + t);
    assert s[|f|..] == [Colon] + str + t;
    assert s[|f|..][1..] == str + t;
  }

  /** The byte strings of `ss` written one after another. */
  function Concat(ss: seq<Bytes>): (r: Bytes)
    decreases |ss|
  {
    if ss == [] then [] else Concat(ss[..|ss| - 1]) + ss[|ss| - 1]
  }

  lemma ConcatPair(a: Bytes, b: Bytes)
    ensures Concat([a, b]) == a + b
  {
    assert [a, b][..1] == [a];
    assert [a][..0] == [];
    assert Concat([a]) == a;
    assert Concat([a, b]) == Concat([a]) + b;
  }

  /** The wire form of dictionary entries: each key's `encodeStr` followed by the
      encoding of its value. */
  function Pairs(keys: seq<Bytes>, encs: seq<Bytes>): (r: seq<Bytes>)
    requires |keys| == |encs|
    ensures |r| == |keys|
    ensures forall i :: 0 <= i < |r| ==> r[i] == EncodeStr(keys[i]) + encs[i]
  {
    seq(|keys|, i requires 0 <= i < |keys| => EncodeStr(keys[i]) + encs[i])
  }

  /** The map after storing `keys[i] := vals[i]` for each `i` in order, as the
      dictionary loop of `parse` does: a repeated key keeps its last value. */
  function StoreAll(acc: map<Bytes, Value>, keys: seq<Bytes>, vals: seq<Value>): (r: map<Bytes, Value>)
    requires |keys| == |vals|
    decreases |keys|
  {
    if keys == [] then acc
    else StoreAll(acc, keys[..|keys| - 1], vals[..|vals| - 1])[keys[|keys| - 1] := vals[|vals| - 1]]
  }

  lemma StoreAllPair(acc: map<Bytes, Value>, a: Bytes, x: Value, b: Bytes, y: Value)
    ensures StoreAll(acc, [a, b], [x, y]) == acc[a := x][b := y]
  {
    assert [a, b][..1] == [a] && [x, y][..1] == [x];
    assert [a][..0] == [] && [x][..0] == [];
    assert StoreAll(acc, [a], [x]) == acc[a := x];
    assert StoreAll(acc, [a, b], [x, y]) == StoreAll(acc, [a], [x])[b := y];
  }

  /** `e`, whatever follows it, is read by `parse` as exactly `v`, and it does not
      start with the list terminator. */
  ghost predicate ReadsBack(e: Bytes, v: Value)
  {
    |e| > 0 && e[0] != CharE && forall u :: ValueAt(e + u) == Ok(v, u)
  }

  /** Every `encs[i]` reads back as `vals[i]`. */
  ghost predicate ReadsAs(encs: seq<Bytes>, vals: seq<Value>)
  {
    |encs| == |vals| &&
    forall i {:trigger ReadsBack(encs[i], vals[i])} :: 0 <= i < |encs| ==> ReadsBack(encs[i], vals[i])
  }

  lemma ReadsAsPrefix(encs: seq<Bytes>, vals: seq<Value>, n: nat)
    requires ReadsAs(encs, vals) && n <= |encs|
    ensures ReadsAs(encs[..n], vals[..n])
  {
    forall i | 0 <= i < n ensures ReadsBack(encs[..n][i], vals[..n][i]) {
      assert encs[..n][i] == encs[i] && vals[..n][i] == vals[i];
      assert ReadsBack(encs[i], vals[i]);
    }
  }

  /** The list loop of `parse` reads a run of element encodings back as the elements. */
  lemma {:induction false} ListReadsConcat(encs: seq<Bytes>, vals: seq<Value>, t: Bytes, acc: seq<Value>)
    requires ReadsAs(encs, vals)
    ensures ListAt(Concat(encs) + t, acc) == ListAt(t, acc + vals)
    decreases |encs|
  {
    var n := |encs|;
    if n == 0 {
      AppendEmpty(t, Concat(encs));
      AppendEmpty(acc, vals);
    } else {
      ReadsAsPrefix(encs, vals, n - 1);
      ListReadsConcat(encs[..n - 1], vals[..n - 1], encs[n - 1] + t, acc);
      ListReadsLast(encs, vals, t, acc);
    }
  }

  /** The last element of the run: what the induction step of `ListReadsConcat` needs. */
  lemma ListReadsLast(encs: seq<Bytes>, vals: seq<Value>, t: Bytes, acc: seq<Value>)
    requires ReadsAs(encs, vals) && |encs| > 0
    ensures Concat(encs) + t == Concat(encs[..|encs| - 1]) + (encs[|encs| - 1] + t)
    ensures ListAt(encs[|encs| - 1] + t, acc + vals[..|vals| - 1]) == ListAt(t, acc + vals)
  {
    var n := |encs|;
    var xe := encs[n - 1];
    var x := vals[n - 1];
    var before := acc + vals[..n - 1];
    Associative(Concat(encs[..n - 1]), xe, t);
    assert ReadsBack(xe, x);
    assert ValueAt(xe + t) == Ok(x, t);
    assert (xe + t)[0] == xe[0];
    ListAtStep(xe + t, before);
    AppendTakeLast(acc, vals);
  }

  /** `keys[i]` and `encs[i]` form the `i`-th entry of a dictionary body: keys a
      Go `int` can count, and value encodings that read back as `vals`. */
  ghost predicate EntryRun(keys: seq<Bytes>, encs: seq<Bytes>, vals: seq<Value>)
  {
    |keys| == |encs| && ReadsAs(encs, vals) && forall i :: 0 <= i < |keys| ==> |keys[i]| <= MaxInt64
  }

  lemma EntryRunPrefix(keys: seq<Bytes>, encs: seq<Bytes>, vals: seq<Value>)
    requires EntryRun(keys, encs, vals) && |keys| > 0
    ensures var n := |keys| - 1; EntryRun(keys[..n], encs[..n], vals[..n])
  {
    ReadsAsPrefix(encs, vals, |keys| - 1);
  }

  /** The dictionary loop of `parse` reads a run of key/value encodings back as
      the map that stores each pair in turn. */
  lemma {:induction false} DictReadsConcat(keys: seq<Bytes>, encs: seq<Bytes>, vals: seq<Value>,
                                           t: Bytes, acc: map<Bytes, Value>)
    requires EntryRun(keys, encs, vals)
    ensures DictAt(Concat(Pairs(keys, encs)) + t, acc) == DictAt(t, StoreAll(acc, keys, vals))
    decreases |keys|
  {
    var n := |keys|;
    if n == 0 {
      PairsEmpty(keys, encs, t);
    } else {
      EntryRunPrefix(keys, encs, vals);
      DictReadsConcat(keys[..n - 1], encs[..n - 1], vals[..n - 1], EncodeStr(keys[n - 1]) + (encs[n - 1] + t), acc);
      DictReadsStep(keys, encs, vals, t, acc);
    }
  }

  /** The induction step of `DictReadsConcat`: one more pair after the run. */
  lemma DictReadsStep(keys: seq<Bytes>, encs: seq<Bytes>, vals: seq<Value>, t: Bytes, acc: map<Bytes, Value>)
    requires EntryRun(keys, encs, vals) && |keys| > 0
    requires var n := |keys|; var x := EncodeStr(keys[n - 1]) + (encs[n - 1] + t);
      DictAt(Concat(Pairs(keys[..n - 1], encs[..n - 1])) + x, acc)
        == DictAt(x, StoreAll(acc, keys[..n - 1], vals[..n - 1]))
    ensures DictAt(Concat(Pairs(keys, encs)) + t, acc) == DictAt(t, StoreAll(acc, keys, vals))
  {
    var n := |keys|;
    PairsLast(keys, encs, t);
    DictReadsLast(keys, encs, vals, t, StoreAll(acc, keys[..n - 1], vals[..n - 1]));
  }

  lemma PairsEmpty(keys: seq<Bytes>, encs: seq<Bytes>, t: Bytes)
    requires |keys| == |encs| == 0
    ensures Concat(Pairs(keys, encs)) + t == t
  {
    assert Pairs(keys, encs) == [];
  }

  lemma PairsLast(keys: seq<Bytes>, encs: seq<Bytes>, t: Bytes)
    requires |keys| == |encs| > 0
    ensures var n := |keys|;
      Concat(Pairs(keys, encs)) + t
        == Concat(Pairs(keys[..n - 1], encs[..n - 1])) + (EncodeStr(keys[n - 1]) + (encs[n - 1] + t))
  {
    var n := |keys|;
    var pre := Concat(Pairs(keys[..n - 1], encs[..n - 1]));
    var ke := EncodeStr(keys[n - 1]);
    assert Pairs(keys, encs)[..n - 1] == Pairs(keys[..n - 1], encs[..n - 1]);
    assert Concat(Pairs(keys, encs)) == pre + (ke + encs[n - 1]);
    Associative(pre, ke + encs[n - 1], t);
    Associative(ke, encs[n - 1], t);
  }

  /** The last pair of the run: what the induction step of `DictReadsConcat` needs. */
  lemma DictReadsLast(keys: seq<Bytes>, encs: seq<Bytes>, vals: seq<Value>, t: Bytes,
                      before: map<Bytes, Value>)
    requires EntryRun(keys, encs, vals) && |keys| > 0
    ensures var n := |keys|;
      DictAt(EncodeStr(keys[n - 1]) + (encs[n - 1] + t), before)
         == DictAt(t, before[keys[n - 1] := vals[n - 1]])
  {
    var n := |keys|;
    var k := keys[n - 1];
    var xe := encs[n - 1];
    var ke := EncodeStr(k);
    var u := ke + (xe + t);
    StrRoundTrip(k, xe + t);
    assert ReadsBack(xe, vals[n - 1]);
    assert ValueAt(xe + t) == Ok(vals[n - 1], t);
    assert u[0] == ke[0];
    DictAtStep(u, before);
  }
}

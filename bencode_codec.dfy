/** The low-level bencode codec (`bencode/codec.go`): reading a signed decimal,
    encoding and decoding integers and byte strings, and the recursive-descent
    parser over a buffered reader.

    The reader's cursor is modelled by the unread suffix of the input: every
    decoding function takes what is left to read and, on success, returns the
    part it did not consume. */
module BencodeCodec {
  import opened Common

  const CharI: byte := 105     // 'i'
  const CharE: byte := 101     // 'e'
  const CharL: byte := 108     // 'l'
  const CharD: byte := 100     // 'd'
  const Colon: byte := 58      // ':'
  const Minus: byte := 45      // '-'
  const Digit0: byte := 48     // '0'

  predicate IsDigit(b: byte) { 48 <= b <= 57 }

  /** A value the codec reads or writes. `Other` stands for any Go value of a kind
      `marshal` has no case for (a bool, a float, a nil interface, ...); the parser
      never produces one. */
  datatype Value =
    | Int(i: int64)
    | Str(s: Bytes)
    | List(items: seq<Value>)
    | Dict(entries: map<Bytes, Value>)
    | Other

  /** The codec's error values, the I/O errors its reader reports, and the two
      runtime panics the decoder can reach. */
  datatype Error =
    | ExpectedEndIdentifier        // ErrExpectedEndIdentifier
    | ExpectedNumberIdentifier     // ErrExpectedNumberIdentifier
    | ExpectedStringIdentifier     // ErrExpectedStringIdentifier
    | InvalidStringLength          // ErrInvalidStringLength
    | InvalidBencode               // ErrInvalidBencode
    | InvalidType                  // ErrInvalidType, from marshalling
    | EndOfInput                   // io.EOF
    | UnexpectedEndOfInput         // io.ErrUnexpectedEOF
    | NegativeLengthPanic          // make([]byte, n) with n < 0 panics
    | LengthOutOfRangePanic        // make([]byte, n) with n past the allocation limit panics

  /** The outcome of one decoding step: the value and the unread rest, or an error. */
  datatype Decoded<+T> = Ok(value: T, rest: Bytes) | Fail(error: Error)

  datatype Result<+T> = Success(value: T) | Failure(error: Error)

  /** `rest` is what remains of `s` after consuming a prefix. */
  predicate IsSuffix(rest: Bytes, s: Bytes)
  {
    |rest| <= |s| && rest == s[|s| - |rest|..]
  }

  // ---------------------------------------------------------------------------
  // readDecimal

  /** Length of the maximal run of ASCII digits at the front of `s`. */
  function DigitRun(s: Bytes): (n: nat)
    ensures n <= |s|
    ensures n < |s| ==> !IsDigit(s[n])
  {
    if |s| > 0 && IsDigit(s[0]) then 1 + DigitRun(s[1..]) else 0
  }

  /** Every byte of the run is a digit. */
  lemma {:induction false} DigitRunDigits(s: Bytes)
    ensures forall i :: 0 <= i < DigitRun(s) ==> IsDigit(s[i])
  {
    if |s| > 0 && IsDigit(s[0]) {
      DigitRunDigits(s[1..]);
      assert forall i :: 1 <= i < DigitRun(s) ==> s[i] == s[1..][i - 1];
    }
  }

  /** The number a run of decimal digits denotes, read most significant first. */
  function DigitsValue(ds: Bytes): nat
    requires forall i :: 0 <= i < |ds| ==> IsDigit(ds[i])
  {
    if ds == [] then 0
    else
      assert IsDigit(ds[|ds| - 1]);
      DigitsValue(ds[..|ds| - 1]) * 10 + (ds[|ds| - 1] as int - Digit0 as int)
  }

  datatype DecimalRead = DecimalRead(val: int64, count: nat)

  /** The digit loop of `readDecimal` on the unread input `u`: the maximal run of
      digits at its front, accumulated in an `int64` that wraps on overflow. */
  function Digits(u: Bytes): (r: DecimalRead)
    ensures r.count <= |u|
    ensures r.count < |u| ==> !IsDigit(u[r.count])
    ensures r.count == 0 <==> |u| == 0 || !IsDigit(u[0])
  {
    var n := DigitRun(u);
    DigitRunDigits(u);
    DecimalRead(Wrap64(DigitsValue(u[..n])), n)
  }

  /** What `readDecimal` returns on the unread input `s`: an optional `-`, then the
      digit loop, then the product of the sign and the accumulated value (which
      wraps as well); `count` is the number of bytes consumed. */
  function Decimal(s: Bytes): (r: DecimalRead)
    ensures r.count <= |s|
    ensures r.count < |s| ==> !IsDigit(s[r.count])
    ensures r.count == 0 <==> |s| == 0 || (s[0] != Minus && !IsDigit(s[0]))
  {
    if |s| > 0 && s[0] == Minus then
      var d := Digits(s[1..]);
      DecimalRead(Neg64(d.val), 1 + d.count)
    else
      Digits(s)
  }

  lemma {:induction false} DigitRunExact(s: Bytes, n: nat)
    requires n <= |s|
    requires forall i :: 0 <= i < n ==> IsDigit(s[i])
    requires n < |s| ==> !IsDigit(s[n])
    ensures DigitRun(s) == n
  {
    if n > 0 {
      DigitRunExact(s[1..], n - 1);
    }
  }

  lemma DigitsValueSnoc(s: Bytes, start: nat, i: nat)
    requires start <= i < |s| && forall j :: start <= j <= i ==> IsDigit(s[j])
    ensures DigitsValue(s[start..i + 1]) == DigitsValue(s[start..i]) * 10 + (s[i] - Digit0)
  {
    assert s[start..i + 1][..i - start] == s[start..i];
  }

  lemma DigitsAfterLoop(s: Bytes, start: nat, i: nat)
    requires start <= i <= |s| && forall j :: start <= j < i ==> IsDigit(s[j])
    requires i < |s| ==> !IsDigit(s[i])
    ensures Digits(s[start..]) == DecimalRead(Wrap64(DigitsValue(s[start..i])), i - start)
  {
    DigitRunExact(s[start..], i - start);
    assert s[start..][..i - start] == s[start..i];
  }

  /** One step of `readDecimal`'s wrapping accumulation. */
  lemma AccumulateDigit(s: Bytes, start: nat, i: nat, v: int64)
    requires start <= i < |s| && forall j :: start <= j <= i ==> IsDigit(s[j])
    requires v == Wrap64(DigitsValue(s[start..i]))
    ensures Wrap64(v * 10 + (s[i] - Digit0)) == Wrap64(DigitsValue(s[start..i + 1]))
  {
    DigitsValueSnoc(s, start, i);
    Wrap64Step(DigitsValue(s[start..i]), s[i] - Digit0);
  }

  /** `readDecimal`: the loop over the reader, byte by byte. */
  method ReadDecimal(s: Bytes) returns (val: int64, count: nat)
    ensures DecimalRead(val, count) == Decimal(s)
  {
    var isNegative := 1;
    var i := 0;
    if |s| > 0 && s[0] == Minus {
      isNegative := -1;
      i := 1;
    }
    ghost var start := i;
    var v: int64 := 0;
    while i < |s| && IsDigit(s[i])
      invariant start <= i <= |s|
      invariant forall j :: start <= j < i ==> IsDigit(s[j])
      invariant v == Wrap64(DigitsValue(s[start..i]))
    {
      AccumulateDigit(s, start, i, v);
      v := Wrap64(v * 10 + (s[i] - Digit0));
      i := i + 1;
    }
    DigitsAfterLoop(s, start, i);
    if isNegative == -1 {
      assert isNegative * v == -(v as int);
      Neg64Wraps(v);
    } else {
      assert s[start..] == s;
    }
    val := Wrap64(isNegative * v);
    count := i;
  }

  // ---------------------------------------------------------------------------
  // Decimal formatting (strconv.FormatInt and the `%d` verb)

  /** The shortest decimal spelling of `n`. */
  function FormatNat(n: nat): (r: Bytes)
    ensures |r| > 0 && IsDigit(r[0])
  {
    if n < 10 then [Digit0 + n] else FormatNat(n / 10) + [Digit0 + n % 10]
  }

  /** `FormatNat` writes only digits, they denote `n`, and there is no leading zero. */
  lemma {:induction false} FormatNatDigits(n: nat)
    ensures var r := FormatNat(n);
      (forall i :: 0 <= i < |r| ==> IsDigit(r[i]))
      && DigitsValue(r) == n
      && (r[0] == Digit0 ==> n == 0 && |r| == 1)
  {
    if n >= 10 {
      FormatNatDigits(n / 10);
      var r := FormatNat(n);
      assert r[..|r| - 1] == FormatNat(n / 10);
    }
  }

  /** `strconv.FormatInt(v, 10)`. */
  function FormatInt(v: int64): Bytes
  {
    if v < 0 then [Minus] + FormatNat(-(v as int)) else FormatNat(v)
  }

  /** The magnitude of an integer. */
  function Abs(n: int): nat { if n < 0 then -n else n }

  // ---------------------------------------------------------------------------
  // Integers

  /** `encodeInt64`, with the sign written by `strconv.FormatInt` itself: `i`, the
      decimal spelling of `val`, `e`. The code as written negates first, which
      Go's wrapping negation gets wrong for `MinInt64` (see `BencodeFindings`);
      for every other value the two agree. */
  function EncodeInt64(val: int64): (r: Bytes)
    ensures |r| > 0 && r[0] == CharI
  {
    [CharI] + FormatInt(val) + [CharE]
  }

  /** `encodeInt64` writes `i`, a `-` for negatives, the decimal magnitude and
      `e`; zero is `i0e`. */
  lemma EncodeInt64Form(val: int64)
    ensures val == 0 ==> EncodeInt64(val) == [CharI, Digit0, CharE]
    ensures EncodeInt64(val) == [CharI] + (if val < 0 then [Minus] else []) + FormatNat(Abs(val)) + [CharE]
  {
    if val < 0 {
      assert [CharI] + ([Minus] + FormatNat(Abs(val))) == [CharI] + [Minus] + FormatNat(Abs(val));
    }
  }

  /** `decodeInt`. A read failure on the very first byte is reported as the value
      0 with no error, as the code does. When `readDecimal` runs into the end of
      the input, its `UnreadByte` pushes back the last byte it read (a
      `bufio.Reader` keeps that byte across a failed `ReadByte`), so the read of
      the closing `e` sees that byte again: an `i`, a `-` or a digit, never `e`. */
  function IntAt(s: Bytes): (r: Decoded<int64>)
    ensures |s| > 0 && r.Ok? ==> |r.rest| < |s|
  {
    if |s| == 0 then Ok(0, s)
    else if s[0] != CharI then Fail(ExpectedNumberIdentifier)
    else
      var d := Decimal(s[1..]);
      var t := s[1 + d.count..];
      if |t| == 0 || t[0] != CharE then Fail(ExpectedEndIdentifier)
      else Ok(d.val, t[1..])
  }

  /** `decodeInt` over the reader. */
  method DecodeInt(s: Bytes) returns (r: Decoded<int64>)
    ensures r == IntAt(s)
  {
    if |s| == 0 {
      return Ok(0, s);
    }
    if s[0] != CharI {
      return Fail(ExpectedNumberIdentifier);
    }
    var res, count := ReadDecimal(s[1..]);
    var t := s[1 + count..];
    if |t| == 0 || t[0] != CharE {
      return Fail(ExpectedEndIdentifier);
    }
    r := Ok(res, t[1..]);
  }

  // ---------------------------------------------------------------------------
  // Byte strings

  /** `encodeStr`: `fmt.Sprintf("%d:%s", len(val), val)`. */
  function EncodeStr(val: Bytes): (r: Bytes)
    ensures |r| > |val| && IsDigit(r[0])
  {
    FormatNat(|val|) + [Colon] + val
  }

  /** `decodeStr`: a length read by `readDecimal`, a `:`, then exactly that many
      bytes. A length consisting of nothing but `-` is 0; a negative length is
      `ErrInvalidStringLength` (the code as written passes it to `make` and
      panics, see `BencodeFindings`, as it does on a length past Go's allocation
      limit, which is a short read here); a short read is `io.EOF` when nothing is
      left and `io.ErrUnexpectedEOF` otherwise. A length that runs to the end of
      the input is followed by the byte `UnreadByte` pushes back, its own last
      byte (a digit or `-`), so the `:` is missing. */
  function StrAt(s: Bytes): (r: Decoded<Bytes>)
    ensures r.Ok? ==> |r.rest| < |s|
  {
    var d := Decimal(s);
    if d.count == 0 then Fail(InvalidStringLength)
    else
      var t := s[d.count..];
      if |t| == 0 || t[0] != Colon then Fail(ExpectedStringIdentifier)
      else
        var u := t[1..];
        if d.val < 0 then Fail(InvalidStringLength)
        else if d.val > |u| then Fail(if |u| == 0 then EndOfInput else UnexpectedEndOfInput)
        else Ok(u[..d.val], u[d.val..])
  }

  /** `decodeStr` over the reader. */
  method DecodeStr(s: Bytes) returns (r: Decoded<Bytes>)
    ensures r == StrAt(s)
  {
    var strLen, len := ReadDecimal(s);
    if len == 0 {
      return Fail(InvalidStringLength);
    }
    var t := s[len..];
    if |t| == 0 || t[0] != Colon {
      return Fail(ExpectedStringIdentifier);
    }
    var u := t[1..];
    if strLen < 0 {
      return Fail(InvalidStringLength);
    }
    if strLen > |u| {
      return Fail(if |u| == 0 then EndOfInput else UnexpectedEndOfInput);
    }
    r := Ok(u[..strLen], u[strLen..]);
  }

  /** Input that ends inside a number: the byte pushed back by `readDecimal` is
      read again where the `e` or the `:` should be, so `i5` and `i` fail with
      `ErrExpectedEndIdentifier` and `5` with `ErrExpectedStringIdentifier`,
      not with `io.EOF`. */
  lemma CutAfterDigits()
    ensures IntAt([CharI, Digit0 + 5]) == Fail(ExpectedEndIdentifier)
    ensures IntAt([CharI]) == Fail(ExpectedEndIdentifier)
    ensures StrAt([Digit0 + 5]) == Fail(ExpectedStringIdentifier)
  {
    DigitRunExact([Digit0 + 5], 1);
    assert [CharI, Digit0 + 5][1..] == [Digit0 + 5];
    assert [CharI][1..] == [];
  }

  // ---------------------------------------------------------------------------
  // parse

  /** Values the parser can produce: no `Other` anywhere, and every byte string
      (value or key) no longer than Go's `int` can count. */
  predicate Parsed(v: Value)
  {
    match v
    case Int(_) => true
    case Str(s) => |s| <= MaxInt64
    case List(items) => forall i :: 0 <= i < |items| ==> Parsed(items[i])
    case Dict(m) => forall k :: k in m ==> |k| <= MaxInt64 && Parsed(m[k])
    case Other => false
  }

  predicate AllParsed(xs: seq<Value>)
  {
    forall i :: 0 <= i < |xs| ==> Parsed(xs[i])
  }

  predicate ParsedEntries(m: map<Bytes, Value>)
  {
    forall k :: k in m ==> |k| <= MaxInt64 && Parsed(m[k])
  }

  lemma ParsedStore(m: map<Bytes, Value>, key: Bytes, val: Value)
    requires ParsedEntries(m) && |key| <= MaxInt64 && Parsed(val)
    ensures ParsedEntries(m[key := val])
  {
  }

  /** `parse`: dispatch on the lead byte. */
  function ValueAt(s: Bytes): (r: Decoded<Value>)
    ensures r.Ok? ==> |r.rest| < |s|
    decreases |s|, 0
  {
    if |s| == 0 then Fail(EndOfInput)
    else if s[0] == CharI then
      match IntAt(s)
      case Ok(i, rest) => Ok(Int(i), rest)
      case Fail(e) => Fail(e)
    else if IsDigit(s[0]) then
      match StrAt(s)
      case Ok(str, rest) => Ok(Str(str), rest)
      case Fail(e) => Fail(e)
    else if s[0] == CharL then ListAt(s[1..], [])
    else if s[0] == CharD then DictAt(s[1..], map[])
    else Fail(InvalidBencode)
  }

  /** The list loop of `parse`, after the `l`: elements until an `e`. */
  function ListAt(s: Bytes, acc: seq<Value>): (r: Decoded<Value>)
    ensures r.Ok? ==> |r.rest| < |s|
    decreases |s|, 1
  {
    if |s| == 0 then Fail(EndOfInput)
    else if s[0] == CharE then Ok(List(acc), s[1..])
    else
      match ValueAt(s)
      case Fail(e) => Fail(e)
      case Ok(elem, rest) => ListAt(rest, acc + [elem])
  }

  /** The dictionary loop of `parse`, after the `d`: key/value pairs until an `e`.
      Keys are accepted in any order; a repeated key keeps its last value. */
  function DictAt(s: Bytes, acc: map<Bytes, Value>): (r: Decoded<Value>)
    ensures r.Ok? ==> |r.rest| < |s|
    decreases |s|, 1
  {
    if |s| == 0 then Fail(EndOfInput)
    else if s[0] == CharE then Ok(Dict(acc), s[1..])
    else
      match StrAt(s)
      case Fail(e) => Fail(e)
      case Ok(key, rest) =>
        match ValueAt(rest)
        case Fail(e) => Fail(e)
        case Ok(val, rest') => DictAt(rest', acc[key := val])
  }

  /** `parse` over the reader. */
  method Parse(s: Bytes) returns (r: Decoded<Value>)
    ensures r == ValueAt(s)
    decreases |s|, 1
  {
    if |s| == 0 {
      return Fail(EndOfInput);
    }
    var b := s[0];
    if b == CharI {
      var d := DecodeInt(s);
      r := if d.Ok? then Ok(Int(d.value), d.rest) else Fail(d.error);
    } else if IsDigit(b) {
      var d := DecodeStr(s);
      r := if d.Ok? then Ok(Str(d.value), d.rest) else Fail(d.error);
    } else if b == CharL {
      r := ParseList(s);
    } else if b == CharD {
      r := ParseDict(s);
    } else {
      r := Fail(InvalidBencode);
    }
  }

  /** The list branch of `parse`: consume the `l`, then parse elements until `e`. */
  method ParseList(s: Bytes) returns (r: Decoded<Value>)
    requires |s| > 0 && s[0] == CharL
    ensures r == ValueAt(s)
    decreases |s|, 0
  {
    var cur := s[1..];
    var list: seq<Value> := [];
    while true
      invariant |cur| < |s|
      invariant ListAt(cur, list) == ValueAt(s)
      decreases |cur|
    {
      if |cur| == 0 {
        return Fail(EndOfInput);
      }
      if cur[0] == CharE {
        return Ok(List(list), cur[1..]);
      }
      var elem := Parse(cur);
      if elem.Fail? {
        return Fail(elem.error);
      }
      list := list + [elem.value];
      cur := elem.rest;
    }
  }

  /** The dictionary branch of `parse`: consume the `d`, then read a key with
      `decodeStr` and a value with `parse` until `e`, storing each pair. */
  method ParseDict(s: Bytes) returns (r: Decoded<Value>)
    requires |s| > 0 && s[0] == CharD
    ensures r == ValueAt(s)
    decreases |s|, 0
  {
    var cur := s[1..];
    var dict: map<Bytes, Value> := map[];
    while true
      invariant |cur| < |s|
      invariant DictAt(cur, dict) == ValueAt(s)
      decreases |cur|
    {
      if |cur| == 0 {
        return Fail(EndOfInput);
      }
      if cur[0] == CharE {
        return Ok(Dict(dict), cur[1..]);
      }
      var key := DecodeStr(cur);
      if key.Fail? {
        return Fail(key.error);
      }
      var val := Parse(key.rest);
      if val.Fail? {
        return Fail(val.error);
      }
      dict := dict[key.value := val.value];
      cur := val.rest;
    }
  }

  // ---------------------------------------------------------------------------
  // One-step unfoldings of the parser, used by the round-trip proofs

  lemma IntAtStep(s: Bytes)
    requires |s| > 0 && s[0] == CharI
    requires 1 + Decimal(s[1..]).count < |s| && s[1 + Decimal(s[1..]).count] == CharE
    ensures IntAt(s) == Ok(Decimal(s[1..]).val, s[2 + Decimal(s[1..]).count..])
  {
    var d := Decimal(s[1..]);
    assert s[1 + d.count..][1..] == s[2 + d.count..];
  }

  lemma ValueAtInt(s: Bytes)
    requires |s| > 0 && s[0] == CharI && IntAt(s).Ok?
    ensures ValueAt(s) == Ok(Int(IntAt(s).value), IntAt(s).rest)
  {
  }

  lemma ValueAtStr(s: Bytes)
    requires |s| > 0 && IsDigit(s[0]) && StrAt(s).Ok?
    ensures ValueAt(s) == Ok(Str(StrAt(s).value), StrAt(s).rest)
  {
  }

  lemma ValueAtList(x: Bytes)
    ensures ValueAt([CharL] + x) == ListAt(x, [])
  {
    assert ([CharL] + x)[1..] == x;
  }

  lemma ValueAtDict(x: Bytes)
    ensures ValueAt([CharD] + x) == DictAt(x, map[])
  {
    assert ([CharD] + x)[1..] == x;
  }

  lemma ListAtEnd(t: Bytes, acc: seq<Value>)
    ensures ListAt([CharE] + t, acc) == Ok(List(acc), t)
  {
    assert ([CharE] + t)[1..] == t;
  }

  lemma ListAtStep(s: Bytes, acc: seq<Value>)
    requires |s| > 0 && s[0] != CharE && ValueAt(s).Ok?
    ensures ListAt(s, acc) == ListAt(ValueAt(s).rest, acc + [ValueAt(s).value])
  {
  }

  lemma DictAtEnd(t: Bytes, acc: map<Bytes, Value>)
    ensures DictAt([CharE] + t, acc) == Ok(Dict(acc), t)
  {
    assert ([CharE] + t)[1..] == t;
  }

  lemma DictAtStep(s: Bytes, acc: map<Bytes, Value>)
    requires |s| > 0 && s[0] != CharE && StrAt(s).Ok? && ValueAt(StrAt(s).rest).Ok?
    ensures DictAt(s, acc)
         == DictAt(ValueAt(StrAt(s).rest).rest, acc[StrAt(s).value := ValueAt(StrAt(s).rest).value])
  {
  }

  // ---------------------------------------------------------------------------
  // What the parser returns

  lemma SuffixTrans(a: Bytes, b: Bytes, c: Bytes)
    requires IsSuffix(a, b) && IsSuffix(b, c)
    ensures IsSuffix(a, c)
  {
    assert c[|c| - |b|..][|b| - |a|..] == c[|c| - |a|..];
  }

  lemma DropSuffix(s: Bytes, n: nat)
    requires n <= |s|
    ensures IsSuffix(s[n..], s)
  {
  }

  /** `decodeInt` leaves a suffix of its input unread. */
  lemma IntAtSuffix(s: Bytes)
    ensures IntAt(s).Ok? ==> IsSuffix(IntAt(s).rest, s)
  {
    if |s| > 0 && s[0] == CharI {
      var d := Decimal(s[1..]);
      var t := s[1 + d.count..];
      if |t| > 0 && t[0] == CharE {
        assert t[1..] == s[2 + d.count..];
        DropSuffix(s, 2 + d.count);
      }
    }
  }

  /** `decodeStr` leaves a suffix of its input unread, and what it returns is no
      longer than a Go `int` can count. */
  lemma StrAtSuffix(s: Bytes)
    ensures StrAt(s).Ok? ==> IsSuffix(StrAt(s).rest, s) && |StrAt(s).value| <= MaxInt64
  {
    var d := Decimal(s);
    if StrAt(s).Ok? {
      var u := s[d.count..][1..];
      assert u[d.val..] == s[d.count + 1 + d.val..];
      DropSuffix(s, d.count + 1 + d.val);
    }
  }

  /** `parse` leaves a suffix of its input unread and returns a value of the
      shape `Parsed` describes. */
  lemma {:induction false} ValueAtResult(s: Bytes)
    ensures ValueAt(s).Ok? ==> IsSuffix(ValueAt(s).rest, s) && Parsed(ValueAt(s).value)
    decreases |s|, 0
  {
    if |s| > 0 {
      if s[0] == CharI {
        IntAtSuffix(s);
      } else if IsDigit(s[0]) {
        StrAtSuffix(s);
      } else if s[0] == CharL {
        ListAtResult(s[1..], []);
        if ValueAt(s).Ok? { SuffixTrans(ValueAt(s).rest, s[1..], s); }
      } else if s[0] == CharD {
        DictAtResult(s[1..], map[]);
        if ValueAt(s).Ok? { SuffixTrans(ValueAt(s).rest, s[1..], s); }
      }
    }
  }

  lemma {:induction false} ListAtResult(s: Bytes, acc: seq<Value>)
    requires AllParsed(acc)
    ensures var r := ListAt(s, acc);
      r.Ok? ==> IsSuffix(r.rest, s) && r.value.List? && Parsed(r.value)
    decreases |s|, 1
  {
    if |s| > 0 && s[0] != CharE {
      ValueAtResult(s);
      var e := ValueAt(s);
      if e.Ok? {
        assert AllParsed(acc + [e.value]) by {
          assert forall i :: 0 <= i < |acc| ==> (acc + [e.value])[i] == acc[i];
        }
        ListAtResult(e.rest, acc + [e.value]);
        if ListAt(s, acc).Ok? { SuffixTrans(ListAt(s, acc).rest, e.rest, s); }
      }
    }
  }

  lemma {:induction false} DictAtResult(s: Bytes, acc: map<Bytes, Value>)
    requires ParsedEntries(acc)
    ensures var r := DictAt(s, acc);
      r.Ok? ==> IsSuffix(r.rest, s) && r.value.Dict? && Parsed(r.value)
    decreases |s|, 1
  {
    if |s| > 0 && s[0] != CharE {
      StrAtSuffix(s);
      var k := StrAt(s);
      if k.Ok? {
        ValueAtResult(k.rest);
        var e := ValueAt(k.rest);
        if e.Ok? {
          ParsedStore(acc, k.value, e.value);
          DictAtResult(e.rest, acc[k.value := e.value]);
          SuffixTrans(e.rest, k.rest, s);
          if DictAt(s, acc).Ok? { SuffixTrans(DictAt(s, acc).rest, e.rest, s); }
        }
      }
    }
  }
}

/** Byte strings, Go's fixed-width integers and big-endian fields shared by every
    component: the codec, the metainfo parser, the wire protocol and the scheduler. */
module Common {

  /** A Go `byte`. */
  type byte = x: int | 0 <= x < 256

  /** A Go `[]byte`, and also a Go `string`: Go strings are byte strings. */
  type Bytes = seq<byte>

  const MinInt64: int := -0x8000_0000_0000_0000
  const MaxInt64: int := 0x7fff_ffff_ffff_ffff
  const TwoTo64: int := 0x1_0000_0000_0000_0000
  const TwoTo32: int := 0x1_0000_0000

  /** A Go `int64` (and `int`, which is 64 bits wide on the platforms the client targets). */
  type int64 = x: int | -0x8000_0000_0000_0000 <= x <= 0x7fff_ffff_ffff_ffff

  /** A Go `uint32`. */
  type uint32 = x: int | 0 <= x < 0x1_0000_0000

  /** A Go `uint16`. */
  type uint16 = x: int | 0 <= x < 0x1_0000

  /** The two's-complement value Go's signed 64-bit arithmetic produces for the
      mathematical value `x`: Go integer overflow wraps silently, so the result
      differs from `x` by a multiple of 2^64. */
  function Wrap64(x: int): (r: int64)
    ensures MinInt64 <= x <= MaxInt64 ==> r == x
    decreases if x > MaxInt64 then x - MaxInt64 else if x < MinInt64 then MinInt64 - x else 0
  {
    if x > MaxInt64 then Wrap64(x - TwoTo64)
    else if x < MinInt64 then Wrap64(x + TwoTo64)
    else x
  }

  /** `Wrap64` is reduction modulo 2^64 into the signed range. */
  lemma {:induction false} Wrap64IsMod(x: int)
    ensures Wrap64(x) == (x - MinInt64) % TwoTo64 + MinInt64
    decreases if x > MaxInt64 then x - MaxInt64 else if x < MinInt64 then MinInt64 - x else 0
  {
    if x > MaxInt64 {
      Wrap64IsMod(x - TwoTo64);
      ModShift(x - TwoTo64 - MinInt64);
    } else if x < MinInt64 {
      Wrap64IsMod(x + TwoTo64);
      ModShift(x - MinInt64);
    } else {
      ModSmall(x - MinInt64);
    }
  }

  lemma ModShift(y: int)
    ensures (y + TwoTo64) % TwoTo64 == y % TwoTo64
  {
    var q, r := y / TwoTo64, y % TwoTo64;
    assert y == q * TwoTo64 + r && 0 <= r < TwoTo64;
    assert y + TwoTo64 == (q + 1) * TwoTo64 + r;
  }

  lemma ModSmall(y: int)
    requires 0 <= y < TwoTo64
    ensures y % TwoTo64 == y
  {
  }

  /** The wrapped value differs from the mathematical one by a multiple of 2^64. */
  lemma Wrap64Congruent(x: int)
    ensures (x - Wrap64(x)) % TwoTo64 == 0
  {
    Wrap64IsMod(x);
  }

  /** Wrapping at every step of an accumulation is the same as wrapping once at the end. */
  lemma Wrap64Step(a: int, d: int)
    ensures Wrap64(Wrap64(a) * 10 + d) == Wrap64(a * 10 + d)
  {
    Wrap64Congruent(a);
    var k := (a - Wrap64(a)) / TwoTo64;
    assert a == Wrap64(a) + k * TwoTo64;
    assert a * 10 + d == (Wrap64(a) * 10 + d) + (10 * k) * TwoTo64;
    WrapShift(Wrap64(a) * 10 + d, 10 * k);
  }

  lemma WrapShift(x: int, k: int)
    ensures Wrap64(x + k * TwoTo64) == Wrap64(x)
  {
    Wrap64IsMod(x + k * TwoTo64);
    Wrap64IsMod(x);
    assert (x + k * TwoTo64 - MinInt64) % TwoTo64 == (x - MinInt64) % TwoTo64;
  }

  /** Go's unary minus on an `int64`: `-MinInt64` wraps back to `MinInt64`. */
  function Neg64(x: int64): (r: int64)
    ensures x != MinInt64 ==> r == -x
    ensures x == MinInt64 ==> r == MinInt64
  {
    if x == MinInt64 then x else -x
  }

  /** `Neg64` is negation followed by the wrap-around of `Wrap64`. */
  lemma Neg64Wraps(x: int64)
    ensures Neg64(x) == Wrap64(-(x as int))
  {
    if x == MinInt64 {
      WrapShift(MinInt64, 1);
    }
  }

  /** `binary.BigEndian.PutUint32`. */
  function BE32(n: uint32): (r: Bytes)
    ensures |r| == 4
  {
    var a := n / 0x100;
    var b := a / 0x100;
    [b / 0x100, b % 0x100, a % 0x100, n % 0x100]
  }

  /** `binary.BigEndian.Uint32`. */
  function FromBE32(b: Bytes): (r: uint32)
    requires |b| == 4
  {
    (b[0] as int) * 0x100_0000 + (b[1] as int) * 0x1_0000 + (b[2] as int) * 0x100 + b[3] as int
  }

  /** `binary.BigEndian.Uint16`. */
  function FromBE16(b: Bytes): (r: uint16)
    requires |b| == 2
    ensures r / 0x100 == b[0] && r % 0x100 == b[1]
  {
    (b[0] as int) * 0x100 + b[1] as int
  }

  /** Decoding a big-endian field inverts encoding it. */
  lemma BE32RoundTrip(n: uint32)
    ensures FromBE32(BE32(n)) == n
  {
    var a := n / 0x100;
    var b := a / 0x100;
    assert n == a * 0x100 + n % 0x100;
    assert a == b * 0x100 + a % 0x100;
    assert b == (b / 0x100) * 0x100 + b % 0x100;
  }

  /** Encoding a decoded big-endian field gives back its four bytes. */
  lemma FromBE32RoundTrip(b: Bytes)
    requires |b| == 4
    ensures BE32(FromBE32(b)) == b
  {
    var n := FromBE32(b);
    var hi := (b[0] as int) * 0x100 + b[1] as int;
    var mid := hi * 0x100 + b[2] as int;
    assert n == mid * 0x100 + b[3] as int;
    assert n / 0x100 == mid && n % 0x100 == b[3];
    assert mid / 0x100 == hi && mid % 0x100 == b[2];
    assert hi / 0x100 == b[0] && hi % 0x100 == b[1];
  }

  /** Go's conversion `uint32(n)` of an `int`: the low 32 bits of its two's
      complement form. */
  function ToUint32(n: int): (r: uint32)
    ensures 0 <= n < TwoTo32 ==> r == n
    ensures -TwoTo32 <= n < 0 ==> r == n + TwoTo32
  {
    n % TwoTo32
  }

  /** `binary.BigEndian.PutUint16`. */
  function BE16(n: uint16): (r: Bytes)
    ensures |r| == 2 && FromBE16(r) == n
  {
    [n / 0x100, n % 0x100]
  }

  /** Go's integer `/`, which truncates toward zero. */
  function GoDiv(a: int, b: int): (r: int)
    requires b > 0
    ensures a >= 0 ==> r == a / b
    ensures a < 0 ==> r <= 0 && r * b >= a > (r - 1) * b
  {
    if a >= 0 then a / b else -((-a) / b)
  }

  /** Go's integer `%`: the remainder has the sign of the dividend. */
  function GoMod(a: int, b: int): (r: int)
    requires b > 0
    ensures a == GoDiv(a, b) * b + r
    ensures -b < r < b && (a >= 0 ==> r >= 0) && (a <= 0 ==> r <= 0)
  {
    a - GoDiv(a, b) * b
  }

  /** `1 << n`. */
  function Pow2(n: nat): (r: nat)
    ensures r >= 1
  {
    if n == 0 then 1 else 2 * Pow2(n - 1)
  }

  /** Shifting a byte right by eight or more places leaves nothing. */
  lemma {:induction false} Pow2Wide(n: nat)
    requires n >= 8
    ensures Pow2(n) >= 256
  {
    if n > 8 {
      Pow2Wide(n - 1);
    } else {
      assert Pow2(8) == 256 by {
        assert Pow2(1) == 2 && Pow2(2) == 4 && Pow2(3) == 8 && Pow2(4) == 16;
        assert Pow2(5) == 32 && Pow2(6) == 64 && Pow2(7) == 128;
      }
    }
  }

  /** The bytes of an ASCII string literal. */
  function Ascii(s: string): (r: Bytes)
    requires forall i :: 0 <= i < |s| ==> s[i] as int < 256
    ensures |r| == |s|
    ensures forall i :: 0 <= i < |r| ==> r[i] == s[i] as int
  {
    seq(|s|, i requires 0 <= i < |s| => s[i] as int)
  }

  /** `n` zero bytes, as `make([]byte, n)` yields. */
  function Zeros(n: nat): (r: Bytes)
    ensures |r| == n && forall i :: 0 <= i < n ==> r[i] == 0
  {
    seq(n, _ => 0)
  }

  /** Go's `a < b` on strings: lexicographic order on the raw bytes. */
  predicate Less(a: Bytes, b: Bytes)
  {
    if |a| == 0 then |b| > 0
    else if |b| == 0 then false
    else if a[0] != b[0] then a[0] < b[0]
    else Less(a[1..], b[1..])
  }

  lemma {:induction false} LessIrreflexive(a: Bytes)
    ensures !Less(a, a)
  {
    if |a| > 0 { LessIrreflexive(a[1..]); }
  }

  lemma {:induction false} LessTransitive(a: Bytes, b: Bytes, c: Bytes)
    requires Less(a, b) && Less(b, c)
    ensures Less(a, c)
  {
    if |a| > 0 && a[0] == b[0] && b[0] == c[0] {
      LessTransitive(a[1..], b[1..], c[1..]);
    }
  }

  lemma {:induction false} LessTotal(a: Bytes, b: Bytes)
    requires a != b
    ensures Less(a, b) || Less(b, a)
  {
    if |a| > 0 && |b| > 0 && a[0] == b[0] {
      assert a == [a[0]] + a[1..] && b == [b[0]] + b[1..];
      LessTotal(a[1..], b[1..]);
    }
  }

  lemma LessAsymmetric(a: Bytes, b: Bytes)
    requires Less(a, b)
    ensures !Less(b, a)
  {
    if Less(b, a) {
      LessTransitive(a, b, a);
      LessIrreflexive(a);
    }
  }

  /** The elements of `s` in strictly ascending byte order: the effect of
      collecting a Go map's keys and sorting them with `sort.Slice` and `<`. */
  function SortedKeys(s: set<Bytes>): (r: seq<Bytes>)
    ensures |r| == |s|
    ensures forall k :: k in s <==> k in r
    decreases |s|
  {
    if s == {} then [] else var k := Least(s); [k] + SortedKeys(s - {k})
  }

  /** Each element of `r` is below every element after it. */
  ghost predicate Ascending(r: seq<Bytes>)
  {
    forall i, j :: 0 <= i < j < |r| ==> Less(r[i], r[j])
  }

  /** Each key `SortedKeys` lists is below every key after it. */
  lemma {:induction false} SortedKeysAscending(s: set<Bytes>)
    ensures Ascending(SortedKeys(s))
    decreases |s|
  {
    if s != {} {
      var k := Least(s);
      var tail := SortedKeys(s - {k});
      SortedKeysAscending(s - {k});
      var r := SortedKeys(s);
      assert r == [k] + tail;
      forall i, j | 0 <= i < j < |r| ensures Less(r[i], r[j]) {
        assert r[j] == tail[j - 1];
        if i == 0 {
          assert r[0] == k;
          assert tail[j - 1] in s - {k};
          assert IsLeast(k, s);
        } else {
          assert r[i] == tail[i - 1];
          assert Less(tail[i - 1], tail[j - 1]);
        }
      }
    }
  }

  /** The least element of a non-empty set of byte strings. */
  function Least(s: set<Bytes>): (k: Bytes)
    requires s != {}
    ensures k in s && IsLeast(k, s)
  {
    LeastExists(s);
    LeastUnique(s);
    var k :| k in s && IsLeast(k, s);
    k
  }

  predicate IsLeast(k: Bytes, s: set<Bytes>)
  {
    forall j :: j in s && j != k ==> Less(k, j)
  }

  lemma {:induction false} LeastExists(s: set<Bytes>)
    requires s != {}
    ensures exists k :: k in s && IsLeast(k, s)
    decreases |s|
  {
    var x :| x in s;
    if s == {x} {
      assert IsLeast(x, s);
    } else {
      LeastExists(s - {x});
      var m :| m in s - {x} && IsLeast(m, s - {x});
      if Less(m, x) {
        assert IsLeast(m, s) by {
          forall j | j in s && j != m ensures Less(m, j) {
            if j != x { assert j in s - {x}; }
          }
        }
      } else {
        LessTotal(m, x);
        assert IsLeast(x, s) by {
          forall j | j in s && j != x ensures Less(x, j) {
            if j != m { assert j in s - {x}; LessTransitive(x, m, j); }
          }
        }
      }
    }
  }

  lemma LeastUnique(s: set<Bytes>)
    ensures forall a, b :: a in s && IsLeast(a, s) && b in s && IsLeast(b, s) ==> a == b
  {
    forall a, b | a in s && IsLeast(a, s) && b in s && IsLeast(b, s) ensures a == b {
      if a != b { LessAsymmetric(a, b); }
    }
  }

  datatype Option<+T> = None | Some(value: T)

  // Sequence identities, proved once in a small context.

  lemma TakeLast<T>(s: seq<T>)
    requires |s| > 0
    ensures s[..|s| - 1] + [s[|s| - 1]] == s
  {
  }

  lemma AppendTakeLast<T>(acc: seq<T>, s: seq<T>)
    requires |s| > 0
    ensures acc + s[..|s| - 1] + [s[|s| - 1]] == acc + s
  {
    TakeLast(s);
    assert acc + s[..|s| - 1] + [s[|s| - 1]] == acc + (s[..|s| - 1] + [s[|s| - 1]]);
  }

  lemma AppendEmpty<T>(a: seq<T>, b: seq<T>)
    requires |b| == 0
    ensures a + b == a && b + a == a
  {
  }

  lemma Associative<T>(a: seq<T>, b: seq<T>, c: seq<T>)
    ensures a + b + c == a + (b + c)
  {
  }
}

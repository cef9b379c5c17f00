/** `Bitfield` (`bitfield.go`): the pieces a peer has, one bit per piece, most
    significant bit of each byte first. `Test` has a value receiver and only
    reads the field. */
module Bitfield {
  import opened Common

  /** The low `n` bits of `b`, most significant first: the reference reading of
      one bitfield byte. */
  function ByteBits(b: nat, n: nat): (r: seq<bool>)
    ensures |r| == n
  {
    if n == 0 then [] else ByteBits(b / 2, n - 1) + [b % 2 == 1]
  }

  /** A bitfield read as a bit string, byte by byte. */
  function Bits(field: Bytes): (r: seq<bool>)
    ensures |r| == 8 * |field|
  {
    if field == [] then [] else Bits(field[..|field| - 1]) + ByteBits(field[|field| - 1], 8)
  }

  /** `b >> s`, one place at a time. */
  function Shr(b: nat, s: nat): (r: nat)
    ensures r <= b
  {
    if s == 0 then b else Shr(b / 2, s - 1)
  }

  lemma {:induction false} ShrSmall(b: nat, s: nat)
    requires b < Pow2(s)
    ensures Shr(b, s) == 0
  {
    if s > 0 {
      ShrSmall(b / 2, s - 1);
    }
  }

  /** A byte shifted right by eight or more places is zero. */
  lemma ShrWide(b: byte, s: nat)
    requires s >= 8
    ensures Shr(b, s) == 0
  {
    Pow2Wide(s);
    ShrSmall(b, s);
  }

  /** `Bitfield.Test` as written: the guard is `byteOffset > len(field)`, so a
      byte offset equal to the length reaches `field[len(field)]` and panics
      (`None`). Go's `/` and `%` truncate toward zero. */
  function TestAsWritten(field: Bytes, index: int): (r: Option<bool>)
  {
    var offset := GoMod(index, 8);
    var byteOffset := GoDiv(index, 8);
    if byteOffset < 0 || byteOffset > |field| then Some(false)
    else if byteOffset == |field| then None
    else Some(Shr(field[byteOffset], 7 - offset) % 2 != 0)
  }

  /** `Bitfield.Test` with the guard `byteOffset >= len(field)` it evidently
      means: an index outside the field is a piece the peer does not have. */
  function Test(field: Bytes, index: int): (r: bool)
  {
    var offset := GoMod(index, 8);
    var byteOffset := GoDiv(index, 8);
    if byteOffset < 0 || byteOffset >= |field| then false
    else Shr(field[byteOffset], 7 - offset) % 2 != 0
  }

  /** Bit `j` of `ByteBits(b, n)` is bit `n - 1 - j` of `b`. */
  lemma {:induction false} ByteBitsAt(b: nat, n: nat, j: nat)
    requires j < n
    ensures ByteBits(b, n)[j] == (Shr(b, n - 1 - j) % 2 == 1)
    decreases n
  {
    if j < n - 1 {
      ByteBitsAt(b / 2, n - 1, j);
    }
  }

  /** Bit `i` of the field lives in byte `i / 8`, at place `i % 8` from the
      top. */
  lemma {:induction false} BitsAt(field: Bytes, i: nat)
    requires i < 8 * |field|
    ensures Bits(field)[i] == ByteBits(field[i / 8], 8)[i % 8]
    decreases |field|
  {
    var n := |field|;
    var pre := field[..n - 1];
    if i < 8 * (n - 1) {
      BitsAt(pre, i);
      assert field[i / 8] == pre[i / 8];
    }
  }

  /** Inside the field, `Test` is the bit of the field at `index`, most
      significant bit of each byte first. */
  lemma TestIsBit(field: Bytes, index: int)
    requires 0 <= index < 8 * |field|
    ensures Test(field, index) == Bits(field)[index]
  {
    BitsAt(field, index);
    ByteBitsAt(field[index / 8], 8, index % 8);
  }

  /** Outside the field (negative or past the end) `Test` is false. Between -7
      and -1 the byte offset truncates to 0 and the shift is 8 or more. */
  lemma TestOutside(field: Bytes, index: int)
    requires index < 0 || index >= 8 * |field|
    ensures !Test(field, index)
  {
    if -8 < index < 0 && |field| > 0 {
      ShrWide(field[0], 7 - GoMod(index, 8));
    }
  }

  /** The code as written agrees with `Test` except when the byte offset equals
      the length: indices `8 * len .. 8 * len + 7`, and `-7 .. -1` on an empty
      field, where it panics. */
  lemma AsWrittenAgrees(field: Bytes, index: int)
    ensures TestAsWritten(field, index).None?
      <==> 8 * |field| <= index < 8 * |field| + 8 || (|field| == 0 && -7 <= index <= -1)
    ensures TestAsWritten(field, index).Some? ==> TestAsWritten(field, index).value == Test(field, index)
  {
    if -8 < index < 0 {
      assert GoDiv(index, 8) == 0;
    }
  }

  /** The first index past a one-byte field reaches `field[1]`. */
  lemma PastEndPanics()
    ensures TestAsWritten([0xff], 8).None? && !Test([0xff], 8)
  {
  }
}

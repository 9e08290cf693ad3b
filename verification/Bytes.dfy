/** Bytes, fixed-width integers, and the mutable buffer of the `bytes` crate. */
module Bytes {
  import opened Outcomes

  type byte = x: int | 0 <= x < 0x100
  type i32 = x: int | -0x8000_0000 <= x < 0x8000_0000
  type i64 = x: int | -0x8000_0000_0000_0000 <= x < 0x8000_0000_0000_0000

  /** One more than `i32::MAX`: what an `i32` length prefix cannot carry. */
  const I32_LIMIT: nat := 0x8000_0000

  /** A reader: the value and the bytes after it, an error, or a panic. */
  type Parsed<T> = Outcome<(T, seq<byte>), ZkError>

  // ---------------------------------------------------------------- regrouping concatenations

  lemma Regroup<T>(x: seq<T>, y: seq<T>, z: seq<T>)
    ensures (x + y) + z == x + (y + z)
  {
  }

  lemma Regroup3(x: seq<byte>, y: seq<byte>, z: seq<byte>, rest: seq<byte>)
    ensures (x + y + z) + rest == x + (y + (z + rest))
  {
    Regroup(x + y, z, rest);
    Regroup(x, y, z + rest);
  }

  lemma Regroup4(w: seq<byte>, x: seq<byte>, y: seq<byte>, z: seq<byte>, rest: seq<byte>)
    ensures (w + x + y + z) + rest == w + (x + (y + (z + rest)))
  {
    Regroup(w + x + y, z, rest);
    Regroup3(w, x, y, z + rest);
  }

  lemma SliceOfRest<T>(s: seq<T>, i: nat, n: nat)
    requires i + n <= |s|
    ensures s[i..][..n] == s[i..i + n] && s[i..][n..] == s[i + n..]
  {
  }

  lemma RestOfAppended<T>(s: seq<T>, more: seq<T>, i: nat)
    requires i <= |s|
    ensures (s + more)[i..] == s[i..] + more
  {
  }

  lemma CutTwice<T>(s: seq<T>, i: nat, j: nat)
    requires i <= j <= |s|
    ensures s == s[..i] + s[i..j] + s[j..]
  {
  }

  /** Two consecutive reads. */
  lemma Join(b: seq<byte>, x: seq<byte>, b1: seq<byte>, y: seq<byte>, b2: seq<byte>)
    requires b == x + b1 && b1 == y + b2
    ensures b == x + y + b2
  {
  }

  /** Three consecutive reads. */
  lemma Glue(b: seq<byte>, x: seq<byte>, b1: seq<byte>, y: seq<byte>, b2: seq<byte>, z: seq<byte>, b3: seq<byte>)
    requires b == x + b1 && b1 == y + b2 && b2 == z + b3
    ensures b == x + y + z + b3
  {
    Join(b, x, b1, y, b2);
    Join(b, x + y, b2, z, b3);
  }

  // ---------------------------------------------------------------- unsigned integers of any width

  function Pow256(w: nat): (p: nat)
    ensures p > 0
  {
    if w == 0 then 1 else 256 * Pow256(w - 1)
  }

  /** `put_uint`: the `w` low-order bytes of `n`, most significant first. */
  function BigEndian(n: nat, w: nat): (s: seq<byte>)
    ensures |s| == w
  {
    if w == 0 then [] else BigEndian(n / 256, w - 1) + [n % 256]
  }

  /** `get_uint`. */
  function FromBigEndian(s: seq<byte>): nat {
    if s == [] then 0 else 256 * FromBigEndian(s[..|s| - 1]) + s[|s| - 1]
  }

  /** `put_uint_le`. */
  function LittleEndian(n: nat, w: nat): (s: seq<byte>)
    ensures |s| == w
  {
    if w == 0 then [] else [n % 256] + LittleEndian(n / 256, w - 1)
  }

  /** `get_uint_le`. */
  function FromLittleEndian(s: seq<byte>): nat {
    if s == [] then 0 else s[0] + 256 * FromLittleEndian(s[1..])
  }

  function UintBytes(bigEndian: bool, n: nat, w: nat): (s: seq<byte>)
    ensures |s| == w
  {
    if bigEndian then BigEndian(n, w) else LittleEndian(n, w)
  }

  function UintOf(bigEndian: bool, s: seq<byte>): nat {
    if bigEndian then FromBigEndian(s) else FromLittleEndian(s)
  }

  lemma ModIsUnique(n: nat, m: nat, k: nat, r: nat)
    requires r < m && n == m * k + r
    ensures n % m == r
  {
    var q, t := n / m, n % m;
    assert m * (q - k) == r - t by {
      assert n == m * q + t;
      assert m * (q - k) == m * q - m * k;
    }
    if q < k {
      MultipleAtLeast(m, k - q);
    } else if q > k {
      MultipleAtLeast(m, q - k);
    }
  }

  lemma MultipleAtLeast(m: nat, k: nat)
    requires k > 0
    ensures m * k >= m
  {
  }

  /** Splitting off the last digit of a number reduced modulo 256^w. */
  lemma ModSplit(n: nat, w: nat)
    requires w > 0
    ensures n % Pow256(w) == 256 * (n / 256 % Pow256(w - 1)) + n % 256
  {
    var p := Pow256(w - 1);
    var q, d := n / 256, n % 256;
    var k, r := q / p, q % p;
    assert n == 256 * p * k + (256 * r + d) by {
      assert q == p * k + r;
      assert 256 * q == 256 * (p * k) + 256 * r;
      assert 256 * (p * k) == 256 * p * k;
    }
    ModIsUnique(n, 256 * p, k, 256 * r + d);
  }

  /** Writing keeps the low `w` bytes of a number and reading returns them: `put_uint` truncates. */
  lemma {:induction false} ReadsWhatWasWritten(bigEndian: bool, n: nat, w: nat)
    ensures UintOf(bigEndian, UintBytes(bigEndian, n, w)) == n % Pow256(w)
  {
    if w > 0 {
      ReadsWhatWasWritten(bigEndian, n / 256, w - 1);
      ModSplit(n, w);
      var s := UintBytes(bigEndian, n, w);
      if bigEndian {
        assert s[..w - 1] == BigEndian(n / 256, w - 1);
      } else {
        assert s[1..] == LittleEndian(n / 256, w - 1);
      }
    }
  }

  lemma ReadsBack(bigEndian: bool, n: nat, w: nat)
    requires n < Pow256(w)
    ensures UintOf(bigEndian, UintBytes(bigEndian, n, w)) == n
  {
    ReadsWhatWasWritten(bigEndian, n, w);
    ModIsUnique(n, Pow256(w), 0, n);
  }

  /** Every field of `w` bytes is the encoding of the number it reads as. */
  lemma {:induction false} WritesWhatWasRead(bigEndian: bool, s: seq<byte>)
    ensures UintBytes(bigEndian, UintOf(bigEndian, s), |s|) == s
    ensures UintOf(bigEndian, s) < Pow256(|s|)
  {
    if s != [] {
      if bigEndian {
        WritesWhatWasRead(true, s[..|s| - 1]);
        assert s == s[..|s| - 1] + [s[|s| - 1]];
      } else {
        WritesWhatWasRead(false, s[1..]);
        assert s == [s[0]] + s[1..];
      }
    }
  }

  // ---------------------------------------------------------------- signed integers

  lemma Pow256Values()
    ensures Pow256(4) == 0x1_0000_0000 && Pow256(8) == 0x1_0000_0000_0000_0000
  {
    assert Pow256(2) == 0x1_0000;
    assert Pow256(4) == 0x1_0000 * Pow256(2);
    assert Pow256(6) == 0x1_0000 * Pow256(4);
    assert Pow256(8) == 0x1_0000 * Pow256(6);
  }

  /** A Rust `as i32` cast of an integer: reduction modulo 2^32 into the signed range. */
  function AsI32(n: int): (r: i32)
    ensures -0x8000_0000 <= n < 0x8000_0000 <==> r == n
    ensures 0 <= n ==> r <= n
    ensures 0x8000_0000 <= n < 0x1_0000_0000 ==> r == n - 0x1_0000_0000
  {
    var m := n % 0x1_0000_0000;
    if m >= 0x8000_0000 then m - 0x1_0000_0000 else m
  }

  function I32Bytes(x: i32): (s: seq<byte>)
    ensures |s| == 4
  {
    BigEndian(if x < 0 then x + 0x1_0000_0000 else x, 4)
  }

  function I64Bytes(x: i64): (s: seq<byte>)
    ensures |s| == 8
  {
    BigEndian(if x < 0 then x + 0x1_0000_0000_0000_0000 else x, 8)
  }

  function I32Of(s: seq<byte>): i32
    requires |s| == 4
  {
    AsI32(FromBigEndian(s))
  }

  function I64Of(s: seq<byte>): i64
    requires |s| == 8
  {
    WritesWhatWasRead(true, s);
    Pow256Values();
    var u := FromBigEndian(s);
    if u >= 0x8000_0000_0000_0000 then u - 0x1_0000_0000_0000_0000 else u
  }

  lemma I32RoundTrip(x: i32)
    ensures I32Of(I32Bytes(x)) == x
  {
    Pow256Values();
    ReadsBack(true, if x < 0 then x + 0x1_0000_0000 else x, 4);
  }

  lemma I32Exact(s: seq<byte>)
    requires |s| == 4
    ensures I32Bytes(I32Of(s)) == s
  {
    WritesWhatWasRead(true, s);
    Pow256Values();
  }

  lemma I64RoundTrip(x: i64)
    ensures I64Of(I64Bytes(x)) == x
  {
    Pow256Values();
    ReadsBack(true, if x < 0 then x + 0x1_0000_0000_0000_0000 else x, 8);
  }

  lemma I64Exact(s: seq<byte>)
    requires |s| == 8
    ensures I64Bytes(I64Of(s)) == s
  {
    WritesWhatWasRead(true, s);
    Pow256Values();
  }

  /** The bytes of a big-endian field are the number's base-256 digits, most significant first. */
  lemma {:induction false} BigEndianDigit(n: nat, w: nat, i: nat)
    requires i < w
    ensures BigEndian(n, w)[i] == n / Pow256(w - 1 - i) % 256
  {
    if i < w - 1 {
      BigEndianDigit(n / 256, w - 1, i);
      DivTwice(n, Pow256(w - 2 - i));
    }
  }

  /** Least significant first, for a little-endian field. */
  lemma {:induction false} LittleEndianDigit(n: nat, w: nat, i: nat)
    requires i < w
    ensures LittleEndian(n, w)[i] == n / Pow256(i) % 256
  {
    if i > 0 {
      LittleEndianDigit(n / 256, w - 1, i - 1);
      DivTwice(n, Pow256(i - 1));
    }
  }

  lemma DivTwice(n: nat, p: nat)
    requires p > 0
    ensures n / 256 / p == n / (256 * p)
  {
    var q := n / 256;
    var k, r := q / p, q % p;
    var low := 256 * r + n % 256;
    assert n == 256 * p * k + low by {
      assert n == 256 * q + n % 256;
      assert q == p * k + r;
      assert 256 * (p * k) == 256 * p * k;
    }
    DivIsUnique(n, 256 * p, k, low);
  }

  lemma DivIsUnique(n: nat, m: nat, k: nat, r: nat)
    requires r < m && n == m * k + r
    ensures n / m == k
  {
    ModIsUnique(n, m, k, r);
    ZeroProduct(m, n / m - k);
  }

  lemma ZeroProduct(m: nat, k: int)
    requires m > 0 && m * k == 0
    ensures k == 0
  {
  }

  /** The four bytes of an `i32` on the wire: two's complement, most significant byte first. */
  lemma I32OnTheWire(x: i32)
    ensures var n: nat := if x < 0 then x + 0x1_0000_0000 else x;
            I32Bytes(x) == [n / 0x100_0000 % 256, n / 0x1_0000 % 256, n / 0x100 % 256, n % 256]
  {
    var n: nat := if x < 0 then x + 0x1_0000_0000 else x;
    BigEndianDigit(n, 4, 0);
    BigEndianDigit(n, 4, 1);
    BigEndianDigit(n, 4, 2);
    BigEndianDigit(n, 4, 3);
    SmallPowers();
    hide BigEndian, Pow256;
  }

  lemma SmallPowers()
    ensures Pow256(0) == 1 && Pow256(1) == 0x100 && Pow256(2) == 0x1_0000 && Pow256(3) == 0x100_0000
  {
    assert Pow256(1) == 256 * Pow256(0);
    assert Pow256(2) == 256 * Pow256(1);
    assert Pow256(3) == 256 * Pow256(2);
  }

  /** The eight bytes of an `i64` on the wire, likewise. */
  lemma I64OnTheWire(x: i64, i: nat)
    requires i < 8
    ensures I64Bytes(x)[i] == (if x < 0 then x + 0x1_0000_0000_0000_0000 else x) / Pow256(7 - i) % 256
  {
    BigEndianDigit(if x < 0 then x + 0x1_0000_0000_0000_0000 else x, 8, i);
  }

  // ---------------------------------------------------------------- readers

  /** `get_u8`, `get_i32`, `get_i64` and `copy_to_slice` panic when the buffer is short. */
  function ParseU8(b: seq<byte>): (r: Parsed<byte>)
    ensures r.Ok? ==> b == [r.value.0] + r.value.1
  {
    if |b| < 1 then Panic else Ok((b[0], b[1..]))
  }

  function ParseI32(b: seq<byte>): (r: Parsed<i32>)
    ensures r.Ok? ==> b == I32Bytes(r.value.0) + r.value.1
  {
    if |b| < 4 then Panic
    else
      I32Exact(b[..4]);
      Ok((I32Of(b[..4]), b[4..]))
  }

  function ParseI64(b: seq<byte>): (r: Parsed<i64>)
    ensures r.Ok? ==> b == I64Bytes(r.value.0) + r.value.1
  {
    if |b| < 8 then Panic
    else
      I64Exact(b[..8]);
      Ok((I64Of(b[..8]), b[8..]))
  }

  function ParseSlice(n: nat, b: seq<byte>): (r: Parsed<seq<byte>>)
    ensures r.Ok? ==> b == r.value.0 + r.value.1
  {
    if |b| < n then Panic else Ok((b[..n], b[n..]))
  }

  /** A read past the end panics. */
  lemma ShortReadsPanic(n: nat, b: seq<byte>)
    ensures |b| < 1 ==> ParseU8(b) == Panic
    ensures |b| < 4 ==> ParseI32(b) == Panic
    ensures |b| < 8 ==> ParseI64(b) == Panic
    ensures |b| < n ==> ParseSlice(n, b) == Panic
  {
  }

  lemma ParseI32Inverts(x: i32, rest: seq<byte>)
    ensures ParseI32(I32Bytes(x) + rest) == Ok((x, rest))
  {
    var b := I32Bytes(x) + rest;
    assert b[..4] == I32Bytes(x) && b[4..] == rest;
    I32RoundTrip(x);
  }

  lemma ParseI64Inverts(x: i64, rest: seq<byte>)
    ensures ParseI64(I64Bytes(x) + rest) == Ok((x, rest))
  {
    var b := I64Bytes(x) + rest;
    assert b[..8] == I64Bytes(x) && b[8..] == rest;
    I64RoundTrip(x);
  }

  // ---------------------------------------------------------------- the buffer

  /** A reader ran in place: `r` is its verdict and, on success, `left` is what it left unread. */
  ghost predicate ReadInPlace<T>(spec: Parsed<T>, r: Outcome<T, ZkError>, left: seq<byte>) {
    match spec
    case Ok(v) => r == Ok(v.0) && left == v.1
    case Err(e) => r == Err(e)
    case Panic => r == Panic
  }

  /** `BytesMut`: bytes are appended at the back and consumed from the front. */
  class BytesMut {
    var data: seq<byte>

    constructor (data: seq<byte>)
      ensures this.data == data
    {
      this.data := data;
    }

    method PutU8(x: byte)
      modifies this
      ensures data == old(data) + [x]
    {
      data := data + [x];
    }

    method PutI32(x: i32)
      modifies this
      ensures data == old(data) + I32Bytes(x)
    {
      data := data + I32Bytes(x);
    }

    method PutI64(x: i64)
      modifies this
      ensures data == old(data) + I64Bytes(x)
    {
      data := data + I64Bytes(x);
    }

    method PutUint(bigEndian: bool, n: nat, w: nat)
      modifies this
      ensures data == old(data) + UintBytes(bigEndian, n, w)
    {
      data := data + UintBytes(bigEndian, n, w);
    }

    method PutSlice(s: seq<byte>)
      modifies this
      ensures data == old(data) + s
    {
      data := data + s;
    }

    /** Drops `n` bytes from the front; the crate panics past the end, so callers must stay inside. */
    method Advance(n: nat)
      requires n <= |data|
      modifies this
      ensures data == old(data)[n..]
    {
      data := data[n..];
    }

    method SplitTo(n: nat) returns (front: seq<byte>)
      requires n <= |data|
      modifies this
      ensures front == old(data)[..n] && data == old(data)[n..]
    {
      front := data[..n];
      data := data[n..];
    }

    /** Runs a reader on the contents and keeps what it left. */
    method Take<T>(reader: seq<byte> -> Parsed<T>) returns (r: Outcome<T, ZkError>)
      modifies this
      ensures ReadInPlace(reader(old(data)), r, data)
    {
      var read :- reader(data);
      data := read.1;
      return Ok(read.0);
    }
  }
}

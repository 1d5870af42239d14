/**
 * Little-endian integers, readers that consume a prefix of their input, and
 * counted lists of records; the ground both wire codecs stand on.
 */
module Bytes {
  import opened Prelude

  type Byte = x: int | 0 <= x < 256
  type U16 = x: int | 0 <= x < 0x1_0000
  type U32 = x: int | 0 <= x < 0x1_0000_0000
  type U64 = x: int | 0 <= x < 0x1_0000_0000_0000_0000
  type I32 = x: int | -0x8000_0000 <= x < 0x8000_0000
  type I64 = x: int | -0x8000_0000_0000_0000 <= x < 0x8000_0000_0000_0000

  /** A 16-byte identifier. */
  type Id = s: seq<Byte> | |s| == 16 witness [0, 0, 0, 0, 0, 0, 0, 0, 0, 0, 0, 0, 0, 0, 0, 0]

  /** The largest count a 16-bit length can tell. */
  const Limit := 0xFFFF

  /** Panic stands for Go's run-time error on an index out of range. */
  datatype Error =
    | PayloadShort | BufferTooLarge | InvalidSpan | StyleIndexOutOfRange | StringTooLong
    | InvalidMagic | UnsupportedVersion | PayloadTooLarge | ShortPayload | ChecksumMismatch
    | EndOfStream | UnexpectedEndOfStream | Panic

  datatype Result<+T> = Ok(value: T) | Err(error: Error)

  /** A value read from the front of the input, and what follows it. */
  datatype Read<+T> = Got(value: T, rest: seq<Byte>) | Bad(error: Error)

  // ---------------------------------------------------------------- integers

  function Put16(v: U16): seq<Byte> {
    [v % 256, v / 256]
  }

  function Put32(v: U32): seq<Byte> {
    Put16(v % 0x1_0000) + Put16(v / 0x1_0000)
  }

  function Put64(v: U64): seq<Byte> {
    Put32(v % 0x1_0000_0000) + Put32(v / 0x1_0000_0000)
  }

  function Get16(b: seq<Byte>, k: nat): U16
    requires k + 2 <= |b|
  {
    b[k] as int + 256 * b[k + 1] as int
  }

  function Get32(b: seq<Byte>, k: nat): U32
    requires k + 4 <= |b|
  {
    Get16(b, k) as int + 0x1_0000 * Get16(b, k + 2) as int
  }

  function Get64(b: seq<Byte>, k: nat): U64
    requires k + 8 <= |b|
  {
    Get32(b, k) as int + 0x1_0000_0000 * Get32(b, k + 4) as int
  }

  /** Conversions between signed integers and the unsigned ones of equal width. */
  function FromI32(x: I32): U32 { if x < 0 then x + 0x1_0000_0000 else x }
  function ToI32(u: U32): I32 { if u >= 0x8000_0000 then u - 0x1_0000_0000 else u }
  function FromI64(x: I64): U64 { if x < 0 then x + 0x1_0000_0000_0000_0000 else x }
  function ToI64(u: U64): I64 { if u >= 0x8000_0000_0000_0000 then u - 0x1_0000_0000_0000_0000 else u }

  lemma {:induction false} Len16(v: U16)
    ensures |Put16(v)| == 2
  {
  }

  lemma {:induction false} Len32(v: U32)
    ensures |Put32(v)| == 4
  {
  }

  lemma {:induction false} Len64(v: U64)
    ensures |Put64(v)| == 8
  {
  }

  lemma {:induction false} Read16(v: U16, a: seq<Byte>, c: seq<Byte>)
    ensures Get16(a + Put16(v) + c, |a|) == v
  {
  }

  lemma {:induction false} Read32(v: U32, a: seq<Byte>, c: seq<Byte>)
    ensures Get32(a + Put32(v) + c, |a|) == v
  {
    var lo, hi := v % 0x1_0000, v / 0x1_0000;
    assert a + Put32(v) + c == a + Put16(lo) + (Put16(hi) + c);
    assert a + Put32(v) + c == (a + Put16(lo)) + Put16(hi) + c;
    Read16(lo, a, Put16(hi) + c);
    Read16(hi, a + Put16(lo), c);
  }

  lemma {:induction false} Read64(v: U64, a: seq<Byte>, c: seq<Byte>)
    ensures Get64(a + Put64(v) + c, |a|) == v
  {
    var lo, hi := v % 0x1_0000_0000, v / 0x1_0000_0000;
    assert a + Put64(v) + c == a + Put32(lo) + (Put32(hi) + c);
    assert a + Put64(v) + c == (a + Put32(lo)) + Put32(hi) + c;
    Read32(lo, a, Put32(hi) + c);
    Read32(hi, a + Put32(lo), c);
  }

  lemma {:induction false} Write16(b: seq<Byte>, k: nat)
    requires k + 2 <= |b|
    ensures Put16(Get16(b, k)) == b[k..k + 2]
  {
  }

  lemma {:induction false} Write32(b: seq<Byte>, k: nat)
    requires k + 4 <= |b|
    ensures Put32(Get32(b, k)) == b[k..k + 4]
  {
    Write16(b, k);
    Write16(b, k + 2);
    assert b[k..k + 4] == b[k..k + 2] + b[k + 2..k + 4];
  }

  lemma {:induction false} Write64(b: seq<Byte>, k: nat)
    requires k + 8 <= |b|
    ensures Put64(Get64(b, k)) == b[k..k + 8]
  {
    hide Get32, Put32;
    Write32(b, k);
    Write32(b, k + 4);
    assert b[k..k + 8] == b[k..k + 4] + b[k + 4..k + 8];
  }

  // ------------------------------------------------------------------- lists

  /** Read n records one after the other. */
  function Many<T>(read: seq<Byte> -> Read<T>, n: nat, b: seq<Byte>): Read<seq<T>> {
    if n == 0 then Got([], b)
    else match read(b)
      case Bad(e) => Bad(e)
      case Got(x, r) => After([x], Many(read, n - 1, r))
  }

  /** Records already read, then the outcome of reading the others. */
  function After<T>(xs: seq<T>, r: Read<seq<T>>): Read<seq<T>> {
    match r
    case Bad(e) => Bad(e)
    case Got(ys, rest) => Got(xs + ys, rest)
  }

  function Concat<T>(write: T -> seq<Byte>, xs: seq<T>): seq<Byte> {
    if xs == [] then [] else write(xs[0]) + Concat(write, xs[1..])
  }

  /** The first error among the records, in order. */
  function FirstError<T>(check: T -> Option<Error>, xs: seq<T>): Option<Error> {
    if xs == [] then None
    else match check(xs[0])
      case Some(e) => Some(e)
      case None => FirstError(check, xs[1..])
  }

  /** Reading undoes writing for the values `ok` accepts, with anything behind them. */
  ghost predicate ReadsBack<T(!new)>(read: seq<Byte> -> Read<T>, write: T -> seq<Byte>, ok: T -> bool) {
    forall x, rest | ok(x) :: read(write(x) + rest) == Got(x, rest)
  }

  /** Writing what was read gives the bytes consumed, and only accepted values are read. */
  ghost predicate WritesBack<T>(read: seq<Byte> -> Read<T>, write: T -> seq<Byte>, ok: T -> bool) {
    forall b | read(b).Got? :: ok(read(b).value) && b == write(read(b).value) + read(b).rest
  }

  lemma {:induction false} ManyReadsBack<T(!new)>(read: seq<Byte> -> Read<T>, write: T -> seq<Byte>, ok: T -> bool,
                                                 xs: seq<T>, rest: seq<Byte>)
    requires ReadsBack(read, write, ok) && forall i :: 0 <= i < |xs| ==> ok(xs[i])
    ensures Many(read, |xs|, Concat(write, xs) + rest) == Got(xs, rest)
  {
    if xs != [] {
      var r := Concat(write, xs[1..]) + rest;
      assert Concat(write, xs) + rest == write(xs[0]) + r;
      assert ok(xs[0]) && read(write(xs[0]) + r) == Got(xs[0], r);
      ManyReadsBack(read, write, ok, xs[1..], rest);
      assert [xs[0]] + xs[1..] == xs;
    }
  }

  lemma {:induction false} ManyWritesBack<T>(read: seq<Byte> -> Read<T>, write: T -> seq<Byte>, ok: T -> bool,
                                             n: nat, b: seq<Byte>)
    requires WritesBack(read, write, ok) && Many(read, n, b).Got?
    ensures var m := Many(read, n, b);
      && |m.value| == n && b == Concat(write, m.value) + m.rest
      && forall i :: 0 <= i < n ==> ok(m.value[i])
  {
    if n > 0 {
      var x := read(b);
      assert ok(x.value) && b == write(x.value) + x.rest;
      ManyWritesBack(read, write, ok, n - 1, x.rest);
      var m := Many(read, n, b);
      assert m.value[1..] == Many(read, n - 1, x.rest).value;
    }
  }

  lemma {:induction false} ConcatNone<T>(write: T -> seq<Byte>)
    ensures Concat(write, []) == []
  {
  }

  lemma {:induction false} ConcatNext<T>(write: T -> seq<Byte>, xs: seq<T>, i: nat)
    requires i < |xs|
    ensures Concat(write, xs[..i + 1]) == Concat(write, xs[..i]) + write(xs[i])
  {
    if i == 0 {
      assert xs[..1][1..] == [] && xs[..0] == [];
    } else {
      assert xs[..i + 1][1..] == xs[1..][..i] && xs[..i][1..] == xs[1..][..i - 1];
      ConcatNext(write, xs[1..], i - 1);
    }
  }

  lemma {:induction false} FirstErrorNone<T>(check: T -> Option<Error>, xs: seq<T>)
    ensures FirstError(check, xs) == None <==> forall i :: 0 <= i < |xs| ==> check(xs[i]) == None
  {
    if xs != [] {
      FirstErrorNone(check, xs[1..]);
      assert forall i :: 1 <= i < |xs| ==> xs[i] == xs[1..][i - 1];
    }
  }

  lemma {:induction false} FirstErrorOf<T>(check: T -> Option<Error>, xs: seq<T>) returns (i: nat)
    requires FirstError(check, xs).Some?
    ensures i < |xs| && check(xs[i]) == FirstError(check, xs)
  {
    i := 0;
    if check(xs[0]) == None {
      i := FirstErrorOf(check, xs[1..]);
      i := i + 1;
    }
  }

  lemma {:induction false} FirstErrorAt<T>(check: T -> Option<Error>, xs: seq<T>, i: nat)
    requires i < |xs| && check(xs[i]).Some? && forall j :: 0 <= j < i ==> check(xs[j]) == None
    ensures FirstError(check, xs) == check(xs[i])
  {
    if i > 0 {
      assert forall j :: 0 <= j < i - 1 ==> xs[1..][j] == xs[j + 1];
      FirstErrorAt(check, xs[1..], i - 1);
    }
  }

  /** One step of a reading loop: i records are read into xs, n - i are to come. */
  lemma {:induction false} ManyNext<T>(read: seq<Byte> -> Read<T>, xs: seq<T>, k: nat, b: seq<Byte>)
    requires k > 0
    ensures match read(b)
      case Bad(e) => After(xs, Many(read, k, b)) == Bad(e)
      case Got(x, r) => After(xs, Many(read, k, b)) == After(xs + [x], Many(read, k - 1, r))
  {
    match read(b)
    case Bad(_) =>
    case Got(x, r) =>
      match Many(read, k - 1, r)
      case Bad(_) =>
      case Got(ys, _) => assert xs + ([x] + ys) == (xs + [x]) + ys;
  }

  lemma {:induction false} ManyStart<T>(read: seq<Byte> -> Read<T>, n: nat, b: seq<Byte>)
    ensures After([], Many(read, n, b)) == Many(read, n, b)
  {
    if Many(read, n, b).Got? { assert [] + Many(read, n, b).value == Many(read, n, b).value; }
  }

  lemma {:induction false} ManyDone<T>(read: seq<Byte> -> Read<T>, xs: seq<T>, b: seq<Byte>)
    ensures After(xs, Many(read, 0, b)) == Got(xs, b)
  {
    assert xs + [] == xs;
  }

  /**
   * Reading undoes writing for the values `ok` accepts when the value and the
   * number of bytes behind it `fits`, and reports a short payload otherwise.
   */
  ghost predicate ReadsWhen<T(!new)>(read: seq<Byte> -> Read<T>, write: T -> seq<Byte>, ok: T -> bool,
                                     fits: (T, nat) -> bool) {
    forall x, rest | ok(x) :: read(write(x) + rest) == if fits(x, |rest|) then Got(x, rest) else Bad(PayloadShort)
  }

  /** Every record of a list fits the bytes behind it, the last one with `after` bytes. */
  predicate AllFit<T>(write: T -> seq<Byte>, fits: (T, nat) -> bool, xs: seq<T>, after: nat) {
    xs == [] || (fits(xs[0], |Concat(write, xs[1..])| + after) && AllFit(write, fits, xs[1..], after))
  }

  lemma {:induction false} ManyReadsWhen<T(!new)>(read: seq<Byte> -> Read<T>, write: T -> seq<Byte>, ok: T -> bool,
                                                 fits: (T, nat) -> bool, xs: seq<T>, rest: seq<Byte>)
    requires ReadsWhen(read, write, ok, fits) && forall i :: 0 <= i < |xs| ==> ok(xs[i])
    ensures Many(read, |xs|, Concat(write, xs) + rest) ==
            if AllFit(write, fits, xs, |rest|) then Got(xs, rest) else Bad(PayloadShort)
  {
    if xs != [] {
      var r := Concat(write, xs[1..]) + rest;
      assert Concat(write, xs) + rest == write(xs[0]) + r;
      assert ok(xs[0]);
      assert read(write(xs[0]) + r) == if fits(xs[0], |r|) then Got(xs[0], r) else Bad(PayloadShort);
      ManyReadsWhen(read, write, ok, fits, xs[1..], rest);
      assert [xs[0]] + xs[1..] == xs;
    }
  }

  lemma {:induction false} Join(b: seq<Byte>, i: nat, j: nat, k: nat)
    requires i <= j <= k <= |b|
    ensures b[i..j] + b[j..k] == b[i..k]
  {
  }
}

/**
  Bytes as bounded integers: little-endian integers, length-prefixed frames, and
  the notion of a uniquely decodable encoder on which every codec here rests.
*/
module Bytes {
  import opened Prelude

  type byte = x: int | 0 <= x < 256
  type Bytes = seq<byte>
  type Bytes32 = b: Bytes | |b| == 32 witness seq(32, _ => 0)
  type u64 = x: int | 0 <= x < 0x1_0000_0000_0000_0000

  /** A 32-byte hash; every theorem holds for each such function. */
  type Hash = Bytes -> Bytes32

  const U32: nat := 0x1_0000_0000
  const U64: nat := 0x1_0000_0000_0000_0000

  /** No two different members of `inputs` hash alike: an assumption about the byte
      strings a run actually hashes, never about all byte strings. */
  ghost predicate CollisionFree(hash: Hash, inputs: set<Bytes>) {
    forall a, b :: a in inputs && b in inputs && hash(a) == hash(b) ==> a == b
  }

  // ------------------------------------------------------------------ integers

  function Pow256(k: nat): (p: nat)
    ensures p > 0
  {
    if k == 0 then 1 else 256 * Pow256(k - 1)
  }

  /** The `width` low-order bytes of `n`, least significant first. Taking only the
      low bytes is the `as u32` and `as u16` truncation of the program. */
  function LittleEndian(n: nat, width: nat): (b: Bytes)
    ensures |b| == width
  {
    if width == 0 then [] else [n % 256] + LittleEndian(n / 256, width - 1)
  }

  function FromLittleEndian(b: Bytes): nat {
    if b == [] then 0 else b[0] + 256 * FromLittleEndian(b[1..])
  }

  lemma NonzeroMultipleIsFar(d: int, k: int)
    requires d >= 0 && k != 0
    ensures d * k >= d || d * k <= -d
  {
    if k >= 1 {
      assert d * (k - 1) >= 0;
    } else {
      assert d * (-k - 1) >= 0;
    }
  }

  lemma ModUnique(n: nat, d: nat, q: nat, r: nat)
    requires n == d * q + r && r < d
    ensures n % d == r && n / d == q
  {
    assert d * (n / d - q) == r - n % d;
    if n / d != q {
      NonzeroMultipleIsFar(d, n / d - q);
    }
  }

  lemma ModScale(n: nat, p: nat)
    requires p > 0
    ensures n % (256 * p) == n % 256 + 256 * (n / 256 % p)
  {
    var m := n / 256;
    var q, r := m / p, m % p;
    assert m == p * q + r;
    assert 256 * m == 256 * p * q + 256 * r;
    ModUnique(n, 256 * p, q, 256 * r + n % 256);
  }

  /** Reading back a written integer yields it modulo the width. */
  lemma {:induction false} LittleEndianRead(n: nat, width: nat)
    ensures FromLittleEndian(LittleEndian(n, width)) == n % Pow256(width)
  {
    if width != 0 {
      var b := LittleEndian(n, width);
      assert b[1..] == LittleEndian(n / 256, width - 1);
      LittleEndianRead(n / 256, width - 1);
      var p := Pow256(width - 1);
      ModScale(n, p);
    }
  }

  /** Writing back a read integer yields the very same bytes. */
  lemma {:induction false} LittleEndianWrite(b: Bytes)
    ensures LittleEndian(FromLittleEndian(b), |b|) == b
    ensures FromLittleEndian(b) < Pow256(|b|)
  {
    if b != [] {
      LittleEndianWrite(b[1..]);
      ModUnique(FromLittleEndian(b), 256, FromLittleEndian(b[1..]), b[0]);
      assert b == [b[0]] + b[1..];
    }
  }

  lemma Pow256Next(k: nat)
    ensures Pow256(k + 1) == 256 * Pow256(k)
  {
  }

  lemma DivTwice(n: nat, p: nat)
    requires p > 0
    ensures n / 256 / p == n / (256 * p)
  {
    var q, r := n / 256 / p, n / 256 % p;
    assert n / 256 == p * q + r;
    assert n == 256 * p * q + (256 * r + n % 256);
    ModUnique(n, 256 * p, q, 256 * r + n % 256);
  }

  /** Byte k of a written integer is its k-th digit in base 256, least significant first. */
  lemma {:induction false} LittleEndianAt(n: nat, width: nat, k: nat)
    requires k < width
    ensures LittleEndian(n, width)[k] == n / Pow256(k) % 256
  {
    if k > 0 {
      LittleEndianAt(n / 256, width - 1, k - 1);
      DivTwice(n, Pow256(k - 1));
    }
  }

  lemma Pow256Values()
    ensures Pow256(2) == 0x1_0000 && Pow256(4) == U32
    ensures Pow256(7) == 0x100_0000_0000_0000 && Pow256(8) == U64
  {
    assert Pow256(2) == 256 * Pow256(1) && Pow256(1) == 256;
    assert Pow256(4) == 256 * Pow256(3) && Pow256(3) == 256 * Pow256(2);
    assert Pow256(6) == 256 * Pow256(5) && Pow256(5) == 256 * Pow256(4);
    assert Pow256(8) == 256 * Pow256(7) && Pow256(7) == 256 * Pow256(6);
  }

  lemma LittleEndianInjective(m: nat, n: nat, width: nat)
    requires m < Pow256(width) && n < Pow256(width)
    requires LittleEndian(m, width) == LittleEndian(n, width)
    ensures m == n
  {
    LittleEndianRead(m, width);
    LittleEndianRead(n, width);
  }

  /** Equal fixed-width integers followed by anything: values and remainders agree. */
  lemma IntUnique(m: nat, n: nat, width: nat, r: Bytes, s: Bytes)
    requires m < Pow256(width) && n < Pow256(width)
    requires LittleEndian(m, width) + r == LittleEndian(n, width) + s
    ensures m == n && r == s
  {
    SplitEqual(LittleEndian(m, width), LittleEndian(n, width), r, s);
    LittleEndianInjective(m, n, width);
  }

  const I64_LIMIT: nat := 0x8000_0000_0000_0000

  type i64 = x: int | -0x8000_0000_0000_0000 <= x < 0x8000_0000_0000_0000

  /** The program's `as i64`, for SQLite's signed columns. */
  function AsI64(x: u64): i64 {
    if x < I64_LIMIT then x else x - U64
  }

  /** The program's `as u64`, reading such a column back. */
  function AsU64(x: i64): u64 {
    if x >= 0 then x else x + U64
  }

  /** A signed column holds the same 64 bits: the value itself below 2^63, less 2^64 from there on. */
  lemma SignedColumnIs(x: u64)
    ensures x < 0x8000_0000_0000_0000 ==> AsI64(x) == x
    ensures x >= 0x8000_0000_0000_0000 ==> AsI64(x) == x - 0x1_0000_0000_0000_0000
  {
  }

  lemma SignedColumnRoundTrip(x: u64)
    ensures AsU64(AsI64(x)) == x
  {
  }

  // ------------------------------------------------------------------ exclusive or

  function XorBits(a: nat, b: nat, bits: nat): nat {
    if bits == 0 then 0 else (a % 2 + b % 2) % 2 + 2 * XorBits(a / 2, b / 2, bits - 1)
  }

  function Pow2(k: nat): nat {
    if k == 0 then 1 else 2 * Pow2(k - 1)
  }

  lemma LowBit(d: nat, r: nat)
    requires d < 2
    ensures (d + 2 * r) % 2 == d && (d + 2 * r) / 2 == r
  {
    ModUnique(d + 2 * r, 2, r, d);
  }

  lemma ParityCancels(a: nat, b: nat)
    ensures ((a % 2 + b % 2) % 2 + b % 2) % 2 == a % 2
  {
  }

  lemma {:induction false} XorBitsCancel(a: nat, b: nat, bits: nat)
    requires a < Pow2(bits)
    ensures XorBits(a, b, bits) < Pow2(bits)
    ensures XorBits(XorBits(a, b, bits), b, bits) == a
  {
    if bits != 0 {
      var d, rest := (a % 2 + b % 2) % 2, XorBits(a / 2, b / 2, bits - 1);
      XorBitsCancel(a / 2, b / 2, bits - 1);
      LowBit(d, rest);
      ParityCancels(a, b);
      var x := XorBits(a, b, bits);
      assert x == d + 2 * rest;
      assert XorBits(x, b, bits) == (x % 2 + b % 2) % 2 + 2 * XorBits(x / 2, b / 2, bits - 1);
    }
  }

  lemma {:induction false} XorBitsCommute(a: nat, b: nat, bits: nat)
    ensures XorBits(a, b, bits) == XorBits(b, a, bits)
  {
    if bits != 0 {
      XorBitsCommute(a / 2, b / 2, bits - 1);
    }
  }

  lemma Pow2Positive(k: nat)
    ensures Pow2(k) > 0
  {
    if k > 0 {
      Pow2Positive(k - 1);
    }
  }

  lemma HalveTwice(n: nat, p: nat)
    requires p > 0
    ensures n / 2 / p == n / (2 * p)
  {
    var q, r := n / 2 / p, n / 2 % p;
    assert n / 2 == p * q + r;
    assert n == 2 * p * q + (2 * r + n % 2);
    ModUnique(n, 2 * p, q, 2 * r + n % 2);
  }

  /** Bit k of a number, counted from the lowest. */
  function Bit(n: nat, k: nat): nat {
    if k == 0 then n % 2 else Bit(n / 2, k - 1)
  }

  lemma {:induction false} BitIs(n: nat, k: nat)
    ensures Pow2(k) > 0 && Bit(n, k) == n / Pow2(k) % 2
  {
    Pow2Positive(k);
    if k > 0 {
      BitIs(n / 2, k - 1);
      HalveTwice(n, Pow2(k - 1));
    }
  }

  lemma {:induction false} XorBit(a: nat, b: nat, bits: nat, k: nat)
    requires k < bits
    ensures Bit(XorBits(a, b, bits), k) == if Bit(a, k) == Bit(b, k) then 0 else 1
  {
    LowBit((a % 2 + b % 2) % 2, XorBits(a / 2, b / 2, bits - 1));
    if k > 0 {
      XorBit(a / 2, b / 2, bits - 1, k - 1);
    }
  }

  /** Bit k of an exclusive or is set exactly when the two bits differ. */
  lemma XorBitAt(a: nat, b: nat, bits: nat, k: nat)
    requires k < bits
    ensures Pow2(k) > 0
    ensures XorBits(a, b, bits) / Pow2(k) % 2 == if a / Pow2(k) % 2 == b / Pow2(k) % 2 then 0 else 1
  {
    XorBit(a, b, bits, k);
    BitIs(a, k);
    BitIs(b, k);
    BitIs(XorBits(a, b, bits), k);
  }

  lemma Pow2Eight()
    ensures Pow2(8) == 256
  {
    assert Pow2(8) == 16 * Pow2(4) by {
      assert Pow2(8) == 2 * Pow2(7) && Pow2(7) == 2 * Pow2(6) && Pow2(6) == 2 * Pow2(5);
    }
    assert Pow2(4) == 2 * Pow2(3) && Pow2(3) == 2 * Pow2(2) && Pow2(2) == 2 * Pow2(1);
  }

  /** Bitwise exclusive or of two bytes; applying it twice cancels. */
  function Xor(a: byte, b: byte): (c: byte)
    ensures XorBits(c, b, 8) == a
  {
    Pow2Eight();
    XorBitsCancel(a, b, 8);
    XorBits(a, b, 8)
  }

  /** The byte that turns `a` into `b`. */
  lemma XorBetween(a: byte, b: byte)
    ensures Xor(a, Xor(b, a)) == b
  {
    XorBitsCommute(a, Xor(b, a), 8);
    Pow2Eight();
    XorBitsCancel(b, a, 8);
  }

  function XorAll(a: Bytes, b: Bytes): (c: Bytes)
    requires |a| <= |b|
    ensures |c| == |a|
  {
    seq(|a|, i requires 0 <= i < |a| => Xor(a[i], b[i]))
  }

  // ------------------------------------------------------------------ encoders

  /** The encodings of `ok` values are never ambiguous, whatever follows them: the
      encoder is injective and no encoding is a proper prefix of another. */
  ghost predicate PrefixUnique<T(!new)>(enc: T -> Bytes, ok: T -> bool) {
    forall x, y, r: Bytes, s: Bytes {:trigger enc(x) + r, enc(y) + s} ::
      ok(x) && ok(y) && enc(x) + r == enc(y) + s ==> x == y && r == s
  }

  function EncodeAll<T>(enc: T -> Bytes, xs: seq<T>): Bytes {
    if xs == [] then [] else enc(xs[0]) + EncodeAll(enc, xs[1..])
  }

  lemma {:induction false} EncodeAllAppend<T>(enc: T -> Bytes, xs: seq<T>, x: T)
    ensures EncodeAll(enc, xs + [x]) == EncodeAll(enc, xs) + enc(x)
  {
    if xs == [] {
      assert EncodeAll(enc, [x]) == enc(x) + EncodeAll(enc, []);
      assert [] + [x] == [x];
    } else {
      assert (xs + [x])[1..] == xs[1..] + [x];
      EncodeAllAppend(enc, xs[1..], x);
    }
  }

  /** One turn of a loop that appends element after element to `head`. */
  lemma EncodeStep<T>(enc: T -> Bytes, head: Bytes, xs: seq<T>, i: nat)
    requires i < |xs|
    ensures head + EncodeAll(enc, xs[..i + 1]) == (head + EncodeAll(enc, xs[..i])) + enc(xs[i])
  {
    assert xs[..i + 1] == xs[..i] + [xs[i]];
    EncodeAllAppend(enc, xs[..i], xs[i]);
    Assoc(head, EncodeAll(enc, xs[..i]), enc(xs[i]));
  }

  lemma {:induction false} EncodeAllUnique<T(!new)>(
      enc: T -> Bytes, ok: T -> bool, xs: seq<T>, ys: seq<T>, r: Bytes, s: Bytes)
    requires PrefixUnique(enc, ok)
    requires |xs| == |ys| && (forall x :: x in xs ==> ok(x)) && (forall y :: y in ys ==> ok(y))
    requires EncodeAll(enc, xs) + r == EncodeAll(enc, ys) + s
    ensures xs == ys && r == s
  {
    if xs != [] {
      var x, y, xt, yt := enc(xs[0]), enc(ys[0]), EncodeAll(enc, xs[1..]), EncodeAll(enc, ys[1..]);
      Assoc(x, xt, r);
      Assoc(y, yt, s);
      assert x + (xt + r) == y + (yt + s);
      assert ok(xs[0]) && ok(ys[0]);
      EncodeAllUnique(enc, ok, xs[1..], ys[1..], r, s);
      assert xs == [xs[0]] + xs[1..] && ys == [ys[0]] + ys[1..];
    } else {
      assert [] + r == r && [] + s == s;
    }
  }

  /** A 32-bit element count followed by the elements. */
  function Counted<T>(enc: T -> Bytes, xs: seq<T>): Bytes {
    LittleEndian(|xs|, 4) + EncodeAll(enc, xs)
  }

  lemma CountedUnique<T(!new)>(
      enc: T -> Bytes, ok: T -> bool, xs: seq<T>, ys: seq<T>, r: Bytes, s: Bytes)
    requires PrefixUnique(enc, ok)
    requires |xs| < U32 && |ys| < U32
    requires (forall x :: x in xs ==> ok(x)) && (forall y :: y in ys ==> ok(y))
    requires Counted(enc, xs) + r == Counted(enc, ys) + s
    ensures xs == ys && r == s
  {
    Pow256Values();
    Assoc(LittleEndian(|xs|, 4), EncodeAll(enc, xs), r);
    Assoc(LittleEndian(|ys|, 4), EncodeAll(enc, ys), s);
    IntUnique(|xs|, |ys|, 4, EncodeAll(enc, xs) + r, EncodeAll(enc, ys) + s);
    EncodeAllUnique(enc, ok, xs, ys, r, s);
  }

  /** A byte string behind its 32-bit length. */
  function Frame(x: Bytes): (f: Bytes)
    ensures |f| == 4 + |x|
  {
    LittleEndian(|x|, 4) + x
  }

  lemma FrameUnique(x: Bytes, y: Bytes, r: Bytes, s: Bytes)
    requires |x| < U32 && |y| < U32
    requires Frame(x) + r == Frame(y) + s
    ensures x == y && r == s
  {
    Pow256Values();
    Assoc(LittleEndian(|x|, 4), x, r);
    Assoc(LittleEndian(|y|, 4), y, s);
    IntUnique(|x|, |y|, 4, x + r, y + s);
    SplitEqual(x, y, r, s);
  }

  /** Among fields that fit their length prefix, only `x` frames to these bytes, whatever follows. */
  ghost predicate FrameDetermines(x: Bytes) {
    forall y: Bytes, r: Bytes, s: Bytes {:trigger Frame(x) + r, Frame(y) + s} ::
      |y| < U32 && Frame(x) + r == Frame(y) + s ==> x == y && r == s
  }

  /** No field that fits can be taken for `x` exactly when `x` fits the 32-bit prefix itself. */
  lemma FrameExact(x: Bytes)
    ensures FrameDetermines(x) <==> |x| < U32
  {
    if |x| < U32 {
      forall y: Bytes, r: Bytes, s: Bytes {:trigger Frame(x) + r, Frame(y) + s}
        | |y| < U32 && Frame(x) + r == Frame(y) + s
        ensures x == y && r == s
      {
        FrameUnique(x, y, r, s);
      }
    } else {
      var k := |x| % U32;
      var y, s := x[..k], x[k..];
      Pow256Values();
      LittleEndianRead(|x|, 4);
      LittleEndianWrite(LittleEndian(|x|, 4));
      LittleEndianRead(k, 4);
      LittleEndianWrite(LittleEndian(k, 4));
      assert Frame(x) + [] == Frame(y) + s;
      assert x != y;
    }
  }

  method WriteFrame(out: Bytes, x: Bytes) returns (r: Bytes)
    ensures r == out + Frame(x)
  {
    r := out + LittleEndian(|x|, 4);
    r := r + x;
    Assoc(out, LittleEndian(|x|, 4), x);
  }
}

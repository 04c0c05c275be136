/**
 Bytes, fixed-width big- and little-endian fields, and bitwise exclusive-or,
 all on mathematical integers. Every other module builds on this one.
 */
module Bytes {
  const TWO64 := 0x1_0000_0000_0000_0000

  type byte = x: int | 0 <= x < 256

  datatype Option<+T> = None | Some(value: T)

  /** The bytes of a label. */
  function Ascii(s: string): (b: seq<byte>)
    requires forall i :: 0 <= i < |s| ==> s[i] as int < 128
    ensures |b| == |s|
  {
    seq(|s|, i requires 0 <= i < |s| => s[i] as int)
  }

  function Min(a: int, b: int): int {
    if a <= b then a else b
  }

  function Max(a: int, b: int): int {
    if a <= b then b else a
  }

  // ---------------------------------------------------------------- 16- and 32-bit fields

  /** The big-endian 16-bit field at offset i. */
  function Word(s: seq<byte>, i: nat): (w: nat)
    requires i + 1 < |s|
    ensures w < 0x1_0000
  {
    s[i] as int * 256 + s[i + 1] as int
  }

  /** s with v stored big-endian at offset i. */
  function Put16(s: seq<byte>, i: nat, v: nat): (r: seq<byte>)
    requires i + 1 < |s| && v < 0x1_0000
    ensures |r| == |s| && Word(r, i) == v
    ensures forall k :: 0 <= k < |s| && k != i && k != i + 1 ==> r[k] == s[k]
  {
    s[i := v / 256][i + 1 := v % 256]
  }

  function Word32(s: seq<byte>, i: nat): (w: nat)
    requires i + 3 < |s|
    ensures w < 0x1_0000_0000
  {
    Word(s, i) * 0x1_0000 + Word(s, i + 2)
  }

  function Put32(s: seq<byte>, i: nat, v: nat): (r: seq<byte>)
    requires i + 3 < |s| && v < 0x1_0000_0000
    ensures |r| == |s| && Word32(r, i) == v
    ensures forall k :: 0 <= k < |s| && !(i <= k < i + 4) ==> r[k] == s[k]
  {
    var h := Put16(s, i, v / 0x1_0000);
    var r := Put16(h, i + 2, v % 0x1_0000);
    assert Word(r, i) == Word(h, i);
    r
  }

  // ---------------------------------------------------------------- n-byte integers

  function Pow256(n: nat): (p: nat)
    ensures p > 0
  {
    if n == 0 then 1 else 256 * Pow256(n - 1)
  }

  /** v as n big-endian bytes; higher bytes are cut off. */
  function BigEndian(n: nat, v: nat): (s: seq<byte>)
    ensures |s| == n
  {
    if n == 0 then [] else BigEndian(n - 1, v / 256) + [v % 256]
  }

  function FromBigEndian(s: seq<byte>): nat {
    if s == [] then 0 else FromBigEndian(s[..|s| - 1]) * 256 + s[|s| - 1]
  }

  lemma {:induction false} BigEndianRoundTrip(n: nat, v: nat)
    requires v < Pow256(n)
    ensures FromBigEndian(BigEndian(n, v)) == v
  {
    if n > 0 {
      BigEndianRoundTrip(n - 1, v / 256);
      assert BigEndian(n, v)[..n - 1] == BigEndian(n - 1, v / 256);
    }
  }

  lemma {:induction false} FromBigEndianRoundTrip(s: seq<byte>)
    ensures FromBigEndian(s) < Pow256(|s|)
    ensures BigEndian(|s|, FromBigEndian(s)) == s
  {
    if s != [] {
      FromBigEndianRoundTrip(s[..|s| - 1]);
      assert s == s[..|s| - 1] + [s[|s| - 1]];
    }
  }

  lemma Pow256Values()
    ensures Pow256(2) == 0x1_0000
    ensures Pow256(4) == 0x1_0000_0000
    ensures Pow256(8) == 0x1_0000_0000_0000_0000
  {
    assert Pow256(1) == 256;
    assert Pow256(3) == 0x100_0000;
    assert Pow256(5) == 0x100_0000_0000;
    assert Pow256(6) == 0x1_0000_0000_0000;
    assert Pow256(7) == 0x100_0000_0000_0000;
  }

  /** v as n little-endian bytes; higher bytes are cut off. */
  function LittleEndian(n: nat, v: nat): (s: seq<byte>)
    ensures |s| == n
  {
    if n == 0 then [] else [v % 256] + LittleEndian(n - 1, v / 256)
  }

  lemma {:induction false} LittleEndianInjective(n: nat, v: nat, w: nat)
    requires v < Pow256(n) && w < Pow256(n)
    requires LittleEndian(n, v) == LittleEndian(n, w)
    ensures v == w
  {
    if n > 0 {
      var a, b := LittleEndian(n, v), LittleEndian(n, w);
      assert a[0] == b[0] && a[1..] == LittleEndian(n - 1, v / 256) && b[1..] == LittleEndian(n - 1, w / 256);
      LittleEndianInjective(n - 1, v / 256, w / 256);
    }
  }

  lemma {:induction false} LittleEndianDigit(n: nat, v: nat, i: nat)
    requires i < n
    ensures LittleEndian(n, v)[i] == (v / Pow256(i)) % 256
    decreases n
  {
    if i > 0 {
      LittleEndianDigit(n - 1, v / 256, i - 1);
      DivideTwice(v, Pow256(i - 1));
    }
  }

  lemma DivideTwice(v: nat, d: nat)
    requires d > 0
    ensures v / 256 / d == v / (256 * d)
  {
    var q, r := v / 256, v % 256;
    var h, t := q / d, q % d;
    assert v == 256 * (d * h + t) + r == (256 * d) * h + (256 * t + r);
    assert 256 * t + r < 256 * d;
    QuotientIs(v, 256 * d, h, 256 * t + r);
  }

  lemma QuotientIs(v: nat, d: nat, q: nat, r: nat)
    requires d > 0 && v == d * q + r && r < d
    ensures v / d == q
  {
    var k := v / d;
    assert v == d * k + v % d;
    assert d * (q - k) == v % d - r;
    SmallMultiple(d, q - k);
  }

  lemma SmallMultiple(d: int, x: int)
    requires d > 0 && -d < d * x < d
    ensures x == 0
  {
  }

  // ---------------------------------------------------------------- exclusive-or

  function Xor(a: nat, b: nat): nat
    decreases a + b
  {
    if a == 0 && b == 0 then 0 else (a + b) % 2 + 2 * Xor(a / 2, b / 2)
  }

  function Pow2(n: nat): (p: nat)
    ensures p > 0
  {
    if n == 0 then 1 else 2 * Pow2(n - 1)
  }

  lemma {:induction false} XorBound(a: nat, b: nat, n: nat)
    requires a < Pow2(n) && b < Pow2(n)
    ensures Xor(a, b) < Pow2(n)
    decreases n
  {
    if n > 0 {
      XorBound(a / 2, b / 2, n - 1);
    }
  }

  lemma LowBit(d: nat, h: nat, x: nat)
    requires d < 2 && x == d + 2 * h
    ensures x % 2 == d && x / 2 == h
  {
  }

  lemma {:induction false} XorHalf(a: nat, b: nat)
    ensures Xor(a, b) % 2 == (a + b) % 2
    ensures Xor(a, b) / 2 == Xor(a / 2, b / 2)
  {
    if a != 0 || b != 0 {
      var h := Xor(a / 2, b / 2);
      assert Xor(a, b) == (a + b) % 2 + 2 * h;
      hide Xor;
      LowBit((a + b) % 2, h, Xor(a, b));
    }
  }

  /** The binary digit of weight 2^i is set. */
  predicate Bit(v: nat, i: nat) {
    if i == 0 then v % 2 == 1 else Bit(v / 2, i - 1)
  }

  /** A digit of the exclusive-or is set, if and only if exactly one of the two digits is. */
  lemma {:induction false} XorBits(a: nat, b: nat, i: nat)
    ensures Bit(Xor(a, b), i) <==> Bit(a, i) != Bit(b, i)
    decreases i
  {
    hide Xor;
    XorHalf(a, b);
    if i > 0 {
      XorBits(a / 2, b / 2, i - 1);
    }
  }

  lemma SameHalves(x: nat, y: nat, a: nat, b: nat)
    requires x % 2 == (a + b) % 2 && y % 2 == (x + b) % 2 && y / 2 == a / 2
    ensures y == a
  {
  }

  lemma {:induction false} XorInvolution(a: nat, b: nat)
    ensures Xor(Xor(a, b), b) == a
    decreases a + b
  {
    if a != 0 || b != 0 {
      hide Xor;
      XorInvolution(a / 2, b / 2);
      XorHalf(a, b);
      XorHalf(Xor(a, b), b);
      SameHalves(Xor(a, b), Xor(Xor(a, b), b), a, b);
    }
  }

  lemma Pow2Values()
    ensures Pow2(8) == 256
    ensures Pow2(32) == 0x1_0000_0000
  {
    assert Pow2(4) == 16;
    assert Pow2(12) == 0x1000;
    assert Pow2(16) == 0x1_0000;
    assert Pow2(20) == 0x10_0000;
    assert Pow2(24) == 0x100_0000;
    assert Pow2(28) == 0x1000_0000;
  }

  lemma {:induction false} XorCommutes(a: nat, b: nat)
    ensures Xor(a, b) == Xor(b, a)
    decreases a + b
  {
    if a != 0 || b != 0 {
      XorCommutes(a / 2, b / 2);
    }
  }

  lemma {:induction false} XorZero(a: nat)
    ensures Xor(a, 0) == a
  {
    if a > 0 {
      XorZero(a / 2);
    }
  }

  lemma XorCancel(a: byte, x: byte, y: byte)
    requires XorByte(a, x) == XorByte(a, y)
    ensures x == y
  {
    hide Xor;
    XorCommutes(a, x);
    XorCommutes(a, y);
    XorInvolution(x, a);
    XorInvolution(y, a);
  }

  function XorByte(a: byte, b: byte): (r: byte) {
    Pow2Values();
    XorBound(a, b, 8);
    Xor(a, b)
  }

  /** s with mask xored over its first |mask| bytes. */
  function XorMask(s: seq<byte>, mask: seq<byte>): (r: seq<byte>)
    requires |mask| <= |s|
    ensures |r| == |s|
  {
    seq(|s|, i requires 0 <= i < |s| => if i < |mask| then XorByte(s[i], mask[i]) else s[i])
  }

  lemma XorMaskInvolution(s: seq<byte>, mask: seq<byte>)
    requires |mask| <= |s|
    ensures XorMask(XorMask(s, mask), mask) == s
  {
    forall i | 0 <= i < |s|
      ensures XorMask(XorMask(s, mask), mask)[i] == s[i]
    {
      if i < |mask| {
        XorInvolution(s[i], mask[i]);
      }
    }
  }
}

/** In-place big-endian stores. */
module Buffers {
  import opened Bytes

  method Store16(buf: array<byte>, i: nat, v: nat)
    requires i + 1 < buf.Length && v < 0x1_0000
    modifies buf
    ensures buf[..] == Put16(old(buf[..]), i, v)
  {
    buf[i], buf[i + 1] := v / 256, v % 256;
  }

  method Store32(buf: array<byte>, i: nat, v: nat)
    requires i + 3 < buf.Length && v < 0x1_0000_0000
    modifies buf
    ensures buf[..] == Put32(old(buf[..]), i, v)
  {
    Store16(buf, i, v / 0x1_0000);
    Store16(buf, i + 2, v % 0x1_0000);
  }

  /** s with b written at an offset. */
  function Overwrite(s: seq<byte>, at: nat, b: seq<byte>): (r: seq<byte>)
    requires at + |b| <= |s|
    ensures |r| == |s|
  {
    s[..at] + b + s[at + |b|..]
  }

  lemma WrittenSlice(s: seq<byte>, at: nat, b: seq<byte>)
    requires at + |b| <= |s|
    ensures Overwrite(s, at, b)[at..at + |b|] == b
  {
  }

  lemma KeptSlice(s: seq<byte>, at: nat, b: seq<byte>, lo: nat, hi: nat)
    requires at + |b| <= |s| && lo <= hi <= |s| && (hi <= at || at + |b| <= lo)
    ensures Overwrite(s, at, b)[lo..hi] == s[lo..hi]
  {
  }

  lemma JoinSlices(s: seq<byte>, lo: nat, mid: nat, hi: nat)
    requires lo <= mid <= hi <= |s|
    ensures s[lo..mid] + s[mid..hi] == s[lo..hi]
  {
  }

  method WriteBytes(out: array<byte>, at: nat, b: seq<byte>)
    requires at + |b| <= out.Length
    modifies out
    ensures out[..] == Overwrite(old(out[..]), at, b)
  {
    forall k | 0 <= k < |b| {
      out[at + k] := b[k];
    }
    assert out[..] == out[..at] + out[at..at + |b|] + out[at + |b|..];
  }
}

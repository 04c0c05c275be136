/**
 One's-complement sums as the internet checksum uses them: the word sum of a
 byte string, its 16-bit fold, and what a stored complement does to both.
 */
module OnesComplement {
  import opened Bytes

  const TWO32 := 0x1_0000_0000

  /** The sum of s as big-endian 16-bit words, an odd trailing byte padded with zero. */
  function Sum16(s: seq<byte>): nat {
    if |s| == 0 then 0
    else if |s| == 1 then s[0] as int * 256
    else Word(s, 0) + Sum16(s[2..])
  }

  /**
   The folded sum in closed form: 0 stands for the zero sum only, every other
   sum is its residue modulo 65535 taken in 1..65535.
   */
  function Fold(sum: nat): (r: nat)
    ensures r < 0x1_0000
    ensures r == 0 <==> sum == 0
    ensures r % 65535 == sum % 65535
  {
    if sum == 0 then 0 else (sum - 1) % 65535 + 1
  }

  lemma FoldStep(s: nat)
    ensures Fold(s % 0x1_0000 + s / 0x1_0000) == Fold(s)
  {
    var q, r := s / 0x1_0000, s % 0x1_0000;
    assert s == 0x1_0000 * q + r;
    ModShift(s - 1, q + r - 1, q);
  }

  lemma ModShift(a: int, b: int, k: int)
    requires a == b + 65535 * k
    ensures a % 65535 == b % 65535
  {
  }

  lemma FoldQuotient(s: nat) returns (q: int)
    ensures q >= 0 && s == Fold(s) + 65535 * q
  {
    q := if s == 0 then 0 else (s - 1) / 65535;
  }

  /** Sums equal modulo 65535 get the same verdict behind a non-zero pseudo-header. */
  lemma SameVerdict(p: nat, a: nat, b: nat)
    requires p > 0 && a % 65535 == b % 65535
    ensures Fold(p + a) == 65535 <==> Fold(p + b) == 65535
  {
    FoldIsAllOnes(p + a);
    FoldIsAllOnes(p + b);
    ModShift(p + a, p + b, a / 65535 - b / 65535);
  }

  lemma FoldIsAllOnes(s: nat)
    ensures Fold(s) == 65535 <==> s > 0 && s % 65535 == 0
  {
  }

  /** Adding the complement of the fold makes the total verify, and no other value below 65535 does. */
  lemma ComplementVerifies(rest: nat, c: nat)
    requires rest > 0 && c < 0x1_0000
    ensures Fold(rest + (65535 - Fold(rest))) == 65535
    ensures c != 65535 ==> (Fold(rest + c) == 65535 <==> c == 65535 - Fold(rest))
  {
    var q := FoldQuotient(rest);
    var f := Fold(rest);
    FoldIsAllOnes(rest + (65535 - f));
    ModShift(rest + (65535 - f), 0, q + 1);
    if c != 65535 {
      FoldIsAllOnes(rest + c);
      ModShift(rest + c, f + c, q);
    }
  }

  lemma {:induction false} SumConcat(a: seq<byte>, b: seq<byte>)
    requires |a| % 2 == 0
    ensures Sum16(a + b) == Sum16(a) + Sum16(b)
  {
    if |a| == 0 {
      assert a + b == b;
    } else {
      SumConcat(a[2..], b);
      assert (a + b)[2..] == a[2..] + b;
    }
  }

  /** An odd byte counts as if a zero byte followed it. */
  lemma OddByteIsHigh(s: seq<byte>, b: byte)
    requires |s| % 2 == 0
    ensures Sum16(s + [b]) == Sum16(s + [b, 0]) == Sum16(s) + b as int * 256
  {
    SumConcat(s, [b]);
    SumConcat(s, [b, 0]);
    assert [b, 0][2..] == [];
  }

  /** Splitting the sum around the words of s[i..j]. */
  lemma {:induction false} SumSplit(s: seq<byte>, i: nat, j: nat)
    requires i <= j <= |s| && i % 2 == 0 && j % 2 == 0
    ensures Sum16(s) == Sum16(s[..i]) + Sum16(s[i..j]) + Sum16(s[j..])
  {
    SumConcat(s[..i], s[i..j] + s[j..]);
    SumConcat(s[i..j], s[j..]);
    assert s == s[..i] + (s[i..j] + s[j..]);
  }

  /** A word stored at an even offset replaces its old value in the sum. */
  lemma SumPut16(s: seq<byte>, i: nat, v: nat)
    requires i + 1 < |s| && i % 2 == 0 && v < 0x1_0000
    ensures Sum16(Put16(s, i, v)) == Sum16(s) - Word(s, i) + v
  {
    var r := Put16(s, i, v);
    SumSplit(s, i, i + 2);
    SumSplit(r, i, i + 2);
    assert r[..i] == s[..i] && r[i + 2..] == s[i + 2..];
    SumOfWord(s, i);
    SumOfWord(r, i);
  }

  lemma SumOfWord(s: seq<byte>, i: nat)
    requires i + 1 < |s|
    ensures Sum16(s[i..i + 2]) == Word(s, i)
  {
    var w := s[i..i + 2];
    assert w[2..] == [];
    assert Word(w, 0) == Word(s, i);
  }

  lemma {:induction false} SumBound(s: seq<byte>)
    ensures Sum16(s) <= 65535 * ((|s| + 1) / 2)
  {
    if |s| >= 2 {
      SumBound(s[2..]);
    }
  }

  /** A non-zero byte makes the sum non-zero. */
  lemma {:induction false} SumPositive(s: seq<byte>, k: nat)
    requires k < |s| && s[k] != 0
    ensures Sum16(s) > 0
  {
    if k >= 2 {
      SumPositive(s[2..], k - 2);
    }
  }

  /** The summing loop, with the 32-bit wrap-around of its accumulator. */
  method OnesSum(b: seq<byte>) returns (sum: nat)
    ensures sum == Sum16(b) % TWO32
    ensures |b| <= 0x2_0000 ==> sum == Sum16(b)
  {
    hide Word;
    sum := 0;
    var rest := b;
    ghost var wraps := 0;
    SumBound(b);
    while |rest| >= 2
      invariant sum < TWO32 && wraps >= 0
      invariant sum + TWO32 * wraps + Sum16(rest) == Sum16(b)
      decreases |rest|
    {
      var t := sum + Word(rest, 0);
      wraps := wraps + t / TWO32;
      sum := t % TWO32;
      rest := rest[2..];
    }
    if |rest| == 1 {
      var t := sum + rest[0] as int * 256;
      wraps := wraps + t / TWO32;
      sum := t % TWO32;
    }
    assert sum + TWO32 * wraps == Sum16(b);
  }

  /** The folding loop computes the closed form. */
  method FoldSum(sum: nat) returns (r: nat)
    requires sum < TWO32
    ensures r == Fold(sum)
  {
    r := sum;
    while r / 0x1_0000 != 0
      invariant Fold(r) == Fold(sum)
      decreases r
    {
      FoldStep(r);
      r := r % 0x1_0000 + r / 0x1_0000;
    }
  }
}

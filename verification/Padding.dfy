/**
 Bucket padding: payload lengths are rounded up to a few sizes, with a random
 trailer, without exceeding the MTU.
 */
module Padding {
  import opened Bytes

  const BUCKETS: seq<nat> := [64, 256, 512, 1024]

  /** The smallest bucket that holds n, or the MTU. */
  function Bucket(n: nat, maxMTU: nat): nat {
    if n <= 64 then 64 else if n <= 256 then 256 else if n <= 512 then 512 else if n <= 1024 then 1024 else maxMTU
  }

  predicate IsSize(n: nat) { n == 64 || n == 256 || n == 512 || n == 1024 }

  /** It is the least of these sizes that is not too small, and above 1024 the MTU. */
  lemma BucketExactly(n: nat, maxMTU: nat, b: nat)
    ensures Bucket(n, maxMTU) == b <==>
              if n > 1024 then b == maxMTU
              else IsSize(b) && n <= b && forall c: nat :: IsSize(c) && n <= c ==> b <= c
  {
    assert IsSize(64) && IsSize(256) && IsSize(512) && IsSize(1024);
  }

  /** The padded length: the bucket plus the trailer, cut to the aligned MTU, and never less than the payload. */
  function PaddedLength(payloadLen: nat, maxMTU: nat, trailer: nat): nat {
    if maxMTU < 4 then 4 else Max(payloadLen, Min(Bucket(payloadLen, maxMTU) + trailer, maxMTU / 4 * 4))
  }

  /** The padding added to a length; the number of trailer steps is a random choice. */
  function PadLength(n: int, maxMTU: int, steps: nat): nat {
    if 0 < n < maxMTU then PaddedLength(n, maxMTU, 4 * steps) - n else 0
  }

  /** The trailer steps that can be chosen. */
  predicate CanStep(maxTrailer: int, steps: nat) {
    if maxTrailer >= 4 then steps <= maxTrailer / 4 else steps == 0
  }

  /** The bucket search. */
  method FindBucket(payloadLen: int, maxMTU: nat) returns (found: bool, bucket: nat)
    requires 0 < payloadLen < maxMTU
    ensures found <==> payloadLen <= 1024
    ensures found ==> bucket == Bucket(payloadLen, maxMTU) >= payloadLen && bucket % 4 == 0
  {
    found, bucket := false, 0;
    var i := 0;
    while i < |BUCKETS| && !found
      invariant i <= |BUCKETS| == 4
      invariant !found ==> (i > 0 ==> payloadLen > 64) && (i > 1 ==> payloadLen > 256)
                           && (i > 2 ==> payloadLen > 512) && (i > 3 ==> payloadLen > 1024)
      invariant found ==> payloadLen <= 1024 && bucket == Bucket(payloadLen, maxMTU) >= payloadLen && bucket % 4 == 0
      decreases |BUCKETS| - i, !found
    {
      assert BUCKETS[i] == if i == 0 then 64 else if i == 1 then 256 else if i == 2 then 512 else 1024;
      if payloadLen <= BUCKETS[i] {
        bucket, found := BUCKETS[i], true;
      }
      i := i + 1;
    }
  }

  lemma AlignedMTU(m: nat)
    ensures m / 4 * 4 == m - m % 4 && m / 4 * 4 <= m < m / 4 * 4 + 4
  {
  }

  /** An aligned length is at most the MTU iff it is at most the aligned MTU. */
  lemma AlignedBelow(t: nat, m: nat)
    requires t % 4 == 0
    ensures t <= m <==> t <= m / 4 * 4
  {
    assert t == t / 4 * 4;
  }

  /** The number of trailer steps is a random choice in 0..maxTrailer / 4. */
  method CalculateBucketPaddingWithTrailer(payloadLen: int, maxMTU: int, maxTrailer: int, steps: nat) returns (pad: nat)
    requires CanStep(maxTrailer, steps)
    ensures !(0 < payloadLen < maxMTU) ==> pad == 0
    ensures 0 < payloadLen < maxMTU ==> payloadLen + pad == PaddedLength(payloadLen, maxMTU, 4 * steps)
    ensures pad == PadLength(payloadLen, maxMTU, steps)
  {
    if payloadLen <= 0 || payloadLen >= maxMTU { return 0; }
    var found, bucket := FindBucket(payloadLen, maxMTU);
    var basePad := if found then bucket - payloadLen else maxMTU - payloadLen;
    var trailer := 0;
    if maxTrailer >= 4 {
      trailer := steps * 4;
    }
    var p := basePad + trailer;
    AlignedMTU(maxMTU);
    if found {
      AlignedBelow(bucket + trailer, maxMTU);
    }
    if payloadLen + p > maxMTU {
      p := maxMTU - payloadLen;
    }
    assert payloadLen + p == if found && bucket + trailer <= maxMTU then bucket + trailer else maxMTU;
    var rem := (payloadLen + p) % 4;
    if rem != 0 {
      p := p + (4 - rem);
      if payloadLen + p > maxMTU && maxMTU >= 4 {
        p := p - 4;
      }
    }
    if p < 0 {
      p := 0;
    }
    pad := p;
  }

  /**
   The promised bound holds exactly from an MTU of 4 on, and the padded length is 4-byte aligned
   unless no aligned length lies between the payload and the MTU.
   */
  lemma PaddedLengthBounds(payloadLen: nat, maxMTU: nat, steps: nat)
    requires 0 < payloadLen < maxMTU
    ensures var n := PaddedLength(payloadLen, maxMTU, 4 * steps);
            && (n <= maxMTU <==> maxMTU >= 4)
            && n >= payloadLen
            && (n % 4 == 0 <==> maxMTU < 4 || payloadLen <= maxMTU / 4 * 4)
            && (maxMTU >= 4 ==> n >= Min(Bucket(payloadLen, maxMTU), maxMTU / 4 * 4))
  {
    AlignedMTU(maxMTU);
    if payloadLen > maxMTU / 4 * 4 {
      assert payloadLen % 4 != 0;
    }
  }

  /** One byte with an MTU of 2 is padded to 4 bytes. */
  lemma TinyMtuIsExceeded()
    ensures PaddedLength(1, 2, 0) == 4 > 2
  {
  }
}

/**
 Cutting an oversized TCP packet into segments that fit a limit.
 */
module TcpSplit {
  import opened Bytes
  import opened Buffers
  import opened OnesComplement
  import opened TcpRewrite

  function Payload(pkt: seq<byte>, l: Layout): seq<byte>
    requires l.Fits(pkt)
  {
    pkt[l.HeaderLen()..l.total]
  }

  /** What splitTCP refuses and accepts. */
  predicate Splittable(pkt: seq<byte>, maxLen: int) {
    match LocateTCP(pkt)
    case None => false
    case Some(l) => 0 < maxLen - l.HeaderLen() < |Payload(pkt, l)|
  }

  /** Exactly the located packets are split whose headers fit the limit and whose total length does not. */
  lemma SplittableExactly(pkt: seq<byte>, maxLen: int)
    ensures Splittable(pkt, maxLen) <==>
              LocateTCP(pkt).Some? && var l := LocateTCP(pkt).value; l.ipLen + l.tcpLen < maxLen < l.total
  {
    hide LocateTCP;
  }

  /** flags without FIN (bit 0) and PSH (bit 3); the other six bits are kept. */
  function ClearFinPsh(flags: byte): (r: byte)
    ensures r % 2 == 0 && (r / 8) % 2 == 0
    ensures r / 16 == flags / 16 && (r / 2) % 4 == (flags / 2) % 4
  {
    var high: int, middle: int := flags / 16, (flags / 2) % 4;
    var r := 16 * high + 2 * middle;
    assert r / 8 == 2 * high && r / 2 == 8 * high + middle;
    r
  }

  // ---------------------------------------------------------------- one segment

  /** The part of the payload that starts at off. */
  predicate Cut(pkt: seq<byte>, l: Layout, off: nat, end: nat) {
    l.Fits(pkt) && off < end <= |Payload(pkt, l)|
  }

  /** The headers followed by payload[off..end], with the IP header of the new length. */
  function WithIpHeader(pkt: seq<byte>, l: Layout, i: nat, off: nat, end: nat): (r: seq<byte>)
    requires Cut(pkt, l, off, end)
    ensures |r| == l.HeaderLen() + end - off
  {
    var b := pkt[..l.HeaderLen()] + Payload(pkt, l)[off..end];
    if l.v6 then Put16(b, 4, l.tcpLen + end - off)
    else
      var t := Put16(Put16(b, 2, |b|), 4, (Word(pkt, 4) + i) % 0x1_0000);
      WithIpv4Checksum(t[..l.ipLen]) + t[l.ipLen..]
  }

  function SegmentFlags(pkt: seq<byte>, l: Layout, end: nat): byte
    requires l.Fits(pkt)
  {
    var flags := pkt[l.ipLen + 13];
    if end != |Payload(pkt, l)| then ClearFinPsh(flags) else flags
  }

  function WithTcpHeader(pkt: seq<byte>, l: Layout, i: nat, off: nat, end: nat): (r: seq<byte>)
    requires Cut(pkt, l, off, end)
    ensures |r| == l.HeaderLen() + end - off
  {
    var b := WithIpHeader(pkt, l, i, off, end);
    Put32(b, l.ipLen + 4, (Word32(pkt, l.ipLen + 4) + off) % TWO32)[l.ipLen + 13 := SegmentFlags(pkt, l, end)]
  }

  /** The i-th emitted packet. */
  function Piece(pkt: seq<byte>, l: Layout, i: nat, off: nat, end: nat): (r: seq<byte>)
    requires Cut(pkt, l, off, end)
    ensures |r| == l.HeaderLen() + end - off
  {
    var b := WithTcpHeader(pkt, l, i, off, end);
    b[..l.ipLen] + WithTcpChecksum(b, l.v6, b[l.ipLen..])
  }

  method BuildPiece(pkt: seq<byte>, l: Layout, i: nat, off: nat, end: nat) returns (buf: array<byte>)
    requires Cut(pkt, l, off, end)
    ensures fresh(buf) && buf[..] == Piece(pkt, l, i, off, end)
  {
    var hdrLen := l.HeaderLen();
    var payload := Payload(pkt, l);
    var n := hdrLen + end - off;
    buf := new byte[n](k requires 0 <= k < n => if k < hdrLen then pkt[k] else payload[off + (k - hdrLen)]);
    assert buf[..] == pkt[..hdrLen] + payload[off..end];
    if l.v6 {
      Store16(buf, 4, l.tcpLen + end - off);
    } else {
      Store16(buf, 2, n);
      Store16(buf, 4, (Word(pkt, 4) + i) % 0x1_0000);
      SetIPv4Checksum(buf, l.ipLen);
    }
    assert buf[..] == WithIpHeader(pkt, l, i, off, end);
    Store32(buf, l.ipLen + 4, (Word32(pkt, l.ipLen + 4) + off) % TWO32);
    buf[l.ipLen + 13] := SegmentFlags(pkt, l, end);
    assert buf[..] == WithTcpHeader(pkt, l, i, off, end);
    SetTCPChecksum(buf, l.ipLen, l.v6);
  }

  // ---------------------------------------------------------------- the loop

  function EndOf(pkt: seq<byte>, l: Layout, chunk: nat, off: nat): (end: nat)
    requires l.Fits(pkt)
    ensures end <= |Payload(pkt, l)| && end <= off + chunk
  {
    Min(off + chunk, |Payload(pkt, l)|)
  }

  /** out is the list of segments of chunk payload bytes each, the last one possibly shorter. */
  ghost predicate IsSplit(pkt: seq<byte>, l: Layout, chunk: nat, out: seq<seq<byte>>)
    requires l.Fits(pkt)
  {
    && |out| > 0
    && (|out| - 1) * chunk < |Payload(pkt, l)| <= |out| * chunk
    && forall k :: 0 <= k < |out| ==> IsPiece(pkt, l, chunk, k, out[k])
  }

  ghost predicate IsPiece(pkt: seq<byte>, l: Layout, chunk: nat, k: nat, p: seq<byte>)
    requires l.Fits(pkt)
  {
    var off := k * chunk;
    var end := EndOf(pkt, l, chunk, off);
    off < end && p == Piece(pkt, l, k, off, end)
  }

  /** Emitted packets are collected in out; nothing is emitted on a refusal. */
  method SplitTCP(pkt: seq<byte>, maxLen: int) returns (ok: bool, out: seq<seq<byte>>)
    ensures ok <==> Splittable(pkt, maxLen)
    ensures !ok ==> out == []
    ensures ok ==> var l := LocateTCP(pkt).value; IsSplit(pkt, l, maxLen - l.HeaderLen(), out)
  {
    hide LocateTCP, LocateIP, Piece;
    out := [];
    var loc := LocateTCP(pkt);
    if loc.None? { return false, []; }
    var l := loc.value;
    var chunk := maxLen - l.HeaderLen();
    var payload := Payload(pkt, l);
    if chunk <= 0 || |payload| <= chunk { return false, []; }
    var i, off := 0, 0;
    while off < |payload|
      invariant off == i * chunk && i == |out|
      invariant i > 0 ==> (i - 1) * chunk < |payload|
      invariant forall k :: 0 <= k < i ==> IsPiece(pkt, l, chunk, k, out[k])
      decreases |payload| - off
    {
      var end := Min(off + chunk, |payload|);
      var buf := BuildPiece(pkt, l, i, off, end);
      out := out + [buf[..]];
      assert IsPiece(pkt, l, chunk, i, buf[..]);
      assert (i + 1) * chunk == i * chunk + chunk;
      i, off := i + 1, off + chunk;
    }
    ok := true;
  }

  // ---------------------------------------------------------------- laws of one segment

  /** The header bytes a segment may change: IP length, IPv4 id and checksum, sequence, flags, TCP checksum. */
  predicate Rewritten(l: Layout, k: nat) {
    || (if l.v6 then k in {4, 5} else k in {2, 3, 4, 5, 10, 11})
    || l.ipLen + 4 <= k < l.ipLen + 8 || k in {l.ipLen + 13, l.ipLen + 16, l.ipLen + 17}
  }

  /** The fields of a segment; every other header byte is the original's. */
  ghost predicate SegmentOf(pkt: seq<byte>, l: Layout, i: nat, off: nat, end: nat, p: seq<byte>)
    requires Cut(pkt, l, off, end)
  {
    && |p| == l.HeaderLen() + end - off
    && p[l.HeaderLen()..] == Payload(pkt, l)[off..end]
    && Word32(p, l.ipLen + 4) == (Word32(pkt, l.ipLen + 4) + off) % TWO32
    && p[l.ipLen + 13] == SegmentFlags(pkt, l, end)
    && (if l.v6 then Word(p, 4) == |p| - 40
        else Word(p, 2) == |p| && Word(p, 4) == (Word(pkt, 4) + i) % 0x1_0000)
    && forall k :: 0 <= k < l.HeaderLen() && !Rewritten(l, k) ==> p[k] == pkt[k]
  }

  lemma IpHeaderBytes(pkt: seq<byte>, l: Layout, i: nat, off: nat, end: nat)
    requires Cut(pkt, l, off, end)
    ensures var b := WithIpHeader(pkt, l, i, off, end);
            && b[l.HeaderLen()..] == Payload(pkt, l)[off..end]
            && (if l.v6 then Word(b, 4) == |b| - 40
                else Word(b, 2) == |b| && Word(b, 4) == (Word(pkt, 4) + i) % 0x1_0000)
            && forall k :: 0 <= k < l.HeaderLen() && !Rewritten(l, k) ==> b[k] == pkt[k]
    ensures !l.v6 ==> exists h :: |h| == l.ipLen && h[0] == pkt[0] &&
                                  WithIpHeader(pkt, l, i, off, end)[..l.ipLen] == WithIpv4Checksum(h)
  {
    hide WithIpv4Checksum;
    var b := WithIpHeader(pkt, l, i, off, end);
    var b0 := pkt[..l.HeaderLen()] + Payload(pkt, l)[off..end];
    assert b0[l.HeaderLen()..] == Payload(pkt, l)[off..end];
    if !l.v6 {
      var t := Put16(Put16(b0, 2, |b0|), 4, (Word(pkt, 4) + i) % 0x1_0000);
      assert b[..l.ipLen] == WithIpv4Checksum(t[..l.ipLen]);
      assert t[..l.ipLen][0] == pkt[0];
      assert Word(t, 2) == Word(Put16(b0, 2, |b0|), 2);
      assert forall k :: 0 <= k < 10 ==> b[k] == t[k];
    }
  }

  lemma PieceBytes(pkt: seq<byte>, l: Layout, i: nat, off: nat, end: nat)
    requires Cut(pkt, l, off, end)
    ensures SegmentOf(pkt, l, i, off, end, Piece(pkt, l, i, off, end))
  {
    hide WithTcpChecksum, WithTcpHeader, SegmentOf;
    TcpHeaderBytes(pkt, l, i, off, end);
    var c, p := WithTcpHeader(pkt, l, i, off, end), Piece(pkt, l, i, off, end);
    assert forall k :: 0 <= k < |p| && k != l.ipLen + 16 && k != l.ipLen + 17 ==> p[k] == c[k];
    ChecksumAside(pkt, l, i, off, end, c, p);
  }

  lemma TcpHeaderBytes(pkt: seq<byte>, l: Layout, i: nat, off: nat, end: nat)
    requires Cut(pkt, l, off, end)
    ensures SegmentOf(pkt, l, i, off, end, WithTcpHeader(pkt, l, i, off, end))
  {
    hide WithIpHeader, Put32;
    IpHeaderBytes(pkt, l, i, off, end);
    var b, c := WithIpHeader(pkt, l, i, off, end), WithTcpHeader(pkt, l, i, off, end);
    assert c[l.HeaderLen()..] == b[l.HeaderLen()..];
  }

  /** A segment's fields do not include its TCP checksum. */
  lemma ChecksumAside(pkt: seq<byte>, l: Layout, i: nat, off: nat, end: nat, c: seq<byte>, p: seq<byte>)
    requires Cut(pkt, l, off, end) && SegmentOf(pkt, l, i, off, end, c) && |p| == |c|
    requires forall k :: 0 <= k < |p| && k != l.ipLen + 16 && k != l.ipLen + 17 ==> p[k] == c[k]
    ensures SegmentOf(pkt, l, i, off, end, p)
  {
    hide SegmentFlags;
    assert p[l.HeaderLen()..] == c[l.HeaderLen()..];
  }

  lemma PieceChecksums(pkt: seq<byte>, l: Layout, i: nat, off: nat, end: nat)
    requires Cut(pkt, l, off, end) && pkt[0] > 0
    ensures var p := Piece(pkt, l, i, off, end);
            && TcpValid(p, l.v6, p[l.ipLen..])
            && (!l.v6 ==> Ipv4Valid(p[..l.ipLen]))
  {
    hide WithTcpChecksum, TcpValid, WithIpHeader, WithIpv4Checksum, Put32;
    var b := WithTcpHeader(pkt, l, i, off, end);
    var p := Piece(pkt, l, i, off, end);
    assert p[l.ipLen..] == WithTcpChecksum(b, l.v6, b[l.ipLen..]);
    TcpChecksumVerifies(b, l.v6, b[l.ipLen..]);
    assert if l.v6 then p[8..40] == b[8..40] else p[12..20] == b[12..20];
    SameAddresses(p, b, l.v6, p[l.ipLen..]);
    if !l.v6 {
      IpHeaderBytes(pkt, l, i, off, end);
      var a := WithIpHeader(pkt, l, i, off, end);
      assert p[..l.ipLen] == a[..l.ipLen];
      var h :| |h| == l.ipLen && h[0] == pkt[0] && a[..l.ipLen] == WithIpv4Checksum(h);
      Ipv4ChecksumVerifies(h);
    }
  }

  /** A segment is located with the same header lengths and its own total. */
  lemma SegmentLocates(pkt: seq<byte>, l: Layout, i: nat, off: nat, end: nat, p: seq<byte>)
    requires LocateTCP(pkt) == Some(l) && Cut(pkt, l, off, end)
    requires SegmentOf(pkt, l, i, off, end, p)
    ensures LocateTCP(p) == Some(l.(total := |p|))
  {
    assert p[0] == pkt[0] && p[l.ipLen + 12] == pkt[l.ipLen + 12];
    if l.v6 {
      assert p[6] == pkt[6];
      assert LocateIP(p) == Some((true, 40, |p|));
    } else {
      assert p[9] == pkt[9] && p[6] == pkt[6] && p[7] == pkt[7];
      assert Word(p, 6) == Word(pkt, 6);
      assert LocateIP(p) == Some((false, l.ipLen, |p|));
    }
  }

  /** Everything a receiver relies on in one emitted packet. */
  ghost predicate GoodPiece(pkt: seq<byte>, l: Layout, maxLen: int, i: nat, off: nat, end: nat, p: seq<byte>)
    requires Cut(pkt, l, off, end)
  {
    && |p| <= maxLen
    && LocateTCP(p) == Some(l.(total := |p|))
    && !Splittable(p, maxLen)
    && TcpValid(p, l.v6, p[l.ipLen..])
    && (!l.v6 ==> Ipv4Valid(p[..l.ipLen]))
    && SegmentOf(pkt, l, i, off, end, p)
  }

  lemma PieceIsGood(pkt: seq<byte>, l: Layout, maxLen: int, i: nat, off: nat, end: nat)
    requires LocateTCP(pkt) == Some(l) && Cut(pkt, l, off, end)
    requires end - off <= maxLen - l.HeaderLen()
    ensures GoodPiece(pkt, l, maxLen, i, off, end, Piece(pkt, l, i, off, end))
  {
    assert pkt[0] > 0;
    hide Piece, TcpValid, Ipv4Valid, LocateTCP, SegmentOf, Splittable, Payload;
    var p := Piece(pkt, l, i, off, end);
    PieceBytes(pkt, l, i, off, end);
    PieceChecksums(pkt, l, i, off, end);
    SegmentLocates(pkt, l, i, off, end, p);
    SplittableExactly(p, maxLen);
  }

  // ---------------------------------------------------------------- the whole split

  /** Byte j of the k-th packet's payload is b and sits at sequence position pos. */
  ghost predicate Carries(out: seq<seq<byte>>, l: Layout, k: int, j: int, pos: int, b: byte) {
    && 0 <= k < |out| && 0 <= j && l.HeaderLen() + j < |out[k]|
    && l.tcpLen >= 20
    && (Word32(out[k], l.ipLen + 4) + j) % TWO32 == pos
    && out[k][l.HeaderLen() + j] == b
  }

  lemma ModAdd(a: nat, b: nat, j: nat)
    requires a == b % TWO32
    ensures (a + j) % TWO32 == (b + j) % TWO32
  {
    assert b + j == TWO32 * (b / TWO32) + (a + j);
  }

  lemma EachPieceIsGood(pkt: seq<byte>, l: Layout, maxLen: int, out: seq<seq<byte>>, k: nat)
    returns (off: nat, end: nat)
    requires LocateTCP(pkt) == Some(l) && 0 < maxLen - l.HeaderLen()
    requires IsSplit(pkt, l, maxLen - l.HeaderLen(), out) && k < |out|
    ensures off == k * (maxLen - l.HeaderLen()) && end == Min(off + (maxLen - l.HeaderLen()), |Payload(pkt, l)|)
    ensures Cut(pkt, l, off, end) && GoodPiece(pkt, l, maxLen, k, off, end, out[k])
  {
    hide GoodPiece, LocateTCP, Piece, Payload;
    var chunk := maxLen - l.HeaderLen();
    assert IsPiece(pkt, l, chunk, k, out[k]);
    off := k * chunk;
    end := EndOf(pkt, l, chunk, off);
    PieceIsGood(pkt, l, maxLen, k, off, end);
  }

  lemma GoodPieceLength(pkt: seq<byte>, l: Layout, maxLen: int, i: nat, off: nat, end: nat, p: seq<byte>)
    requires Cut(pkt, l, off, end) && GoodPiece(pkt, l, maxLen, i, off, end, p)
    ensures SegmentOf(pkt, l, i, off, end, p) && |p| == l.HeaderLen() + end - off
  {
    hide LocateTCP, TcpValid, Ipv4Valid, Splittable, Word32, Word;
    assert |p[l.HeaderLen()..]| == end - off;
  }

  lemma EachPieceIsSegment(pkt: seq<byte>, l: Layout, maxLen: int, out: seq<seq<byte>>, k: nat)
    returns (off: nat, end: nat)
    requires LocateTCP(pkt) == Some(l) && 0 < maxLen - l.HeaderLen()
    requires IsSplit(pkt, l, maxLen - l.HeaderLen(), out) && k < |out|
    ensures off == k * (maxLen - l.HeaderLen()) && end == Min(off + (maxLen - l.HeaderLen()), |Payload(pkt, l)|)
    ensures Cut(pkt, l, off, end) && SegmentOf(pkt, l, k, off, end, out[k])
    ensures |out[k]| == l.HeaderLen() + end - off
  {
    hide LocateTCP, GoodPiece, SegmentOf, IsSplit, Cut, Payload;
    off, end := EachPieceIsGood(pkt, l, maxLen, out, k);
    GoodPieceLength(pkt, l, maxLen, k, off, end, out[k]);
  }

  /** Inside one segment, bytes and sequence positions move together. */
  lemma ByteOfSegment(pkt: seq<byte>, l: Layout, i: nat, off: nat, end: nat, p: seq<byte>, j: nat)
    requires Cut(pkt, l, off, end) && SegmentOf(pkt, l, i, off, end, p)
    requires l.HeaderLen() + j < |p|
    ensures off + j < end && p[l.HeaderLen() + j] == Payload(pkt, l)[off + j]
    ensures (Word32(p, l.ipLen + 4) + j) % TWO32 == (Word32(pkt, l.ipLen + 4) + (off + j)) % TWO32
  {
    ModAdd(Word32(p, l.ipLen + 4), Word32(pkt, l.ipLen + 4) + off, j);
    assert p[l.HeaderLen()..][j] == Payload(pkt, l)[off..end][j];
  }

  /** A carried byte is the payload byte of its sequence position. */
  lemma CarriedByte(pkt: seq<byte>, l: Layout, maxLen: int, out: seq<seq<byte>>, k: int, j: int, pos: int, b: byte)
    returns (q: nat)
    requires LocateTCP(pkt) == Some(l) && 0 < maxLen - l.HeaderLen()
    requires IsSplit(pkt, l, maxLen - l.HeaderLen(), out) && Carries(out, l, k, j, pos, b)
    ensures 0 <= j < maxLen - l.HeaderLen() && q == k * (maxLen - l.HeaderLen()) + j
    ensures q < |Payload(pkt, l)| && b == Payload(pkt, l)[q]
    ensures pos == (Word32(pkt, l.ipLen + 4) + q) % TWO32
  {
    hide LocateTCP, SegmentOf, IsSplit, Word32;
    var off, end := EachPieceIsSegment(pkt, l, maxLen, out, k);
    ByteOfSegment(pkt, l, k, off, end, out[k], j);
    q := off + j;
  }

  /** Every payload byte is carried. */
  lemma ByteIsCarried(pkt: seq<byte>, l: Layout, maxLen: int, out: seq<seq<byte>>, q: nat)
    requires LocateTCP(pkt) == Some(l) && 0 < maxLen - l.HeaderLen()
    requires IsSplit(pkt, l, maxLen - l.HeaderLen(), out) && q < |Payload(pkt, l)|
    ensures var chunk := maxLen - l.HeaderLen();
            Carries(out, l, q / chunk, q % chunk, (Word32(pkt, l.ipLen + 4) + q) % TWO32, Payload(pkt, l)[q])
  {
    hide LocateTCP, SegmentOf, Word32, IsPiece;
    var chunk := maxLen - l.HeaderLen();
    Quotient(q, chunk, |out|);
    var k, j := q / chunk, q % chunk;
    var off, end := EachPieceIsSegment(pkt, l, maxLen, out, k);
    ByteOfSegment(pkt, l, k, off, end, out[k], j);
  }

  lemma Quotient(q: nat, chunk: nat, n: nat)
    requires 0 < chunk && q < n * chunk
    ensures 0 <= q / chunk < n && 0 <= q % chunk < chunk && q == (q / chunk) * chunk + q % chunk
  {
    assert q == (q / chunk) * chunk + q % chunk;
    MulLess(q / chunk, n, chunk);
  }

  lemma MulLess(k: nat, n: nat, chunk: nat)
    requires k * chunk < n * chunk
    ensures k < n
  {
    assert (k - n) * chunk == k * chunk - n * chunk;
  }

  lemma UniqueDigits(k: nat, j: nat, k': nat, j': nat, chunk: nat)
    requires j < chunk && j' < chunk && k * chunk + j == k' * chunk + j'
    ensures k == k' && j == j'
  {
    if k < k' {
      Gap(k, k', chunk);
    } else if k' < k {
      Gap(k', k, chunk);
    }
  }

  lemma Gap(k: nat, k': nat, chunk: nat)
    requires k < k'
    ensures k' * chunk >= k * chunk + chunk
  {
    var d := k' - k - 1;
    assert k' * chunk == (k + 1 + d) * chunk == k * chunk + chunk + d * chunk;
    assert d * chunk >= 0;
  }

  lemma SamePosition(s: nat, q: nat, q': nat)
    requires q < TWO32 && q' < TWO32 && (s + q) % TWO32 == (s + q') % TWO32
    ensures q == q'
  {
    var a, b := (s + q) / TWO32, (s + q') / TWO32;
    assert q - q' == TWO32 * (a - b);
  }

  /** No two carried bytes share a sequence position. */
  lemma CarriedOnce(pkt: seq<byte>, l: Layout, maxLen: int, out: seq<seq<byte>>,
                    k: int, j: int, k': int, j': int, pos: int, b: byte, b': byte)
    requires LocateTCP(pkt) == Some(l) && 0 < maxLen - l.HeaderLen()
    requires IsSplit(pkt, l, maxLen - l.HeaderLen(), out)
    requires Carries(out, l, k, j, pos, b) && Carries(out, l, k', j', pos, b')
    ensures k == k' && j == j'
  {
    hide LocateTCP, IsSplit;
    var q := CarriedByte(pkt, l, maxLen, out, k, j, pos, b);
    var q' := CarriedByte(pkt, l, maxLen, out, k', j', pos, b');
    SamePosition(Word32(pkt, l.ipLen + 4), q, q');
    UniqueDigits(k, j, k', j', maxLen - l.HeaderLen());
  }

  /** FIN and PSH can only stand on the last packet, which has the original flags. */
  lemma FlagsAtTheEnd(pkt: seq<byte>, l: Layout, maxLen: int, out: seq<seq<byte>>, k: nat)
    requires LocateTCP(pkt) == Some(l) && 0 < maxLen - l.HeaderLen()
    requires IsSplit(pkt, l, maxLen - l.HeaderLen(), out) && k < |out|
    ensures |out[k]| > l.ipLen + 13
    ensures k == |out| - 1 ==> out[k][l.ipLen + 13] == pkt[l.ipLen + 13]
    ensures k < |out| - 1 ==> out[k][l.ipLen + 13] == ClearFinPsh(pkt[l.ipLen + 13])
  {
    hide LocateTCP, ClearFinPsh, IsPiece, SegmentOf;
    var off, end := EachPieceIsSegment(pkt, l, maxLen, out, k);
    LastIsLast(k, |out|, maxLen - l.HeaderLen(), |Payload(pkt, l)|);
    FlagsOfSegment(pkt, l, k, off, end, out[k]);
  }

  lemma FlagsOfSegment(pkt: seq<byte>, l: Layout, i: nat, off: nat, end: nat, p: seq<byte>)
    requires Cut(pkt, l, off, end) && SegmentOf(pkt, l, i, off, end, p)
    ensures |p| > l.ipLen + 13
    ensures p[l.ipLen + 13] == if end == |Payload(pkt, l)| then pkt[l.ipLen + 13] else ClearFinPsh(pkt[l.ipLen + 13])
  {
    hide ClearFinPsh, Word32;
  }

  lemma LastIsLast(k: nat, n: nat, chunk: nat, len: nat)
    requires k < n && (n - 1) * chunk < len <= n * chunk
    ensures Min(k * chunk + chunk, len) == len <==> k == n - 1
  {
    if k == n - 1 {
      assert k * chunk + chunk == n * chunk;
    } else {
      Gap(k, n - 1, chunk);
    }
  }
}

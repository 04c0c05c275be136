/**
 Locally generated rejections of IPv6 packets: a TCP reset, or an ICMPv6
 destination unreachable that quotes the packet.
 */
module Ipv6Reject {
  import opened Bytes
  import opened Buffers
  import opened OnesComplement

  const MIN_MTU := 1280
  const QUOTE_MAX := MIN_MTU - 40 - 8

  predicate AllZero(s: seq<byte>) { forall i :: 0 <= i < |s| ==> s[i] == 0 }

  /** An IPv6 packet between two unicast addresses, the source specified. */
  predicate Answerable(pkt: seq<byte>) {
    |pkt| >= 40 && pkt[0] / 16 == 6 && pkt[24] != 0xff && pkt[8] != 0xff && !AllZero(pkt[8..24])
  }

  /** Hop-by-hop options, routing and destination options. */
  predicate IsExtension(nh: byte) { nh == 0 || nh == 43 || nh == 60 }

  /** The upper-layer protocol and its offset, if the extension headers are within the packet. */
  function Walk(pkt: seq<byte>, nh: byte, off: nat): (r: Option<(byte, nat)>)
    requires off <= |pkt|
    ensures r.Some? ==> off <= r.value.1 <= |pkt| && !IsExtension(r.value.0)
    decreases |pkt| - off
  {
    if !IsExtension(nh) then Some((nh, off))
    else if |pkt| < off + 2 then None
    else
      var next := off + (pkt[off + 1] as int + 1) * 8;
      if next > |pkt| then None else Walk(pkt, pkt[off], next)
  }

  /** An extension header as a sender writes it: its kind is announced by the header before it. */
  datatype Extension = Extension(kind: byte, body: seq<byte>) {
    predicate Valid() { kind in {0, 43, 60} && |body| % 8 == 6 && |body| <= 2046 }

    /** The kind of what follows, the length in units of 8 bytes beyond the first, and the body. */
    function Bytes(next: byte): (h: seq<byte>)
      requires Valid()
      ensures |h| == |body| + 2 == (h[1] as int + 1) * 8 && h[0] == next && h[2..] == body
    {
      [next, (|body| + 2) / 8 - 1] + body
    }
  }

  predicate ValidChain(exts: seq<Extension>) { forall k :: 0 <= k < |exts| ==> exts[k].Valid() }

  /** The kind that is announced in front of the headers. */
  function FirstKind(exts: seq<Extension>, upper: byte): byte {
    if exts == [] then upper else exts[0].kind
  }

  function ChainBytes(exts: seq<Extension>, upper: byte): seq<byte>
    requires ValidChain(exts)
  {
    if exts == [] then []
    else exts[0].Bytes(FirstKind(exts[1..], upper)) + ChainBytes(exts[1..], upper)
  }

  /** The walk steps over whatever extension headers a sender writes. */
  lemma {:induction false} ChainIsFollowed(head: seq<byte>, exts: seq<Extension>, upper: byte, rest: seq<byte>)
    requires ValidChain(exts) && upper !in {0, 43, 60}
    ensures var b := ChainBytes(exts, upper);
            Walk(head + b + rest, FirstKind(exts, upper), |head|) == Some((upper, |head + b|))
    decreases |exts|
  {
    if exts == [] {
      assert head + ChainBytes(exts, upper) == head;
    } else {
      hide Walk, Extension.Bytes;
      var h, tail := exts[0].Bytes(FirstKind(exts[1..], upper)), ChainBytes(exts[1..], upper);
      ChainIsFollowed(head + h, exts[1..], upper, rest);
      OneHeader(head, exts[0].kind, h, tail, rest);
    }
  }

  lemma OneHeader(head: seq<byte>, kind: byte, h: seq<byte>, tail: seq<byte>, rest: seq<byte>)
    requires kind in {0, 43, 60} && |h| >= 2 && |h| == (h[1] as int + 1) * 8
    ensures var pkt := head + (h + tail) + rest;
            && pkt == (head + h) + tail + rest && |head + (h + tail)| == |(head + h) + tail|
            && Walk(pkt, kind, |head|) == Walk(pkt, h[0], |head + h|)
  {
    var pkt := head + (h + tail) + rest;
    assert head + (h + tail) == (head + h) + tail;
    assert pkt[|head|] == h[0] && pkt[|head| + 1] == h[1];
  }

  /** One header in front of others. */
  lemma CutOff(s: seq<byte>, a: nat, b: nat, c: nat)
    requires a + 2 <= b <= c <= |s|
    ensures s[a..c] == [s[a], s[a + 1]] + s[a + 2..b] + s[b..c]
  {
    assert [s[a], s[a + 1]] + s[a + 2..b] == s[a..b];
    assert s[a..b] + s[b..c] == s[a..c];
  }

  /** It steps over nothing else. */
  lemma {:induction false} FollowedIsChain(pkt: seq<byte>, nh: byte, off: nat) returns (exts: seq<Extension>)
    requires off <= |pkt| && Walk(pkt, nh, off).Some?
    ensures var (upper, end) := Walk(pkt, nh, off).value;
            ValidChain(exts) && nh == FirstKind(exts, upper) && pkt[off..end] == ChainBytes(exts, upper)
    decreases |pkt| - off
  {
    if !IsExtension(nh) {
      exts := [];
    } else {
      var next := off + (pkt[off + 1] as int + 1) * 8;
      var rest := FollowedIsChain(pkt, pkt[off], next);
      var (upper, end) := Walk(pkt, nh, off).value;
      var ext := Extension(nh, pkt[off + 2..next]);
      exts := [ext] + rest;
      assert exts[1..] == rest;
      CutOff(pkt, off, next, end);
    }
  }

  lemma UpperIsNoExtension(pkt: seq<byte>, nh: byte, off: nat)
    requires off <= |pkt| && Walk(pkt, nh, off).Some?
    ensures Walk(pkt, nh, off).value.0 !in {0, 43, 60}
  {
    hide Walk;
  }

  /** The upper layer is found, if and only if extension headers lead from the announced kind to it. */
  lemma WalkExactly(pkt: seq<byte>, nh: byte, off: nat, upper: byte, end: nat)
    requires off <= end <= |pkt|
    ensures Walk(pkt, nh, off) == Some((upper, end)) <==>
              && upper !in {0, 43, 60}
              && exists exts :: ValidChain(exts) && nh == FirstKind(exts, upper)
                                && pkt[off..end] == ChainBytes(exts, upper)
  {
    if Walk(pkt, nh, off) == Some((upper, end)) {
      UpperIsNoExtension(pkt, nh, off);
      hide Walk, ChainBytes;
      var exts := FollowedIsChain(pkt, nh, off);
    }
    hide Walk, ChainBytes;
    if exts :| upper !in {0, 43, 60} && ValidChain(exts) && nh == FirstKind(exts, upper)
               && pkt[off..end] == ChainBytes(exts, upper) {
      ChainWithin(pkt, off, exts, upper, end);
    }
  }

  lemma ChainWithin(pkt: seq<byte>, off: nat, exts: seq<Extension>, upper: byte, end: nat)
    requires off <= end <= |pkt| && ValidChain(exts) && upper !in {0, 43, 60}
    requires pkt[off..end] == ChainBytes(exts, upper)
    ensures Walk(pkt, FirstKind(exts, upper), off) == Some((upper, end))
  {
    hide Walk, ChainBytes, FirstKind;
    assert pkt == pkt[..off] + pkt[off..end] + pkt[end..];
    ChainIsFollowed(pkt[..off], exts, upper, pkt[end..]);
  }

  method FindUpperLayer(pkt: seq<byte>) returns (r: Option<(byte, nat)>)
    requires |pkt| >= 40
    ensures r == Walk(pkt, pkt[6], 40)
  {
    var nh, off := pkt[6], 40;
    while IsExtension(nh)
      invariant 40 <= off <= |pkt|
      invariant Walk(pkt, nh, off) == Walk(pkt, pkt[6], 40)
      decreases |pkt| - off
    {
      if |pkt| < off + 2 { return None; }
      var skip := (pkt[off + 1] as int + 1) * 8;
      nh := pkt[off];
      off := off + skip;
      if off > |pkt| { return None; }
    }
    r := Some((nh, off));
  }

  // ---------------------------------------------------------------- what is answered, and how

  datatype Answer = Silence | Reset(off: nat) | Unreachable

  /** A complete TCP header at off that is not itself a reset. */
  predicate Resettable(pkt: seq<byte>, off: nat) {
    && |pkt| >= off + 20
    && 20 <= (pkt[off + 12] / 16) * 4 && off + (pkt[off + 12] / 16) * 4 <= |pkt|
    && (pkt[off + 13] / 4) % 2 == 0
  }

  function AnswerTo(pkt: seq<byte>): (a: Answer)
    ensures a.Reset? ==> Answerable(pkt) && Resettable(pkt, a.off) && 40 <= a.off
    ensures a.Unreachable? ==> Answerable(pkt)
  {
    if !Answerable(pkt) then Silence
    else
      match Walk(pkt, pkt[6], 40)
      case None => Silence
      case Some((nh, off)) =>
        if nh == 6 then (if Resettable(pkt, off) then Reset(off) else Silence)
        else if nh == 58 && |pkt| > off && pkt[off] < 128 then Silence
        else Unreachable
  }

  /** Answered are exactly the IPv6 packets between addresses that are not multicast, the source not all zero. */
  lemma AnswerableExactly(pkt: seq<byte>)
    ensures Answerable(pkt) <==>
              && |pkt| >= 40 && 0x60 <= pkt[0] < 0x70 && pkt[24] != 255 && pkt[8] != 255
              && exists i :: 8 <= i < 24 && pkt[i] != 0
  {
    if |pkt| >= 40 {
      var src := pkt[8..24];
      if i :| 8 <= i < 24 && pkt[i] != 0 {
        assert src[i - 8] != 0;
      } else {
        assert forall i :: 0 <= i < 16 ==> src[i] == pkt[8 + i];
      }
    }
  }

  /** A reset answers exactly the TCP headers that are complete and no reset themselves, between unicast addresses. */
  lemma ResetExactly(pkt: seq<byte>, off: nat)
    ensures AnswerTo(pkt) == Reset(off) <==>
              && Answerable(pkt) && Walk(pkt, pkt[6], 40) == Some((6, off))
              && off + 20 <= |pkt| && 20 <= 4 * (pkt[off + 12] / 16) as int <= |pkt| - off && pkt[off + 13] % 8 < 4
  {
    hide Answerable, Walk;
  }

  /** An unreachable message answers every other upper layer but ICMPv6 errors. */
  lemma UnreachableExactly(pkt: seq<byte>)
    ensures AnswerTo(pkt) == Unreachable <==>
              && Answerable(pkt) && Walk(pkt, pkt[6], 40).Some?
              && var (upper, off) := Walk(pkt, pkt[6], 40).value;
                 upper != 6 && (upper == 58 && off < |pkt| ==> pkt[off] >= 128)
  {
    hide Answerable, Walk;
  }

  // ---------------------------------------------------------------- replies

  /** The header of a reply to pkt: addresses exchanged. */
  function ReplyHeader(pkt: seq<byte>, payloadLen: nat, nh: byte): (h: seq<byte>)
    requires |pkt| >= 40
    ensures |h| == 40
  {
    [0x60, 0, 0, 0] + BigEndian(2, payloadLen) + [nh, 64] + pkt[24..40] + pkt[8..24]
  }

  /** The pseudo-header sum of section 8.1 of RFC 8200 over the packet's own addresses. */
  function PseudoSum(pkt: seq<byte>, nh: byte, segLen: nat): nat
    requires |pkt| >= 40
  {
    Sum16(pkt[8..24]) + Sum16(pkt[24..40]) + segLen / 0x1_0000 + segLen % 0x1_0000 + nh as int
  }

  /** It is the sum of that pseudo-header. */
  lemma PseudoHeaderSum(pkt: seq<byte>, nh: byte, segLen: nat)
    requires |pkt| >= 40 && segLen < TWO32
    ensures PseudoSum(pkt, nh, segLen) == Sum16(pkt[8..24] + pkt[24..40] + BigEndian(4, segLen) + [0, 0, 0, nh])
  {
    hide Sum16;
    var a, n, z: seq<byte> := pkt[8..24] + pkt[24..40], BigEndian(4, segLen), [0, 0, 0, nh];
    assert a + n + z == a + (n + z);
    SumConcat(pkt[8..24], pkt[24..40]);
    SumConcat(a, n + z);
    SumConcat(n, z);
    SumOfFour(n);
    SumOfFour(z);
    assert n[0..4] == n;
    Word32OfBigEndian(n, 0, segLen);
    assert Word(n, 0) == segLen / 0x1_0000 && Word(n, 2) == segLen % 0x1_0000;
  }

  lemma SumOfFour(s: seq<byte>)
    requires |s| == 4
    ensures Sum16(s) == Word(s, 0) + Word(s, 2)
  {
    var tail := s[2..];
    assert tail[2..] == [] && Word(tail, 0) == Word(s, 2);
    assert Sum16(tail) == Word(tail, 0) + Sum16([]);
  }

  /** A receiver accepts the checksum of the upper-layer segment. */
  predicate Verifies(pkt: seq<byte>, nh: byte)
    requires |pkt| >= 40
  {
    Fold(PseudoSum(pkt, nh, |pkt| - 40) + Sum16(pkt[40..])) == 65535
  }

  /** header and seg, with the checksum at offset at of seg filled in. */
  function Checksummed(header: seq<byte>, nh: byte, seg: seq<byte>, at: nat): (r: seq<byte>)
    requires |header| == 40 && at + 1 < |seg|
    ensures |r| == 40 + |seg|
  {
    header + Put16(seg, at, 65535 - Fold(PseudoSum(header, nh, |seg|) + Sum16(seg)))
  }

  /** SEG.LEN: the payload within the packet, and one each for SYN and FIN. */
  function SegmentLength(pkt: seq<byte>, off: nat): nat
    requires |pkt| >= 40 && Resettable(pkt, off)
  {
    var end := Min(40 + Word(pkt, 4), |pkt|);
    Max(end - off - (pkt[off + 12] / 16) * 4, 0)
    + (if (pkt[off + 13] / 2) % 2 == 1 then 1 else 0) + (if pkt[off + 13] % 2 == 1 then 1 else 0)
  }

  predicate HasAck(pkt: seq<byte>, off: nat)
    requires Resettable(pkt, off)
  {
    (pkt[off + 13] / 16) % 2 == 1
  }

  function ResetSegment(pkt: seq<byte>, off: nat): (s: seq<byte>)
    requires |pkt| >= 40 && Resettable(pkt, off)
    ensures |s| == 20
  {
    var ack := HasAck(pkt, off);
    var rseq := if ack then Word32(pkt, off + 8) else 0;
    var rack := if ack then 0 else (Word32(pkt, off + 4) + SegmentLength(pkt, off)) % TWO32;
    pkt[off + 2..off + 4] + pkt[off..off + 2] + BigEndian(4, rseq) + BigEndian(4, rack)
    + [0x50, if ack then 0x04 else 0x14, 0, 0, 0, 0, 0, 0]
  }

  function UnreachableSegment(pkt: seq<byte>): (s: seq<byte>)
    ensures |s| == 8 + Min(|pkt|, QUOTE_MAX)
  {
    [1, 1, 0, 0, 0, 0, 0, 0] + pkt[..Min(|pkt|, QUOTE_MAX)]
  }

  function ReplyTo(pkt: seq<byte>): (r: Option<seq<byte>>)
    ensures r.Some? <==> !AnswerTo(pkt).Silence?
    ensures r.Some? ==> 48 <= |r.value| <= MIN_MTU
  {
    match AnswerTo(pkt)
    case Silence => None
    case Reset(off) => Some(Checksummed(ReplyHeader(pkt, 20, 6), 6, ResetSegment(pkt, off), 16))
    case Unreachable =>
      var seg := UnreachableSegment(pkt);
      Some(Checksummed(ReplyHeader(pkt, |seg|, 58), 58, seg, 2))
  }

  // ---------------------------------------------------------------- laws

  lemma {:induction false} ChecksummedVerifies(header: seq<byte>, nh: byte, seg: seq<byte>, at: nat)
    requires |header| == 40 && at + 1 < |seg| && at % 2 == 0 && Word(seg, at) == 0 && nh > 0
    ensures Verifies(Checksummed(header, nh, seg, at), nh)
  {
    hide Fold;
    var rest := PseudoSum(header, nh, |seg|) + Sum16(seg);
    var r := Checksummed(header, nh, seg, at);
    SumPut16(seg, at, 65535 - Fold(rest));
    ComplementVerifies(rest, 0);
    assert r[8..24] == header[8..24] && r[24..40] == header[24..40];
    assert r[40..] == Put16(seg, at, 65535 - Fold(rest));
  }

  lemma ResetBytes(pkt: seq<byte>, off: nat)
    requires |pkt| >= 40 && Resettable(pkt, off)
    ensures var s := ResetSegment(pkt, off);
            && Word(s, 0) == Word(pkt, off + 2) && Word(s, 2) == Word(pkt, off)
            && s[12] == 0x50 && s[13] == (if HasAck(pkt, off) then 0x04 else 0x14)
            && s[14..16] == [0, 0] && Word(s, 16) == 0 && s[18..20] == [0, 0]
            && Word32(s, 4) == (if HasAck(pkt, off) then Word32(pkt, off + 8) else 0)
            && Word32(s, 8)
               == (if HasAck(pkt, off) then 0 else (Word32(pkt, off + 4) + SegmentLength(pkt, off)) % TWO32)
  {
    hide SegmentLength;
    var ack := HasAck(pkt, off);
    var rseq := if ack then Word32(pkt, off + 8) else 0;
    var rack := if ack then 0 else (Word32(pkt, off + 4) + SegmentLength(pkt, off)) % TWO32;
    var s := ResetSegment(pkt, off);
    var tail: seq<byte> := [0x50, if ack then 0x04 else 0x14, 0, 0, 0, 0, 0, 0];
    FiveParts(pkt[off + 2..off + 4], pkt[off..off + 2], BigEndian(4, rseq), BigEndian(4, rack), tail);
    hide BigEndian, Word32, ResetSegment;
    Word32OfBigEndian(s, 4, rseq);
    Word32OfBigEndian(s, 8, rack);
  }

  lemma FiveParts(a: seq<byte>, b: seq<byte>, c: seq<byte>, d: seq<byte>, t: seq<byte>)
    requires |a| == |b| == 2 && |c| == |d| == 4 && |t| == 8
    ensures var s := a + b + c + d + t;
            && |s| == 20 && s[0] == a[0] && s[1] == a[1] && s[2] == b[0] && s[3] == b[1]
            && s[4..8] == c && s[8..12] == d
            && s[12] == t[0] && s[13] == t[1] && s[14..16] == t[2..4] && s[16] == t[4] && s[17] == t[5]
            && s[18..20] == t[6..8]
  {
  }

  lemma Word32OfBigEndian(s: seq<byte>, i: nat, v: nat)
    requires i + 4 <= |s| && s[i..i + 4] == BigEndian(4, v) && v < TWO32
    ensures Word32(s, i) == v
  {
    var b := BigEndian(4, v);
    assert b[3] == v % 256 && b[..3] == BigEndian(3, v / 256);
    assert b[..3][2] == v / 256 % 256 && b[..3][..2] == BigEndian(2, v / 256 / 256);
    assert b[..3][..2][1] == v / 256 / 256 % 256 && b[..3][..2][..1] == BigEndian(1, v / 256 / 256 / 256);
    assert b[..3][..2][..1][0] == v / 256 / 256 / 256 % 256;
    assert s[i] == b[0] && s[i + 1] == b[1] && s[i + 2] == b[2] && s[i + 3] == b[3];
  }

  /** What every reply has: the exchanged addresses, its own length, and a checksum that verifies. */
  ghost predicate WellFormedReply(pkt: seq<byte>, r: seq<byte>, nh: byte)
    requires |pkt| >= 40
  {
    && 48 <= |r| <= 1280 && r[..4] == [0x60, 0, 0, 0] && r[6] == nh && r[7] == 64 && Word(r, 4) == |r| - 40
    && r[8..24] == pkt[24..40] && r[24..40] == pkt[8..24]
    && Verifies(r, nh)
  }

  /**
   A reset follows section 3.5.2 of RFC 9293: ports exchanged, and the sequence number of the
   segment's acknowledgment, or zero and an acknowledgment of the whole segment.
   */
  lemma {:induction false} ResetIsCorrect(pkt: seq<byte>)
    requires AnswerTo(pkt).Reset?
    ensures var off := AnswerTo(pkt).off;
            var r := ReplyTo(pkt).value;
            && WellFormedReply(pkt, r, 6) && |r| == 60
            && Word(r, 40) == Word(pkt, off + 2) && Word(r, 42) == Word(pkt, off)
            && r[52] == 0x50 && r[54..56] == [0, 0] && r[58..60] == [0, 0]
            && (if (pkt[off + 13] / 16) % 2 == 1 then
                  Word32(r, 44) == Word32(pkt, off + 8) && Word32(r, 48) == 0 && r[53] == 0x04
                else && Word32(r, 44) == 0 && r[53] == 0x14
                     && var payload := Min(40 + Word(pkt, 4), |pkt|) - off - 4 * (pkt[off + 12] / 16) as int;
                        var flags := (pkt[off + 13] / 2) % 2 + pkt[off + 13] % 2;
                        Word32(r, 48) == (Word32(pkt, off + 4) + Max(payload, 0) + flags) % TWO32)
  {
    AckedLength(pkt, AnswerTo(pkt).off);
    hide SegmentLength, AnswerTo, Fold, Sum16, ResetSegment, Verifies, Checksummed, ReplyHeader, Word32;
    var off := AnswerTo(pkt).off;
    var h, seg := ReplyHeader(pkt, 20, 6), ResetSegment(pkt, off);
    ResetBytes(pkt, off);
    HeaderBytes(pkt, 20, 6);
    ChecksummedVerifies(h, 6, seg, 16);
    ReplyBytes(h, 6, seg, 16);
    ResetFields(ReplyTo(pkt).value, seg);
  }

  lemma ResetFields(r: seq<byte>, seg: seq<byte>)
    requires |r| == 60 && |seg| == 20
    requires forall k :: 40 <= k < |r| && k - 40 != 16 && k - 40 != 17 ==> r[k] == seg[k - 40]
    ensures Word(r, 40) == Word(seg, 0) && Word(r, 42) == Word(seg, 2)
    ensures Word32(r, 44) == Word32(seg, 4) && Word32(r, 48) == Word32(seg, 8)
    ensures r[52] == seg[12] && r[53] == seg[13] && r[54..56] == seg[14..16] && r[58..60] == seg[18..20]
  {
  }

  lemma AckedLength(pkt: seq<byte>, off: nat)
    requires |pkt| >= 40 && Resettable(pkt, off)
    ensures var payload := Min(40 + Word(pkt, 4), |pkt|) - off - 4 * (pkt[off + 12] / 16) as int;
            SegmentLength(pkt, off) == Max(payload, 0) + (pkt[off + 13] / 2) % 2 + pkt[off + 13] % 2
  {
  }

  lemma HeaderBytes(pkt: seq<byte>, payloadLen: nat, nh: byte)
    requires |pkt| >= 40 && payloadLen < 0x1_0000
    ensures var h := ReplyHeader(pkt, payloadLen, nh);
            && h[..4] == [0x60, 0, 0, 0] && h[6] == nh && h[7] == 64 && Word(h, 4) == payloadLen
            && h[8..24] == pkt[24..40] && h[24..40] == pkt[8..24]
  {
    var h := ReplyHeader(pkt, payloadLen, nh);
    var b := BigEndian(2, payloadLen);
    assert b[1] == payloadLen % 256 && b[..1] == BigEndian(1, payloadLen / 256);
    assert b[..1][0] == payloadLen / 256 % 256;
    assert h[4] == b[0] && h[5] == b[1];
  }

  /** Header and segment in a reply: all bytes but the checksum are theirs. */
  lemma ReplyBytes(header: seq<byte>, nh: byte, seg: seq<byte>, at: nat)
    requires |header| == 40 && at + 1 < |seg|
    ensures var r := Checksummed(header, nh, seg, at);
            && r[..4] == header[..4] && r[8..24] == header[8..24] && r[24..40] == header[24..40]
            && (forall k :: 0 <= k < 40 ==> r[k] == header[k])
            && (forall k :: 40 <= k < |r| && k - 40 != at && k - 40 != at + 1 ==> r[k] == seg[k - 40])
            && r[40 + at + 2..] == seg[at + 2..]
  {
    hide Fold, Sum16;
  }

  /** An unreachable message is type 1, code 1 and quotes as much of the packet as fits (section 3.1 of RFC 4443). */
  lemma {:induction false} UnreachableIsCorrect(pkt: seq<byte>)
    requires AnswerTo(pkt).Unreachable?
    ensures var r := ReplyTo(pkt).value;
            && WellFormedReply(pkt, r, 58) && r[40] == 1 && r[41] == 1 && r[44..48] == [0, 0, 0, 0]
            && r[48..] == pkt[..Min(|pkt|, 1280 - 48)]
  {
    hide AnswerTo, Fold, Sum16, Verifies, Checksummed, ReplyHeader;
    var seg := UnreachableSegment(pkt);
    var h := ReplyHeader(pkt, |seg|, 58);
    HeaderBytes(pkt, |seg|, 58);
    ChecksummedVerifies(h, 58, seg, 2);
    ReplyBytes(h, 58, seg, 2);
    var r := ReplyTo(pkt).value;
    assert r[44..48] == r[44..][..4] == seg[4..8];
    assert r[48..] == r[44..][4..] == seg[8..];
  }

  /** A reply is itself never answered, so two hosts cannot keep each other busy. */
  lemma RepliesAreNotAnswered(pkt: seq<byte>)
    requires ReplyTo(pkt).Some?
    ensures AnswerTo(ReplyTo(pkt).value).Silence?
  {
    var r := ReplyTo(pkt).value;
    if AnswerTo(pkt).Reset? {
      ResetIsCorrect(pkt);
      hide ReplyTo, Verifies, AnswerTo;
      ResetIsSilent(r);
    } else {
      UnreachableIsCorrect(pkt);
      hide ReplyTo, Verifies, AnswerTo;
      UnreachableIsSilent(r);
    }
  }

  lemma ResetIsSilent(r: seq<byte>)
    requires |r| == 60 && r[6] == 6 && r[53] in {0x04, 0x14}
    ensures AnswerTo(r).Silence?
  {
    assert Walk(r, r[6], 40) == Some((6, 40));
    assert !Resettable(r, 40);
  }

  lemma UnreachableIsSilent(r: seq<byte>)
    requires |r| >= 48 && r[6] == 58 && r[40] == 1
    ensures AnswerTo(r).Silence?
  {
    assert Walk(r, r[6], 40) == Some((58, 40));
  }

  /**
   The promise that no packet to or from an unspecified address is answered: no reply goes to one,
   and a reply comes from one, if and only if the packet was sent to one.
   */
  lemma UnspecifiedExactly(pkt: seq<byte>)
    requires ReplyTo(pkt).Some?
    ensures var r := ReplyTo(pkt).value;
            && !AllZero(r[24..40]) && r[24] != 0xff && r[8] != 0xff
            && (AllZero(r[8..24]) <==> AllZero(pkt[24..40]))
  {
    if AnswerTo(pkt).Reset? {
      ResetIsCorrect(pkt);
    } else {
      UnreachableIsCorrect(pkt);
    }
    hide ReplyTo, Verifies, Walk;
    var r := ReplyTo(pkt).value;
    SliceHead(r, 8, 24);
    SliceHead(r, 24, 40);
    SliceHead(pkt, 8, 24);
    SliceHead(pkt, 24, 40);
  }

  lemma SliceHead(s: seq<byte>, i: nat, j: nat)
    requires i < j <= |s|
    ensures s[i..j][0] == s[i]
  {
  }

  /** A UDP packet to the unspecified address is answered, from the unspecified address. */
  lemma UnspecifiedIsAnswered()
    ensures var pkt: seq<byte> := [0x60, 0, 0, 0, 0, 0, 17, 64] + seq(16, i => 1) + seq(16, i => 0);
            ReplyTo(pkt).Some? && AllZero(ReplyTo(pkt).value[8..24])
  {
    var pkt: seq<byte> := [0x60, 0, 0, 0, 0, 0, 17, 64] + seq(16, i => 1) + seq(16, i => 0);
    assert pkt[8..24][0] == 1 && pkt[6] == 17;
    assert AllZero(pkt[24..40]);
    assert AnswerTo(pkt) == Unreachable;
    UnspecifiedExactly(pkt);
  }

  // ---------------------------------------------------------------- in place

  /** The checksum of a segment whose checksum field is zero. */
  method Ipv6Checksum(src: seq<byte>, dst: seq<byte>, nh: byte, seg: seq<byte>) returns (c: nat)
    requires |src| == |dst| == 16 && |seg| <= MIN_MTU
    ensures c == 65535 - Fold(Sum16(src) + Sum16(dst) + |seg| / 0x1_0000 + |seg| % 0x1_0000 + nh as int + Sum16(seg))
  {
    hide Sum16, Fold;
    var a := OnesSum(src);
    var b := OnesSum(dst);
    var d := OnesSum(seg);
    SumBound(src);
    SumBound(dst);
    SumBound(seg);
    var f := FoldSum(a + b + |seg| / 0x1_0000 + |seg| % 0x1_0000 + nh as int + d);
    c := 65535 - f;
  }

  /** Writes header and segment and fills in the checksum; the rest of the buffer is untouched. */
  method WriteReply(out: array<byte>, header: seq<byte>, nh: byte, seg: seq<byte>, at: nat) returns (n: nat)
    requires |header| == 40 && at + 1 < |seg| && 40 + |seg| <= MIN_MTU <= out.Length
    modifies out
    ensures n == 40 + |seg| && out[..n] == Checksummed(header, nh, seg, at) && out[n..] == old(out[n..])
  {
    hide Sum16, Fold, Put16, Overwrite;
    n := 40 + |seg|;
    ghost var was, tail := out[..], out[n..];
    WriteBytes(out, 0, header);
    WriteBytes(out, 40, seg);
    HeaderAndSegment(was, header, seg);
    var c := Ipv6Checksum(out[8..24], out[24..40], nh, out[40..n]);
    Store16(out, 40 + at, c);
    PutInside(header, seg, tail, at, c);
  }

  lemma HeaderAndSegment(w: seq<byte>, header: seq<byte>, seg: seq<byte>)
    requires |header| == 40 && 40 + |seg| <= |w|
    ensures var n, p := 40 + |seg|, Overwrite(Overwrite(w, 0, header), 40, seg);
            && p == header + seg + w[n..]
            && p[8..24] == header[8..24] && p[24..40] == header[24..40] && p[40..n] == seg
  {
    var n, p := 40 + |seg|, Overwrite(Overwrite(w, 0, header), 40, seg);
    assert p == header + seg + w[n..];
    assert p[..40] == header;
    assert p[8..24] == p[..40][8..24] && p[24..40] == p[..40][24..40];
  }

  lemma PutInside(a: seq<byte>, b: seq<byte>, c: seq<byte>, at: nat, v: nat)
    requires at + 1 < |b| && v < 0x1_0000
    ensures Put16(a + b + c, |a| + at, v) == a + Put16(b, at, v) + c
  {
  }

  /** The reply to pkt in the first n bytes of out, whatever out held before. */
  method BuildIPv6Reject(pkt: seq<byte>, out: array<byte>) returns (n: nat, ok: bool)
    modifies out
    ensures ok <==> out.Length >= MIN_MTU && ReplyTo(pkt).Some?
    ensures !ok ==> n == 0 && out[..] == old(out[..])
    ensures ok ==> n <= out.Length && out[..n] == ReplyTo(pkt).value && out[n..] == old(out[n..])
  {
    hide Checksummed, ReplyHeader, ResetSegment, UnreachableSegment, Walk;
    if |pkt| < 40 || pkt[0] / 16 != 6 || out.Length < MIN_MTU { return 0, false; }
    if pkt[24] == 0xff || pkt[8] == 0xff || AllZero(pkt[8..24]) { return 0, false; }
    var upper := FindUpperLayer(pkt);
    if upper.None? { return 0, false; }
    var (nh, off) := upper.value;
    if nh == 6 {
      if !Resettable(pkt, off) { return 0, false; }
      n := WriteReply(out, ReplyHeader(pkt, 20, 6), 6, ResetSegment(pkt, off), 16);
      return n, true;
    }
    if nh == 58 && |pkt| > off && pkt[off] < 128 { return 0, false; }
    var seg := UnreachableSegment(pkt);
    n := WriteReply(out, ReplyHeader(pkt, |seg|, 58), 58, seg, 2);
    ok := true;
  }
}

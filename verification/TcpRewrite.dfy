/**
 The server's packet rewriter: locating the TCP header, checksums, and the
 in-place MSS rewrite with its incremental checksum patch.
 */
module TcpRewrite {
  import opened Bytes
  import opened OnesComplement

  const EXTERNAL_MSS4 := 1460
  const EXTERNAL_MSS6 := 1440
  const MIN_CLIENT_MTU := 1280
  const MAX_TUNNEL_MTU := 1420
  const PROTO_TCP := 6

  function TunnelMTUFor(configured: int): (mtu: nat)
    ensures mtu == if 0 < configured <= 1420 then configured else 1420
  {
    if configured <= 0 || configured > MAX_TUNNEL_MTU then MAX_TUNNEL_MTU else configured
  }

  // ---------------------------------------------------------------- layout

  /** Where the TCP header sits: IP header length, TCP header length and IP total length. */
  datatype Layout = Layout(v6: bool, ipLen: nat, tcpLen: nat, total: nat) {
    function HeaderLen(): nat { ipLen + tcpLen }

    function Overhead(): nat { if v6 then 60 else 40 }

    predicate Fits(pkt: seq<byte>) {
      && 20 <= tcpLen <= 60 && tcpLen % 4 == 0
      && ipLen + tcpLen <= total <= |pkt|
      && (if v6 then ipLen == 40 && total <= 40 + 65535
          else 20 <= ipLen <= 60 && ipLen % 4 == 0 && total <= 65535)
    }
  }

  /** The IP header length and total length of an unfragmented IPv4 or plain IPv6 TCP packet. */
  function LocateIP(pkt: seq<byte>): Option<(bool, nat, nat)> {
    if |pkt| < 1 then None
    else if pkt[0] / 16 == 4 then
      if |pkt| < 20 then None
      else
        var ihl := (pkt[0] % 16) * 4;
        var total := Word(pkt, 2);
        if ihl < 20 || total < ihl || total > |pkt| || pkt[9] != PROTO_TCP then None
        else if Word(pkt, 6) % 0x4000 != 0 then None
        else Some((false, ihl, total))
    else if pkt[0] / 16 == 6 then
      if |pkt| < 40 || pkt[6] != PROTO_TCP then None
      else
        var total := 40 + Word(pkt, 4);
        if total > |pkt| then None else Some((true, 40, total))
    else None
  }

  function LocateTCP(pkt: seq<byte>): (r: Option<Layout>)
    ensures r.Some? ==> r.value.Fits(pkt)
  {
    match LocateIP(pkt)
    case None => None
    case Some((v6, ipLen, total)) =>
      if total < ipLen + 20 then None
      else
        var tcpLen := (pkt[ipLen + 12] / 16) * 4;
        if tcpLen < 20 || ipLen + tcpLen > total then None
        else Some(Layout(v6, ipLen, tcpLen, total))
  }

  /**
   Exactly these packets are located: TCP over IPv6 without extension headers, or over IPv4 in one
   piece, with no more fragments to come and at offset zero, whether or not it may be fragmented.
   Header and total lengths are those of the packet, and they are consistent.
   */
  lemma LocatedExactly(pkt: seq<byte>, l: Layout)
    ensures LocateTCP(pkt) == Some(l) <==>
              && l.ipLen + 20 <= l.total <= |pkt|
              && (if l.v6 then pkt[0] / 16 == 6 && l.ipLen == 40 && l.total == 40 + Word(pkt, 4) && pkt[6] == 6
                  else && pkt[0] / 16 == 4 && l.ipLen == 4 * (pkt[0] % 16) >= 20 && l.total == Word(pkt, 2)
                       && pkt[9] == 6 && pkt[6] % 64 == 0 && pkt[7] == 0)
              && l.tcpLen == 4 * (pkt[l.ipLen + 12] / 16) && 20 <= l.tcpLen <= l.total - l.ipLen
  {
    LocatedIp(pkt, l.v6, l.ipLen, l.total);
    hide LocateIP, Word;
  }

  lemma LocatedIp(pkt: seq<byte>, v6: bool, ipLen: nat, total: nat)
    ensures LocateIP(pkt) == Some((v6, ipLen, total)) <==>
              && ipLen <= total <= |pkt|
              && (if v6 then |pkt| >= 40 && pkt[0] / 16 == 6 && ipLen == 40 && total == 40 + Word(pkt, 4) && pkt[6] == 6
                  else && |pkt| >= 20 && pkt[0] / 16 == 4 && ipLen == 4 * (pkt[0] % 16) >= 20 && total == Word(pkt, 2)
                       && pkt[9] == 6 && pkt[6] % 64 == 0 && pkt[7] == 0)
  {
  }

  /** The TCP header and payload. */
  function Segment(pkt: seq<byte>, l: Layout): seq<byte>
    requires l.Fits(pkt)
  {
    pkt[l.ipLen..l.total]
  }

  // ---------------------------------------------------------------- TCP options

  predicate WellFormedOption(hdr: seq<byte>, i: nat) {
    i + 1 < |hdr| && hdr[i + 1] >= 2 && i + hdr[i + 1] as int <= |hdr|
  }

  /** The offsets of the options from i on, up to the end marker or the first malformed one. */
  function OptionOffsets(hdr: seq<byte>, i: nat): seq<nat>
    decreases |hdr| - i
  {
    if i >= |hdr| || hdr[i] == 0 then []
    else if hdr[i] == 1 then OptionOffsets(hdr, i + 1)
    else if !WellFormedOption(hdr, i) then []
    else [i] + OptionOffsets(hdr, i + hdr[i + 1])
  }

  predicate IsMssOption(hdr: seq<byte>, i: nat) {
    i + 4 <= |hdr| && hdr[i] == 2 && hdr[i + 1] == 4
  }

  /** r - 2 is the first MSS option of the option list, or there is none and r is -1. */
  predicate FirstMss(hdr: seq<byte>, offsets: seq<nat>, r: int) {
    if r < 0 then r == -1 && forall o :: o in offsets ==> !IsMssOption(hdr, o)
    else exists k | 0 <= k < |offsets| ::
           && offsets[k] == r - 2 && IsMssOption(hdr, offsets[k])
           && forall j :: 0 <= j < k ==> !IsMssOption(hdr, offsets[j])
  }

  function MssFrom(hdr: seq<byte>, i: nat): (r: int)
    ensures r == -1 || (i + 2 <= r && r + 2 <= |hdr|)
    decreases |hdr| - i
  {
    if i >= |hdr| || hdr[i] == 0 then -1
    else if hdr[i] == 1 then MssFrom(hdr, i + 1)
    else if !WellFormedOption(hdr, i) then -1
    else if hdr[i] == 2 && hdr[i + 1] == 4 then i + 2
    else MssFrom(hdr, i + hdr[i + 1])
  }

  /** The scan finds the first MSS option of the list. */
  lemma {:induction false} MssFromIsFirst(hdr: seq<byte>, i: nat)
    ensures FirstMss(hdr, OptionOffsets(hdr, i), MssFrom(hdr, i))
    decreases |hdr| - i
  {
    if i < |hdr| && hdr[i] == 1 {
      MssFromIsFirst(hdr, i + 1);
    } else if i < |hdr| && hdr[i] != 0 && WellFormedOption(hdr, i) {
      var tail := OptionOffsets(hdr, i + hdr[i + 1]);
      assert OptionOffsets(hdr, i) == [i] + tail;
      if IsMssOption(hdr, i) {
        assert ([i] + tail)[0] == i;
      } else {
        MssFromIsFirst(hdr, i + hdr[i + 1]);
        FirstMssCons(hdr, i, tail, MssFrom(hdr, i + hdr[i + 1]));
      }
    }
  }

  lemma FirstMssCons(hdr: seq<byte>, i: nat, tail: seq<nat>, r: int)
    requires FirstMss(hdr, tail, r) && !IsMssOption(hdr, i)
    ensures FirstMss(hdr, [i] + tail, r)
  {
    hide IsMssOption;
    if r >= 0 {
      var k :| 0 <= k < |tail| && tail[k] == r - 2 && IsMssOption(hdr, tail[k])
               && forall j :: 0 <= j < k ==> !IsMssOption(hdr, tail[j]);
      assert ([i] + tail)[k + 1] == r - 2;
    }
  }

  /** The first MSS option is unique. */
  lemma FirstMssUnique(hdr: seq<byte>, offsets: seq<nat>, r: int, q: int)
    requires FirstMss(hdr, offsets, r) && FirstMss(hdr, offsets, q)
    ensures r == q
  {
    hide IsMssOption;
  }

  /** An option as a sender writes it. */
  datatype TcpOption = Nop | Opt(kind: byte, body: seq<byte>) {
    predicate Valid() { Opt? ==> kind >= 2 && |body| <= 253 }

    function Bytes(): (b: seq<byte>)
      requires Valid()
      ensures |b| == Size() > 0
    {
      match this
      case Nop => [1]
      case Opt(kind, body) => [kind, |body| + 2] + body
    }

    function Size(): nat { if Nop? then 1 else |body| + 2 }
  }

  /** The options one after the other, with an end marker and anything behind it, or up to the end of the header. */
  function OptionBytes(opts: seq<TcpOption>, rest: seq<byte>): (b: seq<byte>)
    requires forall k :: 0 <= k < |opts| ==> opts[k].Valid()
    ensures |b| >= |rest|
  {
    if opts == [] then rest else opts[0].Bytes() + OptionBytes(opts[1..], rest)
  }

  /** Where the options other than NOP begin. */
  function Places(opts: seq<TcpOption>, at: nat): seq<nat> {
    if opts == [] then []
    else (if opts[0].Nop? then [] else [at]) + Places(opts[1..], at + opts[0].Size())
  }

  /** The walk finds every option a sender writes, in order, and nothing behind an end marker. */
  lemma {:induction false} OptionsAreFound(head: seq<byte>, opts: seq<TcpOption>, rest: seq<byte>)
    requires forall k :: 0 <= k < |opts| ==> opts[k].Valid()
    requires rest == [] || rest[0] == 0
    ensures OptionOffsets(head + OptionBytes(opts, rest), |head|) == Places(opts, |head|)
    decreases |opts|
  {
    hide OptionOffsets, TcpOption.Bytes;
    if opts == [] {
      NoOptions(head, rest);
    } else {
      var b, tail := opts[0].Bytes(), OptionBytes(opts[1..], rest);
      OptionStep(head, opts[0], tail);
      assert head + (b + tail) == (head + b) + tail;
      OptionsAreFound(head + b, opts[1..], rest);
    }
  }

  lemma NoOptions(head: seq<byte>, rest: seq<byte>)
    requires rest == [] || rest[0] == 0
    ensures OptionOffsets(head + rest, |head|) == []
  {
    if rest != [] {
      assert (head + rest)[|head|] == rest[0];
    }
  }

  lemma OptionStep(head: seq<byte>, opt: TcpOption, tail: seq<byte>)
    requires opt.Valid()
    ensures var hdr := (head + opt.Bytes()) + tail;
            OptionOffsets(hdr, |head|)
            == (if opt.Nop? then [] else [|head|]) + OptionOffsets(hdr, |head + opt.Bytes()|)
  {
    var b := opt.Bytes();
    var hdr := (head + b) + tail;
    assert hdr[|head|] == b[0];
    if opt.Opt? {
      assert hdr[|head| + 1] == b[1];
    }
  }

  /** The option scan of a TCP header. */
  method MssOptionValue(hdr: seq<byte>) returns (r: int)
    ensures FirstMss(hdr, OptionOffsets(hdr, 20), r)
    ensures r == MssFrom(hdr, 20)
    ensures r >= 0 ==> 22 <= r && r + 2 <= |hdr|
  {
    MssFromIsFirst(hdr, 20);
    hide FirstMss, OptionOffsets;
    var i := 20;
    while i < |hdr|
      invariant 20 <= i && MssFrom(hdr, i) == MssFrom(hdr, 20)
    {
      if hdr[i] == 0 { return -1; }
      if hdr[i] == 1 {
        i := i + 1;
        continue;
      }
      if i + 1 >= |hdr| || hdr[i + 1] < 2 || i + hdr[i + 1] as int > |hdr| { return -1; }
      if hdr[i] == 2 && hdr[i + 1] == 4 { return i + 2; }
      i := i + hdr[i + 1];
    }
    r := -1;
  }

  // ---------------------------------------------------------------- checksums

  /** The pseudo-header sum for the addresses in ip. */
  function PseudoSum(ip: seq<byte>, v6: bool, segLen: nat): (sum: nat)
    requires |ip| >= if v6 then 40 else 20
    ensures sum > 0
  {
    Sum16(if v6 then ip[8..40] else ip[12..20]) + PROTO_TCP + segLen
  }

  /** It is the sum of the pseudo-headers of section 3.1 of RFC 9293 and section 8.1 of RFC 8200. */
  lemma PseudoHeaderSum(ip: seq<byte>, v6: bool, segLen: nat)
    requires |ip| >= (if v6 then 40 else 20) && segLen < 0x1_0000
    ensures PseudoSum(ip, v6, segLen)
            == if v6 then Sum16(ip[8..24] + ip[24..40] + [0, 0, segLen / 256, segLen % 256] + [0, 0, 0, 6])
               else Sum16(ip[12..16] + ip[16..20] + [0, 6] + [segLen / 256, segLen % 256])
  {
    hide Sum16;
    var n := [segLen / 256, segLen % 256];
    SumOfPair(segLen / 256, segLen % 256);
    SumOfPair(0, 6);
    SumOfPair(0, 0);
    if v6 {
      var a := ip[8..24] + ip[24..40];
      assert a == ip[8..40];
      assert a + [0, 0, segLen / 256, segLen % 256] + [0, 0, 0, 6] == a + ([0, 0] + (n + ([0, 0] + [0, 6])));
      SumConcat(a, [0, 0] + (n + ([0, 0] + [0, 6])));
      SumConcat([0, 0], n + ([0, 0] + [0, 6]));
      SumConcat(n, [0, 0] + [0, 6]);
      SumConcat([0, 0], [0, 6]);
    } else {
      var a := ip[12..16] + ip[16..20];
      assert a == ip[12..20];
      assert a + [0, 6] + n == a + ([0, 6] + n);
      SumConcat(a, [0, 6] + n);
      SumConcat([0, 6], n);
    }
  }

  lemma SumOfPair(a: byte, b: byte)
    ensures Sum16([a, b]) == a as int * 256 + b as int
  {
    assert [a, b][2..] == [];
  }

  /** What a receiver checks: the whole one's-complement sum is all ones. */
  predicate TcpValid(ip: seq<byte>, v6: bool, tcp: seq<byte>)
    requires |ip| >= if v6 then 40 else 20
  {
    Fold(PseudoSum(ip, v6, |tcp|) + Sum16(tcp)) == 65535
  }

  predicate Ipv4Valid(h: seq<byte>) {
    Fold(Sum16(h)) == 65535
  }

  /** tcp with its checksum recomputed from scratch. */
  function WithTcpChecksum(ip: seq<byte>, v6: bool, tcp: seq<byte>): (r: seq<byte>)
    requires |ip| >= if v6 then 40 else 20
    requires |tcp| >= 18
    ensures |r| == |tcp|
    ensures forall k :: 0 <= k < |tcp| && k != 16 && k != 17 ==> r[k] == tcp[k]
  {
    var z := Put16(tcp, 16, 0);
    Put16(z, 16, 65535 - Fold(PseudoSum(ip, v6, |tcp|) + Sum16(z)))
  }

  function WithIpv4Checksum(h: seq<byte>): (r: seq<byte>)
    requires |h| >= 12
    ensures |r| == |h|
    ensures forall k :: 0 <= k < |h| && k != 10 && k != 11 ==> r[k] == h[k]
  {
    var z := Put16(h, 10, 0);
    Put16(z, 10, 65535 - Fold(Sum16(z)))
  }

  /** A recomputed TCP checksum verifies, and it is the only stored value below 0xffff that does. */
  lemma {:induction false} TcpChecksumVerifies(ip: seq<byte>, v6: bool, tcp: seq<byte>)
    requires |ip| >= if v6 then 40 else 20
    requires |tcp| >= 18
    ensures TcpValid(ip, v6, WithTcpChecksum(ip, v6, tcp))
    ensures Word(WithTcpChecksum(ip, v6, tcp), 16) != 65535
    ensures Word(tcp, 16) != 65535 ==> (TcpValid(ip, v6, tcp) <==> tcp == WithTcpChecksum(ip, v6, tcp))
  {
    hide Sum16, Fold, Word;
    var z := Put16(tcp, 16, 0);
    var rest := PseudoSum(ip, v6, |tcp|) + Sum16(z);
    SumPut16(tcp, 16, 0);
    SumPut16(z, 16, 65535 - Fold(rest));
    ComplementVerifies(rest, Word(tcp, 16));
    SameWord(tcp, WithTcpChecksum(ip, v6, tcp), 16);
  }

  /** Byte strings that agree outside a word are equal iff the word is. */
  lemma SameWord(a: seq<byte>, b: seq<byte>, i: nat)
    requires |a| == |b| && i + 1 < |a|
    requires forall k :: 0 <= k < |a| && k != i && k != i + 1 ==> a[k] == b[k]
    ensures a == b <==> Word(a, i) == Word(b, i)
  {
    if Word(a, i) == Word(b, i) {
      assert a[i] == b[i] && a[i + 1] == b[i + 1];
    }
  }

  /** Only the addresses of the IP header enter the TCP checksum. */
  lemma SameAddresses(a: seq<byte>, b: seq<byte>, v6: bool, tcp: seq<byte>)
    requires |a| >= (if v6 then 40 else 20) && |b| >= (if v6 then 40 else 20)
    requires if v6 then a[8..40] == b[8..40] else a[12..20] == b[12..20]
    ensures TcpValid(a, v6, tcp) <==> TcpValid(b, v6, tcp)
    ensures |tcp| >= 18 ==> WithTcpChecksum(a, v6, tcp) == WithTcpChecksum(b, v6, tcp)
  {
    hide Sum16, Fold;
    assert PseudoSum(a, v6, |tcp|) == PseudoSum(b, v6, |tcp|);
  }

  lemma {:induction false} Ipv4ChecksumVerifies(h: seq<byte>)
    requires |h| >= 12 && h[0] > 0
    ensures Ipv4Valid(WithIpv4Checksum(h))
  {
    var z := Put16(h, 10, 0);
    SumPut16(h, 10, 0);
    SumPut16(z, 10, 65535 - Fold(Sum16(z)));
    SumPositive(z, 0);
    ComplementVerifies(Sum16(z), 0);
  }

  /** The folded sum over the pseudo-header and the segment. */
  method TcpSum(ip: seq<byte>, v6: bool, tcp: seq<byte>) returns (f: nat)
    requires |ip| >= if v6 then 40 else 20
    requires |tcp| <= 65535
    ensures f == Fold(PseudoSum(ip, v6, |tcp|) + Sum16(tcp))
  {
    var addresses := if v6 then ip[8..40] else ip[12..20];
    var pseudo := OnesSum(addresses);
    var body := OnesSum(tcp);
    SumBound(addresses);
    SumBound(tcp);
    f := FoldSum(pseudo + PROTO_TCP + |tcp| + body);
  }

  /** Recomputes the checksum of buf[ipLen..] in place. */
  method SetTCPChecksum(buf: array<byte>, ipLen: nat, v6: bool)
    requires (if v6 then 40 else 20) <= ipLen && ipLen + 18 <= buf.Length <= ipLen + 65535
    modifies buf
    ensures buf[..] == old(buf[..ipLen]) + WithTcpChecksum(old(buf[..]), v6, old(buf[ipLen..]))
  {
    ghost var ip, tcp := buf[..], buf[ipLen..];
    buf[ipLen + 16], buf[ipLen + 17] := 0, 0;
    ghost var z := Put16(tcp, 16, 0);
    assert buf[ipLen..] == z;
    var f := TcpSum(buf[..], v6, buf[ipLen..]);
    assert if v6 then buf[..][8..40] == ip[8..40] else buf[..][12..20] == ip[12..20];
    buf[ipLen + 16], buf[ipLen + 17] := (65535 - f) / 256, (65535 - f) % 256;
    assert buf[ipLen..] == WithTcpChecksum(ip, v6, tcp);
    assert buf[..] == buf[..ipLen] + buf[ipLen..];
  }

  /** Recomputes the checksum of the IPv4 header buf[..ihl] in place. */
  method SetIPv4Checksum(buf: array<byte>, ihl: nat)
    requires 20 <= ihl <= 60 && ihl <= buf.Length
    modifies buf
    ensures buf[..] == WithIpv4Checksum(old(buf[..ihl])) + old(buf[ihl..])
  {
    ghost var h := buf[..ihl];
    buf[10], buf[11] := 0, 0;
    assert buf[..ihl] == Put16(h, 10, 0);
    var sum := OnesSum(buf[..ihl]);
    SumBound(Put16(h, 10, 0));
    var f := FoldSum(sum);
    buf[10], buf[11] := (65535 - f) / 256, (65535 - f) % 256;
    assert buf[..ihl] == WithIpv4Checksum(h);
    assert buf[..] == buf[..ihl] + buf[ihl..];
  }

  // ---------------------------------------------------------------- MSS rewriting

  /** idx is the offset of an MSS value behind the fixed header; its aligned words are in tcp. */
  predicate MssOffset(tcp: seq<byte>, idx: int) {
    22 <= idx && idx + 2 + idx % 2 <= |tcp|
  }

  /** The words touched by a 16-bit value at idx. */
  function Start(idx: nat): nat { idx - idx % 2 }
  function End(idx: nat): nat { idx + 2 + idx % 2 }

  /** The incremental update HC' = ~(~HC + ~m + m') of equation 3 in section 3 of RFC 1624. */
  function PatchedChecksum(hc: nat, m: nat, mNew: nat): (r: nat)
    requires hc < 0x1_0000 && m < 0x1_0000 && mNew < 0x1_0000
    ensures r < 0x1_0000
  {
    65535 - Fold((65535 - hc) + (65535 - m) + mNew)
  }

  /** tcp with mss written at idx and its checksum patched. */
  function PatchMss(tcp: seq<byte>, idx: nat, mss: nat): (r: seq<byte>)
    requires MssOffset(tcp, idx) && mss < 0x1_0000
    ensures |r| == |tcp| && Word(r, idx) == mss
    ensures forall k :: 0 <= k < |tcp| && k !in {16, 17, idx, idx + 1} ==> r[k] == tcp[k]
  {
    var t := Put16(tcp, idx, mss);
    var m, mNew := Fold(Sum16(tcp[Start(idx)..End(idx)])), Fold(Sum16(t[Start(idx)..End(idx)]));
    Put16(t, 16, PatchedChecksum(Word(tcp, 16), m, mNew))
  }

  /** The patch moves the checksum by the difference of the folded words. */
  lemma PatchCongruence(hc: nat, m: nat, mNew: nat)
    requires hc < 0x1_0000 && m < 0x1_0000 && mNew < 0x1_0000
    ensures (PatchedChecksum(hc, m, mNew) + mNew) % 65535 == (hc + m) % 65535
    ensures PatchedChecksum(hc, m, mNew) == 65535 <==> hc == 65535 && m == 65535 && mNew == 0
  {
    var x := (65535 - hc) + (65535 - m) + mNew;
    var q := FoldQuotient(x);
    ModShift(PatchedChecksum(hc, m, mNew) + mNew, hc + m, q - 1);
  }

  /** Writing at idx exchanges the sum of the touched words, even or odd. */
  lemma {:induction false} WriteChangesSum(tcp: seq<byte>, idx: nat, mss: nat)
    requires MssOffset(tcp, idx) && mss < 0x1_0000
    ensures var t := Put16(tcp, idx, mss);
            Sum16(t) == Sum16(tcp) - Sum16(tcp[Start(idx)..End(idx)]) + Sum16(t[Start(idx)..End(idx)])
    ensures Sum16(tcp) >= Sum16(tcp[Start(idx)..End(idx)]) + Word(tcp, 16)
  {
    var lo, hi := Start(idx), End(idx);
    var t := Put16(tcp, idx, mss);
    SumSplit(tcp, lo, hi);
    SumSplit(t, lo, hi);
    assert t[..lo] == tcp[..lo] && t[hi..] == tcp[hi..];
    SumSplit(tcp[..lo], 16, 18);
    assert tcp[..lo][16..18] == tcp[16..18];
    SumOfWord(tcp, 16);
  }

  /** Whatever the rewrite does, the whole sum stays the same modulo 65535. */
  lemma {:induction false} PatchKeepsSum(tcp: seq<byte>, idx: nat, mss: nat)
    requires MssOffset(tcp, idx) && mss < 0x1_0000
    ensures Sum16(PatchMss(tcp, idx, mss)) % 65535 == Sum16(tcp) % 65535
  {
    hide Sum16, Fold, PatchedChecksum;
    var t := Put16(tcp, idx, mss);
    var a, b := Sum16(tcp[Start(idx)..End(idx)]), Sum16(t[Start(idx)..End(idx)]);
    var hc := Word(tcp, 16);
    var c := PatchedChecksum(hc, Fold(a), Fold(b));
    WriteChangesSum(tcp, idx, mss);
    SumPut16(t, 16, c);
    assert Word(t, 16) == hc;
    PatchCongruence(hc, Fold(a), Fold(b));
    SumsCongruent(Sum16(tcp) - a - hc, hc, a, c, b, Fold(a), Fold(b));
  }

  lemma SumsCongruent(rest: nat, hc: nat, a: nat, c: nat, b: nat, m: nat, mNew: nat)
    requires a % 65535 == m % 65535 && b % 65535 == mNew % 65535
    requires (c + mNew) % 65535 == (hc + m) % 65535
    ensures (rest + c + b) % 65535 == (rest + hc + a) % 65535
  {
    assert (c + b) % 65535 == (c + mNew) % 65535;
    assert (hc + a) % 65535 == (hc + m) % 65535;
  }

  /** The rewritten segment verifies iff the original did, at even and odd offsets alike. */
  lemma {:induction false} PatchKeepsVerdict(ip: seq<byte>, v6: bool, tcp: seq<byte>, idx: nat, mss: nat)
    requires |ip| >= if v6 then 40 else 20
    requires MssOffset(tcp, idx) && mss < 0x1_0000
    ensures TcpValid(ip, v6, PatchMss(tcp, idx, mss)) <==> TcpValid(ip, v6, tcp)
  {
    hide Sum16, Fold, PatchMss;
    PatchKeepsSum(tcp, idx, mss);
    SameVerdict(PseudoSum(ip, v6, |tcp|), Sum16(PatchMss(tcp, idx, mss)), Sum16(tcp));
  }

  /** The one input where the incremental form leaves the redundant encoding of zero behind. */
  predicate Degenerate(tcp: seq<byte>, idx: nat, mss: nat)
    requires MssOffset(tcp, idx) && mss < 0x1_0000
  {
    && Word(tcp, 16) == 65535
    && Fold(Sum16(tcp[Start(idx)..End(idx)])) == 65535
    && Sum16(Put16(tcp, idx, mss)[Start(idx)..End(idx)]) == 0
  }

  /**
   Bit for bit: the incremental result is the full recomputation exactly when the old
   checksum verified, degenerate case aside; a non-zero MSS is never degenerate.
   */
  lemma {:induction false} PatchIsRecomputation(ip: seq<byte>, v6: bool, tcp: seq<byte>, idx: nat, mss: nat)
    requires |ip| >= if v6 then 40 else 20
    requires MssOffset(tcp, idx) && mss < 0x1_0000
    ensures PatchMss(tcp, idx, mss) == WithTcpChecksum(ip, v6, Put16(tcp, idx, mss))
            <==> TcpValid(ip, v6, tcp) && !Degenerate(tcp, idx, mss)
    ensures mss != 0 ==> !Degenerate(tcp, idx, mss)
  {
    var t := Put16(tcp, idx, mss);
    var r := PatchMss(tcp, idx, mss);
    PatchKeepsVerdict(ip, v6, tcp, idx, mss);
    TcpChecksumVerifies(ip, v6, r);
    ChecksumIgnoresOld(ip, v6, r, t);
    PatchEndsAtAllOnes(tcp, idx, mss);
  }

  /** A recomputation does not depend on the checksum stored before. */
  lemma ChecksumIgnoresOld(ip: seq<byte>, v6: bool, a: seq<byte>, b: seq<byte>)
    requires |ip| >= if v6 then 40 else 20
    requires |a| == |b| >= 18
    requires forall k :: 0 <= k < |a| && k != 16 && k != 17 ==> a[k] == b[k]
    ensures WithTcpChecksum(ip, v6, a) == WithTcpChecksum(ip, v6, b)
  {
    assert Put16(a, 16, 0) == Put16(b, 16, 0);
  }

  lemma {:induction false} PatchEndsAtAllOnes(tcp: seq<byte>, idx: nat, mss: nat)
    requires MssOffset(tcp, idx) && mss < 0x1_0000
    ensures Word(PatchMss(tcp, idx, mss), 16) == 65535 <==> Degenerate(tcp, idx, mss)
    ensures mss != 0 ==> !Degenerate(tcp, idx, mss)
  {
    hide Sum16, Fold, PatchedChecksum;
    var t := Put16(tcp, idx, mss);
    var w := t[Start(idx)..End(idx)];
    PatchCongruence(Word(tcp, 16), Fold(Sum16(tcp[Start(idx)..End(idx)])), Fold(Sum16(w)));
    if mss != 0 {
      MssIsSeen(tcp, idx, mss);
    }
  }

  lemma MssIsSeen(tcp: seq<byte>, idx: nat, mss: nat)
    requires MssOffset(tcp, idx) && 0 < mss < 0x1_0000
    ensures Sum16(Put16(tcp, idx, mss)[Start(idx)..End(idx)]) > 0
  {
    hide Sum16;
    var t := Put16(tcp, idx, mss);
    var w := t[Start(idx)..End(idx)];
    var k := if t[idx] != 0 then idx else idx + 1;
    assert w[k - Start(idx)] == t[k];
    SumPositive(w, k - Start(idx));
  }
}

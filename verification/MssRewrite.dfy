/**
 Raising the MSS of uplink SYNs and lowering the MSS of downlink SYNs, in place.
 */
module MssRewrite {
  import opened Bytes
  import opened Buffers
  import opened OnesComplement
  import opened TcpRewrite

  /** The layout and MSS value offset of a SYN that carries an MSS option. */
  function SynMss(pkt: seq<byte>): (r: Option<(Layout, nat)>)
    ensures r.Some? ==> r.value.0.Fits(pkt) && MssOffset(Segment(pkt, r.value.0), r.value.1)
  {
    match LocateTCP(pkt)
    case None => None
    case Some(l) =>
      var tcp := Segment(pkt, l);
      if (tcp[13] / 2) % 2 == 0 then None
      else
        var idx := MssFrom(tcp[..l.tcpLen], 20);
        if idx < 0 then None else Some((l, idx))
  }

  function MssAt(pkt: seq<byte>, l: Layout, idx: nat): nat
    requires l.Fits(pkt) && MssOffset(Segment(pkt, l), idx)
  {
    Word(Segment(pkt, l), idx)
  }

  /** pkt with the MSS at idx replaced and the TCP checksum patched. */
  function RewriteMss(pkt: seq<byte>, l: Layout, idx: nat, mss: nat): (r: seq<byte>)
    requires l.Fits(pkt) && MssOffset(Segment(pkt, l), idx) && mss < 0x1_0000
    ensures |r| == |pkt|
  {
    pkt[..l.ipLen] + PatchMss(Segment(pkt, l), idx, mss) + pkt[l.total..]
  }

  /** The uplink packet after normalisation and the client's MTU, 0 when there is no MSS to read. */
  function NormalizeUplink(pkt: seq<byte>): (r: (seq<byte>, nat))
    ensures |r.0| == |pkt|
  {
    match SynMss(pkt)
    case None => (pkt, 0)
    case Some((l, idx)) =>
      var mss := MssAt(pkt, l, idx);
      var ext := if l.v6 then EXTERNAL_MSS6 else EXTERNAL_MSS4;
      (if mss < ext then RewriteMss(pkt, l, idx, ext) else pkt, mss + l.Overhead())
  }

  function ClampDownlink(pkt: seq<byte>, limitMTU: int): (r: seq<byte>)
    ensures |r| == |pkt|
  {
    match SynMss(pkt)
    case None => pkt
    case Some((l, idx)) =>
      var limit := limitMTU - l.Overhead();
      if limit > 0 && MssAt(pkt, l, idx) > limit then RewriteMss(pkt, l, idx, limit) else pkt
  }

  // ---------------------------------------------------------------- in place

  /** The incremental checksum for the words before and after a write. */
  method PatchSum(hc: nat, before: seq<byte>, after: seq<byte>) returns (c: nat)
    requires hc < 0x1_0000 && |before| <= 4 && |after| <= 4
    ensures c == PatchedChecksum(hc, Fold(Sum16(before)), Fold(Sum16(after)))
  {
    hide Sum16;
    var oldSum := OnesSum(before);
    var newSum := OnesSum(after);
    SumBound(before);
    SumBound(after);
    var m := FoldSum(oldSum);
    var mNew := FoldSum(newSum);
    var f := FoldSum((65535 - hc) + (65535 - m) + mNew);
    c := 65535 - f;
  }

  method SetMSSValue(pkt: array<byte>, lo: nat, hi: nat, idx: nat, mss: nat)
    requires lo <= hi <= pkt.Length && MssOffset(pkt[lo..hi], idx) && mss < 0x1_0000
    modifies pkt
    ensures pkt[..] == old(pkt[..lo]) + PatchMss(old(pkt[lo..hi]), idx, mss) + old(pkt[hi..])
  {
    hide Sum16, Fold, PatchedChecksum, Put16, Word, PatchMss;
    ghost var p0 := pkt[..];
    var start, end := Start(idx), End(idx);
    var before := pkt[lo + start..lo + end];
    var hc := Word(pkt[lo..hi], 16);
    Store16(pkt, lo + idx, mss);
    var after := pkt[lo + start..lo + end];
    var c := PatchSum(hc, before, after);
    Store16(pkt, lo + 16, c);
    PatchedInPlace(p0, lo, hi, idx, mss);
  }

  /** Value and checksum written into a packet are the patch of its segment. */
  lemma PatchedInPlace(p0: seq<byte>, lo: nat, hi: nat, idx: nat, mss: nat)
    requires lo <= hi <= |p0| && MssOffset(p0[lo..hi], idx) && mss < 0x1_0000
    ensures var p1 := Put16(p0, lo + idx, mss);
            var before, after := p0[lo + Start(idx)..lo + End(idx)], p1[lo + Start(idx)..lo + End(idx)];
            var c := PatchedChecksum(Word(p0[lo..hi], 16), Fold(Sum16(before)), Fold(Sum16(after)));
            Put16(p1, lo + 16, c) == p0[..lo] + PatchMss(p0[lo..hi], idx, mss) + p0[hi..]
  {
    hide Sum16, Fold, PatchedChecksum, Put16, Word;
    var start, end := Start(idx), End(idx);
    var p1 := Put16(p0, lo + idx, mss);
    SliceOfSlice(p0, lo, hi, start, end);
    PutInSlice(p0, lo, hi, idx, mss);
    SliceOfSlice(p1, lo, hi, start, end);
    var m, m' := Fold(Sum16(p0[lo..hi][start..end])), Fold(Sum16(p1[lo..hi][start..end]));
    var c := PatchedChecksum(Word(p0[lo..hi], 16), m, m');
    PutInSlice(p1, lo, hi, 16, c);
    Reassembled(Put16(p1, lo + 16, c), lo, hi);
  }

  lemma Reassembled(s: seq<byte>, lo: nat, hi: nat)
    requires lo <= hi <= |s|
    ensures s == s[..lo] + s[lo..hi] + s[hi..]
  {
  }

  lemma SliceOfSlice(s: seq<byte>, lo: nat, hi: nat, a: nat, b: nat)
    requires lo <= hi <= |s| && a <= b <= hi - lo
    ensures s[lo + a..lo + b] == s[lo..hi][a..b]
  {
    forall k | 0 <= k < b - a
      ensures s[lo + a..lo + b][k] == s[lo..hi][a..b][k]
    {
    }
  }

  /** A write inside a slice is a write to the slice and to nothing else. */
  lemma PutInSlice(s: seq<byte>, lo: nat, hi: nat, i: nat, v: nat)
    requires lo <= hi <= |s| && i + 1 < hi - lo && v < 0x1_0000
    ensures var r := Put16(s, lo + i, v);
            r[lo..hi] == Put16(s[lo..hi], i, v) && r[..lo] == s[..lo] && r[hi..] == s[hi..]
  {
    var r, t := Put16(s, lo + i, v), Put16(s[lo..hi], i, v);
    forall k | 0 <= k < hi - lo
      ensures r[lo..hi][k] == t[k]
    {
      assert r[lo..hi][k] == r[lo + k];
    }
  }

  method FindSynMss(pkt: seq<byte>) returns (r: Option<(Layout, nat)>)
    ensures r == SynMss(pkt)
  {
    hide LocateIP, LocateTCP, MssFrom;
    var loc := LocateTCP(pkt);
    if loc.None? { return None; }
    var l := loc.value;
    var tcp := pkt[l.ipLen..l.total];
    if (tcp[13] / 2) % 2 == 0 { return None; }
    var idx := MssOptionValue(tcp[..l.tcpLen]);
    if idx < 0 { return None; }
    r := Some((l, idx));
  }

  method NormalizeUplinkSYN(pkt: array<byte>) returns (clientMTU: nat)
    modifies pkt
    ensures (pkt[..], clientMTU) == NormalizeUplink(old(pkt[..]))
  {
    hide SynMss, PatchMss;
    var syn := FindSynMss(pkt[..]);
    if syn.None? { return 0; }
    var (l, idx) := syn.value;
    assert pkt[l.ipLen..l.total] == Segment(pkt[..], l);
    var mss := Word(pkt[l.ipLen..l.total], idx);
    var ext := if l.v6 then EXTERNAL_MSS6 else EXTERNAL_MSS4;
    if mss < ext {
      SetMSSValue(pkt, l.ipLen, l.total, idx, ext);
    }
    clientMTU := mss + l.Overhead();
  }

  method ClampDownlinkSYN(pkt: array<byte>, limitMTU: int)
    modifies pkt
    ensures pkt[..] == ClampDownlink(old(pkt[..]), limitMTU)
  {
    hide SynMss, PatchMss;
    var syn := FindSynMss(pkt[..]);
    if syn.None? { return; }
    var (l, idx) := syn.value;
    assert pkt[l.ipLen..l.total] == Segment(pkt[..], l);
    var limit := limitMTU - l.Overhead();
    if limit <= 0 { return; }
    if Word(pkt[l.ipLen..l.total], idx) > limit {
      SetMSSValue(pkt, l.ipLen, l.total, idx, limit);
    }
  }

  // ---------------------------------------------------------------- laws

  /** What is found: the value of the first MSS option in the header of a located packet with the SYN flag. */
  lemma SynMssExactly(pkt: seq<byte>, l: Layout, idx: nat)
    ensures SynMss(pkt) == Some((l, idx)) <==>
              && LocateTCP(pkt) == Some(l) && (pkt[l.ipLen + 13] / 2) % 2 == 1
              && var hdr := pkt[l.ipLen..l.ipLen + l.tcpLen]; FirstMss(hdr, OptionOffsets(hdr, 20), idx)
  {
    hide LocateTCP, FirstMss, OptionOffsets, MssFrom;
    if LocateTCP(pkt) == Some(l) {
      var hdr := pkt[l.ipLen..l.ipLen + l.tcpLen];
      assert Segment(pkt, l)[..l.tcpLen] == hdr && Segment(pkt, l)[13] == pkt[l.ipLen + 13];
      MssFromIsFirst(hdr, 20);
      if FirstMss(hdr, OptionOffsets(hdr, 20), idx) {
        FirstMssUnique(hdr, OptionOffsets(hdr, 20), idx, MssFrom(hdr, 20));
      }
    }
  }

  /** An IPv4 SYN that announces 1360 bytes. */
  const SYN_1360: seq<byte> :=
    [0x45, 0, 0, 44, 0, 0, 0x40, 0, 64, 6, 0, 0, 10, 0, 0, 1, 10, 0, 0, 2]
    + [0, 80, 0, 81, 0, 0, 0, 0, 0, 0, 0, 0, 0x60, 0x02, 0, 0, 0, 0, 0, 0, 2, 4, 0x05, 0x50]

  lemma SynIsFound()
    ensures var l := Layout(false, 20, 24, 44);
            SynMss(SYN_1360) == Some((l, 22)) && MssAt(SYN_1360, l, 22) == 1360
  {
    hide SynMss;
    var p := SYN_1360;
    assert |p| == 44 && p[0] == 0x45 && p[2] == 0 && p[3] == 44 && p[6] == 0x40 && p[7] == 0 && p[9] == 6;
    assert p[32] == 0x60 && p[33] == 0x02 && p[40] == 2 && p[41] == 4 && p[42] == 5 && p[43] == 0x50;
    PlainSyn(p);
    ValueInPacket(p, Layout(false, 20, 24, 44), 22);
  }

  /** A SYN over a plain IPv4 header, with an MSS option and nothing behind it. */
  lemma PlainSyn(p: seq<byte>)
    requires |p| == 44 && p[0] == 0x45 && Word(p, 2) == 44 && p[6] == 0x40 && p[7] == 0 && p[9] == 6
    requires p[32] == 0x60 && p[33] == 0x02 && p[40] == 2 && p[41] == 4
    ensures SynMss(p) == Some((Layout(false, 20, 24, 44), 22))
  {
    hide LocateTCP;
    var l := Layout(false, 20, 24, 44);
    LocatedExactly(p, l);
    var hdr := Segment(p, l);
    assert hdr[..24] == hdr && hdr[13] == p[33] && hdr[20] == p[40] && hdr[21] == p[41];
  }

  /** It is raised to 1460 and shows a client MTU of 1400; a downlink limit of 1280 lowers it to 1240. */
  lemma SynIsRewritten()
    ensures NormalizeUplink(SYN_1360).1 == 1400 && Word(NormalizeUplink(SYN_1360).0, 42) == 1460
    ensures Word(ClampDownlink(SYN_1360, 1280), 42) == 1240
  {
    hide SynMss, RewriteMss, TcpValid, NormalizeUplink, ClampDownlink;
    var l := Layout(false, 20, 24, 44);
    SynIsFound();
    NormalizeLaws(SYN_1360);
    ClampLaws(SYN_1360, 1280);
    ValueInPacket(NormalizeUplink(SYN_1360).0, l, 22);
    ValueInPacket(ClampDownlink(SYN_1360, 1280), l, 22);
  }

  lemma ValueInPacket(pkt: seq<byte>, l: Layout, idx: nat)
    requires l.Fits(pkt) && MssOffset(Segment(pkt, l), idx)
    ensures MssAt(pkt, l, idx) == Word(pkt, l.ipLen + idx)
  {
  }

  /** The option scan only depends on the bytes before the value it finds. */
  lemma {:induction false} MssFromLocal(a: seq<byte>, b: seq<byte>, i: nat)
    requires |a| == |b| && MssFrom(a, i) >= 0
    requires forall k :: i <= k < MssFrom(a, i) ==> a[k] == b[k]
    ensures MssFrom(b, i) == MssFrom(a, i)
    decreases |a| - i
  {
    if a[i] == 1 {
      MssFromLocal(a, b, i + 1);
    } else if !(a[i] == 2 && a[i + 1] == 4) {
      MssFromLocal(a, b, i + a[i + 1]);
    }
  }

  /** Locating a packet depends on the bytes before the option area only. */
  lemma LocateLocal(a: seq<byte>, b: seq<byte>, l: Layout)
    requires LocateTCP(a) == Some(l) && |a| == |b|
    requires forall k :: 0 <= k < l.ipLen + 16 ==> a[k] == b[k]
    ensures LocateTCP(b) == Some(l)
  {
    assert |a| >= 36;
    assert Word(a, 2) == Word(b, 2) && Word(a, 4) == Word(b, 4) && Word(a, 6) == Word(b, 6);
    assert LocateIP(b) == LocateIP(a);
  }

  /**
   One rewrite: the packet is still the same SYN with its MSS option in the same place,
   carries the new value, differs only in the value and the checksum, verifies iff it did,
   and holds exactly the recomputed checksum when the old one verified.
   */
  lemma {:induction false} RewriteLaws(pkt: seq<byte>, l: Layout, idx: nat, mss: nat)
    requires SynMss(pkt) == Some((l, idx)) && 0 < mss < 0x1_0000
    ensures var r := RewriteMss(pkt, l, idx, mss);
            && SynMss(r) == Some((l, idx)) && MssAt(r, l, idx) == mss
            && (forall k :: 0 <= k < |pkt| && k - l.ipLen !in {16, 17, idx, idx + 1} ==> r[k] == pkt[k])
            && (TcpValid(r, l.v6, Segment(r, l)) <==> TcpValid(pkt, l.v6, Segment(pkt, l)))
            && (TcpValid(pkt, l.v6, Segment(pkt, l)) ==>
                  Segment(r, l) == WithTcpChecksum(r, l.v6, Segment(r, l)))
  {
    hide PatchMss, WithTcpChecksum, TcpValid, MssFrom, LocateTCP, LocateIP;
    RewriteShape(pkt, l, idx, mss);
    RewriteVerdict(pkt, RewriteMss(pkt, l, idx, mss), l, idx, mss);
  }

  lemma {:induction false} RewriteShape(pkt: seq<byte>, l: Layout, idx: nat, mss: nat)
    requires SynMss(pkt) == Some((l, idx)) && 0 < mss < 0x1_0000
    ensures var r := RewriteMss(pkt, l, idx, mss);
            && SynMss(r) == Some((l, idx)) && MssAt(r, l, idx) == mss
            && Segment(r, l) == PatchMss(Segment(pkt, l), idx, mss)
            && (forall k :: 0 <= k < |pkt| && k - l.ipLen !in {16, 17, idx, idx + 1} ==> r[k] == pkt[k])
  {
    hide PatchMss, MssFrom, LocateIP;
    var r := RewriteMss(pkt, l, idx, mss);
    var seg, seg' := Segment(pkt, l), PatchMss(Segment(pkt, l), idx, mss);
    assert r[l.ipLen..l.total] == seg';
    LocateLocal(pkt, r, l);
    assert forall k :: 20 <= k < idx ==> seg[..l.tcpLen][k] == seg'[..l.tcpLen][k];
    MssFromLocal(seg[..l.tcpLen], seg'[..l.tcpLen], 20);
    assert seg'[13] == seg[13];
  }

  lemma {:induction false} RewriteVerdict(pkt: seq<byte>, r: seq<byte>, l: Layout, idx: nat, mss: nat)
    requires l.Fits(pkt) && MssOffset(Segment(pkt, l), idx) && 0 < mss < 0x1_0000
    requires r == RewriteMss(pkt, l, idx, mss)
    requires Segment(r, l) == PatchMss(Segment(pkt, l), idx, mss)
    ensures TcpValid(r, l.v6, Segment(r, l)) <==> TcpValid(pkt, l.v6, Segment(pkt, l))
    ensures TcpValid(pkt, l.v6, Segment(pkt, l)) ==>
              Segment(r, l) == WithTcpChecksum(r, l.v6, Segment(r, l))
  {
    hide PatchMss, WithTcpChecksum, TcpValid;
    var seg := Segment(pkt, l);
    var seg' := PatchMss(seg, idx, mss);
    assert if l.v6 then r[8..40] == pkt[8..40] else r[12..20] == pkt[12..20];
    SameAddresses(r, pkt, l.v6, seg');
    PatchKeepsVerdict(pkt, l.v6, seg, idx, mss);
    PatchIsRecomputation(pkt, l.v6, seg, idx, mss);
    var t := Put16(seg, idx, mss);
    assert t[idx] == seg'[idx] && t[idx + 1] == seg'[idx + 1];
    ChecksumIgnoresOld(pkt, l.v6, t, seg');
  }

  /** A normalised SYN shows at least the external MSS, and normalising again changes nothing. */
  lemma {:induction false} NormalizeLaws(pkt: seq<byte>)
    ensures var (r, mtu) := NormalizeUplink(pkt);
            match SynMss(pkt)
            case None => mtu == 0 && r == pkt
            case Some((l, idx)) =>
              && SynMss(r) == Some((l, idx))
              && MssAt(r, l, idx) == Max(MssAt(pkt, l, idx), if l.v6 then 1440 else 1460)
              && mtu == MssAt(pkt, l, idx) + (if l.v6 then 60 else 40)
              && (forall k :: 0 <= k < |pkt| && k - l.ipLen !in {16, 17, idx, idx + 1} ==> r[k] == pkt[k])
              && (TcpValid(r, l.v6, Segment(r, l)) <==> TcpValid(pkt, l.v6, Segment(pkt, l)))
              && NormalizeUplink(r).0 == r
  {
    hide SynMss, PatchMss, TcpValid;
    match SynMss(pkt)
    case None =>
    case Some((l, idx)) =>
      RewriteLaws(pkt, l, idx, if l.v6 then EXTERNAL_MSS6 else EXTERNAL_MSS4);
  }

  /** A clamped SYN announces segments that fit the limit, and clamping again changes nothing. */
  lemma {:induction false} ClampLaws(pkt: seq<byte>, limitMTU: int)
    ensures var r := ClampDownlink(pkt, limitMTU);
            match SynMss(pkt)
            case None => r == pkt
            case Some((l, idx)) =>
              && SynMss(r) == Some((l, idx))
              && (var limit := limitMTU - (if l.v6 then 60 else 40);
                  if limit > 0 then MssAt(r, l, idx) == Min(MssAt(pkt, l, idx), limit) else r == pkt)
              && (forall k :: 0 <= k < |pkt| && k - l.ipLen !in {16, 17, idx, idx + 1} ==> r[k] == pkt[k])
              && (TcpValid(r, l.v6, Segment(r, l)) <==> TcpValid(pkt, l.v6, Segment(pkt, l)))
              && ClampDownlink(r, limitMTU) == r
  {
    hide SynMss, PatchMss, TcpValid;
    match SynMss(pkt)
    case None =>
    case Some((l, idx)) =>
      var limit := limitMTU - l.Overhead();
      if limit > 0 && MssAt(pkt, l, idx) > limit {
        RewriteLaws(pkt, l, idx, limit);
      }
  }
}

/**
 What the router queues for one downlink packet, and the MTU a session learns.
 */
module Downlink {
  import opened Bytes
  import opened TcpRewrite
  import opened MssRewrite
  import opened TcpSplit
  import opened Ipv4Fragment
  import Scheduler

  /** A packet longer than the limit that can be neither split nor fragmented. */
  predicate Dropped(pkt: seq<byte>, limit: int) {
    |pkt| > limit && !Splittable(pkt, limit) && !Fragmentable(pkt, limit)
  }

  /** What goes to the queue while normalising: the clamped packet itself, its segments, or its fragments. */
  ghost predicate Queued(pkt: seq<byte>, limit: int, queued: seq<seq<byte>>) {
    if |pkt| <= limit then queued == [pkt]
    else if Splittable(pkt, limit) then
      var l := LocateTCP(pkt).value;
      IsSplit(pkt, l, limit - l.HeaderLen(), queued)
    else if Fragmentable(pkt, limit) then
      queued == FragmentsFrom(pkt, PerFragment(limit, Ihl(pkt)), 0)
    else queued == []
  }

  lemma QueuedFits(pkt: seq<byte>, limit: int, queued: seq<seq<byte>>)
    requires Queued(pkt, limit, queued)
    ensures forall k :: 0 <= k < |queued| ==> |queued[k]| <= limit
    ensures queued == [] <==> Dropped(pkt, limit)
  {
    if |pkt| > limit {
      if Splittable(pkt, limit) {
        SplitFits(pkt, limit, queued);
      } else if Fragmentable(pkt, limit) {
        hide Ipv4Valid, Fragment, Splittable;
        FragmentsFit(pkt, PerFragment(limit, Ihl(pkt)), 0, limit);
      }
    }
  }

  lemma SplitFits(pkt: seq<byte>, limit: int, queued: seq<seq<byte>>)
    requires Splittable(pkt, limit) && var l := LocateTCP(pkt).value; IsSplit(pkt, l, limit - l.HeaderLen(), queued)
    ensures forall k :: 0 <= k < |queued| ==> |queued[k]| <= limit
    ensures queued != []
  {
    var l := LocateTCP(pkt).value;
    hide LocateTCP, IsPiece;
    forall k | 0 <= k < |queued|
      ensures |queued[k]| <= limit
    {
      PieceFits(pkt, l, limit, queued, k);
    }
  }

  lemma PieceFits(pkt: seq<byte>, l: Layout, limit: int, queued: seq<seq<byte>>, k: nat)
    requires LocateTCP(pkt) == Some(l) && 0 < limit - l.HeaderLen()
    requires IsSplit(pkt, l, limit - l.HeaderLen(), queued) && k < |queued|
    ensures |queued[k]| <= limit
  {
    hide LocateTCP, IsSplit, SegmentOf, Cut, Payload;
    var off, end := EachPieceIsSegment(pkt, l, limit, queued, k);
  }

  /** All segments of a split packet take the bulk lane, which is first in, first out: they stay in order. */
  lemma SegmentsStayInOneLane(pkt: seq<byte>, limit: int, queued: seq<seq<byte>>, k: nat)
    requires Splittable(pkt, limit) && |pkt| > limit && Queued(pkt, limit, queued) && k < |queued|
    ensures !Scheduler.IsLatencySensitive(queued[k])
  {
    var l := LocateTCP(pkt).value;
    hide LocateTCP, LocateIP, Splittable, IsPiece, SegmentOf, TcpValid, Ipv4Valid, Scheduler.IsLatencySensitive;
    var off, end := EachPieceIsSegment(pkt, l, limit, queued, k);
    var _, _ := EachPieceIsGood(pkt, l, limit, queued, k);
    Scheduler.LocatedIsInteractive(queued[k], l.(total := |queued[k]|));
  }

  /** A datagram that fits is dropped, if and only if it was captured with bytes beyond the limit behind it. */
  lemma FittingIsDroppedExactly(pkt: seq<byte>, limit: int)
    requires IsIpv4(pkt) && Word(pkt, 2) <= limit
    ensures Dropped(pkt, limit) <==> limit < |pkt|
  {
  }

  /** A header of 20 bytes with one byte behind it, for a limit of 20. */
  lemma TrailerIsDropped()
    ensures var pkt: seq<byte> := [0x45, 0, 0, 20] + seq(17, i => 0);
            IsIpv4(pkt) && Word(pkt, 2) == 20 && Dropped(pkt, 20)
  {
    var pkt: seq<byte> := [0x45, 0, 0, 20] + seq(17, i => 0);
    FittingIsDroppedExactly(pkt, 20);
  }

  /** Queues packet for a session with the given MTU limit. */
  method SendOversized(packet: seq<byte>, limit: int) returns (queued: seq<seq<byte>>)
    requires |packet| > limit
    ensures Queued(packet, limit, queued)
  {
    hide Splittable, IsSplit, Fragmentable, FragmentsFrom;
    var ok, out := SplitTCP(packet, limit);
    if ok { return out; }
    ok, out := FragmentIPv4(packet, limit);
    if ok { return out; }
    queued := [];
  }

  class Session {
    const tunnelMTU: nat
    const normalizeMSS: bool
    var mtu: nat

    ghost predicate Valid()
      reads this
    {
      mtu <= tunnelMTU
    }

    constructor (tunnelMTU: nat, normalizeMSS: bool)
      ensures Valid() && mtu == tunnelMTU == this.tunnelMTU && this.normalizeMSS == normalizeMSS
    {
      this.tunnelMTU, this.normalizeMSS, this.mtu := tunnelMTU, normalizeMSS, tunnelMTU;
    }

    /** One packet from the client: its SYN is normalised in place and its MSS sets the session MTU. */
    method WriteToTUN(packet: array<byte>)
      requires Valid()
      modifies this, packet
      ensures Valid()
      ensures !normalizeMSS ==> packet[..] == old(packet[..]) && mtu == old(mtu)
      ensures normalizeMSS ==> packet[..] == NormalizeUplink(old(packet[..])).0
      ensures normalizeMSS ==>
                var clientMTU := NormalizeUplink(old(packet[..])).1;
                mtu == if clientMTU > 0 then Min(Max(clientMTU, 1280), tunnelMTU) else old(mtu)
    {
      if normalizeMSS {
        var clientMTU := NormalizeUplinkSYN(packet);
        if clientMTU > 0 {
          mtu := Min(Max(clientMTU, MIN_CLIENT_MTU), tunnelMTU);
        }
      }
    }

    /** One packet read from the TUN for this session: every queued packet fits the client and the tunnel. */
    method Deliver(packet: array<byte>) returns (queued: seq<seq<byte>>)
      requires Valid()
      modifies packet
      ensures packet[..] == if normalizeMSS then ClampDownlink(old(packet[..]), mtu) else old(packet[..])
      ensures !normalizeMSS ==> queued == [old(packet[..])]
      ensures normalizeMSS ==> Queued(ClampDownlink(old(packet[..]), mtu), mtu, queued)
      ensures normalizeMSS ==> forall k :: 0 <= k < |queued| ==> |queued[k]| <= mtu <= tunnelMTU
    {
      hide ClampDownlink, Splittable, IsSplit, Fragmentable, FragmentsFrom;
      if normalizeMSS {
        ClampDownlinkSYN(packet, mtu);
        if packet.Length > mtu {
          queued := SendOversized(packet[..], mtu);
          QueuedFits(packet[..], mtu, queued);
          return;
        }
      }
      queued := [packet[..]];
    }
  }
}

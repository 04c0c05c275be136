/**
 IPv4 fragmentation (section 3.2 of RFC 791) and what reassembly makes of it.
 */
module Ipv4Fragment {
  import opened Bytes
  import opened Buffers
  import opened TcpRewrite

  // ---------------------------------------------------------------- packets

  predicate IsIpv4(pkt: seq<byte>) {
    |pkt| >= 20 && pkt[0] / 16 == 4 && 20 <= Ihl(pkt) <= Word(pkt, 2) <= |pkt|
  }

  function Ihl(pkt: seq<byte>): (n: nat)
    requires |pkt| >= 20
    ensures n <= 60
  {
    (pkt[0] % 16) * 4
  }

  function Data(pkt: seq<byte>): seq<byte>
    requires IsIpv4(pkt)
  {
    pkt[Ihl(pkt)..Word(pkt, 2)]
  }

  /** The offset of the packet's data in the original datagram. */
  function Base(pkt: seq<byte>): nat
    requires |pkt| >= 20
  {
    (Word(pkt, 6) % 0x2000) * 8
  }

  predicate MoreFragments(pkt: seq<byte>)
    requires |pkt| >= 20
  {
    (Word(pkt, 6) / 0x2000) % 2 == 1
  }

  /** Payload bytes per fragment: a multiple of 8. */
  function PerFragment(maxLen: int, ihl: nat): int {
    (maxLen - ihl) / 8 * 8
  }

  predicate Fragmentable(pkt: seq<byte>, maxLen: int) {
    IsIpv4(pkt) && Word(pkt, 2) > maxLen && PerFragment(maxLen, Ihl(pkt)) > 0
  }

  /** Exactly the IPv4 packets are fragmented that are too long and leave room for 8 bytes behind the header. */
  lemma FragmentableExactly(pkt: seq<byte>, maxLen: int)
    ensures Fragmentable(pkt, maxLen) <==>
              && |pkt| >= 20 && pkt[0] / 16 == 4
              && var ihl, total := 4 * (pkt[0] % 16) as int, Word(pkt, 2);
                 20 <= ihl <= total <= |pkt| && ihl + 8 <= maxLen < total
  {
  }

  // ---------------------------------------------------------------- one fragment

  /** f | 0x2000. */
  function WithMore(f: nat): nat {
    if (f / 0x2000) % 2 == 1 then f else f + 0x2000
  }

  function FragmentField(pkt: seq<byte>, off: nat, end: nat): (f: nat)
    requires IsIpv4(pkt) && off <= |Data(pkt)|
    ensures f < 0x1_0000
  {
    var f := (Base(pkt) + off) / 8;
    if end != |Data(pkt)| || MoreFragments(pkt) then WithMore(f) else f
  }

  predicate Slice(pkt: seq<byte>, off: nat, end: nat) {
    IsIpv4(pkt) && off < end <= |Data(pkt)|
  }

  function Fragment(pkt: seq<byte>, off: nat, end: nat): (r: seq<byte>)
    requires Slice(pkt, off, end)
    ensures |r| == Ihl(pkt) + end - off
  {
    var ihl := Ihl(pkt);
    var b := pkt[..ihl] + Data(pkt)[off..end];
    var t := Put16(Put16(b, 2, |b|), 6, FragmentField(pkt, off, end));
    WithIpv4Checksum(t[..ihl]) + t[ihl..]
  }

  method BuildFragment(pkt: seq<byte>, off: nat, end: nat) returns (frag: array<byte>)
    requires Slice(pkt, off, end)
    ensures fresh(frag) && frag[..] == Fragment(pkt, off, end)
  {
    var ihl := Ihl(pkt);
    var payload := Data(pkt);
    var n := ihl + end - off;
    frag := new byte[n](k requires 0 <= k < n => if k < ihl then pkt[k] else payload[off + (k - ihl)]);
    assert frag[..] == pkt[..ihl] + payload[off..end];
    Store16(frag, 2, n);
    Store16(frag, 6, FragmentField(pkt, off, end));
    SetIPv4Checksum(frag, ihl);
  }

  /** The fragments that carry the data from off on. */
  function FragmentsFrom(pkt: seq<byte>, per: nat, off: nat): (r: seq<seq<byte>>)
    requires IsIpv4(pkt) && per > 0
    decreases |Data(pkt)| - off
  {
    if off >= |Data(pkt)| then []
    else [Fragment(pkt, off, Min(off + per, |Data(pkt)|))] + FragmentsFrom(pkt, per, off + per)
  }

  /** The emitted fragments; nothing is emitted on a refusal. */
  method FragmentIPv4(pkt: seq<byte>, maxLen: int) returns (ok: bool, out: seq<seq<byte>>)
    ensures ok <==> Fragmentable(pkt, maxLen)
    ensures out == if ok then FragmentsFrom(pkt, PerFragment(maxLen, Ihl(pkt)), 0) else []
  {
    hide Fragment, FragmentsFrom;
    if |pkt| < 20 || pkt[0] / 16 != 4 { return false, []; }
    var ihl := (pkt[0] % 16) * 4;
    var total := Word(pkt, 2);
    if ihl < 20 || total < ihl || total > |pkt| || total <= maxLen { return false, []; }
    var per := (maxLen - ihl) / 8 * 8;
    if per <= 0 { return false, []; }
    out := EmitFragments(pkt, per);
    ok := true;
  }

  /** The loop over the payload. */
  method EmitFragments(pkt: seq<byte>, per: nat) returns (out: seq<seq<byte>>)
    requires IsIpv4(pkt) && per > 0
    ensures out == FragmentsFrom(pkt, per, 0)
  {
    hide Fragment;
    out := [];
    var payload := Data(pkt);
    var off := 0;
    while off < |payload|
      invariant out + FragmentsFrom(pkt, per, off) == FragmentsFrom(pkt, per, 0)
      decreases |payload| - off
    {
      var end := Min(off + per, |payload|);
      var frag := BuildFragment(pkt, off, end);
      ghost var rest := FragmentsFrom(pkt, per, off + per);
      assert out + ([frag[..]] + rest) == (out + [frag[..]]) + rest;
      out := out + [frag[..]];
      off := off + per;
    }
    assert out + [] == out;
  }

  // ---------------------------------------------------------------- reassembly

  /** What a receiver reads from a fragment. */
  datatype View = View(offset: nat, data: seq<byte>, more: bool) {
    function End(): nat { offset + |data| }
    predicate Covers(p: int) { offset <= p < End() }
  }

  function ViewOf(pkt: seq<byte>): View
    requires IsIpv4(pkt)
  {
    View(Base(pkt), Data(pkt), MoreFragments(pkt))
  }

  /** Offset, data and flag, read from the bytes of a packet. */
  lemma ViewExactly(pkt: seq<byte>)
    requires IsIpv4(pkt)
    ensures ViewOf(pkt)
            == View(8 * ((pkt[6] % 32) as int * 256 + pkt[7] as int), pkt[4 * (pkt[0] % 16)..Word(pkt, 2)],
                    (pkt[6] / 32) % 2 == 1)
  {
  }

  /** How many fragments hold the byte at position p. */
  ghost function Copies(frags: seq<View>, p: int): nat {
    if frags == [] then 0 else (if frags[0].Covers(p) then 1 else 0) + Copies(frags[1..], p)
  }

  /** f holds a slice of whole, and says so: more fragments follow unless it ends where whole ends. */
  ghost predicate PartOf(f: View, whole: View) {
    && whole.offset <= f.offset && f.End() <= whole.End()
    && f.data == whole.data[f.offset - whole.offset..f.End() - whole.offset]
    && (f.more <==> whole.more || f.End() < whole.End())
  }

  /** In whatever order they arrive, the fragments give back whole: every byte once, from the right place. */
  ghost predicate Reassembles(frags: seq<View>, whole: View) {
    && (forall p: int :: Copies(frags, p) == if whole.Covers(p) then 1 else 0)
    && (forall k :: 0 <= k < |frags| ==> PartOf(frags[k], whole))
  }

  lemma {:induction false} CopiesConcat(a: seq<View>, b: seq<View>, p: int)
    ensures Copies(a + b, p) == Copies(a, p) + Copies(b, p)
  {
    if a == [] {
      assert a + b == b;
    } else {
      CopiesConcat(a[1..], b, p);
      assert (a + b)[1..] == a[1..] + b;
    }
  }

  lemma CopiesCons(f: View, rest: seq<View>, p: int)
    ensures Copies([f] + rest, p) == (if f.Covers(p) then 1 else 0) + Copies(rest, p)
  {
    assert ([f] + rest)[1..] == rest;
  }

  lemma PartOfTransitive(g: View, f: View, whole: View)
    requires PartOf(g, f) && PartOf(f, whole)
    ensures PartOf(g, whole)
  {
    var a, b := f.offset - whole.offset, f.End() - whole.offset;
    var c, d := g.offset - f.offset, g.End() - f.offset;
    assert whole.data[a..b][c..d] == whole.data[a + c..a + d];
  }

  /** A whole datagram is its own only fragment. */
  lemma SelfReassembles(whole: View)
    ensures Reassembles([whole], whole)
  {
    forall p: int
      ensures Copies([whole], p) == if whole.Covers(p) then 1 else 0
    {
      assert [whole][1..] == [];
    }
  }

  // ---------------------------------------------------------------- laws of one fragment

  /** Header bytes a fragment may change: length, flags and offset, checksum. */
  lemma FragmentBytes(pkt: seq<byte>, off: nat, end: nat)
    requires Slice(pkt, off, end)
    ensures var r := Fragment(pkt, off, end);
            && (forall k :: 0 <= k < Ihl(pkt) && k !in {2, 3, 6, 7, 10, 11} ==> r[k] == pkt[k])
            && IsIpv4(r) && Ihl(r) == Ihl(pkt) && Word(r, 2) == |r|
            && Data(r) == Data(pkt)[off..end]
            && Word(r, 6) == FragmentField(pkt, off, end)
  {
    hide WithIpv4Checksum, FragmentField;
    var ihl := Ihl(pkt);
    var b := pkt[..ihl] + Data(pkt)[off..end];
    assert b[ihl..] == Data(pkt)[off..end];
    var u := Put16(b, 2, |b|);
    var t := Put16(u, 6, FragmentField(pkt, off, end));
    var r := Fragment(pkt, off, end);
    assert forall k :: 0 <= k < |r| && k != 10 && k != 11 ==> r[k] == t[k];
    assert r[ihl..] == b[ihl..];
    assert t[0] == pkt[0] && Word(t, 2) == Word(u, 2);
    assert r[2] == t[2] && r[3] == t[3] && r[6] == t[6] && r[7] == t[7];
  }

  lemma FragmentChecksum(pkt: seq<byte>, off: nat, end: nat)
    requires Slice(pkt, off, end)
    ensures Ipv4Valid(Fragment(pkt, off, end)[..Ihl(pkt)])
  {
    hide WithIpv4Checksum, FragmentField, Ipv4Valid;
    var ihl := Ihl(pkt);
    var b := pkt[..ihl] + Data(pkt)[off..end];
    var t := Put16(Put16(b, 2, |b|), 6, FragmentField(pkt, off, end));
    assert t[..ihl][0] == pkt[0];
    assert Fragment(pkt, off, end)[..ihl] == WithIpv4Checksum(t[..ihl]);
    Ipv4ChecksumVerifies(t[..ihl]);
  }

  /** The flags-and-offset field holds the offset exactly while it fits 13 bits, and never sets DF. */
  lemma FieldMeaning(pkt: seq<byte>, off: nat, end: nat)
    requires Slice(pkt, off, end) && off % 8 == 0
    ensures var f := FragmentField(pkt, off, end);
            && (f % 0x2000) * 8 <= Base(pkt) + off
            && (Base(pkt) + off >= 0x1_0000 ==> (f % 0x2000) * 8 == Base(pkt) + off - 0x1_0000)
            && (Base(pkt) + off < 0x1_0000 ==> (f % 0x2000) * 8 == Base(pkt) + off)
            && f < 0x4000
            && ((f / 0x2000) % 2 == 1 <==> Base(pkt) + off >= 0x1_0000 || end != |Data(pkt)| || MoreFragments(pkt))
  {
    var g := (Base(pkt) + off) / 8;
    assert g * 8 == Base(pkt) + off;
    assert g < 0x4000;
  }

  /** Everything a receiver relies on in one fragment, while its offset fits the field. */
  lemma FragmentIsPart(pkt: seq<byte>, off: nat, end: nat)
    requires Slice(pkt, off, end) && off % 8 == 0 && Base(pkt) + off < 0x1_0000
    ensures var r := Fragment(pkt, off, end);
            && IsIpv4(r) && ViewOf(r).offset == Base(pkt) + off && ViewOf(r).End() == Base(pkt) + end
            && PartOf(ViewOf(r), ViewOf(pkt))
  {
    hide Fragment, FragmentField;
    FragmentBytes(pkt, off, end);
    FieldMeaning(pkt, off, end);
  }

  // ---------------------------------------------------------------- all fragments

  predicate AllIpv4(pkts: seq<seq<byte>>) {
    forall k :: 0 <= k < |pkts| ==> IsIpv4(pkts[k])
  }

  ghost function Views(pkts: seq<seq<byte>>): (r: seq<View>)
    requires AllIpv4(pkts)
    ensures |r| == |pkts| && forall k :: 0 <= k < |pkts| ==> r[k] == ViewOf(pkts[k])
  {
    seq(|pkts|, k requires 0 <= k < |pkts| => ViewOf(pkts[k]))
  }

  lemma ViewsConcat(a: seq<seq<byte>>, b: seq<seq<byte>>)
    requires AllIpv4(a + b)
    ensures AllIpv4(a) && AllIpv4(b) && Views(a + b) == Views(a) + Views(b)
  {
    hide IsIpv4, ViewOf;
    forall k | 0 <= k < |a|
      ensures IsIpv4(a[k])
    {
      assert (a + b)[k] == a[k];
    }
    forall k | 0 <= k < |b|
      ensures IsIpv4(b[k])
    {
      assert (a + b)[|a| + k] == b[k];
    }
  }

  /** The offset of the last fragment. */
  function LastOff(len: nat, per: nat, off: nat): (r: nat)
    requires per > 0
    ensures off <= r && (off < len ==> r < len)
    decreases len - off
  {
    if off + per >= len then off else LastOff(len, per, off + per)
  }

  /** The guard: every offset fits the 13-bit field. It holds whenever the datagram stays within 64 KiB. */
  predicate OffsetsFit(pkt: seq<byte>, per: nat)
    requires IsIpv4(pkt) && per > 0
  {
    Base(pkt) + LastOff(|Data(pkt)|, per, 0) < 0x1_0000
  }

  lemma {:induction false} FragmentsFit(pkt: seq<byte>, per: nat, off: nat, maxLen: int)
    requires IsIpv4(pkt) && per > 0 && per <= maxLen - Ihl(pkt)
    ensures AllIpv4(FragmentsFrom(pkt, per, off))
    ensures forall k :: 0 <= k < |FragmentsFrom(pkt, per, off)| ==>
              var r := FragmentsFrom(pkt, per, off)[k];
              |r| <= maxLen && Ipv4Valid(r[..Ihl(r)]) && Ihl(r) == Ihl(pkt)
    decreases |Data(pkt)| - off
  {
    hide Fragment, Ipv4Valid;
    if off < |Data(pkt)| {
      var end := Min(off + per, |Data(pkt)|);
      FragmentBytes(pkt, off, end);
      FragmentChecksum(pkt, off, end);
      FragmentsFit(pkt, per, off + per, maxLen);
    }
  }

  ghost predicate AllParts(pkts: seq<seq<byte>>, whole: View)
    requires AllIpv4(pkts)
  {
    forall k :: 0 <= k < |pkts| ==> PartOf(ViewOf(pkts[k]), whole)
  }

  lemma PartsCons(first: seq<byte>, rest: seq<seq<byte>>, whole: View)
    requires IsIpv4(first) && PartOf(ViewOf(first), whole) && AllIpv4(rest) && AllParts(rest, whole)
    ensures AllIpv4([first] + rest) && AllParts([first] + rest, whole)
  {
    hide IsIpv4, PartOf, ViewOf;
  }

  lemma {:induction false} PartsFrom(pkt: seq<byte>, per: nat, off: nat)
    requires IsIpv4(pkt) && per > 0 && per % 8 == 0 && off % 8 == 0
    requires off < |Data(pkt)| ==> Base(pkt) + LastOff(|Data(pkt)|, per, off) < 0x1_0000
    ensures AllIpv4(FragmentsFrom(pkt, per, off)) && AllParts(FragmentsFrom(pkt, per, off), ViewOf(pkt))
    decreases |Data(pkt)| - off
  {
    hide Fragment, PartOf, ViewOf, Data, Base, IsIpv4;
    if off < |Data(pkt)| {
      var end := Min(off + per, |Data(pkt)|);
      FragmentIsPart(pkt, off, end);
      PartsFrom(pkt, per, off + per);
      PartsCons(Fragment(pkt, off, end), FragmentsFrom(pkt, per, off + per), ViewOf(pkt));
    }
  }

  lemma {:induction false} CopiesFrom(pkt: seq<byte>, per: nat, off: nat, p: int)
    requires IsIpv4(pkt) && per > 0 && per % 8 == 0 && off % 8 == 0
    requires off < |Data(pkt)| ==> Base(pkt) + LastOff(|Data(pkt)|, per, off) < 0x1_0000
    requires AllIpv4(FragmentsFrom(pkt, per, off))
    ensures Copies(Views(FragmentsFrom(pkt, per, off)), p)
            == if Base(pkt) + off <= p < Base(pkt) + |Data(pkt)| then 1 else 0
    decreases |Data(pkt)| - off
  {
    hide Fragment, PartOf, IsIpv4, Data, Copies, Views;
    if off < |Data(pkt)| {
      var end := Min(off + per, |Data(pkt)|);
      FragmentIsPart(pkt, off, end);
      var first, rest := Fragment(pkt, off, end), FragmentsFrom(pkt, per, off + per);
      ViewsConcat([first], rest);
      assert Views([first]) == [ViewOf(first)];
      CopiesCons(ViewOf(first), Views(rest), p);
      CopiesFrom(pkt, per, off + per, p);
    } else {
      NoCopies(Views([]), p);
    }
  }

  /** The fragments of a fragmentable packet reassemble to it exactly when their offsets fit. */
  lemma {:induction false} FragmentsReassemble(pkt: seq<byte>, maxLen: int)
    requires Fragmentable(pkt, maxLen)
    ensures var per := PerFragment(maxLen, Ihl(pkt));
            var out := FragmentsFrom(pkt, per, 0);
            && AllIpv4(out)
            && (forall k :: 0 <= k < |out| ==> |out[k]| <= maxLen && Ipv4Valid(out[k][..Ihl(out[k])]))
            && (Reassembles(Views(out), ViewOf(pkt)) <==> OffsetsFit(pkt, per))
    ensures Base(pkt) + |Data(pkt)| <= 0x1_0000 ==> OffsetsFit(pkt, PerFragment(maxLen, Ihl(pkt)))
  {
    hide Fragment, Ipv4Valid;
    var per := PerFragment(maxLen, Ihl(pkt));
    var out := FragmentsFrom(pkt, per, 0);
    FragmentsFit(pkt, per, 0, maxLen);
    if OffsetsFit(pkt, per) {
      PartsFrom(pkt, per, 0);
      forall p: int {
        CopiesFrom(pkt, per, 0, p);
      }
    } else {
      var p := Base(pkt) + LastOff(|Data(pkt)|, per, 0);
      EndsBelow(pkt, per, 0);
      NoCopies(Views(out), p);
      assert Copies(Views(out), p) != if ViewOf(pkt).Covers(p) then 1 else 0;
    }
  }

  lemma Multiple(n: int)
    ensures n / 8 * 8 <= n < n / 8 * 8 + 8 && n / 8 * 8 % 8 == 0
  {
  }

  /** No fragment could be longer: every one but the last carries the largest multiple of 8 bytes that fits. */
  lemma {:induction false} FragmentsAreFull(pkt: seq<byte>, maxLen: int, off: nat, k: nat)
    requires Fragmentable(pkt, maxLen)
    requires k + 1 < |FragmentsFrom(pkt, PerFragment(maxLen, Ihl(pkt)), off)|
    ensures var n := |FragmentsFrom(pkt, PerFragment(maxLen, Ihl(pkt)), off)[k]|;
            (n - Ihl(pkt)) % 8 == 0 && n <= maxLen < n + 8
    decreases |Data(pkt)| - off
  {
    hide Fragment;
    var per := PerFragment(maxLen, Ihl(pkt));
    Multiple(maxLen - Ihl(pkt));
    if k > 0 {
      FragmentsAreFull(pkt, maxLen, off + per, k - 1);
    } else {
      assert FragmentsFrom(pkt, per, off + per) != [];
    }
  }

  /** A fragment at the highest offset, 4000 bytes long over a link of 1280, does not reassemble. */
  lemma OffsetsOverflow()
    ensures var pkt: seq<byte> := [0x45, 0, 0x0f, 0xa0, 0, 0, 0x1f, 0xff] + seq(3992, i => 0);
            var per := PerFragment(1280, Ihl(pkt));
            && Fragmentable(pkt, 1280) && !OffsetsFit(pkt, per)
            && AllIpv4(FragmentsFrom(pkt, per, 0)) && !Reassembles(Views(FragmentsFrom(pkt, per, 0)), ViewOf(pkt))
  {
    var pkt: seq<byte> := [0x45, 0, 0x0f, 0xa0, 0, 0, 0x1f, 0xff] + seq(3992, i => 0);
    hide Reassembles, FragmentsFrom, AllIpv4;
    assert Base(pkt) == 65528 && |Data(pkt)| == 3980 && Ihl(pkt) == 20;
    assert PerFragment(1280, 20) == 1256;
    FragmentsReassemble(pkt, 1280);
  }


  /** When the last offset overflows, every fragment ends before the place where the last one belongs. */
  lemma {:induction false} EndsBelow(pkt: seq<byte>, per: nat, off: nat)
    requires IsIpv4(pkt) && per > 0 && per % 8 == 0 && off % 8 == 0 && off < |Data(pkt)|
    requires Base(pkt) + LastOff(|Data(pkt)|, per, off) >= 0x1_0000
    requires AllIpv4(FragmentsFrom(pkt, per, off))
    ensures forall k :: 0 <= k < |FragmentsFrom(pkt, per, off)| ==>
              ViewOf(FragmentsFrom(pkt, per, off)[k]).End() <= Base(pkt) + LastOff(|Data(pkt)|, per, off)
    decreases |Data(pkt)| - off
  {
    hide Fragment, IsIpv4, ViewOf, Base, Data;
    var end := Min(off + per, |Data(pkt)|);
    FragmentEnd(pkt, off, end);
    if off + per < |Data(pkt)| {
      ViewsConcat([Fragment(pkt, off, end)], FragmentsFrom(pkt, per, off + per));
      EndsBelow(pkt, per, off + per);
    } else {
      assert FragmentsFrom(pkt, per, off + per) == [];
    }
  }

  /** An offset that overflows the field moves the fragment 64 KiB down. */
  lemma FragmentEnd(pkt: seq<byte>, off: nat, end: nat)
    requires Slice(pkt, off, end) && off % 8 == 0
    ensures var r := Fragment(pkt, off, end);
            IsIpv4(r) && ViewOf(r).End() <= Base(pkt) + end
            && (Base(pkt) + off >= 0x1_0000 ==> ViewOf(r).End() + 0x1_0000 == Base(pkt) + end)
    ensures end - off <= 0x1_0000
  {
    hide Fragment, FragmentField;
    FragmentBytes(pkt, off, end);
    FieldMeaning(pkt, off, end);
  }

  lemma {:induction false} NoCopies(frags: seq<View>, p: int)
    requires forall k :: 0 <= k < |frags| ==> frags[k].End() <= p
    ensures Copies(frags, p) == 0
  {
    if frags != [] {
      NoCopies(frags[1..], p);
    }
  }

  /** Sending packets over a link with a smaller limit: what is small enough passes unchanged. */
  function Refragment(pkts: seq<seq<byte>>, maxLen: int): seq<seq<byte>> {
    if pkts == [] then []
    else OverLink(pkts[0], maxLen) + Refragment(pkts[1..], maxLen)
  }

  function OverLink(pkt: seq<byte>, maxLen: int): seq<seq<byte>> {
    if Fragmentable(pkt, maxLen) then FragmentsFrom(pkt, PerFragment(maxLen, Ihl(pkt)), 0) else [pkt]
  }

  lemma OverLinkReassembles(pkt: seq<byte>, maxLen: int)
    requires IsIpv4(pkt) && Base(pkt) + |Data(pkt)| <= 0x1_0000
    ensures AllIpv4(OverLink(pkt, maxLen)) && Reassembles(Views(OverLink(pkt, maxLen)), ViewOf(pkt))
  {
    hide FragmentsFrom, ViewOf, OffsetsFit, PartOf, Copies;
    if Fragmentable(pkt, maxLen) {
      FragmentsReassemble(pkt, maxLen);
    } else {
      SelfReassembles(ViewOf(pkt));
      assert Views([pkt]) == [ViewOf(pkt)];
    }
  }

  /** Fragments may themselves be fragmented: reassembly still gives back the same datagram. */
  lemma {:induction false} RefragmentationReassembles(pkts: seq<seq<byte>>, maxLen: int, whole: View)
    requires AllIpv4(pkts) && Reassembles(Views(pkts), whole) && whole.End() <= 0x1_0000
    ensures AllIpv4(Refragment(pkts, maxLen)) && Reassembles(Views(Refragment(pkts, maxLen)), whole)
  {
    hide OverLink, IsIpv4, PartOf;
    RefragmentKeeps(pkts, maxLen, whole);
    forall p: int
      ensures Copies(Views(Refragment(pkts, maxLen)), p) == if whole.Covers(p) then 1 else 0
    {
      assert Copies(Views(Refragment(pkts, maxLen)), p) == Copies(Views(pkts), p);
    }
  }

  lemma {:induction false} RefragmentKeeps(pkts: seq<seq<byte>>, maxLen: int, whole: View)
    requires AllIpv4(pkts) && whole.End() <= 0x1_0000
    requires forall k :: 0 <= k < |pkts| ==> PartOf(ViewOf(pkts[k]), whole)
    ensures AllIpv4(Refragment(pkts, maxLen))
    ensures forall p: int :: Copies(Views(Refragment(pkts, maxLen)), p) == Copies(Views(pkts), p)
    ensures forall k :: 0 <= k < |Refragment(pkts, maxLen)| ==> PartOf(ViewOf(Refragment(pkts, maxLen)[k]), whole)
  {
    if pkts != [] {
      var first, rest := pkts[0], pkts[1..];
      var a, b := OverLink(first, maxLen), Refragment(rest, maxLen);
      assert PartOf(ViewOf(first), whole);
      OverLinkReassembles(first, maxLen);
      hide OverLink, IsIpv4, Fragmentable, PartOf, ViewOf, Copies;
      RefragmentKeeps(rest, maxLen, whole);
      assert pkts == [first] + rest && Refragment(pkts, maxLen) == a + b;
      ViewsConcat(a, b);
      ViewsConcat([first], rest);
      assert Views([first]) == [ViewOf(first)];
      forall p: int
        ensures Copies(Views(a + b), p) == Copies(Views(pkts), p)
      {
        CopiesConcat(Views(a), Views(b), p);
        CopiesCons(ViewOf(first), Views(rest), p);
      }
      forall k | 0 <= k < |a|
        ensures PartOf(ViewOf(a[k]), whole)
      {
        assert PartOf(Views(a)[k], ViewOf(first));
        PartOfTransitive(ViewOf(a[k]), ViewOf(first), whole);
      }
    }
  }
}

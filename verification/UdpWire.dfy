/**
 One UDP datagram: framing of the plaintext, sealing, counter protection and
 the STUN header, and the receiver's way back.
 */
module UdpWire {
  import opened Bytes
  import opened Crypto

  const SCRATCH := 2048

  // ---------------------------------------------------------------- plaintext framing

  /** Whether the length-prefixed form fits the scratch buffer. */
  predicate FitsScratch(payload: seq<byte>, pad: seq<byte>) {
    2 + |payload| + |pad| <= SCRATCH
  }

  /** The plaintext: length, payload and padding, or the bare payload when that does not fit. */
  function Frame(bucket: bool, payload: seq<byte>, pad: seq<byte>): seq<byte> {
    if bucket && payload != [] && FitsScratch(payload, pad) then BigEndian(2, |payload|) + payload + pad
    else payload
  }

  function Unframe(bucket: bool, plain: seq<byte>): seq<byte> {
    if bucket && |plain| >= 2 then
      var n := FromBigEndian(plain[..2]);
      if 0 < n <= |plain| - 2 then plain[2..2 + n] else plain
    else plain
  }

  /** A bare payload whose first two bytes the receiver takes for a length. */
  predicate LooksFramed(payload: seq<byte>) {
    |payload| >= 2 && 0 < FromBigEndian(payload[..2]) <= |payload| - 2
  }

  /** The framings that survive the way to the receiver. */
  predicate Clean(bucket: bool, payload: seq<byte>, pad: seq<byte>) {
    bucket ==> payload == [] || FitsScratch(payload, pad) || !LooksFramed(payload)
  }

  /** Unframing gives the payload back exactly when the framing is clean. */
  lemma UnframeFrame(bucket: bool, payload: seq<byte>, pad: seq<byte>)
    ensures Unframe(bucket, Frame(bucket, payload, pad)) == payload <==> Clean(bucket, payload, pad)
    ensures Frame(bucket, payload, pad) == [] <==> payload == []
  {
    if bucket && payload != [] && FitsScratch(payload, pad) {
      var plain := Frame(bucket, payload, pad);
      Pow256Values();
      BigEndianRoundTrip(2, |payload|);
      assert plain[..2] == BigEndian(2, |payload|);
      assert plain[2..2 + |payload|] == payload;
    }
  }

  /** A 2049-byte payload that is not returned as sent. */
  lemma LargePayloadIsCut()
    ensures exists payload: seq<byte>, pad ::
              |payload| == 2049 && Unframe(true, Frame(true, payload, pad)) != payload
  {
    var payload: seq<byte> := [0, 1] + seq(2047, i => 0);
    assert payload[..2] == [0, 1];
    assert FromBigEndian([0, 1]) == 1 by { assert [0, 1][..1] == [0]; assert FromBigEndian([0]) == 0; }
    UnframeFrame(true, payload, []);
  }

  // ---------------------------------------------------------------- headers

  const COOKIE: seq<byte> := [0x21, 0x12, 0xa4, 0x42]

  predicate IsStun(b: seq<byte>) {
    |b| >= 20 && b[0] / 64 == 0 && b[4..8] == COOKIE
  }

  predicate IsSrtp(b: seq<byte>) {
    |b| >= 12 && b[0] / 64 == 2 && 96 <= b[1] % 128
  }

  /** The packet behind an optional STUN or SRTP header. */
  function Strip(b: seq<byte>): seq<byte> {
    if IsStun(b) then b[20..] else if IsSrtp(b) then b[12..] else b
  }

  /** A STUN header has two zero bits and the magic cookie, an SRTP header version 2 and a payload type from 96 on. */
  lemma StrippedExactly(b: seq<byte>)
    ensures Strip(b) == if |b| >= 20 && b[0] < 64 && b[4..8] == [0x21, 0x12, 0xa4, 0x42] then b[20..]
                        else if |b| >= 12 && 128 <= b[0] < 192 && 96 <= b[1] % 128 then b[12..]
                        else b
  {
  }

  function Nonce(ctr: nat): seq<byte> {
    [0, 0, 0, 0] + BigEndian(8, ctr)
  }

  /** Distinct counters give distinct nonces, so no nonce is used twice under one key. */
  lemma NonceInjective(a: nat, b: nat)
    requires a < TWO64 && b < TWO64 && Nonce(a) == Nonce(b)
    ensures a == b
  {
    Pow256Values();
    BigEndianRoundTrip(8, a);
    BigEndianRoundTrip(8, b);
    assert Nonce(a)[4..] == BigEndian(8, a) && Nonce(b)[4..] == BigEndian(8, b);
  }

  // ---------------------------------------------------------------- sealed packets

  /** The 8-byte counter with the block cipher mask of the sample applied. */
  function ProtectCounter(s: Suite, hp: Key, counter: seq<byte>, sample: seq<byte>): (r: seq<byte>)
    requires |counter| == 8
    ensures |r| == 8
  {
    var mask := s.block(hp, sample);
    if |mask| >= 8 then XorMask(counter, mask[..8]) else counter
  }

  /** Tag, protected counter and ciphertext. */
  function Packet(s: Suite, key: Key, hp: Key, tag: seq<byte>, ctr: nat, plain: seq<byte>): seq<byte> {
    var counter := BigEndian(8, ctr);
    var sealed := s.seal(key, Nonce(ctr), plain, tag + counter);
    tag + ProtectCounter(s, hp, counter, if |sealed| >= 16 then sealed[..16] else sealed) + sealed
  }

  function StunHeader(kind: nat, bodyLen: nat, txid: seq<byte>): seq<byte> {
    BigEndian(2, kind) + BigEndian(2, bodyLen) + COOKIE + txid
  }

  /** The datagram on the wire; the STUN length field also bounds what is written. */
  function Datagram(stun: bool, kind: nat, txid: seq<byte>, packet: seq<byte>): seq<byte> {
    if stun then
      var bodyLen := |packet| % 0x1_0000;
      StunHeader(kind, bodyLen, txid) + packet[..bodyLen]
    else packet
  }

  /** Counter and plaintext of a packet under the given keys. */
  function OpenPacket(s: Suite, key: Key, hp: Key, packet: seq<byte>): Option<(nat, seq<byte>)>
    requires |packet| >= 28
  {
    var counter := ProtectCounter(s, hp, packet[4..12], packet[12..28]);
    var ctr := FromBigEndian(counter);
    match s.open(key, Nonce(ctr), packet[12..], packet[..4] + counter)
    case None => None
    case Some(plain) => Some((ctr, plain))
  }

  lemma StunIsStripped(kind: nat, txid: seq<byte>, packet: seq<byte>)
    requires kind in {0x0001, 0x0101} && |txid| == 12 && |packet| < 0x1_0000
    ensures Strip(Datagram(true, kind, txid, packet)) == packet
  {
    var d := Datagram(true, kind, txid, packet);
    var h := StunHeader(kind, |packet|, txid);
    assert packet[..|packet|] == packet;
    assert |BigEndian(1, kind / 256)| == 1 && BigEndian(2, kind) == BigEndian(1, kind / 256) + [kind % 256];
    assert BigEndian(1, kind / 256) == BigEndian(0, kind / 256 / 256) + [kind / 256 % 256];
    assert d[0] == kind / 256;
    assert d[4..8] == COOKIE;
    assert d[20..] == packet;
  }

  /**
   The receiver gets the sender's packet back, if and only if a STUN header was added or the packet
   does not itself look like a STUN or SRTP header.
   */
  lemma StripIsExact(stun: bool, kind: nat, txid: seq<byte>, packet: seq<byte>)
    requires kind in {0x0001, 0x0101} && |txid| == 12 && |packet| < 0x1_0000
    ensures Strip(Datagram(stun, kind, txid, packet)) == packet <==> stun || !(IsStun(packet) || IsSrtp(packet))
  {
    if stun {
      StunIsStripped(kind, txid, packet);
    }
  }

  /** Without STUN headers, a tag that looks like SRTP makes every packet of its epoch lose its header. */
  lemma SrtpTagIsMisread(s: Suite, key: Key, hp: Key, tag: seq<byte>, ctr: nat, plain: seq<byte>,
                         kind: nat, txid: seq<byte>)
    requires s.Lawful() && |tag| == 4 && ctr < TWO64 && tag[0] / 64 == 2 && 96 <= tag[1] % 128
    ensures var p := Packet(s, key, hp, tag, ctr, plain);
            |p| >= 28 && Strip(Datagram(false, kind, txid, p)) == p[12..]
  {
    hide Suite.Lawful, Packet;
    OpenInvertsSeal(s, key, hp, tag, ctr, plain);
    var p := Packet(s, key, hp, tag, ctr, plain);
    assert p[0] == p[..4][0] && p[1] == p[..4][1];
  }

  /** Opening with the sealing keys gives the counter and the plaintext back. */
  lemma OpenInvertsSeal(s: Suite, key: Key, hp: Key, tag: seq<byte>, ctr: nat, plain: seq<byte>)
    requires s.Lawful() && |tag| == 4 && ctr < TWO64
    ensures var p := Packet(s, key, hp, tag, ctr, plain);
            |p| == 28 + |plain| && p[..4] == tag && OpenPacket(s, key, hp, p) == Some((ctr, plain))
  {
    hide Packet, BigEndian, FromBigEndian, Suite.Lawful;
    var counter := BigEndian(8, ctr);
    var sealed := s.seal(key, Nonce(ctr), plain, tag + counter);
    s.OpenSeal(key, Nonce(ctr), plain, tag + counter);
    PacketParts(s, key, hp, tag, ctr, plain);
    ProtectInvolution(s, hp, counter, sealed[..16]);
    Pow256Values();
    BigEndianRoundTrip(8, ctr);
  }

  /** Where tag, protected counter and ciphertext lie. */
  lemma PacketParts(s: Suite, key: Key, hp: Key, tag: seq<byte>, ctr: nat, plain: seq<byte>)
    requires s.Lawful() && |tag| == 4
    ensures var p := Packet(s, key, hp, tag, ctr, plain);
            var counter := BigEndian(8, ctr);
            var sealed := s.seal(key, Nonce(ctr), plain, tag + counter);
            && |p| == 28 + |plain| && |sealed| >= 16 && p[..4] == tag && p[12..] == sealed && p[12..28] == sealed[..16]
            && p[4..12] == ProtectCounter(s, hp, counter, sealed[..16])
  {
    var counter := BigEndian(8, ctr);
    s.OpenSeal(key, Nonce(ctr), plain, tag + counter);
    hide BigEndian, Suite.Lawful, ProtectCounter;
    var sealed := s.seal(key, Nonce(ctr), plain, tag + counter);
    var protected := ProtectCounter(s, hp, counter, sealed[..16]);
    var p := Packet(s, key, hp, tag, ctr, plain);
    assert p == tag + protected + sealed;
  }

  /**
   A packet on the wire: the tag, each byte of the big-endian counter xor the block of the first 16
   ciphertext bytes under the header key, and the plaintext sealed with tag and counter under the
   nonce of four zeros and the counter.
   */
  lemma PacketOnWire(s: Suite, key: Key, hp: Key, tag: seq<byte>, ctr: nat, plain: seq<byte>)
    requires s.Lawful() && |tag| == 4
    ensures var p, counter := Packet(s, key, hp, tag, ctr, plain), BigEndian(8, ctr);
            && |p| == 28 + |plain| && p[..4] == tag
            && p[12..] == s.seal(key, [0, 0, 0, 0] + counter, plain, tag + counter)
            && forall i :: 0 <= i < 8 ==> p[4 + i] == XorByte(counter[i], s.block(hp, p[12..28])[i])
  {
    hide Packet, BigEndian, XorByte;
    PacketParts(s, key, hp, tag, ctr, plain);
    var p := Packet(s, key, hp, tag, ctr, plain);
    forall i | 0 <= i < 8
      ensures p[4 + i] == p[4..12][i]
    {
    }
  }

  /**
   A STUN header on the wire: type, length of what is behind it, magic cookie and transaction id.
   Behind it is the packet, cut to its length modulo 2^16.
   */
  lemma StunOnWire(kind: nat, txid: seq<byte>, packet: seq<byte>)
    requires kind < 0x1_0000 && |txid| == 12
    ensures var d, n := Datagram(true, kind, txid, packet), |packet| % 0x1_0000;
            && |d| == 20 + n && Word(d, 0) == kind && Word(d, 2) == n
            && d[4..8] == [0x21, 0x12, 0xa4, 0x42] && d[8..20] == txid && d[20..] == packet[..n]
  {
    var d, n := Datagram(true, kind, txid, packet), |packet| % 0x1_0000;
    TwoBytes(kind);
    TwoBytes(n);
    var a, b := BigEndian(2, kind), BigEndian(2, n);
    hide BigEndian;
    assert d == a + b + COOKIE + txid + packet[..n];
    assert d[0] == a[0] && d[1] == a[1] && d[2] == b[0] && d[3] == b[1];
  }

  lemma TwoBytes(v: nat)
    requires v < 0x1_0000
    ensures BigEndian(2, v) == [v / 256, v % 256]
  {
    assert BigEndian(1, v / 256) == BigEndian(0, v / 256 / 256) + [v / 256 % 256];
    assert BigEndian(2, v) == BigEndian(1, v / 256) + [v % 256];
  }

  /** Two header keys mask counters alike next to this ciphertext sample. */
  predicate SameMask(s: Suite, hp: Key, hp': Key, sample: seq<byte>) {
    |s.block(hp, sample)| >= 8 && |s.block(hp', sample)| >= 8 && s.block(hp, sample)[..8] == s.block(hp', sample)[..8]
  }

  /** Unmasking with another header key gives the counter back, if and only if the masks agree. */
  lemma UnmaskExactly(s: Suite, hp: Key, hp': Key, counter: seq<byte>, sample: seq<byte>)
    requires s.Lawful() && |counter| == 8
    ensures ProtectCounter(s, hp', ProtectCounter(s, hp, counter, sample), sample) == counter
            <==> SameMask(s, hp, hp', sample)
  {
    var m, m' := s.block(hp, sample)[..8], s.block(hp', sample)[..8];
    var masked := XorMask(counter, m);
    XorMaskInvolution(counter, m);
    XorMaskInvolution(counter, m');
    XorMaskInvolution(masked, m');
    if XorMask(masked, m') == counter {
      assert XorMask(counter, m') == XorMask(counter, m);
      forall i | 0 <= i < 8
        ensures m[i] == m'[i]
      {
        assert XorMask(counter, m)[i] == XorMask(counter, m')[i];
        XorCancel(counter[i], m[i], m'[i]);
      }
    }
  }

  /** Nothing else opens: an accepted packet is byte for byte what the sender makes of its counter and plaintext. */
  lemma OpenOnlySealed(s: Suite, key: Key, hp: Key, packet: seq<byte>)
    requires s.Lawful() && |packet| >= 28 && OpenPacket(s, key, hp, packet).Some?
    ensures var (ctr, plain) := OpenPacket(s, key, hp, packet).value;
            ctr < TWO64 && packet == Packet(s, key, hp, packet[..4], ctr, plain)
  {
    hide FromBigEndian, XorMask, Suite.Lawful;
    var (ctr, plain) := OpenPacket(s, key, hp, packet).value;
    var tag, protected, sealed, sample := packet[..4], packet[4..12], packet[12..], packet[12..28];
    var counter := ProtectCounter(s, hp, protected, sample);
    ProtectInvolution(s, hp, protected, sample);
    CounterRange(counter);
    assert sealed == s.seal(key, Nonce(ctr), plain, tag + counter) by {
      SealOfOpen(s, key, Nonce(ctr), sealed, tag + counter);
    }
    assert sealed[..16] == sample;
    assert packet == tag + protected + sealed;
  }

  lemma ProtectInvolution(s: Suite, hp: Key, counter: seq<byte>, sample: seq<byte>)
    requires |counter| == 8
    ensures ProtectCounter(s, hp, ProtectCounter(s, hp, counter, sample), sample) == counter
  {
    var mask := s.block(hp, sample);
    if |mask| >= 8 {
      XorMaskInvolution(counter, mask[..8]);
    }
  }

  lemma CounterRange(counter: seq<byte>)
    requires |counter| == 8
    ensures FromBigEndian(counter) < TWO64 && BigEndian(8, FromBigEndian(counter)) == counter
  {
    Pow256Values();
    FromBigEndianRoundTrip(counter);
  }

  lemma SealOfOpen(s: Suite, k: Key, n: seq<byte>, c: seq<byte>, a: seq<byte>)
    requires s.Lawful() && s.open(k, n, c, a).Some?
    ensures c == s.seal(k, n, s.open(k, n, c, a).value, a)
  {
  }
}

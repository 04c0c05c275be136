/**
 The encrypted stream: packets with randomized type ids and padding, masked
 headers and masked frame lengths, and the two ends that must stay in step.
 */
module StreamFramer {
  import opened Bytes
  import opened Crypto
  import opened Padding

  const VERSION := 2
  const MAX_PAYLOAD := 65535
  const MAX_FRAME := MAX_PAYLOAD + 512

  datatype PacketType = Data | Keepalive | Noise | Handshake | Close

  // ---------------------------------------------------------------- type ids

  datatype Range = Range(min: nat, max: nat) {
    predicate Contains(v: nat) { min <= v <= max }

    /** The values a random pick can give; an empty range still gives its lower end. */
    predicate CanPick(v: nat) { if max <= min then v == min else Contains(v) }
  }

  predicate Overlap(a: Range, b: Range) { a.min <= b.max && b.min <= a.max }

  datatype HeaderConfig = HeaderConfig(data: Range, keepalive: Range, noise: Range, handshake: Range, close: Range) {
    function Ranges(): (r: seq<Range>)
      ensures |r| == 5
    {
      [data, keepalive, noise, handshake, close]
    }

    predicate FitsTypeId() {
      forall r :: r in Ranges() ==> r.min < 0x1_0000_0000 && r.max < 0x1_0000_0000
    }

    function RangeFor(t: PacketType): Range {
      match t
      case Data => data
      case Keepalive => keepalive
      case Noise => noise
      case Handshake => handshake
      case Close => close
    }

    function TypeOf(id: nat): Option<PacketType> {
      if data.Contains(id) then Some(Data)
      else if keepalive.Contains(id) then Some(Keepalive)
      else if noise.Contains(id) then Some(Noise)
      else if handshake.Contains(id) then Some(Handshake)
      else if close.Contains(id) then Some(Close)
      else None
    }

    predicate Disjoint() {
      forall i, j :: 0 <= i < j < 5 ==> !Overlap(Ranges()[i], Ranges()[j])
    }

    /** Ranges that both ends can tell apart: disjoint, 32-bit and not inverted. */
    ghost predicate Separate() {
      Disjoint() && FitsTypeId() && forall r :: r in Ranges() ==> r.min <= r.max
    }
  }

  lemma SeparateExist() returns (hc: HeaderConfig)
    ensures hc.Separate()
  {
    hc := HeaderConfig(Range(1, 1), Range(2, 2), Range(3, 3), Range(4, 4), Range(5, 5));
  }

  /** The pairwise overlap test. */
  method Validate(hc: HeaderConfig) returns (ok: bool)
    ensures ok <==> hc.Disjoint()
  {
    var ranges := hc.Ranges();
    var i := 0;
    while i < 5
      invariant 0 <= i <= 5
      invariant forall a, b :: 0 <= a < i && a < b < 5 ==> !Overlap(ranges[a], ranges[b])
    {
      var j := i + 1;
      while j < 5
        invariant i < j <= 5
        invariant forall b :: i < b < j ==> !Overlap(ranges[i], ranges[b])
      {
        if ranges[i].min <= ranges[j].max && ranges[j].min <= ranges[i].max {
          assert Overlap(ranges[i], ranges[j]);
          return false;
        }
        j := j + 1;
      }
      i := i + 1;
    }
    ok := true;
  }

  /** With disjoint ranges a picked type id is recognised exactly when its range is not empty. */
  lemma PickIsRecognised(hc: HeaderConfig, t: PacketType, id: nat)
    requires hc.Disjoint() && hc.RangeFor(t).CanPick(id)
    ensures hc.TypeOf(id) == Some(t) <==> hc.RangeFor(t).min <= hc.RangeFor(t).max
  {
    var r := hc.Ranges();
    assert forall i, j :: 0 <= i < j < 5 ==> !(r[i].Contains(id) && r[j].Contains(id)) by {
      forall i, j | 0 <= i < j < 5
        ensures !(r[i].Contains(id) && r[j].Contains(id))
      {
        assert !Overlap(r[i], r[j]);
      }
    }
    assert r[0] == hc.data && r[1] == hc.keepalive && r[2] == hc.noise && r[3] == hc.handshake && r[4] == hc.close;
  }

  /** An inverted range passes the validation, and its pick is not recognised. */
  lemma InvertedIsNotRecognised()
    ensures var hc := HeaderConfig(Range(9, 8), Range(2, 2), Range(3, 3), Range(4, 4), Range(5, 5));
            hc.Disjoint() && hc.data.CanPick(9) && hc.TypeOf(9) == None
  {
  }

  // ---------------------------------------------------------------- one packet

  /** One direction of the stream: keys, base nonce, header masks and type ids. */
  datatype Direction = Direction(suite: Suite, key: Key, iv: seq<byte>,
                                 headerKey: Option<Key>, frameKey: Option<Key>, headers: HeaderConfig)
  {
    ghost predicate Valid()
      ensures Valid() ==> |iv| == 12
    {
      suite.Lawful() && |iv| == 12 && headers.Separate()
    }
  }

  /** The base nonce with the little-endian counter xored in. */
  function CipherNonce(iv: seq<byte>, ctr: nat): (n: seq<byte>)
    requires |iv| == 12
    ensures |n| == 12
  {
    XorMask(iv, LittleEndian(8, ctr))
  }

  /** The first nonce is the base nonce itself. */
  lemma FirstNonce(iv: seq<byte>)
    requires |iv| == 12
    ensures CipherNonce(iv, 0) == iv
  {
    forall i | 0 <= i < 12
      ensures CipherNonce(iv, 0)[i] == iv[i]
    {
      if i < 8 {
        NonceByte(iv, 0, i);
        ZeroShifted(i);
        XorZero(iv[i]);
      }
    }
  }

  /** Byte i of a nonce: byte i of the base nonce xor digit i of the counter to the base 256. */
  lemma {:induction false} NonceByte(iv: seq<byte>, ctr: nat, i: nat)
    requires |iv| == 12 && i < 12
    ensures CipherNonce(iv, ctr)[i] == if i < 8 then XorByte(iv[i], (ctr / Pow256(i)) % 256) else iv[i]
  {
    if i < 8 {
      LittleEndianDigit(8, ctr, i);
    }
  }

  lemma ZeroShifted(i: nat)
    ensures (0 / Pow256(i)) % 256 == 0
  {
  }

  /** Counters below 2^64 never repeat a nonce. */
  lemma CipherNonceInjective(iv: seq<byte>, a: nat, b: nat)
    requires |iv| == 12 && a < Pow256(8) && b < Pow256(8) && CipherNonce(iv, a) == CipherNonce(iv, b)
    ensures a == b
  {
    forall i | 0 <= i < 8
      ensures LittleEndian(8, a)[i] == LittleEndian(8, b)[i]
    {
      var x, y := LittleEndian(8, a)[i], LittleEndian(8, b)[i];
      assert CipherNonce(iv, a)[i] == XorByte(iv[i], x) && CipherNonce(iv, b)[i] == XorByte(iv[i], y);
      XorCancel(iv[i], x, y);
    }
    assert LittleEndian(8, a) == LittleEndian(8, b);
    LittleEndianInjective(8, a, b);
  }

  /** Masks an 8-byte header with the key stream of the sample's first 12 bytes. */
  function XorHeader(d: Direction, header: seq<byte>, sample: seq<byte>): (r: seq<byte>)
    requires |header| == 8 && |sample| >= 16
    ensures |r| == 8
  {
    match d.headerKey
    case None => header
    case Some(k) =>
      var mask := d.suite.stream(k, sample[..12]);
      if |mask| == 8 then XorMask(header, mask) else header
  }

  function PlainHeader(id: nat, payLen: nat, padLen: nat): (h: seq<byte>)
    requires padLen < 256
    ensures |h| == 8
  {
    BigEndian(4, id) + BigEndian(2, payLen) + [padLen, VERSION]
  }

  /** One send: the type id and the padding are random choices. */
  datatype Message = Message(kind: PacketType, payload: seq<byte>)

  datatype Choice = Choice(id: nat, pad: seq<byte>)

  predicate Encodable(d: Direction, m: Message, c: Choice) {
    |m.payload| <= MAX_PAYLOAD && |c.pad| < 256 && d.headers.RangeFor(m.kind).CanPick(c.id)
  }

  function Encode(d: Direction, ctr: nat, m: Message, c: Choice): (r: seq<byte>)
    requires |d.iv| == 12 && Encodable(d, m, c)
  {
    var header := PlainHeader(c.id, |m.payload|, |c.pad|);
    var ct := d.suite.seal(d.key, CipherNonce(d.iv, ctr), m.payload + c.pad, header);
    if |ct| >= 16 then XorHeader(d, header, ct) + ct else header + ct
  }

  function HeaderOf(d: Direction, raw: seq<byte>): (h: seq<byte>)
    requires |raw| >= 24
    ensures |h| == 8
  {
    XorHeader(d, raw[..8], raw[8..])
  }

  /** The tests a packet passes before it is decrypted: length, version, type id, and the lengths in the header. */
  predicate Plausible(d: Direction, raw: seq<byte>) {
    && |raw| >= 24
    && var h := HeaderOf(d, raw);
       && h[7] == VERSION && d.headers.TypeOf(FromBigEndian(h[..4])).Some?
       && |raw| - 8 == FromBigEndian(h[4..6]) + h[6] as int + TAG_SIZE
  }

  function Decode(d: Direction, ctr: nat, raw: seq<byte>): Option<Message>
    requires |d.iv| == 12
  {
    if !Plausible(d, raw) then None
    else
      var h := HeaderOf(d, raw);
      var kind, payLen := d.headers.TypeOf(FromBigEndian(h[..4])).value, FromBigEndian(h[4..6]);
      match d.suite.open(d.key, CipherNonce(d.iv, ctr), raw[8..], h)
      case None => None
      case Some(plain) => if payLen <= |plain| then Some(Message(kind, plain[..payLen])) else None
  }

  lemma HeaderFields(id: nat, payLen: nat, padLen: nat)
    requires id < 0x1_0000_0000 && payLen < 0x1_0000 && padLen < 256
    ensures var h := PlainHeader(id, payLen, padLen);
            FromBigEndian(h[..4]) == id && FromBigEndian(h[4..6]) == payLen && h[6] == padLen && h[7] == VERSION
  {
    var h := PlainHeader(id, payLen, padLen);
    assert h[..4] == BigEndian(4, id) && h[4..6] == BigEndian(2, payLen);
    Pow256Values();
    BigEndianRoundTrip(4, id);
    BigEndianRoundTrip(2, payLen);
  }

  lemma IdFits(d: Direction, kind: PacketType, id: nat)
    requires d.Valid() && d.headers.RangeFor(kind).CanPick(id)
    ensures id < 0x1_0000_0000 && d.headers.TypeOf(id) == Some(kind)
  {
    var r := d.headers.RangeFor(kind);
    assert r in d.headers.Ranges() by {
      var rs := d.headers.Ranges();
      assert rs[0] in rs && rs[1] in rs && rs[2] in rs && rs[3] in rs && rs[4] in rs;
    }
    PickIsRecognised(d.headers, kind, id);
  }

  lemma XorHeaderInvolution(d: Direction, header: seq<byte>, sample: seq<byte>)
    requires |header| == 8 && |sample| >= 16
    ensures XorHeader(d, XorHeader(d, header, sample), sample) == header
  {
    match d.headerKey
    case None =>
    case Some(k) =>
      var mask := d.suite.stream(k, sample[..12]);
      if |mask| == 8 {
        XorMaskInvolution(header, mask);
      }
  }

  /** With another header key the header comes back, if and only if the two key streams agree. */
  lemma UnmaskHeaderExactly(d: Direction, k1: Key, k2: Key, header: seq<byte>, sample: seq<byte>)
    requires d.suite.Lawful() && |header| == 8 && |sample| >= 16
    ensures var masked := XorHeader(d.(headerKey := Some(k1)), header, sample);
            XorHeader(d.(headerKey := Some(k2)), masked, sample) == header
            <==> d.suite.stream(k1, sample[..12]) == d.suite.stream(k2, sample[..12])
  {
    var m1, m2 := d.suite.stream(k1, sample[..12]), d.suite.stream(k2, sample[..12]);
    XorMaskCancel(header, m1, m2);
  }

  /** XorMask twice gives the bytes back, if and only if the masks are the same. */
  lemma XorMaskCancel(s: seq<byte>, a: seq<byte>, b: seq<byte>)
    requires |a| == |b| <= |s|
    ensures XorMask(XorMask(s, a), b) == s <==> a == b
  {
    hide XorByte;
    XorMaskInvolution(s, a);
    XorMaskInvolution(s, b);
    if XorMask(XorMask(s, a), b) == s {
      XorMaskInvolution(XorMask(s, a), b);
      assert XorMask(s, a) == XorMask(s, b);
      forall i | 0 <= i < |a|
        ensures a[i] == b[i]
      {
        assert XorMask(s, a)[i] == XorByte(s[i], a[i]) && XorMask(s, b)[i] == XorByte(s[i], b[i]);
        XorCancel(s[i], a[i], b[i]);
      }
    }
  }

  /**
   A packet on the wire. Behind the header: payload and padding, sealed under the next nonce with the
   plain header. In the header: type id, payload length, padding length and version 2, each byte
   xored with the key stream of the first 12 bytes of the ciphertext.
   */
  lemma PacketOnWire(d: Direction, ctr: nat, m: Message, c: Choice)
    requires d.Valid() && Encodable(d, m, c)
    ensures var r := Encode(d, ctr, m, c);
            var plain := BigEndian(4, c.id) + BigEndian(2, |m.payload|) + [|c.pad|, 2];
            && |r| >= 24 && r[8..] == d.suite.seal(d.key, CipherNonce(d.iv, ctr), m.payload + c.pad, plain)
            && forall i :: 0 <= i < 8 ==>
                 r[i] == match d.headerKey
                         case Some(k) => XorByte(plain[i], d.suite.stream(k, r[8..20])[i])
                         case None => plain[i]
  {
    hide CipherNonce, BigEndian, XorByte, HeaderConfig.Separate;
    var plain := BigEndian(4, c.id) + BigEndian(2, |m.payload|) + [|c.pad|, 2];
    var ct := d.suite.seal(d.key, CipherNonce(d.iv, ctr), m.payload + c.pad, plain);
    var r := Encode(d, ctr, m, c);
    assert r[8..] == ct && r[8..20] == ct[..12];
  }

  /** With equal counters a packet decodes to what was encoded, and it fits the receiver's limit. */
  lemma DecodeInvertsEncode(d: Direction, ctr: nat, m: Message, c: Choice)
    requires d.Valid() && Encodable(d, m, c)
    ensures |Encode(d, ctr, m, c)| == 8 + |m.payload| + |c.pad| + TAG_SIZE <= MAX_FRAME
    ensures Decode(d, ctr, Encode(d, ctr, m, c)) == Some(m)
  {
    hide CipherNonce, XorHeader, HeaderConfig.TypeOf, HeaderConfig.Disjoint, PlainHeader, HeaderConfig.FitsTypeId;
    var header := PlainHeader(c.id, |m.payload|, |c.pad|);
    var n := CipherNonce(d.iv, ctr);
    var ct := d.suite.seal(d.key, n, m.payload + c.pad, header);
    d.suite.OpenSeal(d.key, n, m.payload + c.pad, header);
    var raw := Encode(d, ctr, m, c);
    assert raw[8..] == ct && raw[..8] == XorHeader(d, header, ct);
    XorHeaderInvolution(d, header, ct);
    IdFits(d, m.kind, c.id);
    HeaderFields(c.id, |m.payload|, |c.pad|);
    assert (m.payload + c.pad)[..|m.payload|] == m.payload;
  }

  /** Nothing else decodes: an accepted packet is byte for byte an encoding of its message. */
  lemma DecodeOnlyEncoded(d: Direction, ctr: nat, raw: seq<byte>)
    requires d.Valid() && Decode(d, ctr, raw).Some?
    ensures exists c :: Encodable(d, Decode(d, ctr, raw).value, c)
                        && raw == Encode(d, ctr, Decode(d, ctr, raw).value, c)
  {
    hide CipherNonce, XorHeader, PlainHeader, HeaderConfig.TypeOf, HeaderConfig.Disjoint, HeaderConfig.FitsTypeId;
    var m := Decode(d, ctr, raw).value;
    var ct := raw[8..];
    var header := XorHeader(d, raw[..8], ct);
    XorHeaderInvolution(d, raw[..8], ct);
    var plain := d.suite.open(d.key, CipherNonce(d.iv, ctr), ct, header).value;
    var payLen := |m.payload|;
    var c := Choice(FromBigEndian(header[..4]), plain[payLen..]);
    assert plain == m.payload + c.pad;
    assert ct == d.suite.seal(d.key, CipherNonce(d.iv, ctr), plain, header);
    assert |ct| == |plain| + TAG_SIZE;
    FromBigEndianRoundTrip(header[4..6]);
    Pow256Values();
    assert payLen == FromBigEndian(header[4..6]) && |c.pad| == header[6];
    HeaderRebuilt(header);
    RecognisedIsPickable(d, m.kind, c.id);
    assert Encodable(d, m, c);
    assert raw == raw[..8] + ct;
    assert raw == Encode(d, ctr, m, c);
  }

  /** A header with the right version is the plain header of its fields. */
  lemma HeaderRebuilt(h: seq<byte>)
    requires |h| == 8 && h[7] == VERSION
    ensures h == PlainHeader(FromBigEndian(h[..4]), FromBigEndian(h[4..6]), h[6])
  {
    FromBigEndianRoundTrip(h[..4]);
    FromBigEndianRoundTrip(h[4..6]);
    assert h == h[..4] + h[4..6] + [h[6], h[7]];
  }

  lemma RecognisedIsPickable(d: Direction, kind: PacketType, id: nat)
    requires d.Valid() && d.headers.TypeOf(id) == Some(kind)
    ensures d.headers.RangeFor(kind).CanPick(id)
  {
    var r := d.headers.RangeFor(kind);
    assert r.Contains(id);
  }

  // ---------------------------------------------------------------- padding lengths

  /** The padding settings of a framer. */
  datatype PaddingConfig = PaddingConfig(dataMin: nat, dataMax: nat, noiseMin: nat, noiseMax: nat,
                                         keepaliveMin: nat, keepaliveMax: nat,
                                         bucket: bool, bucketMTU: int, maxTrailer: int)
  {
    function PaddingFor(kind: PacketType): (nat, nat) {
      match kind
      case Data => (dataMin, dataMax)
      case Noise => (noiseMin, noiseMax)
      case Keepalive => (keepaliveMin, keepaliveMax)
      case _ => (16, 64)
    }

    /** The bounds of one packet's padding; bucket padding fixes both. */
    function Bounds(m: Message, steps: nat): (nat, nat) {
      if m.kind == Data && bucket then
        var n := PadLength(|m.payload|, bucketMTU, steps);
        (n, n)
      else PaddingFor(m.kind)
    }

    /** What the random choices of one packet can be. */
    predicate Allows(headers: HeaderConfig, m: Message, r: Random) {
      var (min, max) := Bounds(m, r.steps);
      headers.RangeFor(m.kind).CanPick(r.id) && CanStep(maxTrailer, r.steps) && (max > min ==> r.size < max - min)
    }

    /** The type id and the padding that come of them. */
    function ChoiceOf(m: Message, r: Random): (c: Choice)
      ensures |c.pad| < 256
    {
      var (min, max) := Bounds(m, r.steps);
      Choice(r.id, seq(PadSize(min, max, r.size), i requires 0 <= i => r.fill(i)))
    }

    lemma ChoiceIsLegal(headers: HeaderConfig, m: Message, r: Random)
      requires Allows(headers, m, r)
      ensures |ChoiceOf(m, r).pad| < 256 && headers.RangeFor(m.kind).CanPick(ChoiceOf(m, r).id)
    {
    }
  }

  /** The random choices of one packet: type id, trailer steps, padding size and padding bytes. */
  datatype Random = Random(id: nat, steps: nat, size: nat, fill: nat -> byte)

  /** The room for padding: at most what the one-byte length field can say. */
  function PaddingRoom(padMin: nat, padMax: nat): (r: nat)
    ensures r < 256
  {
    Min(Max(padMax, padMin), 255)
  }

  /** The padding size within its bounds, cut to the room. */
  function PadSize(min: nat, max: nat, pick: nat): (n: nat)
    ensures n < 256
  {
    Min(if max <= min then min else min + pick, PaddingRoom(min, max))
  }

  /** The chosen padding length in a buffer; pick is a random choice below max - min. */
  method FastRandomPadding(room: nat, min: nat, max: nat, pick: nat) returns (size: nat)
    requires max > min ==> pick < max - min
    ensures size == Min(if max <= min then min else min + pick, room)
    ensures size <= room && (min <= room ==> min <= size) && (max > min && max <= room ==> size < max)
  {
    if max <= min {
      size := min;
      if size > room { size := room; }
      return;
    }
    size := min + pick;
    if size > room { size := room; }
  }

  /** The choices of one packet, made as the encoder makes them: bounds, room, size and random bytes. */
  method Choose(cfg: PaddingConfig, headers: HeaderConfig, m: Message, r: Random) returns (c: Choice)
    requires cfg.Allows(headers, m, r)
    ensures c == cfg.ChoiceOf(m, r)
    ensures |c.pad| < 256 && headers.RangeFor(m.kind).CanPick(c.id)
  {
    var (padMin, padMax) := cfg.PaddingFor(m.kind);
    if m.kind == Data && cfg.bucket {
      var padLen := CalculateBucketPaddingWithTrailer(|m.payload|, cfg.bucketMTU, cfg.maxTrailer, r.steps);
      padMin, padMax := padLen, padLen;
    }
    var maxPad := padMax;
    if maxPad < padMin { maxPad := padMin; }
    if maxPad > 255 { maxPad := 255; }
    var size := FastRandomPadding(maxPad, padMin, padMax, r.size);
    c := Choice(r.id, seq(size, i requires 0 <= i => r.fill(i)));
  }

  /**
   The padding of any other packet is the chosen one between its two settings, which are 16 and 64
   for HANDSHAKE and CLOSE, the lower one included, and is cut to 255 bytes.
   */
  lemma PaddingWithin(cfg: PaddingConfig, headers: HeaderConfig, m: Message, r: Random)
    requires cfg.Allows(headers, m, r) && !(m.kind == Data && cfg.bucket)
    ensures var n := |cfg.ChoiceOf(m, r).pad|;
            var (min, max) := match m.kind
                              case Data => (cfg.dataMin, cfg.dataMax)
                              case Noise => (cfg.noiseMin, cfg.noiseMax)
                              case Keepalive => (cfg.keepaliveMin, cfg.keepaliveMax)
                              case Handshake => (16, 64)
                              case Close => (16, 64);
            n == Min(if max <= min then min else min + r.size, 255) && (max > min ==> n < max)
    ensures cfg.ChoiceOf(m, r).id == r.id
  {
  }

  /**
   A bucket-padded DATA packet reaches its padded length, if and only if the padding fits the
   one-byte length field; otherwise it falls short by exactly what does not fit.
   */
  lemma BucketReached(cfg: PaddingConfig, m: Message, r: Random)
    requires m.kind == Data && cfg.bucket && 0 < |m.payload| < cfg.bucketMTU
    ensures var n := |m.payload| + |cfg.ChoiceOf(m, r).pad|;
            var full := PaddedLength(|m.payload|, cfg.bucketMTU, 4 * r.steps);
            && (n == full <==> full <= |m.payload| + 255)
            && (full > |m.payload| + 255 ==> n == |m.payload| + 255)
  {
  }
}

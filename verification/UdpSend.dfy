/**
 Sending one UDP datagram: the plaintext is framed in a scratch buffer and sealed
 in place in a send buffer whose capacity is the caller's or the pool's.
 */
module UdpSend {
  import opened Bytes
  import opened Buffers
  import opened Crypto
  import opened Padding
  import opened UdpWire

  /** The capacity of a pooled send buffer. */
  const POOLED := 2048

  datatype Settings = Settings(bucket: bool, bucketMTU: int, maxTrailer: int, stun: bool) {
    function HeaderOffset(): nat { if stun then 20 else 0 }

    /** The padding of a payload: its length is computed, its bytes are random. */
    function Pad(payload: seq<byte>, c: Choices): seq<byte> {
      seq(PadLength(2 + |payload|, bucketMTU, c.steps), i requires 0 <= i => c.fill(i))
    }

    /** The plaintext that is sealed. */
    function Plain(payload: seq<byte>, c: Choices): seq<byte> {
      Frame(bucket, payload, Pad(payload, c))
    }

    /** The capacity a datagram takes. */
    function Needed(plain: seq<byte>): nat { HeaderOffset() + 28 + |plain| }
  }

  /** The random choices of one send. */
  datatype Choices = Choices(steps: nat, fill: nat -> byte, txid: seq<byte>)

  /** The buffer length that is asked for, computed from the payload before padding. */
  function Required(payload: seq<byte>): nat { 20 + 12 + |payload| + TAG_SIZE + 64 }

  /** How a send ends: a datagram goes out, the buffer is refused, or a slice beyond its capacity is taken. */
  datatype Result = Written(datagram: seq<byte>) | ShortBuffer | Overrun

  // ---------------------------------------------------------------- in place

  /** Length, payload and padding in the scratch buffer, or the payload itself. */
  method FramePlain(st: Settings, payload: seq<byte>, c: Choices) returns (plain: seq<byte>)
    requires CanStep(st.maxTrailer, c.steps)
    ensures plain == st.Plain(payload, c)
  {
    hide Overwrite, BigEndian, PadLength;
    plain := payload;
    if st.bucket && |payload| > 0 {
      var padLen := CalculateBucketPaddingWithTrailer(2 + |payload|, st.bucketMTU, st.maxTrailer, c.steps);
      var total := 2 + |payload| + padLen;
      var scratch := new byte[SCRATCH](i => 0);
      ghost var w := scratch[..];
      if total <= SCRATCH {
        WriteBytes(scratch, 0, BigEndian(2, |payload|));
        WriteBytes(scratch, 2, payload);
        WriteBytes(scratch, 2 + |payload|, seq(padLen, i requires 0 <= i => c.fill(i)));
        plain := scratch[..total];
        FrameWritten(w, BigEndian(2, |payload|), payload, st.Pad(payload, c));
      }
    }
  }

  /** Three writes in a row fill the front of a buffer. */
  lemma FrameWritten(w: seq<byte>, a: seq<byte>, b: seq<byte>, c: seq<byte>)
    requires |a| + |b| + |c| <= |w|
    ensures Overwrite(Overwrite(Overwrite(w, 0, a), |a|, b), |a| + |b|, c)[..|a| + |b| + |c|] == a + b + c
  {
    hide Overwrite;
    var ab, abc := |a| + |b|, |a| + |b| + |c|;
    var w1 := Overwrite(w, 0, a);
    var w2 := Overwrite(w1, |a|, b);
    var w3 := Overwrite(w2, ab, c);
    WrittenSlice(w, 0, a);
    KeptSlice(w1, |a|, b, 0, |a|);
    WrittenSlice(w1, |a|, b);
    JoinSlices(w2, 0, |a|, ab);
    KeptSlice(w2, ab, c, 0, ab);
    WrittenSlice(w2, ab, c);
    JoinSlices(w3, 0, ab, abc);
  }

  /** Tag, protected counter and ciphertext from offset h on; a ciphertext beyond the capacity is put elsewhere. */
  method SealInto(s: Suite, k: PacketKeys, ctr: nat, plain: seq<byte>, h: nat, buf: array<byte>) returns (n: nat)
    requires s.Lawful() && |k.tag| == 4 && h + 28 <= buf.Length
    modifies buf
    ensures n == 28 + |plain|
    ensures h + n <= buf.Length ==> buf[h..h + n] == Packet(s, k.key, k.hp, k.tag, ctr, plain)
  {
    hide Overwrite, Suite.Lawful;
    ghost var w0 := buf[..];
    WriteBytes(buf, h, k.tag);
    ghost var w1 := buf[..];
    var counter := BigEndian(8, ctr);
    WriteBytes(buf, h + 4, counter);
    ghost var w2 := buf[..];
    assert w2[h..h + 12] == k.tag + counter by { HeaderWritten(w0, h, k.tag, counter); }
    var sealed := s.seal(k.key, Nonce(ctr), plain, buf[h..h + 12]);
    s.OpenSeal(k.key, Nonce(ctr), plain, k.tag + counter);
    n := 12 + |sealed|;
    if h + n <= buf.Length {
      WriteBytes(buf, h + 12, sealed);
    }
    ghost var w3 := buf[..];
    WriteBytes(buf, h + 4, ProtectCounter(s, k.hp, buf[h + 4..h + 12], buf[h + 12..h + 28]));
    if h + n <= buf.Length {
      PacketWritten(w2, h, k.tag, counter, sealed, ProtectCounter(s, k.hp, w3[h + 4..h + 12], w3[h + 12..h + 28]));
    }
  }

  lemma HeaderWritten(w: seq<byte>, h: nat, tag: seq<byte>, counter: seq<byte>)
    requires |tag| == 4 && |counter| == 8 && h + 12 <= |w|
    ensures Overwrite(Overwrite(w, h, tag), h + 4, counter)[h..h + 12] == tag + counter
  {
    hide Overwrite;
    var w1 := Overwrite(w, h, tag);
    var w2 := Overwrite(w1, h + 4, counter);
    WrittenSlice(w, h, tag);
    WrittenSlice(w1, h + 4, counter);
    KeptSlice(w1, h + 4, counter, h, h + 4);
    JoinSlices(w2, h, h + 4, h + 12);
  }

  lemma PacketWritten(w: seq<byte>, h: nat, tag: seq<byte>, counter: seq<byte>, sealed: seq<byte>, protected: seq<byte>)
    requires |tag| == 4 && |counter| == |protected| == 8 && |sealed| >= 16 && h + 12 + |sealed| <= |w|
    requires w[h..h + 12] == tag + counter
    ensures var w3 := Overwrite(w, h + 12, sealed);
            && w3[h + 4..h + 12] == counter && w3[h + 12..h + 28] == sealed[..16]
            && Overwrite(w3, h + 4, protected)[h..h + 12 + |sealed|] == tag + protected + sealed
  {
    hide Overwrite;
    var end := h + 12 + |sealed|;
    var w3 := Overwrite(w, h + 12, sealed);
    var w4 := Overwrite(w3, h + 4, protected);
    KeptSlice(w, h + 12, sealed, h, h + 12);
    WrittenSlice(w, h + 12, sealed);
    assert w3[h + 4..h + 12] == w3[h..h + 12][4..];
    assert w3[h + 12..h + 28] == w3[h + 12..end][..16];
    WrittenSlice(w3, h + 4, protected);
    KeptSlice(w3, h + 4, protected, h, h + 4);
    KeptSlice(w3, h + 4, protected, h + 12, end);
    assert w4[h..h + 4] == w3[h..h + 12][..4] == tag;
    JoinSlices(w4, h, h + 4, h + 12);
    JoinSlices(w4, h, h + 12, end);
  }

  /** The keys one packet is made with. */
  datatype PacketKeys = PacketKeys(key: Key, hp: Key, tag: seq<byte>)

  /** The whole send on a buffer of the given length; the array is the buffer's capacity. */
  method Send(st: Settings, s: Suite, k: PacketKeys, ctr: nat, payload: seq<byte>, c: Choices, kind: nat,
              buf: array<byte>, len: nat) returns (r: Result)
    requires s.Lawful() && |k.tag| == 4 && CanStep(st.maxTrailer, c.steps) && |c.txid| == 12 && len <= buf.Length
    modifies buf
    ensures r == ShortBuffer <==> len < Required(payload)
    ensures r == ShortBuffer ==> buf[..] == old(buf[..])
    ensures r.Overrun? <==> len >= Required(payload) && st.Needed(st.Plain(payload, c)) > buf.Length
    ensures r.Written? ==>
              r.datagram == Datagram(st.stun, kind, c.txid, Packet(s, k.key, k.hp, k.tag, ctr, st.Plain(payload, c)))
  {
    hide Suite.Lawful, Packet, Frame, Overwrite, Settings.Plain, BigEndian, PadLength;
    if len < Required(payload) { return ShortBuffer; }
    var plain := FramePlain(st, payload, c);
    PlainIsShort(st, payload, c);
    var n := SealInto(s, k, ctr, plain, st.HeaderOffset(), buf);
    ghost var packet := Packet(s, k.key, k.hp, k.tag, ctr, plain);
    if st.stun {
      var bodyLen := n % 0x1_0000;
      ghost var was := buf[..];
      WriteBytes(buf, 0, StunHeader(kind, bodyLen, c.txid));
      if 20 + bodyLen > buf.Length { return Overrun; }
      r := Written(buf[..20 + bodyLen]);
      assert 20 + n <= buf.Length;
      StunWritten(was, StunHeader(kind, bodyLen, c.txid), packet, bodyLen);
    } else {
      if n > buf.Length { return Overrun; }
      r := Written(buf[..n]);
    }
  }

  lemma StunWritten(w: seq<byte>, header: seq<byte>, packet: seq<byte>, n: nat)
    requires |header| == 20 && 20 + |packet| <= |w| && w[20..20 + |packet|] == packet && n <= |packet|
    ensures Overwrite(w, 0, header)[..20 + n] == header + packet[..n]
  {
    assert w[20..20 + n] == packet[..n];
  }

  /** A plaintext longer than its payload fits the scratch buffer. */
  lemma PlainIsShort(st: Settings, payload: seq<byte>, c: Choices)
    ensures var n := |st.Plain(payload, c)|;
            n == |payload| || (n <= SCRATCH && n == 2 + |payload| + PadLength(2 + |payload|, st.bucketMTU, c.steps))
  {
  }

  // ---------------------------------------------------------------- which settings fit

  /** Every payload and every trailer fits the smallest buffer the pool hands out. */
  ghost predicate AlwaysFits(st: Settings) {
    forall payload, c: Choices | CanStep(st.maxTrailer, c.steps) ::
      st.Needed(st.Plain(payload, c)) <= Max(POOLED, Required(payload))
  }

  /** The plaintext that still fits a pooled buffer. */
  function Room(st: Settings): nat { POOLED - st.HeaderOffset() - 28 }

  /** The longest trailer. */
  function LongestTrailer(st: Settings): nat { if st.maxTrailer >= 4 then st.maxTrailer / 4 * 4 else 0 }

  /** A padded length can fit the scratch buffer but, with the headers, not the pooled send buffer. */
  predicate CanOverrun(st: Settings) {
    var mtu := st.bucketMTU / 4 * 4;
    st.bucket && Room(st) < mtu && (mtu <= SCRATCH || 1024 + LongestTrailer(st) > Room(st))
  }

  lemma FitsUnlessOverrun(st: Settings, payload: seq<byte>, c: Choices)
    requires CanStep(st.maxTrailer, c.steps) && !CanOverrun(st)
    ensures st.Needed(st.Plain(payload, c)) <= Max(POOLED, Required(payload))
  {
    if st.bucket {
      PlainIsShort(st, payload, c);
      hide Frame;
    }
  }

  /** A bucket MTU that is too large by itself: a payload of 1100 bytes overruns. */
  lemma MtuOverruns(st: Settings, c: Choices)
    requires st.bucket && Room(st) < st.bucketMTU / 4 * 4 <= SCRATCH
    ensures var payload: seq<byte> := seq(1100, i => 0);
            && st.Needed(st.Plain(payload, c)) == st.HeaderOffset() + 28 + st.bucketMTU / 4 * 4 > POOLED
            && POOLED > Required(payload)
  {
    assert PadLength(1102, st.bucketMTU, c.steps) == st.bucketMTU / 4 * 4 - 1102;
  }

  /** A trailer that is too long: a payload of 700 bytes and just enough steps overrun. */
  lemma TrailerOverruns(st: Settings, c: Choices)
    requires st.bucket && st.bucketMTU / 4 * 4 > SCRATCH && c.steps == (Room(st) - 1024) / 4 + 1
    ensures var payload: seq<byte> := seq(700, i => 0);
            && st.Needed(st.Plain(payload, c)) == POOLED + 4
            && POOLED > Required(payload)
  {
    assert PadLength(702, st.bucketMTU, c.steps) == Room(st) + 4 - 702;
  }

  /** With a bucket MTU of 2040 and STUN headers, 1100 bytes need 2088 bytes of a 2048-byte buffer. */
  lemma PaddedSendOverruns(c: Choices)
    ensures var st, payload: seq<byte> := Settings(true, 2040, 0, true), seq(1100, i => 0);
            Required(payload) == 1212 && st.Needed(st.Plain(payload, c)) == 2088 > POOLED
  {
    MtuOverruns(Settings(true, 2040, 0, true), c);
  }

  /** With a bucket MTU of 4000 and a trailer of up to 1000, 700 bytes and 245 steps need 2052 bytes. */
  lemma TrailedSendOverruns(c: Choices)
    requires c.steps == 245
    ensures var st, payload: seq<byte> := Settings(true, 4000, 1000, true), seq(700, i => 0);
            && CanStep(st.maxTrailer, c.steps)
            && Required(payload) == 812 && st.Needed(st.Plain(payload, c)) == 2052 > POOLED
  {
    TrailerOverruns(Settings(true, 4000, 1000, true), c);
  }

  /** Every send of every payload with every trailer succeeds, if and only if the settings cannot overrun. */
  lemma AlwaysFitsExactly(st: Settings)
    ensures AlwaysFits(st) <==> !CanOverrun(st)
  {
    hide Settings.Plain;
    if CanOverrun(st) {
      if st.bucketMTU / 4 * 4 <= SCRATCH {
        var c, payload: seq<byte> := Choices(0, i => 0, []), seq(1100, i => 0);
        MtuOverruns(st, c);
        assert st.Needed(st.Plain(payload, c)) > Max(POOLED, Required(payload));
      } else {
        var c, payload: seq<byte> := Choices((Room(st) - 1024) / 4 + 1, i => 0, []), seq(700, i => 0);
        TrailerOverruns(st, c);
        assert st.Needed(st.Plain(payload, c)) > Max(POOLED, Required(payload));
      }
    } else {
      forall payload, c: Choices | CanStep(st.maxTrailer, c.steps)
        ensures st.Needed(st.Plain(payload, c)) <= Max(POOLED, Required(payload))
      {
        FitsUnlessOverrun(st, payload, c);
      }
    }
  }
}

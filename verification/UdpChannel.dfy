/**
 The endpoints of the UDP data channel: sending, receiving and epoch ratcheting.
 */
module UdpChannel {
  import opened Bytes
  import opened Crypto
  import opened Padding
  import opened UdpSend
  import opened UdpWire
  import RW = ReplayWindow

  // ---------------------------------------------------------------- receiving one datagram

  /** The keys of one direction in one epoch. */
  datatype EpochKeys = EpochKeys(key: Key, hp: Key, tag: seq<byte>)

  /**
   The receiver's keys: the current epoch and, after a ratchet, the previous one. The server's
   session table also keeps the tags of all earlier epochs; the client knows no other tags. A server
   session that is not the most recently used one is found by the table only.
   */
  datatype RecvKeys = RecvKeys(dec: Key, hp: Key, tag: seq<byte>,
                               prevDec: Option<Key>, prevHp: Option<Key>, prevTag: seq<byte>,
                               table: set<seq<byte>>, listedOnly: bool)
  {
    /** The opening and header keys for a tag; a tag only the table knows is tried with the current keys. */
    function Select(t: seq<byte>): Option<(Key, Key)> {
      if listedOnly && t !in table then None
      else if t == tag then Some((dec, hp))
      else if prevDec.Some? && t == prevTag then
        Some((prevDec.value, if prevHp.Some? then prevHp.value else hp))
      else if t in table then Some((dec, hp))
      else None
    }
  }

  function Decode(s: Suite, keys: RecvKeys, datagram: seq<byte>): Option<(nat, seq<byte>)> {
    var packet := Strip(datagram);
    if |packet| < 28 then None
    else
      match keys.Select(packet[..4])
      case None => None
      case Some((dec, hp)) => OpenPacket(s, dec, hp, packet)
  }

  /** The counter of an authentic datagram is an unsigned 64-bit number. */
  lemma DecodedCounter(s: Suite, keys: RecvKeys, datagram: seq<byte>)
    ensures match Decode(s, keys, datagram)
            case None => true
            case Some((ctr, _)) => ctr < TWO64
  {
    var packet := Strip(datagram);
    if |packet| >= 28 && keys.Select(packet[..4]).Some? {
      var (_, hp) := keys.Select(packet[..4]).value;
      Pow256Values();
      FromBigEndianRoundTrip(ProtectCounter(s, hp, packet[4..12], packet[12..28]));
    }
  }

  // ---------------------------------------------------------------- the endpoint object

  class Channel {
    const suite: Suite
    const settings: Settings
    var enc: Key
    var keys: RecvKeys
    var sendCtr: nat
    const replay: RW.Window

    ghost predicate Valid()
      reads this, replay, replay.bitmap
    {
      replay.Valid() && sendCtr < TWO64 && |keys.tag| == 4 && suite.Lawful()
    }

    constructor (suite: Suite, send: EpochKeys, recv: EpochKeys, settings: Settings)
      requires suite.Lawful() && |recv.tag| == 4
      ensures Valid() && fresh(replay) && fresh(replay.bitmap)
      ensures this.suite == suite && this.settings == settings && enc == send.key
      ensures keys == RecvKeys(recv.key, recv.hp, recv.tag, None, None, [0, 0, 0, 0], {}, false)
      ensures sendCtr == 0 && replay.Abstract() == RW.EMPTY
    {
      this.suite, this.settings, enc := suite, settings, send.key;
      keys := RecvKeys(recv.key, recv.hp, recv.tag, None, None, [0, 0, 0, 0], {}, false);
      sendCtr := 0;
      replay := new RW.Window();
    }

    /** Seals one payload under the next counter in the caller's buffer; a refused buffer uses no counter. */
    method SendWithBuffer(payload: seq<byte>, c: Choices, kind: nat, buf: array<byte>, len: nat) returns (r: Result)
      requires Valid() && CanStep(settings.maxTrailer, c.steps) && |c.txid| == 12 && len <= buf.Length
      modifies this`sendCtr, buf
      ensures Valid()
      ensures sendCtr == if r == ShortBuffer then old(sendCtr) else (old(sendCtr) + 1) % TWO64
      ensures r == ShortBuffer <==> len < Required(payload)
      ensures r == ShortBuffer ==> buf[..] == old(buf[..])
      ensures r.Overrun? <==> len >= Required(payload) && settings.Needed(settings.Plain(payload, c)) > buf.Length
      ensures r.Written? ==>
                r.datagram == Datagram(settings.stun, kind, c.txid,
                                       Packet(suite, enc, keys.hp, keys.tag, old(sendCtr), settings.Plain(payload, c)))
    {
      hide Suite.Lawful, Packet, Datagram, Settings.Plain, Settings.Needed;
      if len < Required(payload) { return ShortBuffer; }
      var ctr := sendCtr;
      sendCtr := (sendCtr + 1) % TWO64;
      r := UdpSend.Send(settings, suite, PacketKeys(enc, keys.hp, keys.tag), ctr, payload, c, kind, buf, len);
    }

    /** The same with a buffer from the pool, of any capacity that holds the payload. */
    method Send(payload: seq<byte>, c: Choices, kind: nat, capacity: nat) returns (r: Result)
      requires Valid() && CanStep(settings.maxTrailer, c.steps) && |c.txid| == 12
      requires capacity >= Max(POOLED, Required(payload))
      modifies this`sendCtr
      ensures Valid() && sendCtr == (old(sendCtr) + 1) % TWO64
      ensures r.Overrun? <==> settings.Needed(settings.Plain(payload, c)) > capacity
      ensures r != ShortBuffer
      ensures r.Written? ==>
                r.datagram == Datagram(settings.stun, kind, c.txid,
                                       Packet(suite, enc, keys.hp, keys.tag, old(sendCtr), settings.Plain(payload, c)))
    {
      hide Suite.Lawful, Packet, Datagram, Settings.Plain, Settings.Needed;
      var buf := new byte[capacity](i => 0);
      r := SendWithBuffer(payload, c, kind, buf, Required(payload));
    }

    /** First critical section of a ratchet: the sending side switches, and with it the current tag and mask key. */
    method RatchetSendHalf(sendKey: Key, hp: Key, tag: seq<byte>) returns (oldHp: Key, oldTag: seq<byte>)
      requires Valid() && |tag| == 4
      modifies this`enc, this`keys
      ensures Valid() && enc == sendKey && oldHp == old(keys).hp && oldTag == old(keys).tag
      ensures keys == old(keys).(hp := hp, tag := tag)
    {
      enc := sendKey;
      oldHp, oldTag := keys.hp, keys.tag;
      keys := keys.(hp := hp, tag := tag);
    }

    /** Second critical section: the receiving side switches and keeps the old epoch. */
    method RatchetRecvHalf(recvKey: Key, oldHp: Key, oldTag: seq<byte>)
      requires Valid()
      modifies this`keys
      ensures Valid()
      ensures keys == RecvKeys(recvKey, old(keys).hp, old(keys).tag, Some(old(keys).dec), Some(oldHp), oldTag,
                               {}, false)
    {
      keys := RecvKeys(recvKey, keys.hp, keys.tag, Some(keys.dec), Some(oldHp), oldTag, {}, false);
    }

    /** One arriving datagram: None means the receive loop goes on waiting. */
    method Receive(datagram: seq<byte>) returns (r: Option<seq<byte>>)
      requires Valid()
      requires var decoded := Decode(suite, keys, datagram);
               decoded.Some? && decoded.value.0 == TWO64 - 1 ==>
                 TWO64 - 1 <= replay.maxSeq || TWO64 - 1 >= replay.maxSeq + RW.WINDOW
      modifies replay, replay.bitmap
      ensures Valid()
      ensures (replay.Abstract(), r) == Received(suite, settings.bucket, keys, old(replay.Abstract()), datagram)
    {
      hide Decode, Unframe;
      DecodedCounter(suite, keys, datagram);
      var decoded := Decode(suite, keys, datagram);
      if decoded.None? { return None; }
      var (ctr, plain) := decoded.value;
      var ok := replay.Check(ctr);
      if !ok || plain == [] { return None; }
      r := Some(Unframe(settings.bucket, plain));
    }
  }

  /** The replay state and the payload after one datagram. */
  function Received(s: Suite, bucket: bool, keys: RecvKeys, replay: RW.Spec,
                    datagram: seq<byte>): (RW.Spec, Option<seq<byte>>)
  {
    match Decode(s, keys, datagram)
    case None => (replay, None)
    case Some((ctr, plain)) =>
      (replay.Next(ctr), if replay.Accepts(ctr) && plain != [] then Some(Unframe(bucket, plain)) else None)
  }
}

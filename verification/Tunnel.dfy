/**
 The tunnel over a byte stream: locked writers on one end, the receive loop on
 the other.
 */
module Tunnel {
  import opened Bytes
  import opened Buffers
  import opened Crypto
  import opened StreamFramer

  // ---------------------------------------------------------------- frames

  /** The label "obsidian_frame_v3", of which 16 bytes are used. */
  const FRAME_LABEL := Ascii("obsidian_frame_v")

  function MaskFrameLen(d: Direction, ctr: nat, n: nat): (r: nat)
    requires n < 0x1_0000_0000
    ensures r < 0x1_0000_0000
  {
    match d.frameKey
    case None => n
    case Some(k) =>
      var mac := d.suite.mac(k, FRAME_LABEL + BigEndian(8, ctr));
      if |mac| < 4 then n
      else
        Pow256Values();
        Pow2Values();
        FromBigEndianRoundTrip(mac[..4]);
        XorBound(n, FromBigEndian(mac[..4]), 32);
        Xor(n, FromBigEndian(mac[..4]))
  }

  lemma MaskFrameLenInvolution(d: Direction, ctr: nat, n: nat)
    requires n < 0x1_0000_0000
    ensures MaskFrameLen(d, ctr, MaskFrameLen(d, ctr, n)) == n
  {
    match d.frameKey
    case None =>
    case Some(k) =>
      var mac := d.suite.mac(k, FRAME_LABEL + BigEndian(8, ctr));
      if |mac| >= 4 {
        XorInvolution(n, FromBigEndian(mac[..4]));
      }
  }

  /** Masked length, cut to 32 bits, and packet. */
  function Frame(d: Direction, ctr: nat, frameCtr: nat, m: Message, c: Choice): seq<byte>
    requires |d.iv| == 12 && Encodable(d, m, c)
  {
    var packet := Encode(d, ctr, m, c);
    BigEndian(4, MaskFrameLen(d, frameCtr, |packet| % 0x1_0000_0000)) + packet
  }

  /** The length in front of a frame: the packet's length xor the first 32 bits of a code over label and counter. */
  lemma LengthOnWire(d: Direction, ctr: nat, frameCtr: nat, m: Message, c: Choice)
    requires d.Valid() && Encodable(d, m, c)
    ensures var f, n := Frame(d, ctr, frameCtr, m, c), 8 + |m.payload| + |c.pad| + TAG_SIZE;
            && |f| == 4 + n && f[4..] == Encode(d, ctr, m, c)
            && FromBigEndian(f[..4])
               == match d.frameKey
                  case Some(k) => Xor(n, FromBigEndian(d.suite.mac(k, FRAME_LABEL + BigEndian(8, frameCtr))[..4]))
                  case None => n
  {
    hide Encode, BigEndian, FromBigEndian, Xor, HeaderConfig.Separate;
    DecodeInvertsEncode(d, ctr, m, c);
    var n := |Encode(d, ctr, m, c)|;
    Pow256Values();
    BigEndianRoundTrip(4, MaskFrameLen(d, frameCtr, n));
    var f := Frame(d, ctr, frameCtr, m, c);
    assert f[..4] == BigEndian(4, MaskFrameLen(d, frameCtr, n));
  }

  /** With another frame key, or at another counter, the length comes back, if and only if the two codes agree. */
  lemma UnmaskLengthExactly(d: Direction, k1: Key, k2: Key, ctr1: nat, ctr2: nat, n: nat)
    requires d.suite.Lawful() && n < 0x1_0000_0000
    ensures var mac1 := d.suite.mac(k1, FRAME_LABEL + BigEndian(8, ctr1));
            var mac2 := d.suite.mac(k2, FRAME_LABEL + BigEndian(8, ctr2));
            MaskFrameLen(d.(frameKey := Some(k2)), ctr2, MaskFrameLen(d.(frameKey := Some(k1)), ctr1, n)) == n
            <==> mac1[..4] == mac2[..4]
  {
    hide BigEndian, FromBigEndian, Xor;
    var a := d.suite.mac(k1, FRAME_LABEL + BigEndian(8, ctr1))[..4];
    var b := d.suite.mac(k2, FRAME_LABEL + BigEndian(8, ctr2))[..4];
    var x, y := FromBigEndian(a), FromBigEndian(b);
    XorInvolution(n, x);
    if Xor(Xor(n, x), y) == n {
      XorInvolution(Xor(n, x), y);
      XorCommutes(n, x);
      XorCommutes(n, y);
      XorInvolution(x, n);
      XorInvolution(y, n);
      FromBigEndianRoundTrip(a);
      FromBigEndianRoundTrip(b);
    }
  }

  // ---------------------------------------------------------------- the receiving function

  /** What a receiver has made of a stream: messages, counters, and the bytes of an unfinished frame. */
  datatype Parsed = Parsed(messages: seq<Message>, ctr: nat, frameCtr: nat, rest: seq<byte>, failed: bool)

  function ParseAll(d: Direction, ctr: nat, frameCtr: nat, s: seq<byte>): Parsed
    requires |d.iv| == 12
    decreases |s|
  {
    if |s| < 4 then Parsed([], ctr, frameCtr, s, false)
    else
      var n := FrameLength(d, frameCtr, s);
      if n > MAX_FRAME then Parsed([], ctr, frameCtr, s, true)
      else if |s| < 4 + n then Parsed([], ctr, frameCtr, s, false)
      else
        match Decode(d, ctr, s[4..4 + n])
        case None => Parsed([], ctr, frameCtr, s, true)
        case Some(m) =>
          var r := ParseAll(d, ctr + 1, frameCtr + 1, s[4 + n..]);
          r.(messages := [m] + r.messages)
  }

  /** One step of the receive loop. */
  lemma ParseUnfold(d: Direction, ctr: nat, frameCtr: nat, s: seq<byte>)
    requires |d.iv| == 12
    ensures var p := ParseAll(d, ctr, frameCtr, s);
            if |s| < 4 then p == Parsed([], ctr, frameCtr, s, false)
            else
              var n := FrameLength(d, frameCtr, s);
              if n > 65535 + 512 then p == Parsed([], ctr, frameCtr, s, true)
              else if |s| < 4 + n then p == Parsed([], ctr, frameCtr, s, false)
              else
                match Decode(d, ctr, s[4..4 + n])
                case None => p == Parsed([], ctr, frameCtr, s, true)
                case Some(m) =>
                  var r := ParseAll(d, ctr + 1, frameCtr + 1, s[4 + n..]);
                  p == r.(messages := [m] + r.messages)
  {
    hide Decode, FrameLength;
  }

  function FrameLength(d: Direction, frameCtr: nat, s: seq<byte>): nat
    requires |s| >= 4
  {
    Pow256Values();
    FromBigEndianRoundTrip(s[..4]);
    MaskFrameLen(d, frameCtr, FromBigEndian(s[..4]))
  }

  // ---------------------------------------------------------------- runs of writers

  /** One writePacket call, in the order the send lock is taken. An expired session writes nothing. */
  datatype Attempt = Attempt(expired: bool, message: Message, choice: Choice) {
    /** A call that puts a frame on the stream. */
    predicate Succeeds() { !expired && |message.payload| <= MAX_PAYLOAD }
  }

  /** Paddings and type ids that the random choices can produce. */
  predicate Legal(headers: HeaderConfig, attempts: seq<Attempt>) {
    forall k :: 0 <= k < |attempts| ==>
      |attempts[k].choice.pad| < 256 && headers.RangeFor(attempts[k].message.kind).CanPick(attempts[k].choice.id)
  }

  function Succeeded(attempts: seq<Attempt>): seq<Message> {
    if attempts == [] then []
    else (if attempts[0].Succeeds() then [attempts[0].message] else []) + Succeeded(attempts[1..])
  }

  /** The bytes written; a failed call leaves both counters alone. */
  ghost function Wire(d: Direction, ctr: nat, frameCtr: nat, attempts: seq<Attempt>): seq<byte>
    requires d.Valid() && Legal(d.headers, attempts)
    decreases |attempts|
  {
    if attempts == [] then []
    else if attempts[0].Succeeds() then
      Frame(d, ctr, frameCtr, attempts[0].message, attempts[0].choice) + Wire(d, ctr + 1, frameCtr + 1, attempts[1..])
    else Wire(d, ctr, frameCtr, attempts[1..])
  }

  /** A frame in front of any bytes is read as its message. */
  lemma FrameIsRead(d: Direction, ctr: nat, frameCtr: nat, m: Message, c: Choice, tail: seq<byte>)
    requires d.Valid() && Encodable(d, m, c)
    ensures |Encode(d, ctr, m, c)| <= MAX_FRAME
    ensures var f := Frame(d, ctr, frameCtr, m, c);
            var r := ParseAll(d, ctr + 1, frameCtr + 1, tail);
            |f| >= 4 && ParseAll(d, ctr, frameCtr, f + tail) == r.(messages := [m] + r.messages)
  {
    hide Decode, Encode, MaskFrameLen, Direction.Valid;
    DecodeInvertsEncode(d, ctr, m, c);
    var packet := Encode(d, ctr, m, c);
    var masked := MaskFrameLen(d, frameCtr, |packet|);
    MaskFrameLenInvolution(d, frameCtr, |packet|);
    Pow256Values();
    BigEndianRoundTrip(4, masked);
    var s := Frame(d, ctr, frameCtr, m, c) + tail;
    assert s[..4] == BigEndian(4, masked) && s[4..4 + |packet|] == packet && s[4 + |packet|..] == tail;
  }

  /**
   For any interleaving of senders and any random choices, the receiver reads back exactly the
   messages that were sent, in lock order, and then goes on with whatever follows at the counters
   the sender has reached.
   */
  lemma {:induction false} StreamRoundTrip(d: Direction, ctr: nat, frameCtr: nat, attempts: seq<Attempt>,
                                           tail: seq<byte>)
    requires d.Valid() && Legal(d.headers, attempts)
    ensures var n := |Succeeded(attempts)|;
            var r := ParseAll(d, ctr + n, frameCtr + n, tail);
            ParseAll(d, ctr, frameCtr, Wire(d, ctr, frameCtr, attempts) + tail)
            == r.(messages := Succeeded(attempts) + r.messages)
    decreases |attempts|
  {
    hide Direction.Valid, ParseAll, Frame;
    if attempts == [] {
      assert Wire(d, ctr, frameCtr, attempts) + tail == tail;
      assert Succeeded(attempts) == [];
      var r := ParseAll(d, ctr, frameCtr, tail);
      assert [] + r.messages == r.messages;
    } else {
      var a, rest := attempts[0], attempts[1..];
      if a.Succeeds() {
        StreamRoundTrip(d, ctr + 1, frameCtr + 1, rest, tail);
        var n := |Succeeded(rest)|;
        FrameThenRest(d, ctr, frameCtr, a.message, a.choice, Wire(d, ctr + 1, frameCtr + 1, rest), tail,
                      Succeeded(rest), ParseAll(d, ctr + 1 + n, frameCtr + 1 + n, tail));
      } else {
        StreamRoundTrip(d, ctr, frameCtr, rest, tail);
        assert Succeeded(attempts) == Succeeded(rest);
      }
    }
  }

  /** One more frame in front of a stream that is read as ms and then r. */
  lemma FrameThenRest(d: Direction, ctr: nat, frameCtr: nat, m: Message, c: Choice,
                      w: seq<byte>, tail: seq<byte>, ms: seq<Message>, r: Parsed)
    requires d.Valid() && Encodable(d, m, c)
    requires ParseAll(d, ctr + 1, frameCtr + 1, w + tail) == r.(messages := ms + r.messages)
    ensures ParseAll(d, ctr, frameCtr, (Frame(d, ctr, frameCtr, m, c) + w) + tail)
            == r.(messages := ([m] + ms) + r.messages)
  {
    hide Direction.Valid, ParseAll, Frame;
    var f := Frame(d, ctr, frameCtr, m, c);
    assert (f + w) + tail == f + (w + tail);
    FrameIsRead(d, ctr, frameCtr, m, c, w + tail);
    assert [m] + (ms + r.messages) == ([m] + ms) + r.messages;
  }

  /** Calls one after the other write what they write together. */
  lemma {:induction false} WireConcat(d: Direction, ctr: nat, frameCtr: nat, a: seq<Attempt>, b: seq<Attempt>)
    requires d.Valid() && Legal(d.headers, a) && Legal(d.headers, b)
    ensures Legal(d.headers, a + b) && Succeeded(a + b) == Succeeded(a) + Succeeded(b)
    ensures Wire(d, ctr, frameCtr, a + b)
            == Wire(d, ctr, frameCtr, a) + Wire(d, ctr + |Succeeded(a)|, frameCtr + |Succeeded(a)|, b)
    decreases |a|
  {
    hide Direction.Valid, Frame;
    if a == [] {
      assert a + b == b;
    } else {
      assert (a + b)[0] == a[0] && (a + b)[1..] == a[1..] + b;
      if a[0].Succeeds() {
        WireConcat(d, ctr + 1, frameCtr + 1, a[1..], b);
        var n := |Succeeded(a[1..])|;
        var f, x := Frame(d, ctr, frameCtr, a[0].message, a[0].choice), Wire(d, ctr + 1, frameCtr + 1, a[1..]);
        var y := Wire(d, ctr + 1 + n, frameCtr + 1 + n, b);
        assert f + (x + y) == (f + x) + y;
        var m := [a[0].message];
        assert m + (Succeeded(a[1..]) + Succeeded(b)) == (m + Succeeded(a[1..])) + Succeeded(b);
      } else {
        WireConcat(d, ctr, frameCtr, a[1..], b);
        assert Succeeded(a) == Succeeded(a[1..]) && Succeeded(a + b) == Succeeded(a[1..] + b);
      }
    }
  }

  lemma ParseNothing(d: Direction, n: nat)
    requires |d.iv| == 12
    ensures ParseAll(d, n, n, []) == Parsed([], n, n, [], false)
  {
  }

  /** End to end: the messages sent are read back in lock order, counters agree, nothing fails or is left over. */
  lemma {:induction false} EndToEnd(d: Direction, attempts: seq<Attempt>)
    requires d.Valid() && Legal(d.headers, attempts)
    ensures var n := |Succeeded(attempts)|;
            ParseAll(d, 0, 0, Wire(d, 0, 0, attempts)) == Parsed(Succeeded(attempts), n, n, [], false)
  {
    hide Direction.Valid, ParseAll, Wire, Succeeded;
    StreamRoundTrip(d, 0, 0, attempts, []);
    ParseNothing(d, |Succeeded(attempts)|);
    assert Wire(d, 0, 0, attempts) + [] == Wire(d, 0, 0, attempts);
    assert Succeeded(attempts) + [] == Succeeded(attempts);
  }

  /** Bytes cut off inside the next frame only make the receiver wait. */
  lemma PartialFrameWaits(d: Direction, ctr: nat, frameCtr: nat, m: Message, c: Choice, k: nat)
    requires d.Valid() && Encodable(d, m, c)
    requires k < |Frame(d, ctr, frameCtr, m, c)|
    ensures var cut := Frame(d, ctr, frameCtr, m, c)[..k];
            ParseAll(d, ctr, frameCtr, cut) == Parsed([], ctr, frameCtr, cut, false)
  {
    hide Decode, Encode, MaskFrameLen, Direction.Valid;
    DecodeInvertsEncode(d, ctr, m, c);
    var packet := Encode(d, ctr, m, c);
    var masked := MaskFrameLen(d, frameCtr, |packet|);
    MaskFrameLenInvolution(d, frameCtr, |packet|);
    Pow256Values();
    BigEndianRoundTrip(4, masked);
    var cut := Frame(d, ctr, frameCtr, m, c)[..k];
    if k >= 4 {
      assert cut[..4] == BigEndian(4, masked);
    }
  }

  /** After a write that broke off, everything sent before is read and the rest only makes the receiver wait. */
  lemma BrokenWriteWaits(d: Direction, attempts: seq<Attempt>, m: Message, c: Choice, k: nat)
    requires d.Valid() && Legal(d.headers, attempts) && Encodable(d, m, c)
    requires var n := |Succeeded(attempts)|; k < |Frame(d, n, n, m, c)|
    ensures var n := |Succeeded(attempts)|;
            var cut := Frame(d, n, n, m, c)[..k];
            ParseAll(d, 0, 0, Wire(d, 0, 0, attempts) + cut) == Parsed(Succeeded(attempts), n, n, cut, false)
  {
    hide Direction.Valid, ParseAll, Wire, Succeeded, Frame;
    var n := |Succeeded(attempts)|;
    var cut := Frame(d, n, n, m, c)[..k];
    PartialFrameWaits(d, n, n, m, c, k);
    StreamRoundTrip(d, 0, 0, attempts, cut);
    assert Succeeded(attempts) + [] == Succeeded(attempts);
  }

  // ---------------------------------------------------------------- what the receive loop hands on

  /** The message at which the receive loop stops: a CLOSE, or DATA when the reader is gone and has left no room. */
  predicate StopsAt(m: Message, room: nat) {
    m.kind == Close || (m.kind == Data && room == 0)
  }

  function RoomAfter(m: Message, room: nat): nat { if m.kind == Data && room > 0 then room - 1 else room }

  /** The DATA payloads up to where the loop stops, when the reader takes so many. */
  function Queued(messages: seq<Message>, room: nat): seq<seq<byte>>
    decreases |messages|
  {
    if messages == [] || StopsAt(messages[0], room) then []
    else
      (if messages[0].kind == Data then [messages[0].payload] else [])
      + Queued(messages[1..], RoomAfter(messages[0], room))
  }

  predicate HasStop(messages: seq<Message>, room: nat)
    decreases |messages|
  {
    messages != [] && (StopsAt(messages[0], room) || HasStop(messages[1..], RoomAfter(messages[0], room)))
  }

  /** The messages up to and including the one at which the loop stops. */
  function Handled(messages: seq<Message>, room: nat): (n: nat)
    ensures n <= |messages|
    decreases |messages|
  {
    if messages == [] then 0
    else if StopsAt(messages[0], room) then 1 else 1 + Handled(messages[1..], RoomAfter(messages[0], room))
  }

  function DataOf(messages: seq<Message>): seq<seq<byte>> {
    if messages == [] then []
    else (if messages[0].kind == Data then [messages[0].payload] else []) + DataOf(messages[1..])
  }

  /** What is queued: of the messages handled, every DATA payload for which there was room, and none behind a CLOSE. */
  lemma {:induction false} QueuedIsData(messages: seq<Message>, room: nat)
    ensures !HasStop(messages, room) ==> Handled(messages, room) == |messages|
    ensures var handled := messages[..Handled(messages, room)];
            var data := DataOf(handled);
            && |data| <= room + 1 && Queued(messages, room) == (if |data| > room then data[..room] else data)
            && (forall k :: 0 <= k < |handled| - 1 ==> handled[k].kind != Close)
            && (!HasStop(messages, room) ==>
                  |data| <= room && forall k :: 0 <= k < |handled| ==> handled[k].kind != Close)
    decreases |messages|
  {
    if messages != [] {
      var m, rest, n := messages[0], messages[1..], Handled(messages, room);
      var handled := messages[..n];
      if StopsAt(m, room) {
        assert handled == [m] && handled[1..] == [];
      } else {
        QueuedIsData(rest, RoomAfter(m, room));
        assert handled[0] == m && handled[1..] == rest[..n - 1];
        forall k | 1 <= k < |handled|
          ensures handled[k] == handled[1..][k - 1]
        {
        }
      }
    }
  }

  /** The first n messages, or all of them. */
  function FirstOf(messages: seq<Message>, n: nat): seq<Message> {
    if n < |messages| then messages[..n] else messages
  }

  /** The whole frame at which reading stopped, if there is one. */
  function StoppedAt(d: Direction, p: Parsed): Option<seq<byte>> {
    if |p.rest| < 4 then None
    else
      var n := FrameLength(d, p.frameCtr, p.rest);
      if n <= MAX_FRAME && 4 + n <= |p.rest| then Some(p.rest[4..4 + n]) else None
  }

  /** Reading stopped at a whole frame that was refused before it was decrypted. */
  predicate Refused(d: Direction, p: Parsed) {
    StoppedAt(d, p).Some? && !Plausible(d, StoppedAt(d, p).value)
  }

  /** Reading stopped at a whole frame that was decrypted and did not authenticate. */
  predicate FailedToOpen(d: Direction, p: Parsed) {
    StoppedAt(d, p).Some? && Plausible(d, StoppedAt(d, p).value)
  }

  /** Where the counters stand when reading stopped for lack of a good frame. */
  predicate StoppedCounters(d: Direction, p: Parsed, ctr: nat, frameCtr: nat) {
    && frameCtr == p.frameCtr + (if |p.rest| >= 4 then 1 else 0)
    && (FailedToOpen(d, p) ==> ctr == p.ctr + 1)
    && (Refused(d, p) || StoppedAt(d, p).None? ==> ctr == p.ctr)
  }

  lemma StoppedAlike(d: Direction, p: Parsed, messages: seq<Message>, ctr: nat, frameCtr: nat)
    ensures StoppedCounters(d, p.(messages := messages), ctr, frameCtr) <==> StoppedCounters(d, p, ctr, frameCtr)
  {
  }

  lemma NoMessages(room: nat)
    ensures Queued([], room) == [] && !HasStop([], room)
  {
  }

  /** A stop behind messages without one. */
  lemma {:induction false} StopAppend(seen: seq<Message>, m: Message, later: seq<Message>, room: nat)
    requires !HasStop(seen, room)
    ensures |Queued(seen, room)| <= room
    ensures var all := seen + [m] + later;
            StopsAt(m, room - |Queued(seen, room)|) ==>
              HasStop(all, room) && Queued(all, room) == Queued(seen, room) && Handled(all, room) == |seen| + 1
    decreases |seen|
  {
    var all := seen + [m] + later;
    if seen == [] {
      assert all[0] == m;
    } else {
      assert all[0] == seen[0] && all[1..] == seen[1..] + [m] + later;
      StopAppend(seen[1..], m, later, RoomAfter(seen[0], room));
    }
  }

  /** Another message that does not stop the loop. */
  lemma {:induction false} MessageAppend(seen: seq<Message>, m: Message, room: nat)
    requires !HasStop(seen, room)
    ensures |Queued(seen, room)| <= room
    ensures !StopsAt(m, room - |Queued(seen, room)|) ==>
              && !HasStop(seen + [m], room)
              && Queued(seen + [m], room) == Queued(seen, room) + (if m.kind == Data then [m.payload] else [])
    decreases |seen|
  {
    if seen == [] {
      assert seen + [m] == [m] && [m][1..] == [];
      NoMessages(RoomAfter(m, room));
    } else {
      var after := RoomAfter(seen[0], room);
      assert (seen + [m])[0] == seen[0] && (seen + [m])[1..] == seen[1..] + [m];
      MessageAppend(seen[1..], m, after);
      var d: seq<seq<byte>> := if seen[0].kind == Data then [seen[0].payload] else [];
      var dm: seq<seq<byte>> := if m.kind == Data then [m.payload] else [];
      assert Queued(seen, room) == d + Queued(seen[1..], after);
      assert d + (Queued(seen[1..], after) + dm) == (d + Queued(seen[1..], after)) + dm;
    }
  }

  // ---------------------------------------------------------------- the endpoint

  /** A session's limits; they are tested at every 1024th packet only. */
  datatype Limits = Limits(maxDuration: int, maxPackets: nat) {
    predicate Expired(count: nat, elapsed: int) {
      count % 1024 == 0 && ((maxDuration > 0 && elapsed >= maxDuration) || (maxPackets > 0 && count >= maxPackets))
    }

    /** A session within its limits does not expire, however many packets it has counted. */
    lemma WithinLimitsLives(count: nat, elapsed: int)
      requires maxDuration <= 0 || elapsed < maxDuration
      requires maxPackets == 0 || count < maxPackets
      ensures !Expired(count, elapsed)
    {
    }

    /** A session past its limits notices within 1024 packets. */
    lemma NoticedSoon(count: nat, elapsed: int) returns (k: nat)
      requires (maxDuration > 0 && elapsed >= maxDuration) || (maxPackets > 0 && count >= maxPackets)
      ensures k < 1024 && Expired(count + k, elapsed)
    {
      k := (1024 - count % 1024) % 1024;
      assert (count + k) % 1024 == 0;
    }
  }

  /** The connection's answer to one write: the bytes it took, and whether it failed. */
  datatype WriteAnswer = WriteAnswer(n: int, failed: bool)

  /** Writes until the frame is gone; the answers of the connection are arbitrary. */
  method WriteFrameLocked(frame: seq<byte>, conn: nat -> WriteAnswer)
    returns (written: seq<byte>, ok: bool, writes: nat)
    ensures written <= frame && writes <= |frame|
    ensures ok ==> written == frame
    ensures forall k :: 0 <= k < writes - 1 ==> !conn(k).failed && conn(k).n > 0
    ensures |written| < |frame| ==> writes > 0 && (conn(writes - 1).failed || conn(writes - 1).n <= 0)
  {
    written, ok, writes := [], true, 0;
    var rest := frame;
    while |rest| > 0
      invariant frame == written + rest && writes <= |written|
      invariant forall k :: 0 <= k < writes ==> !conn(k).failed && conn(k).n > 0
      decreases |rest|
    {
      var answer := conn(writes);
      writes := writes + 1;
      var taken := Min(Max(answer.n, 0), |rest|);
      written := written + rest[..taken];
      if answer.failed { return written, false, writes; }
      if answer.n <= 0 { return written, false, writes; }
      if answer.n > |rest| { return written, false, writes; }
      rest := rest[answer.n..];
    }
  }

  /** A tunnel end with its framer. */
  class Endpoint {
    const enc: Direction
    const dec: Direction
    const padding: PaddingConfig
    const limits: Limits
    var encCtr: nat
    var encFrameCtr: nat
    var decCtr: nat
    var decFrameCtr: nat

    ghost predicate Valid() {
      enc.Valid() && dec.Valid()
    }

    constructor (enc: Direction, dec: Direction, padding: PaddingConfig, limits: Limits)
      requires enc.Valid() && dec.Valid()
      ensures Valid() && this.enc == enc && this.dec == dec && this.padding == padding && this.limits == limits
      ensures encCtr == encFrameCtr == decCtr == decFrameCtr == 0
    {
      this.enc, this.dec, this.padding, this.limits := enc, dec, padding, limits;
      encCtr, encFrameCtr, decCtr, decFrameCtr := 0, 0, 0, 0;
    }

    /**
     Writes one frame into dst, or fails and leaves buffer and counters as they were. The padding is
     chosen from the settings, whatever they are, and always fits its length field.
     */
    method FrameWithBuffer(dst: array<byte>, m: Message, random: Random) returns (r: Option<nat>)
      requires Valid() && padding.Allows(enc.headers, m, random)
      modifies this`encCtr, this`encFrameCtr, dst
      ensures var c := padding.ChoiceOf(m, random);
              && (r.None? <==> |m.payload| > 65535 || dst.Length < 4 + 8 + |m.payload| + |c.pad| + TAG_SIZE)
              && (r.None? ==> dst[..] == old(dst[..]) && encCtr == old(encCtr) && encFrameCtr == old(encFrameCtr))
              && (r.Some? ==>
                    && Encodable(enc, m, c) && |Encode(enc, old(encCtr), m, c)| <= MAX_FRAME
                    && r.value <= dst.Length && dst[..r.value] == Frame(enc, old(encCtr), old(encFrameCtr), m, c)
                    && dst[r.value..] == old(dst[r.value..])
                    && encCtr == old(encCtr) + 1 && encFrameCtr == old(encFrameCtr) + 1)
    {
      hide Encode, MaskFrameLen, Direction.Valid, PaddingConfig.ChoiceOf, PaddingConfig.Allows, Overwrite;
      var c := Choose(padding, enc.headers, m, random);
      if dst.Length < 4 { return None; }
      if |m.payload| > MAX_PAYLOAD { return None; }
      if dst.Length - 4 < 8 + |m.payload| + |c.pad| + TAG_SIZE { return None; }
      DecodeInvertsEncode(enc, encCtr, m, c);
      var packet := Encode(enc, encCtr, m, c);
      var masked := BigEndian(4, MaskFrameLen(enc, encFrameCtr, |packet|));
      encCtr, encFrameCtr := encCtr + 1, encFrameCtr + 1;
      ghost var was := dst[..];
      WriteBytes(dst, 4, packet);
      WriteBytes(dst, 0, masked);
      r := Some(4 + |packet|);
      WrittenTwice(was, masked, packet);
    }

    /**
     One writePacket call under the send lock, with the packet count and the age it reads. The
     counters advance with the frame even if the connection takes only part of it.
     */
    method WritePacket(m: Message, random: Random, count: nat, elapsed: int, conn: nat -> WriteAnswer)
      returns (written: seq<byte>, ok: bool, writes: nat)
      requires Valid() && padding.Allows(enc.headers, m, random)
      modifies this`encCtr, this`encFrameCtr
      ensures var a := Attempt(limits.Expired(count, elapsed), m, padding.ChoiceOf(m, random));
              && Legal(enc.headers, [a])
              && written <= Wire(enc, old(encCtr), old(encFrameCtr), [a])
              && (ok ==> a.Succeeds() && written == Wire(enc, old(encCtr), old(encFrameCtr), [a]))
              && (|written| < |Wire(enc, old(encCtr), old(encFrameCtr), [a])| ==>
                    writes > 0 && (conn(writes - 1).failed || conn(writes - 1).n <= 0))
              && encCtr == old(encCtr) + |Succeeded([a])| && encFrameCtr == old(encFrameCtr) + |Succeeded([a])|
      ensures var sends := !limits.Expired(count, elapsed) && |m.payload| <= 65535;
              && (!sends ==> written == [] && !ok && encCtr == old(encCtr) && encFrameCtr == old(encFrameCtr))
              && (sends ==>
                    && encCtr == old(encCtr) + 1 && encFrameCtr == old(encFrameCtr) + 1
                    && Encodable(enc, m, padding.ChoiceOf(m, random))
                    && written <= Frame(enc, old(encCtr), old(encFrameCtr), m, padding.ChoiceOf(m, random)))
    {
      hide Encode, MaskFrameLen, Direction.Valid, PaddingConfig.ChoiceOf, Limits.Expired;
      ghost var a := Attempt(limits.Expired(count, elapsed), m, padding.ChoiceOf(m, random));
      assert [a][0] == a && [a][1..] == [];
      padding.ChoiceIsLegal(enc.headers, m, random);
      if limits.Expired(count, elapsed) { return [], false, 0; }
      var buf := new byte[4 + 8 + |m.payload| + 256 + TAG_SIZE](i => 0);
      var n := FrameWithBuffer(buf, m, random);
      if n.None? { return [], false, 0; }
      assert Wire(enc, old(encCtr), old(encFrameCtr), [a]) == buf[..n.value];
      written, ok, writes := WriteFrameLocked(buf[..n.value], conn);
    }

    /**
     The receive loop over the bytes that arrive. It stops at a CLOSE, at DATA when the reader is gone
     after taking so many payloads, at a bad frame, at the end of input, or when the session has
     expired after the given number of rounds. At a message or an expiry both counters stand behind
     the last message; otherwise they stand behind the last whole frame, the frame counter past a
     length that was read, the cipher's past a frame that failed to open. A frame that is refused
     before it is decrypted leaves the cipher's counter alone.
     */
    method RecvLoop(input: seq<byte>, rounds: nat, room: nat) returns (dataIn: seq<seq<byte>>)
      requires Valid()
      modifies this`decCtr, this`decFrameCtr
      ensures var p := ParseAll(dec, old(decCtr), old(decFrameCtr), input);
              var messages := FirstOf(p.messages, rounds);
              && dataIn == Queued(messages, room)
              && (HasStop(messages, room) ==>
                    var k := Handled(messages, room);
                    decCtr == old(decCtr) + k && decFrameCtr == old(decFrameCtr) + k)
              && (!HasStop(messages, room) && rounds <= |p.messages| ==>
                    decCtr == old(decCtr) + rounds && decFrameCtr == old(decFrameCtr) + rounds)
              && (!HasStop(messages, room) && rounds > |p.messages| ==>
                    StoppedCounters(dec, p, decCtr, decFrameCtr))
    {
      hide Decode, FrameLength, Direction.Valid, ParseAll, Queued, Handled, HasStop, Plausible;
      hide StoppedCounters, FirstOf;
      dataIn := [];
      var s, left: nat := input, rounds;
      ghost var all := ParseAll(dec, decCtr, decFrameCtr, input);
      ghost var seen: seq<Message> := [];
      assert all.(messages := [] + all.messages) == all;
      NoMessages(room);
      while true
        invariant var p := ParseAll(dec, decCtr, decFrameCtr, s); all == p.(messages := seen + p.messages)
        invariant dataIn == Queued(seen, room) && |dataIn| <= room && !HasStop(seen, room) && left + |seen| == rounds
        invariant decCtr == old(decCtr) + |seen| && decFrameCtr == old(decFrameCtr) + |seen|
        decreases |s|
      {
        ghost var p := ParseAll(dec, decCtr, decFrameCtr, s);
        if left == 0 {
          AllSeen(seen, p.messages, 0);
          return;
        }
        left := left - 1;
        var message, size := ReadFrame(s);
        if message.None? {
          StoppedAlike(dec, p, seen, decCtr, decFrameCtr);
          AllSeen(seen, [], left + 1);
          return;
        }
        var m := message.value;
        ghost var later := ParseAll(dec, decCtr, decFrameCtr, s[size..]).messages;
        ghost var kept := FirstOf(later, left);
        Prefixes(seen, m, later, left);
        StopAppend(seen, m, kept, room);
        MessageAppend(seen, m, room);
        if m.kind == Close { return; }
        if m.kind == Data {
          if |dataIn| == room { return; }
          dataIn := dataIn + [m.payload];
        }
        s := s[size..];
        seen := seen + [m];
      }
    }

    /** One frame off the front of the input: its message and size, or where the counters stand when there is none. */
    method ReadFrame(s: seq<byte>) returns (message: Option<Message>, size: nat)
      requires Valid()
      modifies this`decCtr, this`decFrameCtr
      ensures var p := ParseAll(dec, old(decCtr), old(decFrameCtr), s);
              match message
              case Some(m) =>
                && 4 <= size <= |s| && decCtr == old(decCtr) + 1 && decFrameCtr == old(decFrameCtr) + 1
                && var r := ParseAll(dec, decCtr, decFrameCtr, s[size..]);
                   p == r.(messages := [m] + r.messages)
              case None => p.messages == [] && StoppedCounters(dec, p, decCtr, decFrameCtr)
    {
      hide Decode, FrameLength, Direction.Valid, ParseAll, Plausible;
      ParseUnfold(dec, decCtr, decFrameCtr, s);
      size := 0;
      if |s| < 4 { return None, 0; }
      var n := FrameLength(dec, decFrameCtr, s);
      decFrameCtr := decFrameCtr + 1;
      if n > MAX_FRAME { return None, 0; }
      if |s| < 4 + n { return None, 0; }
      var raw := s[4..4 + n];
      if !Plausible(dec, raw) {
        ImplausibleFails(dec, decCtr, raw);
        return None, 0;
      }
      message := Decode(dec, decCtr, raw);
      decCtr := decCtr + 1;
      size := 4 + n;
    }
  }

  lemma AllSeen(seen: seq<Message>, rest: seq<Message>, left: nat)
    requires left == 0 || rest == []
    ensures FirstOf(seen + rest, |seen| + left) == seen && (rest == [] ==> seen + rest == seen)
  {
  }

  lemma Prefixes(seen: seq<Message>, m: Message, later: seq<Message>, left: nat)
    ensures seen + ([m] + later) == (seen + [m]) + later
    ensures FirstOf(seen + ([m] + later), |seen| + 1 + left) == seen + [m] + FirstOf(later, left)
  {
  }

  lemma ImplausibleFails(d: Direction, ctr: nat, raw: seq<byte>)
    requires |d.iv| == 12 && !Plausible(d, raw)
    ensures Decode(d, ctr, raw) == None
  {
  }

  /** A packet written behind the length, then the length in front of it. */
  lemma WrittenTwice(was: seq<byte>, masked: seq<byte>, packet: seq<byte>)
    requires |masked| == 4 && 4 + |packet| <= |was|
    ensures var now := Overwrite(Overwrite(was, 4, packet), 0, masked);
            now[..4 + |packet|] == masked + packet && now[4 + |packet|..] == was[4 + |packet|..]
  {
  }
}

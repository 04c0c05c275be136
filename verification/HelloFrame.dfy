/**
 The hello frame: nonce, tag and masked length in front of a handshake message,
 and the scanner that finds it behind arbitrary junk.
 */
module HelloFrame {
  import opened Bytes
  import opened Crypto

  const OVERHEAD := 28
  const MAX_HELLO := 8192

  const HELLO_LABEL := Ascii("obsidian_hello_frame_v3")

  /** The code over nonce and label under the server's public key; its first 12 bytes are tag and length mask. */
  function HelloMac(s: Suite, pub: Key, nonce: seq<byte>): seq<byte> {
    s.mac(pub, nonce + HELLO_LABEL)
  }

  function MaskLen(mac: seq<byte>, n: nat): (r: nat)
    requires |mac| >= 12 && n < 0x1_0000_0000
    ensures r < 0x1_0000_0000
  {
    Pow256Values();
    Pow2Values();
    FromBigEndianRoundTrip(mac[8..12]);
    XorBound(n, FromBigEndian(mac[8..12]), 32);
    Xor(n, FromBigEndian(mac[8..12]))
  }

  /** The frame around a payload; the nonce is a random choice. */
  function BuildHelloFrame(s: Suite, pub: Key, nonce: seq<byte>, payload: seq<byte>): Option<seq<byte>>
    requires |nonce| == 16
  {
    var mac := HelloMac(s, pub, nonce);
    if |payload| > MAX_HELLO || |mac| < 12 then None
    else Some(nonce + mac[..8] + BigEndian(4, MaskLen(mac, |payload|)) + payload)
  }

  // ---------------------------------------------------------------- scanning

  /** The 28 bytes of the stream from k on. */
  predicate HasWindow(stream: seq<byte>, k: nat) { k + OVERHEAD <= |stream| }

  /** The window's tag is the code of its nonce. */
  predicate Authentic(s: Suite, pub: Key, w: seq<byte>)
    requires |w| == OVERHEAD
  {
    var mac := HelloMac(s, pub, w[..16]);
    |mac| >= 12 && w[16..24] == mac[..8]
  }

  function PayloadLen(s: Suite, pub: Key, w: seq<byte>): nat
    requires |w| == OVERHEAD && Authentic(s, pub, w)
  {
    Pow256Values();
    FromBigEndianRoundTrip(w[24..28]);
    MaskLen(HelloMac(s, pub, w[..16]), FromBigEndian(w[24..28]))
  }

  predicate AuthenticAt(s: Suite, pub: Key, stream: seq<byte>, k: nat) {
    HasWindow(stream, k) && Authentic(s, pub, stream[k..k + OVERHEAD])
  }

  /** k is the first window that authenticates. */
  ghost predicate FirstAt(s: Suite, pub: Key, stream: seq<byte>, k: nat) {
    AuthenticAt(s, pub, stream, k) && forall i :: 0 <= i < k ==> !AuthenticAt(s, pub, stream, i)
  }

  datatype Outcome = Found(payload: seq<byte>) | TooLarge | NotFound | EndOfInput

  /** The start of the last window that is tried. */
  function LastWindow(maxScan: int): nat {
    Max((if maxScan <= 0 then 4096 else maxScan) - OVERHEAD, 0)
  }

  function PayloadLimit(maxPayload: int): nat {
    if maxPayload <= 0 then MAX_HELLO else maxPayload
  }

  /** What a scan of the stream has to return, and how many bytes it consumes. */
  ghost predicate ScanResult(s: Suite, pub: Key, stream: seq<byte>, maxScan: int, maxPayload: int,
                             r: Outcome, consumed: nat)
  {
    var last := LastWindow(maxScan);
    if exists k :: 0 <= k <= last && FirstAt(s, pub, stream, k) then
      exists k :: 0 <= k <= last && FirstAt(s, pub, stream, k) && FrameAt(s, pub, stream, k, maxPayload, r, consumed)
    else if HasWindow(stream, last) then r == NotFound && consumed == last + OVERHEAD
    else r == EndOfInput && consumed == |stream|
  }

  predicate FrameAt(s: Suite, pub: Key, stream: seq<byte>, k: nat, maxPayload: int, r: Outcome, consumed: nat)
    requires AuthenticAt(s, pub, stream, k)
  {
    var n := PayloadLen(s, pub, stream[k..k + OVERHEAD]);
    var start := k + OVERHEAD;
    if n > PayloadLimit(maxPayload) then r == TooLarge && consumed == start
    else if |stream| < start + n then r == EndOfInput && consumed == |stream|
    else r == Found(stream[start..start + n]) && consumed == start + n
  }

  /** The rest of the frame whose 28 leading bytes end at scanned. */
  method ReadPayload(s: Suite, pub: Key, stream: seq<byte>, scanned: nat, maxPayload: int)
    returns (r: Outcome, consumed: nat)
    requires OVERHEAD <= scanned <= |stream| && AuthenticAt(s, pub, stream, scanned - OVERHEAD)
    ensures FrameAt(s, pub, stream, scanned - OVERHEAD, maxPayload, r, consumed)
    ensures consumed <= |stream| && consumed <= scanned + PayloadLimit(maxPayload)
  {
    hide Authentic, PayloadLen;
    assert scanned - OVERHEAD + OVERHEAD == scanned;
    var n := PayloadLen(s, pub, stream[scanned - OVERHEAD..scanned]);
    var payloadLimit := if maxPayload <= 0 then MAX_HELLO else maxPayload;
    if n > payloadLimit { return TooLarge, scanned; }
    if |stream| < scanned + n { return EndOfInput, |stream|; }
    r, consumed := Found(stream[scanned..scanned + n]), scanned + n;
  }

  /** Moves the window by one byte. */
  method ShiftIn(buf: array<byte>, b: byte)
    requires buf.Length == OVERHEAD
    modifies buf
    ensures buf[..] == old(buf[1..]) + [b]
  {
    forall i | 0 <= i < OVERHEAD - 1 {
      buf[i] := buf[i + 1];
    }
    buf[OVERHEAD - 1] := b;
  }

  lemma NextWindow(stream: seq<byte>, n: nat)
    requires OVERHEAD < n <= |stream|
    ensures stream[n - 1 - OVERHEAD..n - 1][1..] + [stream[n - 1]] == stream[n - OVERHEAD..n]
  {
  }

  lemma WindowAt(s: Suite, pub: Key, stream: seq<byte>, k: nat)
    requires k + OVERHEAD <= |stream|
    ensures AuthenticAt(s, pub, stream, k) <==> Authentic(s, pub, stream[k..k + OVERHEAD])
  {
  }

  lemma ScanFound(s: Suite, pub: Key, stream: seq<byte>, maxScan: int, maxPayload: int, k: nat, r: Outcome,
                  consumed: nat)
    requires k <= LastWindow(maxScan) && AuthenticAt(s, pub, stream, k)
    requires forall i :: 0 <= i < k ==> !AuthenticAt(s, pub, stream, i)
    requires FrameAt(s, pub, stream, k, maxPayload, r, consumed)
    ensures ScanResult(s, pub, stream, maxScan, maxPayload, r, consumed)
  {
    hide AuthenticAt, FrameAt;
    assert FirstAt(s, pub, stream, k);
  }

  lemma ScanMissed(s: Suite, pub: Key, stream: seq<byte>, maxScan: int, maxPayload: int)
    requires HasWindow(stream, LastWindow(maxScan))
    requires forall i :: 0 <= i <= LastWindow(maxScan) ==> !AuthenticAt(s, pub, stream, i)
    ensures ScanResult(s, pub, stream, maxScan, maxPayload, NotFound, LastWindow(maxScan) + OVERHEAD)
  {
    hide AuthenticAt, FrameAt;
  }

  lemma ScanEnded(s: Suite, pub: Key, stream: seq<byte>, maxScan: int, maxPayload: int)
    requires !HasWindow(stream, LastWindow(maxScan))
    requires forall i :: 0 <= i <= |stream| - OVERHEAD ==> !AuthenticAt(s, pub, stream, i)
    ensures ScanResult(s, pub, stream, maxScan, maxPayload, EndOfInput, |stream|)
  {
    hide Authentic, FrameAt;
  }

  /** The scanner: a 28-byte buffer that is shifted by one byte at a time. */
  method ReadHelloFrame(s: Suite, pub: Key, stream: seq<byte>, maxScan: int, maxPayload: int)
    returns (r: Outcome, consumed: nat)
    ensures ScanResult(s, pub, stream, maxScan, maxPayload, r, consumed)
    ensures consumed <= |stream| && consumed <= LastWindow(maxScan) + OVERHEAD + PayloadLimit(maxPayload)
  {
    hide Authentic, AuthenticAt, PayloadLen, MaskLen, FrameAt, ScanResult, FirstAt;
    var limit := if maxScan <= 0 then 4096 else maxScan;
    if |stream| < OVERHEAD {
      ScanEnded(s, pub, stream, maxScan, maxPayload);
      return EndOfInput, |stream|;
    }
    var buf := new byte[OVERHEAD](i requires 0 <= i < OVERHEAD => stream[i]);
    var scanned := OVERHEAD;
    assert buf[..] == stream[scanned - OVERHEAD..scanned];
    while true
      invariant OVERHEAD <= scanned <= |stream|
      invariant scanned - OVERHEAD <= LastWindow(maxScan)
      invariant buf[..] == stream[scanned - OVERHEAD..scanned]
      invariant forall i :: 0 <= i < scanned - OVERHEAD ==> !AuthenticAt(s, pub, stream, i)
      decreases |stream| - scanned
    {
      ghost var k := scanned - OVERHEAD;
      WindowAt(s, pub, stream, k);
      if Authentic(s, pub, buf[..]) {
        r, consumed := ReadPayload(s, pub, stream, scanned, maxPayload);
        ScanFound(s, pub, stream, maxScan, maxPayload, k, r, consumed);
        return;
      }
      assert !AuthenticAt(s, pub, stream, k);
      if scanned >= limit {
        ScanMissed(s, pub, stream, maxScan, maxPayload);
        return NotFound, scanned;
      }
      if scanned == |stream| {
        ScanEnded(s, pub, stream, maxScan, maxPayload);
        return EndOfInput, scanned;
      }
      ShiftIn(buf, stream[scanned]);
      scanned := scanned + 1;
      NextWindow(stream, scanned);
    }
  }

  // ---------------------------------------------------------------- round trip

  /**
   A frame on the wire: nonce, the first 8 bytes of a code over nonce and label under the server's
   public key, the payload's length xor the next 4 bytes of the code, and the payload.
   */
  lemma FrameOnWire(s: Suite, pub: Key, nonce: seq<byte>, payload: seq<byte>)
    requires s.Lawful() && |nonce| == 16 && |payload| <= 8192
    ensures var mac := s.mac(pub, nonce + HELLO_LABEL);
            var frame := BuildHelloFrame(s, pub, nonce, payload);
            && frame.Some? && |frame.value| == 28 + |payload|
            && frame.value[..16] == nonce && frame.value[16..24] == mac[..8] && frame.value[28..] == payload
            && FromBigEndian(frame.value[24..28]) == Xor(|payload|, FromBigEndian(mac[8..12]))
  {
    hide BigEndian, FromBigEndian, Xor;
    var mac := HelloMac(s, pub, nonce);
    var masked := MaskLen(mac, |payload|);
    Pow256Values();
    BigEndianRoundTrip(4, masked);
    var frame := BuildHelloFrame(s, pub, nonce, payload).value;
    assert frame[24..28] == BigEndian(4, masked);
  }

  /** A payload beyond the limit is not framed. */
  lemma LongPayloadIsRefused(s: Suite, pub: Key, nonce: seq<byte>, payload: seq<byte>)
    requires s.Lawful() && |nonce| == 16
    ensures BuildHelloFrame(s, pub, nonce, payload) == None <==> |payload| > 8192
  {
  }

  /** How far a scan goes: 4096 bytes unless told otherwise, and at least one window. */
  lemma ScanReach(maxScan: int, maxPayload: int)
    ensures LastWindow(maxScan) + 28 == Max(28, if maxScan <= 0 then 4096 else maxScan)
    ensures PayloadLimit(maxPayload) == if maxPayload <= 0 then 8192 else maxPayload
  {
  }

  /** A built frame authenticates and announces its payload length. */
  lemma BuiltFrameIsAuthentic(s: Suite, pub: Key, nonce: seq<byte>, payload: seq<byte>)
    requires s.Lawful() && |nonce| == 16 && |payload| <= MAX_HELLO
    ensures var frame := BuildHelloFrame(s, pub, nonce, payload);
            && frame.Some? && |frame.value| == OVERHEAD + |payload| && frame.value[OVERHEAD..] == payload
            && Authentic(s, pub, frame.value[..OVERHEAD]) && PayloadLen(s, pub, frame.value[..OVERHEAD]) == |payload|
  {
    var mac := HelloMac(s, pub, nonce);
    assert |mac| == 32;
    var masked := MaskLen(mac, |payload|);
    var frame := BuildHelloFrame(s, pub, nonce, payload).value;
    var w := frame[..OVERHEAD];
    assert w[..16] == nonce && w[16..24] == mac[..8] && w[24..28] == BigEndian(4, masked);
    assert frame[OVERHEAD..] == payload;
    Pow256Values();
    BigEndianRoundTrip(4, masked);
    hide Xor;
    XorInvolution(|payload|, FromBigEndian(mac[8..12]));
  }

  lemma FirstIsUnique(s: Suite, pub: Key, stream: seq<byte>, i: nat, j: nat)
    requires FirstAt(s, pub, stream, i) && FirstAt(s, pub, stream, j)
    ensures i == j
  {
  }

  /**
   For every junk prefix within the scan bound in which nothing authenticates earlier, the scanner
   returns the payload and consumes exactly the prefix, the frame and no more.
   */
  lemma HelloIsFound(s: Suite, pub: Key, nonce: seq<byte>, payload: seq<byte>, junk: seq<byte>, tail: seq<byte>,
                     maxScan: int, maxPayload: int, r: Outcome, consumed: nat)
    requires s.Lawful() && |nonce| == 16 && |payload| <= MAX_HELLO && |payload| <= PayloadLimit(maxPayload)
    requires BuildHelloFrame(s, pub, nonce, payload).Some?
    requires var stream := junk + BuildHelloFrame(s, pub, nonce, payload).value + tail;
             && |junk| <= LastWindow(maxScan)
             && (forall i :: 0 <= i < |junk| ==> !AuthenticAt(s, pub, stream, i))
             && ScanResult(s, pub, stream, maxScan, maxPayload, r, consumed)
    ensures r == Found(payload) && consumed == |junk| + OVERHEAD + |payload|
  {
    hide Authentic, PayloadLen, BuildHelloFrame;
    BuiltFrameIsAuthentic(s, pub, nonce, payload);
    var frame := BuildHelloFrame(s, pub, nonce, payload).value;
    var stream := junk + frame + tail;
    var at := |junk|;
    assert stream[at..at + OVERHEAD] == frame[..OVERHEAD];
    assert FirstAt(s, pub, stream, at);
    var k :| 0 <= k <= LastWindow(maxScan) && FirstAt(s, pub, stream, k)
             && FrameAt(s, pub, stream, k, maxPayload, r, consumed);
    FirstIsUnique(s, pub, stream, k, at);
    assert stream[at + OVERHEAD..at + OVERHEAD + |payload|] == frame[OVERHEAD..];
  }

  /** Nothing else is found: the consumed bytes end with the frame of the returned payload. */
  lemma FoundIsBuilt(s: Suite, pub: Key, stream: seq<byte>, maxScan: int, maxPayload: int,
                     payload: seq<byte>, consumed: nat)
    requires s.Lawful() && ScanResult(s, pub, stream, maxScan, maxPayload, Found(payload), consumed)
    requires |payload| <= MAX_HELLO
    ensures exists k :: 0 <= k <= LastWindow(maxScan) && k + OVERHEAD <= consumed <= |stream|
                        && BuildHelloFrame(s, pub, stream[k..k + 16], payload) == Some(stream[k..consumed])
  {
    hide Authentic, PayloadLen, BuildHelloFrame, Suite.Lawful;
    var k :| 0 <= k <= LastWindow(maxScan) && FirstAt(s, pub, stream, k)
             && FrameAt(s, pub, stream, k, maxPayload, Found(payload), consumed);
    var w := stream[k..k + OVERHEAD];
    var n := PayloadLen(s, pub, w);
    assert payload == stream[k + OVERHEAD..k + OVERHEAD + n];
    FrameRebuilt(s, pub, w, payload);
    assert w[..16] == stream[k..k + 16];
    assert stream[k..consumed] == w + payload;
  }

  lemma FrameRebuilt(s: Suite, pub: Key, w: seq<byte>, payload: seq<byte>)
    requires |w| == OVERHEAD && Authentic(s, pub, w) && |payload| == PayloadLen(s, pub, w) <= MAX_HELLO
    ensures BuildHelloFrame(s, pub, w[..16], payload) == Some(w + payload)
  {
    var mac := HelloMac(s, pub, w[..16]);
    var masked := FromBigEndian(w[24..28]);
    FromBigEndianRoundTrip(w[24..28]);
    Pow256Values();
    XorInvolution(masked, FromBigEndian(mac[8..12]));
    assert w == w[..16] + w[16..24] + w[24..28];
  }
}

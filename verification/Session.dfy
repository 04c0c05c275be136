/**
 The parts put together: hello frames behind junk, the handshake, and the
 encrypted streams that follow it on the same connection.
 */
module Session {
  import opened Bytes
  import opened Crypto
  import H = Handshake
  import HF = HelloFrame
  import SF = StreamFramer
  import T = Tunnel
  import Clock

  /** Both ends scan at most this far and accept hellos of at most this size. */
  const MAX_SCAN := 4096
  const MAX_PAYLOAD := 8192

  // ---------------------------------------------------------------- one direction

  /** No window that starts in the first n bytes authenticates. */
  ghost predicate Quiet(s: Suite, pub: Key, stream: seq<byte>, n: nat) {
    forall i :: 0 <= i < n ==> !HF.AuthenticAt(s, pub, stream, i)
  }

  /** What an end needs to put its hello and its packets on the connection. */
  ghost predicate Ready(e: H.Env, pub: Key, nonce: seq<byte>, hello: seq<byte>, d: SF.Direction,
                        attempts: seq<T.Attempt>)
  {
    |nonce| == 16 && HF.BuildHelloFrame(e.s, pub, nonce, hello).Some? && d.Valid() && T.Legal(d.headers, attempts)
  }

  /** The bytes one end puts on the connection: junk, its hello in a frame, and its packets. */
  ghost function Stream(s: Suite, pub: Key, junk: seq<byte>, nonce: seq<byte>, hello: seq<byte>,
                        d: SF.Direction, attempts: seq<T.Attempt>): seq<byte>
    requires |nonce| == 16 && d.Valid() && T.Legal(d.headers, attempts)
    requires HF.BuildHelloFrame(s, pub, nonce, hello).Some?
  {
    junk + HF.BuildHelloFrame(s, pub, nonce, hello).value + T.Wire(d, 0, 0, attempts)
  }

  /** Whatever the scanner may return on the stream, it is this hello, and the rest is read as these messages. */
  ghost predicate Delivers(s: Suite, pub: Key, stream: seq<byte>, hello: seq<byte>, d: SF.Direction,
                           messages: seq<SF.Message>)
    requires |d.iv| == 12
  {
    forall r, consumed: nat :: HF.ScanResult(s, pub, stream, MAX_SCAN, MAX_PAYLOAD, r, consumed) ==>
      && r == HF.Found(hello) && consumed <= |stream|
      && T.ParseAll(d, 0, 0, stream[consumed..]) == T.Parsed(messages, |messages|, |messages|, [], false)
  }

  lemma StreamDelivers(s: Suite, pub: Key, junk: seq<byte>, nonce: seq<byte>, hello: seq<byte>,
                       d: SF.Direction, attempts: seq<T.Attempt>)
    requires s.Lawful() && |nonce| == 16 && |hello| <= MAX_PAYLOAD && |junk| <= MAX_SCAN - HF.OVERHEAD
    requires d.Valid() && T.Legal(d.headers, attempts)
    requires HF.BuildHelloFrame(s, pub, nonce, hello).Some?
    requires Quiet(s, pub, Stream(s, pub, junk, nonce, hello, d, attempts), |junk|)
    ensures Delivers(s, pub, Stream(s, pub, junk, nonce, hello, d, attempts), hello, d, T.Succeeded(attempts))
  {
    hide HF.ScanResult, HF.AuthenticAt, T.ParseAll, T.Wire, T.Succeeded, SF.Direction.Valid;
    var frame := HF.BuildHelloFrame(s, pub, nonce, hello).value;
    var tail := T.Wire(d, 0, 0, attempts);
    var stream := Stream(s, pub, junk, nonce, hello, d, attempts);
    HF.BuiltFrameIsAuthentic(s, pub, nonce, hello);
    hide HF.BuildHelloFrame;
    T.EndToEnd(d, attempts);
    assert stream[|junk| + |frame|..] == tail;
    forall r, consumed: nat | HF.ScanResult(s, pub, stream, MAX_SCAN, MAX_PAYLOAD, r, consumed)
      ensures r == HF.Found(hello) && consumed == |junk| + |frame|
    {
      HF.HelloIsFound(s, pub, nonce, hello, junk, tail, MAX_SCAN, MAX_PAYLOAD, r, consumed);
    }
  }

  // ---------------------------------------------------------------- whole sessions

  /** The framers of an accepted handshake are ready to carry streams. */
  lemma DirectionsAreValid(e: H.Env, k: H.SessionKeys)
    requires e.Lawful() && e.headers.Separate() && |k.clientIV| == |k.serverIV| == 12
    ensures H.Directions(e.s, e.x, k, e.headers).0.Valid() && H.Directions(e.s, e.x, k, e.headers).1.Valid()
  {
  }

  /** What the server's acceptance says about its framer. */
  lemma ServerFramer(e: H.Env, srv: H.Server, hello: seq<byte>, now: int, rnd: seq<byte>, prePad: seq<byte>,
                     s2: seq<byte>)
    requires e.Lawful() && e.headers.Separate() && |prePad| < 256
    requires H.ProcessClientHello(e, srv, hello, now, rnd, prePad, s2).Some?
    ensures var f := H.ProcessClientHello(e, srv, hello, now, rnd, prePad, s2).value.1.framer;
            && f.enc.Valid() && f.dec.Valid() && f.enc.headers == e.headers && f.dec.headers == e.headers
    ensures var server := H.ProcessClientHello(e, srv, hello, now, rnd, prePad, s2).value.1;
            server.framer.enc.key == server.keys.serverKey && server.framer.enc.iv == server.keys.serverIV
  {
    hide H.OpenIdentity, H.Admits, H.DeriveKeys, SF.Direction.Valid, H.Message, H.SealFirst;
    var id := H.OpenIdentity(e, srv, hello).value;
    var (kemShared, ct) := e.x.encaps(id.kemPub, rnd).value;
    var final := e.x.DHSafe(srv.eph.priv, id.ephPub).value;
    var keys := H.DeriveKeys(e.x, e.x.extract(id.salt, final + kemShared), id.salt, id.ephPub, srv.eph.pub);
    DirectionsAreValid(e, keys);
  }

  ghost predicate Answers(e: H.Env, srv: H.Server, now: int, rnd: seq<byte>, prePad: seq<byte>, s2: seq<byte>,
                          hello: seq<byte>, reply: seq<byte>, server: H.Framer)
    requires e.Lawful() && |prePad| < 256
  {
    var answer := H.ProcessClientHello(e, srv, hello, now, rnd, prePad, s2);
    answer.Some? && reply == answer.value.0 && server == answer.value.1.framer
  }

  /** The server answers the hello with this reply and framer, and the client accepts it with that one. */
  ghost predicate Established(e: H.Env, c: H.Client, srv: H.Server, now: int, rnd: seq<byte>, prePad: seq<byte>,
                              s2: seq<byte>, hello: seq<byte>, reply: seq<byte>, client: H.Framer, server: H.Framer)
  {
    && e.Lawful() && |prePad| < 256
    && Answers(e, srv, now, rnd, prePad, s2, hello, reply, server)
    && var accepted := H.ProcessServerHello(e, c, reply);
       accepted.Some? && client == accepted.value.framer
  }

  /** An honest run establishes a session whose framers are each other's inverse. */
  lemma HonestIsEstablished(e: H.Env, c: H.Client, srv: H.Server, ts: nat, now: int, prePad1: seq<byte>, s1: seq<byte>,
                            rnd: seq<byte>, prePad2: seq<byte>, s2: seq<byte>)
    returns (hello: seq<byte>, reply: seq<byte>, client: H.Framer, server: H.Framer)
    requires H.Honest(e, c, srv) && |prePad1| < 256 && |prePad2| < 256
    requires ts < Clock.MAX_SECONDS && 0 <= now < Clock.MAX_SECONDS && -30 <= now - ts <= 30
    requires e.headers.Separate()
    ensures H.BuildHello(e, c, ts, prePad1, s1) == Some(hello)
    ensures Established(e, c, srv, now, rnd, prePad2, s2, hello, reply, client, server)
    ensures client.enc == server.dec && server.enc == client.dec
    ensures client.enc.Valid() && server.enc.Valid() && client.enc.headers == server.enc.headers == e.headers
  {
    hide SF.Direction.Valid;
    H.HonestRunSucceeds(e, c, srv, ts, now, prePad1, s1, rnd, prePad2, s2);
    hello := H.BuildHello(e, c, ts, prePad1, s1).value;
    var answer := H.ProcessClientHello(e, srv, hello, now, rnd, prePad2, s2).value;
    reply, server := answer.0, answer.1.framer;
    client := H.ProcessServerHello(e, c, reply).value.framer;
    ServerFramer(e, srv, hello, now, rnd, prePad2, s2);
  }

  /**
   A whole honest session, from the first byte: behind any junk and for all random choices, each
   end's scanner finds the other's hello, and each end reads back exactly the messages the other
   sent, in lock order, with equal counters and nothing left over.
   */
  lemma HonestSessionDelivers(e: H.Env, c: H.Client, srv: H.Server, ts: nat, now: int,
                              prePad1: seq<byte>, s1: seq<byte>, rnd: seq<byte>, prePad2: seq<byte>, s2: seq<byte>,
                              hello: seq<byte>, reply: seq<byte>, client: H.Framer, server: H.Framer, pub: Key,
                              junk1: seq<byte>, nonce1: seq<byte>, up: seq<T.Attempt>,
                              junk2: seq<byte>, nonce2: seq<byte>, down: seq<T.Attempt>)
    requires H.Honest(e, c, srv) && |prePad1| < 256 && |prePad2| < 256 && e.headers.Separate()
    requires ts < Clock.MAX_SECONDS && 0 <= now < Clock.MAX_SECONDS && -30 <= now - ts <= 30
    requires H.BuildHello(e, c, ts, prePad1, s1) == Some(hello)
    requires Established(e, c, srv, now, rnd, prePad2, s2, hello, reply, client, server)
    requires |nonce1| == |nonce2| == 16 && |hello| <= MAX_PAYLOAD && |reply| <= MAX_PAYLOAD
    requires |junk1| <= MAX_SCAN - HF.OVERHEAD && |junk2| <= MAX_SCAN - HF.OVERHEAD
    requires T.Legal(e.headers, up) && T.Legal(e.headers, down)
    ensures Ready(e, pub, nonce1, hello, client.enc, up) && Ready(e, pub, nonce2, reply, server.enc, down)
    ensures |server.dec.iv| == |client.dec.iv| == 12
    ensures var stream := Stream(e.s, pub, junk1, nonce1, hello, client.enc, up);
            Quiet(e.s, pub, stream, |junk1|) ==> Delivers(e.s, pub, stream, hello, server.dec, T.Succeeded(up))
    ensures var stream := Stream(e.s, pub, junk2, nonce2, reply, server.enc, down);
            Quiet(e.s, pub, stream, |junk2|) ==> Delivers(e.s, pub, stream, reply, client.dec, T.Succeeded(down))
  {
    HF.BuiltFrameIsAuthentic(e.s, pub, nonce1, hello);
    HF.BuiltFrameIsAuthentic(e.s, pub, nonce2, reply);
    hide HF.BuildHelloFrame, Stream, Quiet, Delivers, H.BuildHello;
    var _, _, _, _ := HonestIsEstablished(e, c, srv, ts, now, prePad1, s1, rnd, prePad2, s2);
    if Quiet(e.s, pub, Stream(e.s, pub, junk1, nonce1, hello, client.enc, up), |junk1|) {
      StreamDelivers(e.s, pub, junk1, nonce1, hello, client.enc, up);
    }
    if Quiet(e.s, pub, Stream(e.s, pub, junk2, nonce2, reply, server.enc, down), |junk2|) {
      StreamDelivers(e.s, pub, junk2, nonce2, reply, server.enc, down);
    }
  }

  // ---------------------------------------------------------------- key and nonce pairs

  /** The key and nonce pairs the server seals with: the confirmation in its reply, then its n frames. */
  ghost function ServerSeals(keys: H.SessionKeys, enc: SF.Direction, n: nat): seq<(Key, seq<byte>)>
    requires |keys.serverIV| == 12 && |enc.iv| == 12
  {
    [(keys.serverKey, SF.CipherNonce(keys.serverIV, 0))]
    + seq(n, k requires 0 <= k => (enc.key, SF.CipherNonce(enc.iv, k)))
  }

  /**
   No pair should seal twice, and exactly one does: the reply's confirmation and the server's first
   frame share key and nonce. So a pair repeats if and only if the server sends a frame.
   */
  lemma SealsRepeatExactly(e: H.Env, srv: H.Server, hello: seq<byte>, now: int, rnd: seq<byte>, prePad: seq<byte>,
                           s2: seq<byte>, n: nat)
    requires e.Lawful() && e.headers.Separate() && |prePad| < 256 && n < TWO64
    requires H.ProcessClientHello(e, srv, hello, now, rnd, prePad, s2).Some?
    ensures var server := H.ProcessClientHello(e, srv, hello, now, rnd, prePad, s2).value.1;
            && |server.keys.serverIV| == 12 && |server.framer.enc.iv| == 12
            && var seals := ServerSeals(server.keys, server.framer.enc, n);
               && (forall i, j :: 0 <= i < j <= n ==> (seals[i] == seals[j] <==> i == 0 && j == 1))
               && ((exists i, j :: 0 <= i < j <= n && seals[i] == seals[j]) <==> n >= 1)
  {
    ServerFramer(e, srv, hello, now, rnd, prePad, s2);
    var server := H.ProcessClientHello(e, srv, hello, now, rnd, prePad, s2).value.1;
    var keys, enc := server.keys, server.framer.enc;
    hide SF.CipherNonce;
    var seals := ServerSeals(keys, enc, n);
    forall i, j | 0 <= i < j <= n
      ensures seals[i] == seals[j] <==> i == 0 && j == 1
    {
      RepeatedSeal(keys, enc, n, i, j);
    }
    if n >= 1 {
      assert seals[0] == seals[1];
    }
  }

  lemma RepeatedSeal(keys: H.SessionKeys, enc: SF.Direction, n: nat, i: nat, j: nat)
    requires |keys.serverIV| == 12 && enc.key == keys.serverKey && enc.iv == keys.serverIV && i < j <= n < TWO64
    ensures var seals := ServerSeals(keys, enc, n); seals[i] == seals[j] <==> i == 0 && j == 1
  {
    hide SF.CipherNonce;
    var a, b := (if i == 0 then 0 else i - 1), j - 1;
    var seals := ServerSeals(keys, enc, n);
    assert seals[i] == (enc.key, SF.CipherNonce(enc.iv, a)) && seals[j] == (enc.key, SF.CipherNonce(enc.iv, b));
    Pow256Values();
    if SF.CipherNonce(enc.iv, a) == SF.CipherNonce(enc.iv, b) {
      SF.CipherNonceInjective(enc.iv, a, b);
    }
  }
}

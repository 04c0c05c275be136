/**
 The hybrid handshake: the client's hello, the server's reply and the session
 keys and framers both ends derive.
 */
module Handshake {
  import opened Bytes
  import opened Crypto
  import SF = StreamFramer
  import Clock

  const KEY := 32
  const ENCAPS_KEY := 1184
  const CIPHERTEXT := 1088

  // ---------------------------------------------------------------- primitives

  /** Diffie-Hellman, key encapsulation, extraction and key derivation. */
  datatype Exchange = Exchange(
    pub: Key -> Key,
    dh: (Key, Key) -> Key,
    encapsKey: Key -> seq<byte>,
    encaps: (seq<byte>, seq<byte>) -> Option<(Key, seq<byte>)>,
    decaps: (Key, seq<byte>) -> Key,
    extract: (seq<byte>, seq<byte>) -> Key,
    expand: (Key, seq<byte>, seq<byte>, nat) -> seq<byte>)
  {
    /**
     Diffie-Hellman commutes, decapsulation inverts encapsulation, and lengths are fixed. A key that
     is no encapsulation key may be refused.
     */
    ghost predicate Lawful() {
      && (forall a, b :: dh(a, pub(b)) == dh(b, pub(a)))
      && (forall a :: |pub(a)| == KEY)
      && (forall k :: |encapsKey(k)| == ENCAPS_KEY)
      && (forall k, r :: encaps(encapsKey(k), r).Some? && |encaps(encapsKey(k), r).value.1| == CIPHERTEXT)
      && (forall k, r :: decaps(k, encaps(encapsKey(k), r).value.1) == encaps(encapsKey(k), r).value.0)
      && (forall s, salt, info, n :: |expand(s, salt, info, n)| == n)
    }

    /** The shared secret, refused when it is all zero. */
    function DHSafe(priv: Key, peer: Key): Option<Key> {
      var shared := dh(priv, peer);
      if IsZero(shared) then None else Some(shared)
    }
  }

  predicate IsZero(k: Key) { forall i :: 0 <= i < |k| ==> k[i] == 0 }

  const ONES32: seq<byte> := seq(32, i => 1)

  /** The laws are satisfiable, with shared secrets that are not zero. */
  lemma ExchangeLawsAreSatisfiable() returns (x: Exchange)
    ensures x.Lawful() && forall a, b :: x.DHSafe(a, b).Some?
  {
    x := Exchange(
      a => ONES32, (a, p) => ONES32, k => seq(ENCAPS_KEY, i => 0), (e, r) => Some((ONES32, seq(CIPHERTEXT, i => 0))),
      (k, c) => ONES32, (a, b) => ONES32, (s, salt, info, n: nat) => seq(n, i => 0));
    assert ONES32[0] == 1;
  }

  // ---------------------------------------------------------------- key schedule

  datatype SessionKeys = SessionKeys(clientKey: Key, serverKey: Key, clientIV: seq<byte>, serverIV: seq<byte>,
                                     sessionID: seq<byte>, magic: seq<byte>)

  const KEY_LABEL := Ascii("obsidian_v2")
  const HEADER_LABEL := Ascii("obsidian_tcp_header_v2")
  const AUTH_LABEL := Ascii("obsidian_server_auth_v1")

  function CutKeys(b: seq<byte>): (k: SessionKeys)
    requires |b| == 120
    ensures |k.clientIV| == |k.serverIV| == 12 && |k.sessionID| == |k.magic| == 16
  {
    SessionKeys(b[0..32], b[32..64], b[64..76], b[76..88], b[88..104], b[104..120])
  }

  function DeriveKeys(x: Exchange, secret: Key, salt: seq<byte>, clientPub: Key, serverPub: Key): (k: SessionKeys)
    requires x.Lawful()
    ensures |k.clientIV| == |k.serverIV| == 12 && |k.sessionID| == |k.magic| == 16
  {
    CutKeys(x.expand(secret, salt, KEY_LABEL + clientPub + serverPub, 120))
  }

  /** The six keys are consecutive parts of what is derived from the secret, the salt and both public keys. */
  lemma KeyMaterial(x: Exchange, secret: Key, salt: seq<byte>, clientPub: Key, serverPub: Key)
    requires x.Lawful()
    ensures var k := DeriveKeys(x, secret, salt, clientPub, serverPub);
            && |k.clientKey| == |k.serverKey| == 32
            && k.clientKey + k.serverKey + k.clientIV + k.serverIV + k.sessionID + k.magic
               == x.expand(secret, salt, KEY_LABEL + clientPub + serverPub, 120)
  {
    var b := x.expand(secret, salt, KEY_LABEL + clientPub + serverPub, 120);
    assert b == b[0..32] + b[32..64] + b[64..76] + b[76..88] + b[88..104] + b[104..120];
  }

  /** The client's and the server's header keys. */
  function HeaderKeys(x: Exchange, k: SessionKeys): (Key, Key)
    requires x.Lawful()
  {
    var b := x.expand(k.clientKey + k.serverKey, k.sessionID, HEADER_LABEL, 64);
    (b[..32], b[32..])
  }

  function ServerProof(s: Suite, shared: Key, clientEph: Key, salt: seq<byte>, serverEph: Key,
                       sessionID: seq<byte>): seq<byte>
  {
    s.mac(shared, AUTH_LABEL + clientEph + salt + serverEph + sessionID)
  }

  /** The first message of a fresh cipher. */
  function SealFirst(s: Suite, key: Key, iv: seq<byte>, plain: seq<byte>, aad: seq<byte>): seq<byte>
    requires |iv| == 12
  {
    s.seal(key, SF.CipherNonce(iv, 0), plain, aad)
  }

  function OpenFirst(s: Suite, key: Key, iv: seq<byte>, ct: seq<byte>, aad: seq<byte>): Option<seq<byte>>
    requires |iv| == 12
  {
    s.open(key, SF.CipherNonce(iv, 0), ct, aad)
  }

  /** Both directions of a framer. */
  datatype Framer = Framer(enc: SF.Direction, dec: SF.Direction)

  function Directions(s: Suite, x: Exchange, k: SessionKeys, headers: SF.HeaderConfig): (SF.Direction, SF.Direction)
    requires x.Lawful()
  {
    var (ck, sk) := HeaderKeys(x, k);
    (SF.Direction(s, k.clientKey, k.clientIV, Some(ck), Some(ck), headers),
     SF.Direction(s, k.serverKey, k.serverIV, Some(sk), Some(sk), headers))
  }

  // ---------------------------------------------------------------- messages

  /** A hello: padding, the fixed fields, a length-prefixed sealed part and trailing padding. */
  function Message(prePad: seq<byte>, fixed: seq<byte>, sealed: seq<byte>, pad: seq<byte>): seq<byte>
    requires |prePad| < 256
  {
    [|prePad|] + prePad + fixed + BigEndian(2, |sealed|) + sealed + BigEndian(2, |pad|) + pad
  }

  /** The fixed fields and the sealed part, if the message is long enough for them. */
  function Parse(data: seq<byte>, fixedLen: nat): (r: Option<(seq<byte>, seq<byte>)>)
    ensures r.Some? ==> |r.value.0| == fixedLen
  {
    if |data| < 1 then None
    else
      var off := 1 + data[0] as int;
      if |data| < off + fixedLen + 2 then None
      else
        var n := FromBigEndian(data[off + fixedLen..off + fixedLen + 2]);
        var start := off + fixedLen + 2;
        if |data| < start + n then None else Some((data[off..off + fixedLen], data[start..start + n]))
  }

  lemma Fields(prePad: seq<byte>, fixed: seq<byte>, len: seq<byte>, sealed: seq<byte>, rest: seq<byte>)
    requires |prePad| < 256 && |len| == 2
    ensures var data: seq<byte> := [|prePad|] + prePad + fixed + len + sealed + rest;
            var off := 1 + |prePad|;
            var start := off + |fixed| + 2;
            && |data| >= start + |sealed| && data[0] == |prePad| && data[off..off + |fixed|] == fixed
            && data[off + |fixed|..start] == len && data[start..start + |sealed|] == sealed
  {
  }

  /** Neither padding disturbs the fields. */
  lemma ParseMessage(prePad: seq<byte>, fixed: seq<byte>, sealed: seq<byte>, pad: seq<byte>)
    requires |prePad| < 256 && |sealed| < 0x1_0000
    ensures Parse(Message(prePad, fixed, sealed, pad), |fixed|) == Some((fixed, sealed))
  {
    hide BigEndian, FromBigEndian;
    Fields(prePad, fixed, BigEndian(2, |sealed|), sealed, BigEndian(2, |pad|) + pad);
    var data := Message(prePad, fixed, sealed, pad);
    assert data == [|prePad|] + prePad + fixed + BigEndian(2, |sealed|) + sealed + (BigEndian(2, |pad|) + pad);
    Pow256Values();
    BigEndianRoundTrip(2, |sealed|);
  }

  /** A message parses to these fields, if and only if they stand behind some padding, whatever follows them. */
  lemma ParseExactly(data: seq<byte>, fixed: seq<byte>, sealed: seq<byte>)
    ensures Parse(data, |fixed|) == Some((fixed, sealed))
            <==> |sealed| < 0x1_0000 && exists prePad, rest :: Laid(data, prePad, fixed, sealed, rest)
  {
    hide Parse, Laid;
    if Parse(data, |fixed|) == Some((fixed, sealed)) {
      ParsedIsLaid(data, fixed, sealed);
    }
    if prePad, rest :| |sealed| < 0x1_0000 && Laid(data, prePad, fixed, sealed, rest) {
      LaidIsParsed(data, prePad, fixed, sealed, rest);
    }
  }

  /** A message is its pieces. */
  lemma CutInSix(s: seq<byte>, a: nat, b: nat, c: nat, d: nat)
    requires 1 <= a <= b <= c <= d <= |s|
    ensures s == [s[0]] + s[1..a] + s[a..b] + s[b..c] + s[c..d] + s[d..]
  {
    assert [s[0]] + s[1..a] == s[..a];
    assert s[..a] + s[a..b] == s[..b];
    assert s[..b] + s[b..c] == s[..c];
    assert s[..c] + s[c..d] == s[..d];
    assert s[..d] + s[d..] == s;
  }

  lemma ParsedIsLaid(data: seq<byte>, fixed: seq<byte>, sealed: seq<byte>)
    requires Parse(data, |fixed|) == Some((fixed, sealed))
    ensures |sealed| < 0x1_0000 && exists prePad, rest :: Laid(data, prePad, fixed, sealed, rest)
  {
    hide BigEndian, FromBigEndian;
    Pow256Values();
    var off := 1 + data[0] as int;
    var len, start := off + |fixed|, off + |fixed| + 2;
    FromBigEndianRoundTrip(data[len..start]);
    CutInSix(data, off, len, start, start + |sealed|);
    assert Laid(data, data[1..off], fixed, sealed, data[start + |sealed|..]);
  }

  lemma LaidIsParsed(data: seq<byte>, prePad: seq<byte>, fixed: seq<byte>, sealed: seq<byte>, rest: seq<byte>)
    requires |sealed| < 0x1_0000 && Laid(data, prePad, fixed, sealed, rest)
    ensures Parse(data, |fixed|) == Some((fixed, sealed))
  {
    hide BigEndian, FromBigEndian;
    Pow256Values();
    Fields(prePad, fixed, BigEndian(2, |sealed|), sealed, rest);
    BigEndianRoundTrip(2, |sealed|);
  }

  /** Behind the fields of a hello stands its second padding, with its length. */
  lemma MessageIsLaid(prePad: seq<byte>, fixed: seq<byte>, sealed: seq<byte>, pad: seq<byte>)
    requires |prePad| < 256
    ensures Laid(Message(prePad, fixed, sealed, pad), prePad, fixed, sealed, BigEndian(2, |pad|) + pad)
  {
    hide BigEndian;
  }

  /** The fields of a message, with anything behind them. */
  predicate Laid(data: seq<byte>, prePad: seq<byte>, fixed: seq<byte>, sealed: seq<byte>, rest: seq<byte>) {
    |prePad| < 256 && data == [|prePad|] + prePad + fixed + BigEndian(2, |sealed|) + sealed + rest
  }

  // ---------------------------------------------------------------- the client

  /** An ephemeral key pair; both halves are overwritten once a handshake is done. */
  datatype Keypair = Keypair(priv: Key, pub: Key) {
    function Zeroed(): (k: Keypair)
      ensures |k.priv| == |priv| && |k.pub| == |pub| && IsZero(k.priv) && IsZero(k.pub)
    {
      Keypair(seq(|priv|, i => 0), seq(|pub|, i => 0))
    }
  }

  datatype Client = Client(serverPub: Key, eph: Keypair, kem: Key, staticKey: Key, salt: seq<byte>)

  /** What an endpoint is set up with. */
  datatype Env = Env(s: Suite, x: Exchange, headers: SF.HeaderConfig) {
    ghost predicate Lawful() { s.Lawful() && x.Lawful() }
  }

  function ClientProof(e: Env, shared: Key, magic: seq<byte>, ephPub: Key, kemPub: seq<byte>, salt: seq<byte>,
                       ts: seq<byte>): seq<byte>
  {
    e.s.mac(shared, magic + ephPub + kemPub + salt + ts)
  }

  /** The hello at unix time ts; both paddings are random choices. */
  function BuildHello(e: Env, c: Client, ts: nat, prePad: seq<byte>, s1: seq<byte>): Option<seq<byte>>
    requires e.Lawful() && |prePad| < 256
  {
    match e.x.DHSafe(c.eph.priv, c.serverPub)
    case None => None
    case Some(shared) =>
      var ephPub, kemPub := c.eph.pub, e.x.encapsKey(c.kem);
      var tmp := DeriveKeys(e.x, shared, c.salt, ephPub, c.serverPub);
      match e.x.DHSafe(c.staticKey, c.serverPub)
      case None => None
      case Some(staticShared) =>
        var stamp := BigEndian(8, ts);
        var identity := tmp.magic + e.x.pub(c.staticKey) + stamp
                        + ClientProof(e, staticShared, tmp.magic, ephPub, kemPub, c.salt, stamp);
        var sealed := SealFirst(e.s, tmp.clientKey, tmp.clientIV, identity, ephPub + kemPub);
        Some(Message(prePad, ephPub + kemPub + c.salt, sealed, s1))
  }

  datatype Accepted = Accepted(keys: SessionKeys, framer: Framer)

  function ProcessServerHello(e: Env, c: Client, data: seq<byte>): Option<Accepted>
    requires e.Lawful()
  {
    match Parse(data, KEY + CIPHERTEXT)
    case None => None
    case Some((fixed, sealed)) =>
      var serverEph, ct := fixed[..KEY], fixed[KEY..];
      match e.x.DHSafe(c.eph.priv, serverEph)
      case None => None
      case Some(shared) =>
        var hybrid := e.x.extract(c.salt, shared + e.x.decaps(c.kem, ct));
        var keys := DeriveKeys(e.x, hybrid, c.salt, c.eph.pub, serverEph);
        match OpenFirst(e.s, keys.serverKey, keys.serverIV, sealed, serverEph + ct)
        case None => None
        case Some(confirm) =>
          if |confirm| != 64 || confirm[..16] != keys.magic || confirm[16..32] != keys.sessionID then None
          else
            match e.x.DHSafe(c.eph.priv, c.serverPub)
            case None => None
            case Some(staticShared) =>
              if confirm[32..] != ServerProof(e.s, staticShared, c.eph.pub, c.salt, serverEph, keys.sessionID) then None
              else
                var (client, server) := Directions(e.s, e.x, keys, e.headers);
                Some(Accepted(keys, Framer(client, server)))
  }

  // ---------------------------------------------------------------- the server

  datatype Server = Server(staticKey: Key, eph: Keypair, allowed: Option<set<Key>>)

  /** The client's ephemeral keys, salt and opened identity, if the hello decrypts under the server's key. */
  datatype Identity = Identity(ephPub: Key, kemPub: seq<byte>, salt: seq<byte>, shared: Key, magic: seq<byte>,
                               staticPub: Key, stamp: seq<byte>, proof: seq<byte>)

  function OpenIdentity(e: Env, srv: Server, data: seq<byte>): Option<Identity>
    requires e.Lawful()
  {
    match Parse(data, KEY + ENCAPS_KEY + 32)
    case None => None
    case Some((fixed, sealed)) =>
      var ephPub, kemPub, salt := fixed[..KEY], fixed[KEY..KEY + ENCAPS_KEY], fixed[KEY + ENCAPS_KEY..];
      match e.x.DHSafe(srv.staticKey, ephPub)
      case None => None
      case Some(shared) =>
        var tmp := DeriveKeys(e.x, shared, salt, ephPub, e.x.pub(srv.staticKey));
        match OpenFirst(e.s, tmp.clientKey, tmp.clientIV, sealed, ephPub + kemPub)
        case None => None
        case Some(id) =>
          if |id| < 88 || id[..16] != tmp.magic then None
          else Some(Identity(ephPub, kemPub, salt, shared, tmp.magic, id[16..48], id[48..56], id[56..88]))
  }

  /** The order of the server's checks: timestamp, static proof, allow list. */
  predicate Admits(e: Env, srv: Server, id: Identity, now: int)
    requires e.Lawful()
  {
    && Clock.Fresh(now, FromBigEndian(id.stamp))
    && (match e.x.DHSafe(srv.staticKey, id.staticPub)
        case None => false
        case Some(k) => id.proof == ClientProof(e, k, id.magic, id.ephPub, id.kemPub, id.salt, id.stamp))
    && (srv.allowed.Some? ==> id.staticPub in srv.allowed.value)
  }

  /** The reply and the server's keys for an admitted identity; rnd is the encapsulation randomness. */
  function Reply(e: Env, srv: Server, id: Identity, rnd: seq<byte>, prePad: seq<byte>,
                 s2: seq<byte>): Option<(seq<byte>, Accepted)>
    requires e.Lawful() && |prePad| < 256
  {
    match e.x.encaps(id.kemPub, rnd)
    case None => None
    case Some((kemShared, ct)) =>
      match e.x.DHSafe(srv.eph.priv, id.ephPub)
      case None => None
      case Some(final) =>
        var ephPub := srv.eph.pub;
        var keys := DeriveKeys(e.x, e.x.extract(id.salt, final + kemShared), id.salt, id.ephPub, ephPub);
        var (client, server) := Directions(e.s, e.x, keys, e.headers);
        var sealed := SealFirst(e.s, keys.serverKey, keys.serverIV, Confirm(e, srv, id, keys), ephPub + ct);
        Some((Message(prePad, ephPub + ct, sealed, s2), Accepted(keys, Framer(server, client))))
  }

  /** What the reply confirms: magic, session and the server's proof. */
  function Confirm(e: Env, srv: Server, id: Identity, keys: SessionKeys): seq<byte> {
    keys.magic + keys.sessionID + ServerProof(e.s, id.shared, id.ephPub, id.salt, srv.eph.pub, keys.sessionID)
  }

  function ProcessClientHello(e: Env, srv: Server, data: seq<byte>, now: int,
                                    rnd: seq<byte>, prePad: seq<byte>, s2: seq<byte>): Option<(seq<byte>, Accepted)>
    requires e.Lawful() && |prePad| < 256
  {
    match OpenIdentity(e, srv, data)
    case None => None
    case Some(id) => if Admits(e, srv, id, now) then Reply(e, srv, id, rnd, prePad, s2) else None
  }

  // ---------------------------------------------------------------- honest runs

  /** The client knows the server, no shared secret is zero, and the server lets the client in. */
  ghost predicate Honest(e: Env, c: Client, srv: Server) {
    && e.Lawful() && c.serverPub == e.x.pub(srv.staticKey) && |c.salt| == 32
    && c.eph.pub == e.x.pub(c.eph.priv) && srv.eph.pub == e.x.pub(srv.eph.priv)
    && e.x.DHSafe(c.eph.priv, c.serverPub).Some? && e.x.DHSafe(c.staticKey, c.serverPub).Some?
    && e.x.DHSafe(c.eph.priv, srv.eph.pub).Some?
    && (srv.allowed.Some? ==> e.x.pub(c.staticKey) in srv.allowed.value)
  }

  lemma HonestRunsExist() returns (e: Env, c: Client, srv: Server)
    ensures Honest(e, c, srv) && e.headers.Separate()
  {
    var tagOf := (k, n, a) => ZERO_TAG;
    var s := TaggedSuite(tagOf);
    TaggedIsLawful(tagOf);
    var x := ExchangeLawsAreSatisfiable();
    hide Suite.Lawful, Exchange.Lawful;
    var headers := SF.SeparateExist();
    e := Env(s, x, headers);
    var eph := Keypair(ONES32, x.pub(ONES32));
    srv := Server(ONES32, eph, None);
    c := Client(x.pub(srv.staticKey), eph, ONES32, ONES32, ONES32);
  }

  lemma DHAgrees(x: Exchange, a: Key, b: Key)
    requires x.Lawful()
    ensures x.DHSafe(a, x.pub(b)) == x.DHSafe(b, x.pub(a))
  {
  }

  /** A client's fields have fixed lengths, and the server cuts them out again. */
  lemma OwnFields(e: Env, c: Client, srv: Server)
    requires Honest(e, c, srv)
    ensures var ephPub, kemPub := c.eph.pub, e.x.encapsKey(c.kem);
            var fixed := ephPub + kemPub + c.salt;
            && |ephPub| == KEY && |kemPub| == ENCAPS_KEY && |fixed| == KEY + ENCAPS_KEY + 32
            && fixed[..KEY] == ephPub && fixed[KEY..KEY + ENCAPS_KEY] == kemPub && fixed[KEY + ENCAPS_KEY..] == c.salt
    ensures |e.x.pub(c.staticKey)| == KEY
    ensures e.x.DHSafe(srv.staticKey, c.eph.pub) == e.x.DHSafe(c.eph.priv, c.serverPub)
    ensures e.x.DHSafe(srv.staticKey, e.x.pub(c.staticKey)) == e.x.DHSafe(c.staticKey, c.serverPub)
  {
    DHAgrees(e.x, c.eph.priv, srv.staticKey);
    DHAgrees(e.x, c.staticKey, srv.staticKey);
  }

  /** An identity is its four parts. */
  lemma IdentityParts(magic: seq<byte>, pub: seq<byte>, stamp: seq<byte>, proof: seq<byte>)
    requires |magic| == 16 && |pub| == 32 && |stamp| == 8 && |proof| == 32
    ensures var id := magic + pub + stamp + proof;
            |id| == 88 && id[..16] == magic && id[16..48] == pub && id[48..56] == stamp && id[56..88] == proof
  {
  }

  lemma ClientProofLength(e: Env, shared: Key, magic: seq<byte>, ephPub: Key, kemPub: seq<byte>, salt: seq<byte>,
                          ts: seq<byte>)
    requires e.Lawful()
    ensures |ClientProof(e, shared, magic, ephPub, kemPub, salt, ts)| == 32
  {
  }

  /** The identity the server opens is the one the client sealed. */
  lemma IdentityArrives(e: Env, c: Client, srv: Server, ts: nat, prePad: seq<byte>, s1: seq<byte>)
    requires Honest(e, c, srv) && ts < Pow256(8) && |prePad| < 256
    ensures BuildHello(e, c, ts, prePad, s1).Some?
    ensures var shared := e.x.DHSafe(c.eph.priv, c.serverPub).value;
            var ephPub, kemPub := c.eph.pub, e.x.encapsKey(c.kem);
            var magic := DeriveKeys(e.x, shared, c.salt, ephPub, c.serverPub).magic;
            var stamp := BigEndian(8, ts);
            OpenIdentity(e, srv, BuildHello(e, c, ts, prePad, s1).value)
            == Some(Identity(ephPub, kemPub, c.salt, shared, magic, e.x.pub(c.staticKey), stamp,
                             ClientProof(e, e.x.DHSafe(c.staticKey, c.serverPub).value, magic,
                                         ephPub, kemPub, c.salt, stamp)))
  {
    hide Message, Parse, DeriveKeys, Exchange.Lawful, Suite.Lawful, SF.CipherNonce, BigEndian, ClientProof;
    OwnFields(e, c, srv);
    var shared, staticShared := e.x.DHSafe(c.eph.priv, c.serverPub).value, e.x.DHSafe(c.staticKey, c.serverPub).value;
    var ephPub, kemPub := c.eph.pub, e.x.encapsKey(c.kem);
    var tmp := DeriveKeys(e.x, shared, c.salt, ephPub, c.serverPub);
    var stamp := BigEndian(8, ts);
    var proof := ClientProof(e, staticShared, tmp.magic, ephPub, kemPub, c.salt, stamp);
    ClientProofLength(e, staticShared, tmp.magic, ephPub, kemPub, c.salt, stamp);
    IdentityParts(tmp.magic, e.x.pub(c.staticKey), stamp, proof);
    var id := tmp.magic + e.x.pub(c.staticKey) + stamp + proof;
    e.s.OpenSeal(tmp.clientKey, SF.CipherNonce(tmp.clientIV, 0), id, ephPub + kemPub);
    var sealed := SealFirst(e.s, tmp.clientKey, tmp.clientIV, id, ephPub + kemPub);
    ParseMessage(prePad, ephPub + kemPub + c.salt, sealed, s1);
  }

  /** Within the clock tolerance the server admits the identity. */
  lemma HonestIsAdmitted(e: Env, c: Client, srv: Server, ts: nat, now: int, prePad: seq<byte>, s1: seq<byte>)
    requires Honest(e, c, srv) && ts < Pow256(8) && |prePad| < 256
    requires Clock.Fresh(now, ts)
    ensures BuildHello(e, c, ts, prePad, s1).Some?
    ensures var id := OpenIdentity(e, srv, BuildHello(e, c, ts, prePad, s1).value);
            id.Some? && Admits(e, srv, id.value, now)
  {
    hide DeriveKeys, OpenIdentity, BuildHello, Clock.Fresh;
    IdentityArrives(e, c, srv, ts, prePad, s1);
    DHAgrees(e.x, c.staticKey, srv.staticKey);
    BigEndianRoundTrip(8, ts);
  }

  /** The client accepts the server's reply to its identity and derives the same keys. */
  lemma ReplyIsAccepted(e: Env, c: Client, srv: Server, id: Identity, rnd: seq<byte>, prePad: seq<byte>, s2: seq<byte>)
    requires Honest(e, c, srv) && |prePad| < 256
    requires id.ephPub == c.eph.pub && id.kemPub == e.x.encapsKey(c.kem) && id.salt == c.salt
    requires id.shared == e.x.DHSafe(c.eph.priv, c.serverPub).value
    ensures Reply(e, srv, id, rnd, prePad, s2).Some?
    ensures var (reply, server) := Reply(e, srv, id, rnd, prePad, s2).value;
            ProcessServerHello(e, c, reply) == Some(Accepted(server.keys, Framer(server.framer.dec, server.framer.enc)))
  {
    hide Message, Parse, DeriveKeys, Directions, ServerProof;
    DHAgrees(e.x, c.eph.priv, srv.eph.priv);
    var (kemShared, ct) := e.x.encaps(id.kemPub, rnd).value;
    var ephPub := srv.eph.pub;
    var final := e.x.DHSafe(srv.eph.priv, id.ephPub).value;
    assert e.x.decaps(c.kem, ct) == kemShared;
    var keys := DeriveKeys(e.x, e.x.extract(id.salt, final + kemShared), id.salt, id.ephPub, ephPub);
    var proof := ServerProof(e.s, id.shared, id.ephPub, id.salt, ephPub, keys.sessionID);
    ProofLength(e.s, id.shared, id.ephPub, id.salt, ephPub, keys.sessionID);
    var confirm := keys.magic + keys.sessionID + proof;
    assert confirm[..16] == keys.magic && confirm[16..32] == keys.sessionID && confirm[32..] == proof;
    var fixed := ephPub + ct;
    assert fixed[..KEY] == ephPub && fixed[KEY..] == ct;
    e.s.OpenSeal(keys.serverKey, SF.CipherNonce(keys.serverIV, 0), confirm, fixed);
    ParseMessage(prePad, fixed, SealFirst(e.s, keys.serverKey, keys.serverIV, confirm, fixed), s2);
  }

  lemma ProofLength(s: Suite, shared: Key, clientEph: Key, salt: seq<byte>, serverEph: Key, sessionID: seq<byte>)
    requires s.Lawful()
    ensures |ServerProof(s, shared, clientEph, salt, serverEph, sessionID)| == 32
  {
  }

  /**
   Every honest run succeeds, for any paddings and any clock skew of at most 30 seconds: both ends
   hold the same session keys, and each framer's sending direction is the other's receiving one.
   */
  lemma HonestRunSucceeds(e: Env, c: Client, srv: Server, ts: nat, now: int, prePad: seq<byte>, s1: seq<byte>,
                          rnd: seq<byte>, prePad2: seq<byte>, s2: seq<byte>)
    requires Honest(e, c, srv) && |prePad| < 256 && |prePad2| < 256
    requires ts < Clock.MAX_SECONDS && 0 <= now < Clock.MAX_SECONDS && -30 <= now - ts <= 30
    ensures BuildHello(e, c, ts, prePad, s1).Some?
    ensures var hello := BuildHello(e, c, ts, prePad, s1).value;
            var reply := ProcessClientHello(e, srv, hello, now, rnd, prePad2, s2);
            && reply.Some?
            && var server := reply.value.1;
               var client := ProcessServerHello(e, c, reply.value.0);
               && client.Some? && client.value.keys == server.keys
               && client.value.framer.enc == server.framer.dec && client.value.framer.dec == server.framer.enc
  {
    hide DeriveKeys, BuildHello, OpenIdentity, Admits, Reply, ProcessServerHello;
    Clock.FreshWithinTolerance(now, ts);
    Pow256Values();
    HonestIsAdmitted(e, c, srv, ts, now, prePad, s1);
    IdentityArrives(e, c, srv, ts, prePad, s1);
    ReplyIsAccepted(e, c, srv, OpenIdentity(e, srv, BuildHello(e, c, ts, prePad, s1).value).value, rnd, prePad2, s2);
  }

  /**
   A hello that decrypts to this identity: sealed under the key exchange with the server's own key,
   with a fresh stamp, from an allowed static key, and with a code under the exchange of the static
   keys that covers magic, ephemeral key, encapsulation key, salt and stamp.
   */
  ghost predicate Acceptable(e: Env, srv: Server, data: seq<byte>, now: int, id: seq<byte>)
    requires e.Lawful()
  {
    && |id| >= 88 && Parse(data, 32 + 1184 + 32).Some?
    && var (fixed, sealed) := Parse(data, 32 + 1184 + 32).value;
       var ephPub, kemPub, salt := fixed[..32], fixed[32..1216], fixed[1216..];
       var shared, staticShared := e.x.dh(srv.staticKey, ephPub), e.x.dh(srv.staticKey, id[16..48]);
       var b := e.x.expand(shared, salt, KEY_LABEL + ephPub + e.x.pub(srv.staticKey), 120);
       && !IsZero(shared) && !IsZero(staticShared)
       && sealed == e.s.seal(b[0..32], b[64..76], id, ephPub + kemPub)
       && id[..16] == b[104..120] && Clock.Fresh(now, FromBigEndian(id[48..56]))
       && (srv.allowed.Some? ==> id[16..48] in srv.allowed.value)
       && id[56..88] == e.s.mac(staticShared, b[104..120] + ephPub + kemPub + salt + id[48..56])
  }

  /** The server can answer: the client's encapsulation key is one, and the ephemeral secret is not zero. */
  predicate Answerable(e: Env, srv: Server, data: seq<byte>, rnd: seq<byte>)
    requires e.Lawful() && Parse(data, KEY + ENCAPS_KEY + 32).Some?
  {
    var fixed := Parse(data, KEY + ENCAPS_KEY + 32).value.0;
    e.x.encaps(fixed[KEY..KEY + ENCAPS_KEY], rnd).Some? && e.x.DHSafe(srv.eph.priv, fixed[..KEY]).Some?
  }

  /** A hello is accepted, if and only if it was sealed from an acceptable identity and can be answered. */
  lemma AcceptedExactly(e: Env, srv: Server, data: seq<byte>, now: int, rnd: seq<byte>, prePad: seq<byte>,
                        s2: seq<byte>)
    requires e.Lawful() && |prePad| < 256
    ensures ProcessClientHello(e, srv, data, now, rnd, prePad, s2).Some?
            <==> exists id :: Acceptable(e, srv, data, now, id) && Answerable(e, srv, data, rnd)
  {
    hide Parse, Directions, Clock.Fresh, Confirm, Message, SF.CipherNonce;
    if ProcessClientHello(e, srv, data, now, rnd, prePad, s2).Some? {
      var (fixed, sealed) := Parse(data, KEY + ENCAPS_KEY + 32).value;
      var ephPub, kemPub, salt := fixed[..KEY], fixed[KEY..KEY + ENCAPS_KEY], fixed[KEY + ENCAPS_KEY..];
      var tmp := DeriveKeys(e.x, e.x.DHSafe(srv.staticKey, ephPub).value, salt, ephPub, e.x.pub(srv.staticKey));
      var id := OpenFirst(e.s, tmp.clientKey, tmp.clientIV, sealed, ephPub + kemPub).value;
      SF.FirstNonce(tmp.clientIV);
      assert sealed == SealFirst(e.s, tmp.clientKey, tmp.clientIV, id, ephPub + kemPub);
      assert Acceptable(e, srv, data, now, id);
    } else {
      forall id | Acceptable(e, srv, data, now, id) && Answerable(e, srv, data, rnd)
        ensures false
      {
        AcceptableIsAccepted(e, srv, data, now, rnd, prePad, s2, id);
      }
    }
  }

  lemma AcceptableIsAccepted(e: Env, srv: Server, data: seq<byte>, now: int, rnd: seq<byte>, prePad: seq<byte>,
                             s2: seq<byte>, id: seq<byte>)
    requires e.Lawful() && |prePad| < 256 && Acceptable(e, srv, data, now, id) && Answerable(e, srv, data, rnd)
    ensures ProcessClientHello(e, srv, data, now, rnd, prePad, s2).Some?
  {
    hide Parse, Directions, Clock.Fresh, Confirm, Message, SF.CipherNonce;
    var (fixed, sealed) := Parse(data, KEY + ENCAPS_KEY + 32).value;
    var ephPub, kemPub, salt := fixed[..KEY], fixed[KEY..KEY + ENCAPS_KEY], fixed[KEY + ENCAPS_KEY..];
    var tmp := DeriveKeys(e.x, e.x.DHSafe(srv.staticKey, ephPub).value, salt, ephPub, e.x.pub(srv.staticKey));
    SF.FirstNonce(tmp.clientIV);
    e.s.OpenSeal(tmp.clientKey, tmp.clientIV, id, ephPub + kemPub);
  }

  /**
   The owner of the server's key confirms this session: the sealed part of the reply is the seal,
   under the keys its fields lead to, of magic, session id and a code under the exchange of the
   client's ephemeral key with the server's own key that covers the fields of both hellos.
   */
  ghost predicate Confirmed(e: Env, c: Client, data: seq<byte>)
    requires e.Lawful()
  {
    && Parse(data, 32 + 1088).Some?
    && var (fixed, sealed) := Parse(data, 32 + 1088).value;
       var serverEph, ct := fixed[..32], fixed[32..];
       var own := e.x.dh(c.eph.priv, c.serverPub);
       var b := Material(e, c, fixed);
       && !IsZero(e.x.dh(c.eph.priv, serverEph)) && !IsZero(own)
       && sealed == e.s.seal(b[32..64], b[76..88],
                             b[104..120] + b[88..104]
                             + e.s.mac(own, AUTH_LABEL + c.eph.pub + c.salt + serverEph + b[88..104]),
                             serverEph + ct)
  }

  /** The key material that the fields of a reply lead to. */
  function Material(e: Env, c: Client, fixed: seq<byte>): (b: seq<byte>)
    requires e.Lawful() && |fixed| == 32 + 1088
    ensures |b| == 120
  {
    var secret := e.x.extract(c.salt, e.x.dh(c.eph.priv, fixed[..32]) + e.x.decaps(c.kem, fixed[32..]));
    e.x.expand(secret, c.salt, KEY_LABEL + c.eph.pub + fixed[..32], 120)
  }

  /** The framer of that material: client keys to send, server keys to receive, and a header key for each. */
  function FramerOf(e: Env, b: seq<byte>): Framer
    requires e.Lawful() && |b| == 120
  {
    var h := e.x.expand(b[0..64], b[88..104], HEADER_LABEL, 64);
    Framer(SF.Direction(e.s, b[0..32], b[64..76], Some(h[..32]), Some(h[..32]), e.headers),
           SF.Direction(e.s, b[32..64], b[76..88], Some(h[32..]), Some(h[32..]), e.headers))
  }

  /** A client accepts a reply, if and only if the server it knows confirms the session, and then with these keys. */
  lemma ReplyAcceptedExactly(e: Env, c: Client, data: seq<byte>)
    requires e.Lawful()
    ensures var r := ProcessServerHello(e, c, data);
            && (r.Some? <==> Confirmed(e, c, data))
            && (r.Some? ==>
                  var b := Material(e, c, Parse(data, 32 + 1088).value.0);
                  r.value == Accepted(CutKeys(b), FramerOf(e, b)))
  {
    hide Parse, SF.CipherNonce, Directions, FramerOf, IsZero, Suite.Lawful, ServerProof;
    if Parse(data, KEY + CIPHERTEXT).Some? {
      var (fixed, sealed) := Parse(data, KEY + CIPHERTEXT).value;
      var b := Material(e, c, fixed);
      var keys := CutKeys(b);
      var own := e.x.dh(c.eph.priv, c.serverPub);
      SF.FirstNonce(keys.serverIV);
      var proof := ServerProof(e.s, own, c.eph.pub, c.salt, fixed[..KEY], keys.sessionID);
      assert proof == e.s.mac(own, AUTH_LABEL + c.eph.pub + c.salt + fixed[..KEY] + keys.sessionID) by {
        ServerProofIs(e.s, own, c.eph.pub, c.salt, fixed[..KEY], keys.sessionID);
      }
      ProofLength(e.s, own, c.eph.pub, c.salt, fixed[..KEY], keys.sessionID);
      var confirm := OpenFirst(e.s, keys.serverKey, keys.serverIV, sealed, fixed[..KEY] + fixed[KEY..]);
      if confirm.Some? {
        ConfirmationParts(confirm.value, keys.magic, keys.sessionID, proof);
      }
      SealedIsOpened(e.s, keys.serverKey, keys.serverIV, sealed, fixed[..KEY] + fixed[KEY..],
                     keys.magic + keys.sessionID + proof);
      FramerParts(e, b);
    }
  }

  lemma FramerParts(e: Env, b: seq<byte>)
    requires e.Lawful() && |b| == 120
    ensures var (client, server) := Directions(e.s, e.x, CutKeys(b), e.headers);
            Framer(client, server) == FramerOf(e, b)
  {
    assert b[0..32] + b[32..64] == b[0..64];
  }

  lemma ServerProofIs(s: Suite, shared: Key, clientEph: Key, salt: seq<byte>, serverEph: Key, sessionID: seq<byte>)
    ensures ServerProof(s, shared, clientEph, salt, serverEph, sessionID)
            == s.mac(shared, AUTH_LABEL + clientEph + salt + serverEph + sessionID)
  {
  }

  /** A confirmation is its three parts. */
  lemma ConfirmationParts(confirm: seq<byte>, magic: seq<byte>, id: seq<byte>, proof: seq<byte>)
    requires |magic| == |id| == 16 && |proof| == 32
    ensures |confirm| == 64 && confirm[..16] == magic && confirm[16..32] == id && confirm[32..] == proof
            <==> confirm == magic + id + proof
  {
    var all := magic + id + proof;
    assert all[..16] == magic && all[16..32] == id && all[32..] == proof;
    if |confirm| == 64 {
      assert confirm == confirm[..16] + confirm[16..32] + confirm[32..];
    }
  }

  /** A ciphertext opens to a plaintext, if and only if it is its seal. */
  lemma SealedIsOpened(s: Suite, key: Key, nonce: seq<byte>, ct: seq<byte>, aad: seq<byte>, plain: seq<byte>)
    requires s.Lawful()
    ensures s.open(key, nonce, ct, aad) == Some(plain) <==> ct == s.seal(key, nonce, plain, aad)
  {
    s.OpenSeal(key, nonce, plain, aad);
  }

  const HELLO_FIELDS := KEY + ENCAPS_KEY + 32

  /** The hello has the fields that the client itself builds at time ts, and the stamp is fresh. */
  predicate BuiltAt(e: Env, c: Client, data: seq<byte>, now: int, ts: nat)
    requires e.Lawful()
  {
    var built := BuildHello(e, c, ts, [], []);
    ts < TWO64 && Clock.Fresh(now, ts) && built.Some? && Parse(data, HELLO_FIELDS) == Parse(built.value, HELLO_FIELDS)
  }

  /** The identity a client seals at time ts. */
  function IdentityOf(e: Env, c: Client, staticShared: Key, magic: seq<byte>, stamp: seq<byte>): seq<byte>
    requires e.Lawful()
  {
    magic + e.x.pub(c.staticKey) + stamp
    + ClientProof(e, staticShared, magic, c.eph.pub, e.x.encapsKey(c.kem), c.salt, stamp)
  }

  /** What the fields of a built hello are. */
  lemma BuiltFields(e: Env, c: Client, srv: Server, ts: nat)
    requires Honest(e, c, srv) && ts < TWO64
    ensures var built := BuildHello(e, c, ts, [], []);
            var shared := e.x.DHSafe(c.eph.priv, c.serverPub).value;
            var staticShared := e.x.DHSafe(c.staticKey, c.serverPub).value;
            var tmp := DeriveKeys(e.x, shared, c.salt, c.eph.pub, c.serverPub);
            var id := IdentityOf(e, c, staticShared, tmp.magic, BigEndian(8, ts));
            && built.Some? && |id| == 88
            && Parse(built.value, HELLO_FIELDS)
               == Some((c.eph.pub + e.x.encapsKey(c.kem) + c.salt,
                        SealFirst(e.s, tmp.clientKey, tmp.clientIV, id, c.eph.pub + e.x.encapsKey(c.kem))))
  {
    hide Message, Parse, DeriveKeys;
    var shared, staticShared := e.x.DHSafe(c.eph.priv, c.serverPub).value, e.x.DHSafe(c.staticKey, c.serverPub).value;
    var tmp := DeriveKeys(e.x, shared, c.salt, c.eph.pub, c.serverPub);
    var id := IdentityOf(e, c, staticShared, tmp.magic, BigEndian(8, ts));
    var fixed, aad := c.eph.pub + e.x.encapsKey(c.kem) + c.salt, c.eph.pub + e.x.encapsKey(c.kem);
    e.s.OpenSeal(tmp.clientKey, SF.CipherNonce(tmp.clientIV, 0), id, aad);
    ParseMessage([], fixed, SealFirst(e.s, tmp.clientKey, tmp.clientIV, id, aad), []);
  }

  /** The identity in an admitted hello with the client's fields is one the client seals. */
  lemma AdmittedIdentity(e: Env, c: Client, srv: Server, data: seq<byte>, now: int) returns (ts: nat)
    requires Honest(e, c, srv) && OpenIdentity(e, srv, data).Some?
    requires Admits(e, srv, OpenIdentity(e, srv, data).value, now)
    requires Parse(data, HELLO_FIELDS).Some?
    requires var (fixed, sealed) := Parse(data, HELLO_FIELDS).value;
             fixed == c.eph.pub + e.x.encapsKey(c.kem) + c.salt && |sealed| == 104
    requires OpenIdentity(e, srv, data).value.staticPub == e.x.pub(c.staticKey)
    ensures BuiltAt(e, c, data, now, ts)
  {
    hide Parse, DeriveKeys, Clock.Fresh, ClientProof, BuildHello, Exchange.Lawful, Suite.Lawful, SF.CipherNonce,
         BigEndian, FromBigEndian;
    var sealed := Parse(data, HELLO_FIELDS).value.1;
    var ephPub, kemPub := c.eph.pub, e.x.encapsKey(c.kem);
    OwnFields(e, c, srv);
    var shared, staticShared := e.x.DHSafe(c.eph.priv, c.serverPub).value, e.x.DHSafe(c.staticKey, c.serverPub).value;
    var tmp := DeriveKeys(e.x, shared, c.salt, ephPub, c.serverPub);
    var id := OpenFirst(e.s, tmp.clientKey, tmp.clientIV, sealed, ephPub + kemPub).value;
    SealedIsOpened(e.s, tmp.clientKey, SF.CipherNonce(tmp.clientIV, 0), sealed, ephPub + kemPub, id);
    e.s.OpenSeal(tmp.clientKey, SF.CipherNonce(tmp.clientIV, 0), id, ephPub + kemPub);
    ts := FromBigEndian(id[48..56]);
    Pow256Values();
    FromBigEndianRoundTrip(id[48..56]);
    assert id == id[..16] + id[16..48] + id[48..56] + id[56..88];
    BuiltFields(e, c, srv, ts);
  }

  /**
   Of all hellos that carry a client's own keys and salt, the server accepts exactly those with the
   fields that this client builds at a time within the tolerance.
   */
  lemma AcceptedIsBuilt(e: Env, c: Client, srv: Server, data: seq<byte>, now: int, rnd: seq<byte>,
                        prePad: seq<byte>, s2: seq<byte>)
    requires Honest(e, c, srv) && |prePad| < 256 && Parse(data, HELLO_FIELDS).Some?
    requires var (fixed, sealed) := Parse(data, HELLO_FIELDS).value;
             fixed == c.eph.pub + e.x.encapsKey(c.kem) + c.salt && |sealed| == 104
    requires OpenIdentity(e, srv, data).Some? ==> OpenIdentity(e, srv, data).value.staticPub == e.x.pub(c.staticKey)
    ensures ProcessClientHello(e, srv, data, now, rnd, prePad, s2).Some?
            <==> exists ts: nat :: BuiltAt(e, c, data, now, ts)
  {
    hide Parse, OpenIdentity, Admits, Reply, BuildHello, DeriveKeys, Clock.Fresh;
    if ProcessClientHello(e, srv, data, now, rnd, prePad, s2).Some? {
      var ts := AdmittedIdentity(e, c, srv, data, now);
    }
    if ts: nat :| BuiltAt(e, c, data, now, ts) {
      var built := BuildHello(e, c, ts, [], []).value;
      Pow256Values();
      HonestIsAdmitted(e, c, srv, ts, now, [], []);
      IdentityArrives(e, c, srv, ts, [], []);
      SameFieldsOpenAlike(e, srv, data, built);
      ReplyIsAccepted(e, c, srv, OpenIdentity(e, srv, built).value, rnd, prePad, s2);
    }
  }

  lemma SameFieldsOpenAlike(e: Env, srv: Server, a: seq<byte>, b: seq<byte>)
    requires e.Lawful() && Parse(a, HELLO_FIELDS) == Parse(b, HELLO_FIELDS)
    ensures OpenIdentity(e, srv, a) == OpenIdentity(e, srv, b)
  {
  }

  // ---------------------------------------------------------------- the handshake objects

  /** Parsing with an advancing offset. */
  method ParseHello(data: seq<byte>, fixedLen: nat) returns (r: Option<(seq<byte>, seq<byte>)>)
    ensures r == Parse(data, fixedLen)
  {
    if |data| < 1 { return None; }
    var offset := 0;
    var prePadLen := data[offset] as int;
    offset := offset + 1;
    if |data| < offset + prePadLen + fixedLen + 2 { return None; }
    offset := offset + prePadLen;
    var fixed := data[offset..offset + fixedLen];
    offset := offset + fixedLen;
    var sealedLen := FromBigEndian(data[offset..offset + 2]);
    offset := offset + 2;
    if |data| < offset + sealedLen { return None; }
    r := Some((fixed, data[offset..offset + sealedLen]));
  }

  /** A reply has all its fields, and the ephemeral secret is not zero. */
  predicate LeadsToKeys(e: Env, c: Client, data: seq<byte>) {
    Parse(data, 32 + 1088).Some? && !IsZero(e.x.dh(c.eph.priv, Parse(data, 32 + 1088).value.0[..32]))
  }

  class ClientHandshake {
    const env: Env
    var client: Client
    var sessionKeys: Option<SessionKeys>

    constructor (env: Env, client: Client)
      ensures this.env == env && this.client == client && sessionKeys == None
    {
      this.env, this.client, sessionKeys := env, client, None;
    }

    /** Accepts or refuses the reply. Derived keys stay even after a refusal, the key pair goes on acceptance. */
    method ProcessReply(data: seq<byte>) returns (framer: Option<Framer>)
      requires env.Lawful()
      modifies this
      ensures var r := ProcessServerHello(env, old(client), data);
              && framer == (if r.Some? then Some(r.value.framer) else None)
              && (r.Some? ==> sessionKeys == Some(r.value.keys))
              && client == (if r.Some? then old(client).(eph := old(client).eph.Zeroed()) else old(client))
      ensures framer.Some? <==> Confirmed(env, old(client), data)
      ensures framer.Some? ==> IsZero(client.eph.priv) && IsZero(client.eph.pub)
      ensures sessionKeys
              == if LeadsToKeys(env, old(client), data) then
                   Some(CutKeys(Material(env, old(client), Parse(data, 32 + 1088).value.0)))
                 else old(sessionKeys)
    {
      var e, c := env, client;
      ReplyAcceptedExactly(e, c, data);
      hide Confirmed;
      var parsed := ParseHello(data, KEY + CIPHERTEXT);
      if parsed.None? { return None; }
      var (fixed, sealed) := parsed.value;
      var serverEph, ct := fixed[..KEY], fixed[KEY..];
      var shared := e.x.DHSafe(c.eph.priv, serverEph);
      if shared.None? { return None; }
      var hybrid := e.x.extract(c.salt, shared.value + e.x.decaps(c.kem, ct));
      var keys := DeriveKeys(e.x, hybrid, c.salt, c.eph.pub, serverEph);
      sessionKeys := Some(keys);
      var confirm := OpenFirst(e.s, keys.serverKey, keys.serverIV, sealed, serverEph + ct);
      if confirm.None? { return None; }
      if |confirm.value| != 64 { return None; }
      if confirm.value[..16] != keys.magic { return None; }
      if confirm.value[16..32] != keys.sessionID { return None; }
      var staticShared := e.x.DHSafe(c.eph.priv, c.serverPub);
      if staticShared.None? { return None; }
      if confirm.value[32..] != ServerProof(e.s, staticShared.value, c.eph.pub, c.salt, serverEph, keys.sessionID) {
        return None;
      }
      var (toServer, toClient) := Directions(e.s, e.x, keys, e.headers);
      client := client.(eph := client.eph.Zeroed());
      framer := Some(Framer(toServer, toClient));
    }
  }

  class ServerHandshake {
    const env: Env
    var server: Server
    var clientStaticPub: Option<Key>
    var sessionKeys: Option<SessionKeys>

    constructor (env: Env, server: Server)
      ensures this.env == env && this.server == server && clientStaticPub == None && sessionKeys == None
    {
      this.env, this.server, clientStaticPub, sessionKeys := env, server, None, None;
    }

    /** Accepts or refuses a hello; the client's key is recorded as soon as the identity opens. */
    method ProcessHello(data: seq<byte>, now: int, rnd: seq<byte>, prePad: seq<byte>, s2: seq<byte>)
      returns (r: Option<(seq<byte>, Framer)>)
      requires env.Lawful() && |prePad| < 256
      modifies this
      ensures var spec := ProcessClientHello(env, old(server), data, now, rnd, prePad, s2);
              && server == (if spec.Some? then old(server).(eph := old(server).eph.Zeroed()) else old(server))
              && r == (if spec.Some? then Some((spec.value.0, spec.value.1.framer)) else None)
              && sessionKeys == (if spec.Some? then Some(spec.value.1.keys) else old(sessionKeys))
      ensures r.Some? ==> IsZero(server.eph.priv) && IsZero(server.eph.pub)
      ensures var id := OpenIdentity(env, old(server), data);
              clientStaticPub == if id.Some? then Some(id.value.staticPub) else old(clientStaticPub)
    {
      hide Parse, DeriveKeys, Reply, Clock.Fresh, ClientProof;
      var e := env;
      var parsed := ParseHello(data, KEY + ENCAPS_KEY + 32);
      if parsed.None? { return None; }
      var (fixed, sealed) := parsed.value;
      var ephPub, kemPub, salt := fixed[..KEY], fixed[KEY..KEY + ENCAPS_KEY], fixed[KEY + ENCAPS_KEY..];
      var shared := e.x.DHSafe(server.staticKey, ephPub);
      if shared.None? { return None; }
      var tmp := DeriveKeys(e.x, shared.value, salt, ephPub, e.x.pub(server.staticKey));
      var plain := OpenFirst(e.s, tmp.clientKey, tmp.clientIV, sealed, ephPub + kemPub);
      if plain.None? { return None; }
      var id := plain.value;
      if |id| < 88 { return None; }
      if id[..16] != tmp.magic { return None; }
      clientStaticPub := Some(id[16..48]);
      if !Clock.Fresh(now, FromBigEndian(id[48..56])) { return None; }
      var staticShared := e.x.DHSafe(server.staticKey, id[16..48]);
      if staticShared.None? { return None; }
      if id[56..88] != ClientProof(e, staticShared.value, tmp.magic, ephPub, kemPub, salt, id[48..56]) { return None; }
      if server.allowed.Some? && id[16..48] !in server.allowed.value { return None; }
      var identity := Identity(ephPub, kemPub, salt, shared.value, tmp.magic, id[16..48], id[48..56], id[56..88]);
      var reply := Reply(e, server, identity, rnd, prePad, s2);
      if reply.None? { return None; }
      sessionKeys := Some(reply.value.1.keys);
      server := server.(eph := server.eph.Zeroed());
      r := Some((reply.value.0, reply.value.1.framer));
    }
  }
}

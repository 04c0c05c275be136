/**
 One direction of a UDP channel over any network: what a receiver returns over
 every run of sends, ratchets and arrivals.
 */
module UdpNetwork {
  import opened Bytes
  import opened Crypto
  import opened UdpChannel
  import opened UdpWire
  import RW = ReplayWindow

  // ---------------------------------------------------------------- what both ends agree on

  datatype Config = Config(suite: Suite, bucket: bool, stun: bool, epochs: seq<EpochKeys>, serverReceives: bool) {
    ghost predicate Valid() {
      && suite.Lawful() && |epochs| > 0
      && (forall e :: 0 <= e < |epochs| ==> |epochs[e].tag| == 4)
      && (forall e, f :: 0 <= e < f < |epochs| ==> epochs[e].tag != epochs[f].tag)
    }

    /** A ciphertext opens only under the key and the counter it was sealed with; epochs have their own keys. */
    ghost predicate Committing() {
      && (forall e, f :: 0 <= e < f < |epochs| ==> epochs[e].key != epochs[f].key)
      && (forall e, f, c: nat, d: nat, t, u, p
            | 0 <= e < |epochs| && 0 <= f < |epochs| && c < TWO64 && d < TWO64 && |t| == |u| == 4 ::
            Opens(suite, epochs[e].key, c, t, Seal(suite, epochs[f].key, d, u, p)) ==> e == f && c == d)
    }

    /**
     The receiver's keys around its ratchet from epoch e to e + 1: the header key is switched, then
     the tag, then, in a second critical section, the rest; a server lists the new tag last. A server
     session may or may not be the most recently used one.
     */
    function KeysAt(e: nat, phase: Phase, recent: bool): RecvKeys
      requires e < |epochs| && (phase.Ratcheting() ==> e + 1 < |epochs|)
    {
      var hp := if phase.Ratcheting() then epochs[e + 1].hp else epochs[e].hp;
      var tag := if phase == TagSwitched then epochs[e + 1].tag else epochs[e].tag;
      var listed := if phase == Unlisted then e else e + 1;
      var table := if serverReceives then set i | 0 <= i < listed :: epochs[i].tag else {};
      var listedOnly := serverReceives && !recent;
      if e == 0 then RecvKeys(epochs[e].key, hp, tag, None, None, [0, 0, 0, 0], table, listedOnly)
      else
        var prev := epochs[e - 1];
        RecvKeys(epochs[e].key, hp, tag, Some(prev.key), Some(prev.hp), prev.tag, table, listedOnly)
    }
  }

  /** How far a ratchet of the receiver has come. */
  datatype Phase = Settled | MaskSwitched | TagSwitched | Unlisted {
    predicate Ratcheting() { this == MaskSwitched || this == TagSwitched }
  }

  /** The ciphertext of a plaintext under a key, a counter and a tag. */
  function Seal(s: Suite, key: Key, c: nat, tag: seq<byte>, plain: seq<byte>): seq<byte> {
    s.seal(key, Nonce(c), plain, tag + BigEndian(8, c))
  }

  predicate Opens(s: Suite, key: Key, c: nat, tag: seq<byte>, ct: seq<byte>) {
    s.open(key, Nonce(c), ct, tag + BigEndian(8, c)).Some?
  }

  /** The assignments of a client's ratchet take the keys of one epoch to those of the next. */
  lemma RatchetAdvances(cfg: Config, e: nat, recent: bool)
    requires e + 1 < |cfg.epochs| && !cfg.serverReceives
    ensures var next, before := cfg.epochs[e + 1], cfg.KeysAt(e, Settled, recent);
            var mask, mid := cfg.KeysAt(e, MaskSwitched, recent), cfg.KeysAt(e, TagSwitched, recent);
            && mask == before.(hp := next.hp) && mid == mask.(tag := next.tag)
            && cfg.KeysAt(e + 1, Settled, recent)
               == RecvKeys(next.key, mid.hp, mid.tag, Some(mid.dec), Some(before.hp), before.tag, {}, false)
  {
  }

  // ---------------------------------------------------------------- states and steps

  /** The epochs whose tag, key and header key one send uses. They differ when a send overlaps a ratchet. */
  datatype Epochs = Epochs(tag: nat, key: nat, hp: nat) {
    predicate Within(n: nat) { tag < n && key < n && hp < n }
    predicate Whole(e: nat) { this == Epochs(e, e, e) }
    predicate Overlaps(e: nat) { tag in {e, e + 1} && key in {e, e + 1} && hp in {e, e + 1} }
  }

  /** One send; its counter is its position in the history. */
  datatype Sent = Sent(at: Epochs, payload: seq<byte>, pad: seq<byte>, kind: nat, txid: seq<byte>)

  datatype World = World(sendEpoch: nat, sent: seq<Sent>,
                         recvEpoch: nat, phase: Phase, replay: RW.Spec, delivered: seq<(nat, seq<byte>)>)

  /** An arrival is read with the keys the receiver saw, which may be torn between the steps of a ratchet. */
  datatype Step =
    | SendPayload(message: Sent)
    | SenderRatchets
    | ReceiverSwitchesMask
    | ReceiverSwitchesTag
    | ReceiverSwitchesRest
    | ReceiverLists
    | Arrive(datagram: seq<byte>, keys: RecvKeys, queueFull: bool)

  function PlainOf(cfg: Config, m: Sent): seq<byte> {
    Frame(cfg.bucket, m.payload, m.pad)
  }

  function CiphertextOf(cfg: Config, sent: seq<Sent>, i: nat): seq<byte>
    requires i < |sent| && sent[i].at.Within(|cfg.epochs|)
  {
    var at := sent[i].at;
    Seal(cfg.suite, cfg.epochs[at.key].key, i, cfg.epochs[at.tag].tag, PlainOf(cfg, sent[i]))
  }

  function PacketOf(cfg: Config, sent: seq<Sent>, i: nat): seq<byte>
    requires i < |sent| && sent[i].at.Within(|cfg.epochs|)
  {
    var at := sent[i].at;
    Packet(cfg.suite, cfg.epochs[at.key].key, cfg.epochs[at.hp].hp, cfg.epochs[at.tag].tag, i, PlainOf(cfg, sent[i]))
  }

  function DatagramOf(cfg: Config, sent: seq<Sent>, i: nat): seq<byte>
    requires i < |sent| && sent[i].at.Within(|cfg.epochs|)
  {
    Datagram(cfg.stun, sent[i].kind, sent[i].txid, PacketOf(cfg, sent, i))
  }

  /** A send the code can make: STUN type and transaction id, and a packet the STUN length can describe. */
  predicate Sendable(cfg: Config, m: Sent) {
    && m.at.Within(|cfg.epochs|) && m.kind in {0x0001, 0x0101} && |m.txid| == 12
    && 28 + |PlainOf(cfg, m)| < 0x1_0000
  }

  predicate WellFormed(cfg: Config, w: World) {
    && w.sendEpoch < |cfg.epochs| && w.recvEpoch < |cfg.epochs|
    && (w.phase.Ratcheting() ==> w.recvEpoch + 1 < |cfg.epochs|)
    && (w.phase == Unlisted ==> cfg.serverReceives && w.recvEpoch > 0)
    && |w.sent| < TWO64
    && forall i :: 0 <= i < |w.sent| ==> Sendable(cfg, w.sent[i])
  }

  /**
   The integrity of the cipher, which is all that limits the network: whatever opens under a key of
   the session, a counter and a tag was sealed under them, from the plaintext of a send with that nonce.
   */
  ghost predicate Unforged(cfg: Config, sent: seq<Sent>, datagram: seq<byte>) {
    var packet := Strip(datagram);
    |packet| >= 28 ==>
      forall e, c: nat
        | 0 <= e < |cfg.epochs| && c < TWO64 && Opens(cfg.suite, cfg.epochs[e].key, c, packet[..4], packet[12..]) ::
        exists i :: 0 <= i < |sent| && SealedFrom(cfg, sent, i, e, c, packet)
  }

  predicate SealedFrom(cfg: Config, sent: seq<Sent>, i: nat, e: nat, c: nat, packet: seq<byte>)
    requires i < |sent| && e < |cfg.epochs| && |packet| >= 28
  {
    Nonce(c) == Nonce(i) && packet[12..] == Seal(cfg.suite, cfg.epochs[e].key, c, packet[..4], PlainOf(cfg, sent[i]))
  }

  ghost predicate Enabled(cfg: Config, w: World, step: Step)
    requires WellFormed(cfg, w)
  {
    match step
    case SendPayload(m) =>
      && |w.sent| + 1 < TWO64 && Sendable(cfg, m)
      && (m.at.Whole(w.sendEpoch) || (!cfg.serverReceives && m.at.Overlaps(w.sendEpoch)))
    case SenderRatchets => w.sendEpoch + 1 < |cfg.epochs|
    case ReceiverSwitchesMask => w.phase == Settled && w.recvEpoch + 1 < |cfg.epochs|
    case ReceiverSwitchesTag => w.phase == MaskSwitched
    case ReceiverSwitchesRest => w.phase == TagSwitched
    case ReceiverLists => w.phase == Unlisted
    case Arrive(datagram, keys, queueFull) =>
      Unforged(cfg, w.sent, datagram) && OfSession(cfg, keys) && (queueFull ==> cfg.serverReceives)
  }

  /** However a read is torn, the opening keys it sees are keys of epochs. */
  ghost predicate OfSession(cfg: Config, keys: RecvKeys) {
    && (exists e :: 0 <= e < |cfg.epochs| && cfg.epochs[e].key == keys.dec)
    && (keys.prevDec.Some? ==> exists e :: 0 <= e < |cfg.epochs| && cfg.epochs[e].key == keys.prevDec.value)
  }

  /** The keys of a read that is not torn. */
  function KeysOf(cfg: Config, w: World, recent: bool): RecvKeys
    requires WellFormed(cfg, w)
  {
    cfg.KeysAt(w.recvEpoch, w.phase, recent)
  }

  lemma KeysAreOfSession(cfg: Config, w: World, recent: bool)
    requires WellFormed(cfg, w)
    ensures OfSession(cfg, KeysOf(cfg, w, recent))
  {
    assert cfg.epochs[w.recvEpoch].key == KeysOf(cfg, w, recent).dec;
  }

  ghost function Apply(cfg: Config, w: World, step: Step): (w': World)
    requires WellFormed(cfg, w) && Enabled(cfg, w, step)
    ensures WellFormed(cfg, w')
  {
    match step
    case SendPayload(m) => w.(sent := w.sent + [m])
    case SenderRatchets => w.(sendEpoch := w.sendEpoch + 1)
    case ReceiverSwitchesMask => w.(phase := MaskSwitched)
    case ReceiverSwitchesTag => w.(phase := TagSwitched)
    case ReceiverSwitchesRest =>
      w.(phase := if cfg.serverReceives then Unlisted else Settled, recvEpoch := w.recvEpoch + 1)
    case ReceiverLists => w.(phase := Settled)
    case Arrive(datagram, keys, queueFull) => Arrived(cfg, w, datagram, keys, queueFull)
  }

  function Arrived(cfg: Config, w: World, datagram: seq<byte>, keys: RecvKeys, queueFull: bool): World {
    var (replay, r) := Received(cfg.suite, cfg.bucket, keys, w.replay, datagram);
    match Decode(cfg.suite, keys, datagram)
    case Some((ctr, _)) =>
      w.(replay := replay, delivered := if r.Some? && !queueFull then w.delivered + [(ctr, r.value)] else w.delivered)
    case None => w
  }

  const START := World(0, [], 0, Settled, RW.EMPTY, [])

  /** The state after the steps, if each of them was enabled. */
  ghost function Run(cfg: Config, steps: seq<Step>): (r: Option<World>)
    ensures r.Some? ==> WellFormed(cfg, r.value)
  {
    if |cfg.epochs| == 0 then None
    else if steps == [] then Some(START)
    else
      var w, last := Run(cfg, steps[..|steps| - 1]), steps[|steps| - 1];
      if w.Some? && Enabled(cfg, w.value, last) then Some(Apply(cfg, w.value, last)) else None
  }

  // ---------------------------------------------------------------- integrity

  /** Whatever decodes is a send: its counter is the position and its plaintext the one that was sealed. */
  predicate Genuine(cfg: Config, sent: seq<Sent>, datagram: seq<byte>, keys: RecvKeys) {
    match Decode(cfg.suite, keys, datagram)
    case None => true
    case Some((ctr, plain)) => ctr < |sent| && plain == PlainOf(cfg, sent[ctr])
  }

  /** The opening key selected for a tag belongs to an epoch. */
  lemma SelectedKey(cfg: Config, keys: RecvKeys, tag: seq<byte>) returns (e: nat)
    requires OfSession(cfg, keys) && keys.Select(tag).Some?
    ensures e < |cfg.epochs| && cfg.epochs[e].key == keys.Select(tag).value.0
  {
    e :| 0 <= e < |cfg.epochs| && cfg.epochs[e].key == keys.Select(tag).value.0;
  }

  /** Stripping, tag selection, unmasking and opening let nothing but sends through, however the keys were read. */
  lemma UnforgedIsGenuine(cfg: Config, sent: seq<Sent>, datagram: seq<byte>, keys: RecvKeys)
    requires cfg.Valid() && |sent| < TWO64 && Unforged(cfg, sent, datagram) && OfSession(cfg, keys)
    ensures Genuine(cfg, sent, datagram, keys)
  {
    hide Strip, RecvKeys.Select, OfSession, Nonce, FromBigEndian, BigEndian, PlainOf, ProtectCounter, Suite.Lawful;
    var packet, s := Strip(datagram), cfg.suite;
    if Decode(s, keys, datagram).Some? {
      var (key, hp) := keys.Select(packet[..4]).value;
      var e := SelectedKey(cfg, keys, packet[..4]);
      var counter := ProtectCounter(s, hp, packet[4..12], packet[12..28]);
      CounterRange(counter);
      var ctr := FromBigEndian(counter);
      assert Opens(s, key, ctr, packet[..4], packet[12..]);
      var i :| 0 <= i < |sent| && SealedFrom(cfg, sent, i, e, ctr, packet);
      NonceInjective(ctr, i);
      s.OpenSeal(key, Nonce(ctr), PlainOf(cfg, sent[i]), packet[..4] + counter);
    }
  }

  /** Whatever decodes is byte for byte the packet of a send, under the keys its tag selects. */
  lemma DecodedIsPacket(cfg: Config, sent: seq<Sent>, datagram: seq<byte>, keys: RecvKeys)
    requires cfg.Valid() && |sent| < TWO64 && Unforged(cfg, sent, datagram) && OfSession(cfg, keys)
    requires Decode(cfg.suite, keys, datagram).Some?
    ensures var packet, (ctr, _) := Strip(datagram), Decode(cfg.suite, keys, datagram).value;
            && ctr < |sent| && |packet| >= 28 && keys.Select(packet[..4]).Some?
            && var (key, hp) := keys.Select(packet[..4]).value;
               packet == Packet(cfg.suite, key, hp, packet[..4], ctr, PlainOf(cfg, sent[ctr]))
  {
    hide Strip, RecvKeys.Select, OpenPacket, Packet, PlainOf, Unforged, OfSession, Suite.Lawful;
    UnforgedIsGenuine(cfg, sent, datagram, keys);
    var packet := Strip(datagram);
    var (key, hp) := keys.Select(packet[..4]).value;
    OpenOnlySealed(cfg.suite, key, hp, packet);
  }

  // ---------------------------------------------------------------- safety

  /** Each delivery is one non-empty send, no send is delivered twice, and exactly clean framings arrive unchanged. */
  ghost predicate AtMostOnce(cfg: Config, w: World) {
    && (forall k :: 0 <= k < |w.delivered| ==> Faithful(cfg, w.sent, w.delivered[k]))
    && (forall j, k :: 0 <= j < k < |w.delivered| ==> w.delivered[j].0 != w.delivered[k].0)
  }

  predicate Faithful(cfg: Config, sent: seq<Sent>, d: (nat, seq<byte>)) {
    && d.0 < |sent| && sent[d.0].payload != []
    && (d.1 == sent[d.0].payload <==> Clean(cfg.bucket, sent[d.0].payload, sent[d.0].pad))
  }

  ghost predicate Inv(cfg: Config, w: World) {
    && WellFormed(cfg, w) && AtMostOnce(cfg, w)
    && (forall k :: 0 <= k < |w.delivered| ==> w.delivered[k].0 in w.replay.accepted)
    && (forall c :: c in w.replay.accepted ==> c <= w.replay.max)
  }

  lemma ArrivalKeepsInv(cfg: Config, w: World, datagram: seq<byte>, keys: RecvKeys, queueFull: bool)
    requires Inv(cfg, w) && Genuine(cfg, w.sent, datagram, keys)
    ensures Inv(cfg, Arrived(cfg, w, datagram, keys, queueFull))
  {
    hide Frame, Unframe, Decode, Clean;
    match Decode(cfg.suite, keys, datagram)
    case None =>
    case Some((ctr, plain)) =>
      UnframeFrame(cfg.bucket, w.sent[ctr].payload, w.sent[ctr].pad);
  }

  lemma StepKeepsInv(cfg: Config, w: World, step: Step)
    requires cfg.Valid() && Inv(cfg, w) && Enabled(cfg, w, step)
    ensures Inv(cfg, Apply(cfg, w, step))
  {
    hide Unforged, Genuine, Arrived, Clean, OfSession, Config.Valid;
    match step
    case Arrive(datagram, keys, queueFull) =>
      UnforgedIsGenuine(cfg, w.sent, datagram, keys);
      ArrivalKeepsInv(cfg, w, datagram, keys, queueFull);
    case _ =>
  }

  /** Over every run, and every network the cipher withstands, each send is delivered at most once and nothing else. */
  lemma {:induction false} SafeOverRuns(cfg: Config, steps: seq<Step>)
    requires cfg.Valid() && Run(cfg, steps).Some?
    ensures Inv(cfg, Run(cfg, steps).value) && AtMostOnce(cfg, Run(cfg, steps).value)
  {
    hide Enabled, Apply, Config.Valid;
    if steps != [] {
      SafeOverRuns(cfg, steps[..|steps| - 1]);
      StepKeepsInv(cfg, Run(cfg, steps[..|steps| - 1]).value, steps[|steps| - 1]);
    }
  }

  // ---------------------------------------------------------------- what a sent datagram decodes to

  /** The receiver does not take the start of the packet for a STUN or SRTP header. */
  predicate Readable(cfg: Config, sent: seq<Sent>, i: nat)
    requires i < |sent| && sent[i].at.Within(|cfg.epochs|)
  {
    cfg.stun || !(IsStun(PacketOf(cfg, sent, i)) || IsSrtp(PacketOf(cfg, sent, i)))
  }

  /** The selected keys are those the datagram was made with, up to header keys with the same mask. */
  predicate Matches(cfg: Config, sent: seq<Sent>, i: nat, keys: RecvKeys)
    requires i < |sent| && sent[i].at.Within(|cfg.epochs|)
  {
    var at, ct := sent[i].at, CiphertextOf(cfg, sent, i);
    var selected := keys.Select(cfg.epochs[at.tag].tag);
    && selected.Some? && selected.value.0 == cfg.epochs[at.key].key
    && |ct| >= 16 && SameMask(cfg.suite, cfg.epochs[at.hp].hp, selected.value.1, ct[..16])
  }

  /** The ciphertext of this one send opens under no other key of the session, and at no other counter. */
  ghost predicate Bound(cfg: Config, sent: seq<Sent>, i: nat)
    requires i < |sent| && sent[i].at.Within(|cfg.epochs|)
  {
    var at := sent[i].at;
    forall e, c: nat | 0 <= e < |cfg.epochs| && c < TWO64 ::
      Opens(cfg.suite, cfg.epochs[e].key, c, cfg.epochs[at.tag].tag, CiphertextOf(cfg, sent, i)) ==>
        e == at.key && c == i
  }

  lemma BoundOpens(cfg: Config, sent: seq<Sent>, i: nat, e: nat, c: nat)
    requires i < |sent| && sent[i].at.Within(|cfg.epochs|) && Bound(cfg, sent, i) && e < |cfg.epochs| && c < TWO64
    requires Opens(cfg.suite, cfg.epochs[e].key, c, cfg.epochs[sent[i].at.tag].tag, CiphertextOf(cfg, sent, i))
    ensures e == sent[i].at.key && c == i
  {
  }

  /**
   A sent datagram, torn or whole, read with any keys: it decodes to its send if the keys match, and
   not at all if its tag is unknown or its ciphertext is bound.
   */
  lemma SentDecodes(cfg: Config, sent: seq<Sent>, i: nat, keys: RecvKeys)
    requires cfg.Valid() && i < |sent| < TWO64 && Sendable(cfg, sent[i]) && Readable(cfg, sent, i)
    requires OfSession(cfg, keys)
    ensures var decoded := Decode(cfg.suite, keys, DatagramOf(cfg, sent, i));
            var unknown := keys.Select(cfg.epochs[sent[i].at.tag].tag).None?;
            && (Matches(cfg, sent, i, keys) ==> decoded == Some((i, PlainOf(cfg, sent[i]))))
            && (!Matches(cfg, sent, i, keys) && (unknown || Bound(cfg, sent, i)) ==> decoded == None)
  {
    hide PlainOf, Packet, Strip, Datagram, IsStun, IsSrtp, RecvKeys.Select, OfSession, Suite.Lawful, Nonce,
         ProtectCounter, BigEndian, FromBigEndian, SameMask, Bound;
    var m, s, packet := sent[i], cfg.suite, PacketOf(cfg, sent, i);
    var key, hp, tag := cfg.epochs[m.at.key].key, cfg.epochs[m.at.hp].hp, cfg.epochs[m.at.tag].tag;
    PacketParts(s, key, hp, tag, i, PlainOf(cfg, m));
    StripIsExact(cfg.stun, m.kind, m.txid, packet);
    var selected := keys.Select(tag);
    if selected.Some? {
      var (key', hp') := selected.value;
      var ct, counter := CiphertextOf(cfg, sent, i), BigEndian(8, i);
      var unmasked := ProtectCounter(s, hp', packet[4..12], packet[12..28]);
      UnmaskExactly(s, hp, hp', counter, ct[..16]);
      CounterRange(unmasked);
      CounterBack(i);
      s.OpenSeal(key, Nonce(i), PlainOf(cfg, m), tag + counter);
      if Bound(cfg, sent, i) && OpenPacket(s, key', hp', packet).Some? {
        var e := SelectedKey(cfg, keys, tag);
        BoundOpens(cfg, sent, i, e, FromBigEndian(unmasked));
      }
    }
  }

  lemma CounterBack(i: nat)
    requires i < TWO64
    ensures FromBigEndian(BigEndian(8, i)) == i
  {
    Pow256Values();
    BigEndianRoundTrip(8, i);
  }

  /**
   When a datagram of one epoch is read: always in the next epoch; in its own epoch before a ratchet
   begins, and during one only where the next header key is in use for it and masks it alike; at a
   server that has not listed the new tag, only while its session is the most recently used one.
   */
  predicate InReach(cfg: Config, w: World, recent: bool, i: nat, e: nat)
    requires WellFormed(cfg, w) && i < |w.sent|
  {
    || e + 1 == w.recvEpoch
    || (e == w.recvEpoch &&
        match w.phase
        case Settled => true
        case Unlisted => recent
        case MaskSwitched => MasksAgree(cfg, w, i)
        case TagSwitched => cfg.serverReceives && MasksAgree(cfg, w, i))
  }

  /** The header keys of this epoch and the next mask the counter of a send alike. */
  predicate MasksAgree(cfg: Config, w: World, i: nat)
    requires WellFormed(cfg, w) && i < |w.sent|
  {
    var ct := CiphertextOf(cfg, w.sent, i);
    && w.recvEpoch + 1 < |cfg.epochs| && |ct| >= 16
    && SameMask(cfg.suite, cfg.epochs[w.recvEpoch].hp, cfg.epochs[w.recvEpoch + 1].hp, ct[..16])
  }

  /** Where a client needs no assumption on the cipher: it knows the tag of a datagram only together with its keys. */
  predicate Clear(cfg: Config, w: World, e: nat) {
    && !cfg.serverReceives
    && !(w.phase == TagSwitched && e == w.recvEpoch + 1) && !(w.phase == MaskSwitched && e == w.recvEpoch)
  }

  /** The keys a tag selects, epoch by epoch. */
  lemma SelectedInPhase(cfg: Config, w: World, recent: bool, e: nat)
    requires cfg.Valid() && WellFormed(cfg, w) && e < |cfg.epochs|
    ensures var r, at := w.recvEpoch, cfg.epochs;
            var selected := KeysOf(cfg, w, recent).Select(at[e].tag);
            if e + 1 == r then selected == Some((at[e].key, at[e].hp))
            else if e == r then
              if w.phase == Settled || (w.phase == Unlisted && recent) then selected == Some((at[r].key, at[r].hp))
              else if w.phase == MaskSwitched || (w.phase == TagSwitched && cfg.serverReceives) then
                selected == Some((at[r].key, at[r + 1].hp))
              else selected == None
            else if cfg.serverReceives || (w.phase == TagSwitched && e == r + 1) then
              selected.Some? ==> selected.value.0 == at[r].key
            else selected == None
  {
  }

  lemma CiphertextIsLong(cfg: Config, sent: seq<Sent>, i: nat)
    requires cfg.Valid() && i < |sent| && sent[i].at.Within(|cfg.epochs|)
    ensures |CiphertextOf(cfg, sent, i)| >= 16
    ensures var at := sent[i].at;
            Opens(cfg.suite, cfg.epochs[at.key].key, i, cfg.epochs[at.tag].tag, CiphertextOf(cfg, sent, i))
  {
    hide PlainOf, Nonce, BigEndian;
    var key, tag := cfg.epochs[sent[i].at.key].key, cfg.epochs[sent[i].at.tag].tag;
    cfg.suite.OpenSeal(key, Nonce(i), PlainOf(cfg, sent[i]), tag + BigEndian(8, i));
  }

  /** A bound ciphertext is sealed with a key that no other epoch has. */
  lemma BoundKeyIsOwn(cfg: Config, sent: seq<Sent>, i: nat, f: nat)
    requires cfg.Valid() && i < |sent| < TWO64 && sent[i].at.Within(|cfg.epochs|) && Bound(cfg, sent, i)
    requires f < |cfg.epochs|
    requires cfg.epochs[f].key == cfg.epochs[sent[i].at.key].key
    ensures f == sent[i].at.key
  {
    hide Bound, Opens, CiphertextOf;
    CiphertextIsLong(cfg, sent, i);
    BoundOpens(cfg, sent, i, f, i);
  }

  lemma WholeMatches(cfg: Config, w: World, recent: bool, i: nat, e: nat)
    requires cfg.Valid() && WellFormed(cfg, w) && i < |w.sent| && w.sent[i].at.Whole(e)
    ensures InReach(cfg, w, recent, i, e) ==> Matches(cfg, w.sent, i, KeysOf(cfg, w, recent))
    ensures Bound(cfg, w.sent, i) && Matches(cfg, w.sent, i, KeysOf(cfg, w, recent)) ==> InReach(cfg, w, recent, i, e)
    ensures Clear(cfg, w, e) && !InReach(cfg, w, recent, i, e) ==>
              KeysOf(cfg, w, recent).Select(cfg.epochs[e].tag).None?
  {
    hide KeysOf, RecvKeys.Select, CiphertextOf, Bound;
    SelectedInPhase(cfg, w, recent, e);
    CiphertextIsLong(cfg, w.sent, i);
    if Bound(cfg, w.sent, i) && cfg.epochs[w.recvEpoch].key == cfg.epochs[e].key {
      BoundKeyIsOwn(cfg, w.sent, i, w.recvEpoch);
    }
  }

  /**
   An if-and-only-if over the receiver's epoch and every moment of its ratchet. It needs the one
   ciphertext to be bound, and at a client that is clear of the ratchet not even that.
   */
  lemma WholeSendDecodes(cfg: Config, w: World, recent: bool, i: nat, e: nat)
    requires cfg.Valid() && WellFormed(cfg, w) && i < |w.sent| && Readable(cfg, w.sent, i) && w.sent[i].at.Whole(e)
    requires Bound(cfg, w.sent, i) || Clear(cfg, w, e)
    ensures Decode(cfg.suite, KeysOf(cfg, w, recent), DatagramOf(cfg, w.sent, i))
            == if InReach(cfg, w, recent, i, e) then Some((i, PlainOf(cfg, w.sent[i]))) else None
  {
    KeysAreOfSession(cfg, w, recent);
    WholeMatches(cfg, w, recent, i, e);
    hide Decode, InReach, KeysOf, Readable, DatagramOf, PlainOf, Bound, Clear, OfSession, RecvKeys.Select, Config.Valid;
    SentDecodes(cfg, w.sent, i, KeysOf(cfg, w, recent));
  }

  /** Between the two critical sections of its ratchet a client drops every datagram of its current epoch. */
  lemma MidRatchetDrops(cfg: Config, w: World, recent: bool, i: nat)
    requires cfg.Valid() && WellFormed(cfg, w) && i < |w.sent| && Readable(cfg, w.sent, i)
    requires w.phase == TagSwitched && !cfg.serverReceives && w.sent[i].at.Whole(w.recvEpoch)
    ensures Decode(cfg.suite, KeysOf(cfg, w, recent), DatagramOf(cfg, w.sent, i)) == None
  {
    hide Decode, KeysOf, Readable, DatagramOf, PlainOf, Bound, Config.Valid;
    WholeSendDecodes(cfg, w, recent, i, w.recvEpoch);
  }

  /** A send torn between the tag of one epoch and the key of another is lost at a settled client. */
  lemma TornSendIsLost(cfg: Config, w: World, recent: bool, i: nat)
    requires cfg.Valid() && WellFormed(cfg, w) && i < |w.sent| && Readable(cfg, w.sent, i) && Bound(cfg, w.sent, i)
    requires w.phase == Settled && !cfg.serverReceives && w.sent[i].at.tag != w.sent[i].at.key
    ensures Decode(cfg.suite, KeysOf(cfg, w, recent), DatagramOf(cfg, w.sent, i)) == None
  {
    hide Decode, KeysOf, RecvKeys.Select, PlainOf, SameMask, CiphertextOf, Readable, DatagramOf, Bound, OfSession,
         Config.Valid;
    var at := w.sent[i].at;
    KeysAreOfSession(cfg, w, recent);
    SentDecodes(cfg, w.sent, i, KeysOf(cfg, w, recent));
    SelectedInPhase(cfg, w, recent, at.tag);
    if cfg.epochs[at.tag].key == cfg.epochs[at.key].key {
      BoundKeyIsOwn(cfg, w.sent, i, at.tag);
    }
  }

  /**
   Without STUN headers and with a tag that looks like SRTP, the receiver takes the ciphertext for
   the packet: the datagram is dropped, unless the ciphertext happens to begin with a known tag.
   */
  lemma MisreadIsDropped(cfg: Config, sent: seq<Sent>, i: nat, keys: RecvKeys)
    requires cfg.Valid() && i < |sent| < TWO64 && Sendable(cfg, sent[i]) && !cfg.stun
    requires var tag := cfg.epochs[sent[i].at.tag].tag; tag[0] / 64 == 2 && 96 <= tag[1] % 128
    requires var ct := CiphertextOf(cfg, sent, i); |ct| < 28 || keys.Select(ct[..4]).None?
    ensures Decode(cfg.suite, keys, DatagramOf(cfg, sent, i)) == None
  {
    hide PlainOf, Packet, Nonce, BigEndian, RecvKeys.Select, OpenPacket, Strip, Suite.Lawful;
    var m := sent[i];
    var key, hp, tag := cfg.epochs[m.at.key].key, cfg.epochs[m.at.hp].hp, cfg.epochs[m.at.tag].tag;
    PacketParts(cfg.suite, key, hp, tag, i, PlainOf(cfg, m));
    SrtpTagIsMisread(cfg.suite, key, hp, tag, i, PlainOf(cfg, m), m.kind, m.txid);
  }

  // ---------------------------------------------------------------- networks that deliver what was sent

  /** A send whose ciphertext is bound may arrive, at any time and any number of times. */
  lemma SentIsUnforged(cfg: Config, sent: seq<Sent>, i: nat)
    requires cfg.Valid() && i < |sent| < TWO64 && Sendable(cfg, sent[i]) && Readable(cfg, sent, i)
    requires Bound(cfg, sent, i)
    ensures Unforged(cfg, sent, DatagramOf(cfg, sent, i))
  {
    hide PlainOf, Packet, Strip, Datagram, IsStun, IsSrtp, Suite.Lawful, Nonce, BigEndian, Bound, Opens;
    var m, s, packet := sent[i], cfg.suite, PacketOf(cfg, sent, i);
    var tag, plain := cfg.epochs[m.at.tag].tag, PlainOf(cfg, m);
    PacketParts(s, cfg.epochs[m.at.key].key, cfg.epochs[m.at.hp].hp, tag, i, plain);
    StripIsExact(cfg.stun, m.kind, m.txid, packet);
    forall e, c: nat | 0 <= e < |cfg.epochs| && c < TWO64 && Opens(s, cfg.epochs[e].key, c, packet[..4], packet[12..])
      ensures SealedFrom(cfg, sent, i, e, c, packet)
    {
      BoundOpens(cfg, sent, i, e, c);
    }
  }

  /** Under a cipher that commits to key and counter every send is bound. */
  lemma CommittingIsBound(cfg: Config, sent: seq<Sent>, i: nat)
    requires cfg.Valid() && cfg.Committing() && i < |sent| < TWO64 && sent[i].at.Within(|cfg.epochs|)
    ensures Bound(cfg, sent, i)
  {
    hide PlainOf, Opens, Seal;
  }

  /** The authentication tag that spells out key and header. */
  function SpelledTag(k: Key, n: seq<byte>, a: seq<byte>): (t: seq<byte>)
    ensures |t| == 16
  {
    if |k| == 4 && |a| == 12 then k + a else ZERO_TAG
  }

  lemma SpelledCommits(k: Key, c: nat, t: seq<byte>, k': Key, d: nat, u: seq<byte>, plain: seq<byte>)
    requires |k| == |k'| == |t| == |u| == 4 && c < TWO64 && d < TWO64
    requires var s := TaggedSuite(SpelledTag); Opens(s, k, c, t, Seal(s, k', d, u, plain))
    ensures k == k' && c == d
  {
    var a, b := t + BigEndian(8, c), u + BigEndian(8, d);
    assert SpelledTag(k, Nonce(c), a) == k + a && SpelledTag(k', Nonce(d), b) == k' + b;
    var ct := Seal(TaggedSuite(SpelledTag), k', d, u, plain);
    assert ct == plain + (k' + b);
    assert ct[|ct| - 16..] == k' + b;
    assert k + a == k' + b;
    assert k == (k + a)[..4] && k' == (k' + b)[..4];
    assert a == (k + a)[4..] && b == (k' + b)[4..];
    assert a[4..] == BigEndian(8, c) && b[4..] == BigEndian(8, d);
    CounterBack(c);
    CounterBack(d);
  }

  /** The hypotheses on the cipher can be met. */
  lemma CommittingChannelsExist() returns (cfg: Config)
    ensures cfg.Valid() && cfg.Committing() && |cfg.epochs| == 2 && cfg.stun
  {
    hide Seal, Opens, SpelledTag, TaggedSuite, Suite.Lawful;
    var s := TaggedSuite(SpelledTag);
    TaggedIsLawful(SpelledTag);
    var keys := [EpochKeys([1, 0, 0, 0], [], [1, 0, 0, 0]), EpochKeys([2, 0, 0, 0], [], [2, 0, 0, 0])];
    assert keys[0].key[0] != keys[1].key[0];
    cfg := Config(s, false, true, keys, false);
    forall e, f, c: nat, d: nat, t, u, p | 0 <= e < 2 && 0 <= f < 2 && c < TWO64 && d < TWO64 && |t| == |u| == 4
                                         && Opens(s, keys[e].key, c, t, Seal(s, keys[f].key, d, u, p))
      ensures e == f && c == d
    {
      SpelledCommits(keys[e].key, c, t, keys[f].key, d, u, p);
    }
  }

  // ---------------------------------------------------------------- delivery over runs

  /** The counters that arrivals of a run decoded to, in order. */
  ghost function Arrivals(cfg: Config, steps: seq<Step>): seq<nat>
    requires Run(cfg, steps).Some?
  {
    if steps == [] then []
    else
      var front, last := steps[..|steps| - 1], steps[|steps| - 1];
      Arrivals(cfg, front) +
      match last
      case Arrive(datagram, keys, _) =>
        (match Decode(cfg.suite, keys, datagram)
         case Some((c, _)) => [c]
         case None => [])
      case _ => []
  }

  lemma {:induction false} ReplayOfRun(cfg: Config, steps: seq<Step>)
    requires Run(cfg, steps).Some?
    ensures Run(cfg, steps).value.replay == RW.After(RW.EMPTY, Arrivals(cfg, steps))
  {
    hide Decode, Enabled, RW.Spec.Next, RW.Spec.Accepts, Unframe;
    if steps != [] {
      var front, last := steps[..|steps| - 1], steps[|steps| - 1];
      ReplayOfRun(cfg, front);
      var before := Arrivals(cfg, front);
      if last.Arrive? && Decode(cfg.suite, last.keys, last.datagram).Some? {
        var (c, _) := Decode(cfg.suite, last.keys, last.datagram).value;
        assert Arrivals(cfg, steps) == before + [c];
        assert (before + [c])[..|before|] == before;
      } else {
        assert Arrivals(cfg, steps) == before;
      }
    }
  }

  /** The arrival of a send is new and no earlier arrival was a window or more ahead of it. */
  ghost predicate InTime(cfg: Config, steps: seq<Step>, i: nat)
    requires Run(cfg, steps).Some?
  {
    i !in Arrivals(cfg, steps) && forall c :: c in Arrivals(cfg, steps) ==> c < i + RW.WINDOW
  }

  /**
   Delivery over runs: after any run, an arriving send is delivered, if and only if its epoch is in
   reach, it arrives for the first time and in time, it is not empty, and the queue has room. It
   needs the one ciphertext to be bound; a client clear of its ratchet only needs it unforged.
   */
  lemma DeliveredExactly(cfg: Config, steps: seq<Step>, recent: bool, i: nat, e: nat, queueFull: bool)
    requires cfg.Valid() && Run(cfg, steps).Some? && (queueFull ==> cfg.serverReceives)
    requires var w := Run(cfg, steps).value;
             && i < |w.sent| && Readable(cfg, w.sent, i) && w.sent[i].at.Whole(e)
             && (Bound(cfg, w.sent, i) || (Clear(cfg, w, e) && Unforged(cfg, w.sent, DatagramOf(cfg, w.sent, i))))
    ensures var w := Run(cfg, steps).value;
            var next := Run(cfg, steps + [Arrive(DatagramOf(cfg, w.sent, i), KeysOf(cfg, w, recent), queueFull)]);
            && next.Some?
            && next.value.delivered
               == (if InReach(cfg, w, recent, i, e) && InTime(cfg, steps, i) && w.sent[i].payload != [] && !queueFull
                   then w.delivered + [(i, Unframe(cfg.bucket, PlainOf(cfg, w.sent[i])))] else w.delivered)
            && (Clean(cfg.bucket, w.sent[i].payload, w.sent[i].pad) <==>
                  Unframe(cfg.bucket, PlainOf(cfg, w.sent[i])) == w.sent[i].payload)
  {
    hide Decode, KeysOf, Readable, DatagramOf, Frame, Unframe, Clean, InReach, Clear, Unforged, Arrivals, Bound,
         OfSession, Config.Valid, RW.Spec.Accepts, RW.After;
    var w := Run(cfg, steps).value;
    var step := Arrive(DatagramOf(cfg, w.sent, i), KeysOf(cfg, w, recent), queueFull);
    assert (steps + [step])[..|steps|] == steps;
    if Bound(cfg, w.sent, i) {
      SentIsUnforged(cfg, w.sent, i);
    }
    KeysAreOfSession(cfg, w, recent);
    WholeSendDecodes(cfg, w, recent, i, e);
    UnframeFrame(cfg.bucket, w.sent[i].payload, w.sent[i].pad);
    ReplayOfRun(cfg, steps);
    RW.AcceptedExactly(Arrivals(cfg, steps), i);
  }
}

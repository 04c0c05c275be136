/**
 The router's learned address table: which session a downlink address belongs to.
 Sessions are numbered in the order of registration.
 */
module AddressTable {
  import opened Bytes

  type Addr = seq<byte>

  // ---------------------------------------------------------------- packets

  /** Source and destination of an IP packet. */
  function Endpoints(pkt: seq<byte>): (r: Option<(Addr, Addr)>)
    ensures r.Some? ==> |r.value.0| == |r.value.1| && |r.value.0| in {4, 16}
  {
    if |pkt| >= 20 && pkt[0] / 16 == 4 then Some((pkt[12..16], pkt[16..20]))
    else if |pkt| >= 40 && pkt[0] / 16 == 6 then Some((pkt[8..24], pkt[24..40]))
    else None
  }

  predicate Unspecified(a: Addr) { forall i :: 0 <= i < |a| ==> a[i] == 0 }

  /** An IPv4 address inside an IPv6 address. */
  predicate Mapped(a: Addr) { |a| == 16 && Unspecified(a[..10]) && a[10] == a[11] == 0xff }

  predicate Multicast(a: Addr) {
    if |a| == 4 then a[0] / 16 == 14
    else if Mapped(a) then a[12] / 16 == 14
    else |a| == 16 && a[0] == 0xff
  }

  /** The source address that a client's packet teaches, if it does. */
  function Teaches(pkt: seq<byte>): Option<Addr> {
    match Endpoints(pkt)
    case None => None
    case Some((src, _)) => if Unspecified(src) || Multicast(src) then None else Some(src)
  }

  /** The addresses are at offsets 12 and 16 of an IPv4 packet, and 8 and 24 of an IPv6 packet. */
  lemma EndpointsExactly(pkt: seq<byte>, src: Addr, dst: Addr)
    ensures Endpoints(pkt) == Some((src, dst)) <==>
              || (|pkt| >= 20 && pkt[0] / 16 == 4 && Holds(pkt, 12, 4, src) && Holds(pkt, 16, 4, dst))
              || (|pkt| >= 40 && pkt[0] / 16 == 6 && Holds(pkt, 8, 16, src) && Holds(pkt, 24, 16, dst))
  {
    hide Holds;
    if |pkt| >= 20 {
      HeldIsSlice(pkt, 12, 4, src);
      HeldIsSlice(pkt, 16, 4, dst);
    }
    if |pkt| >= 40 {
      HeldIsSlice(pkt, 8, 16, src);
      HeldIsSlice(pkt, 24, 16, dst);
    }
  }

  lemma HeldIsSlice(pkt: seq<byte>, at: nat, n: nat, a: Addr)
    requires at + n <= |pkt|
    ensures Holds(pkt, at, n, a) <==> a == pkt[at..at + n]
  {
    if Holds(pkt, at, n, a) {
      assert a == pkt[at..at + n];
    }
  }

  /** The n bytes of pkt from offset at are a. */
  predicate Holds(pkt: seq<byte>, at: nat, n: nat, a: Addr)
    requires at + n <= |pkt|
  {
    |a| == n && forall i :: 0 <= i < n ==> a[i] == pkt[at + i]
  }

  /** A packet teaches its source, unless that is all zero, or multicast: 224.0.0.0/4, ff00::/8, or mapped. */
  lemma TeachesExactly(pkt: seq<byte>, a: Addr)
    ensures Teaches(pkt) == Some(a) <==>
              && Endpoints(pkt).Some? && Endpoints(pkt).value.0 == a
              && (exists i :: 0 <= i < |a| && a[i] != 0)
              && (|a| == 4 ==> !(224 <= a[0] < 240))
              && (|a| == 16 ==>
                    && a[0] != 255
                    && !((forall i :: 0 <= i < 10 ==> a[i] == 0) && a[10] == 255 && a[11] == 255 && 224 <= a[12] < 240))
  {
    hide Endpoints;
    if |a| == 16 {
      assert (forall i :: 0 <= i < 10 ==> a[i] == 0) <==> Unspecified(a[..10]) by {
        if Unspecified(a[..10]) {
          assert forall i :: 0 <= i < 10 ==> a[i] == a[..10][i];
        }
      }
    }
  }

  // ---------------------------------------------------------------- histories

  datatype Event =
    | Registered(session: nat)
    | SentFrom(session: nat, addr: Addr)
    | Closed(session: nat)

  /** s was registered and has not been closed since. */
  predicate Active(h: seq<Event>, s: nat) {
    h != [] &&
    var e := h[|h| - 1];
    if e == Registered(s) then true
    else if e == Closed(s) then false
    else Active(h[..|h| - 1], s)
  }

  /** Event j is a packet from a, sent by a session active at that time. */
  predicate SendsFrom(h: seq<Event>, j: nat, a: Addr)
    requires j < |h|
  {
    h[j].SentFrom? && h[j].addr == a && Active(h[..j], h[j].session)
  }

  /** Event i is the last packet from a, it came from s, and s has not closed since. */
  predicate OwnsSince(h: seq<Event>, a: Addr, s: nat, i: nat)
    requires i < |h|
  {
    && SendsFrom(h, i, a) && h[i].session == s
    && forall j :: i < j < |h| ==> !SendsFrom(h, j, a) && h[j] != Closed(s)
  }

  /** The last-writer view: the active session that most recently sent from a. */
  ghost predicate Owns(h: seq<Event>, a: Addr, s: nat) {
    exists i :: 0 <= i < |h| && OwnsSince(h, a, s, i)
  }

  lemma SendsFromPrefix(h: seq<Event>, e: Event, j: nat, a: Addr)
    requires j < |h|
    ensures SendsFrom(h + [e], j, a) <==> SendsFrom(h, j, a)
  {
    assert (h + [e])[..j] == h[..j];
  }

  /** One event moves ownership: to an active sender, away from a closed session, and not otherwise. */
  lemma OwnsAppend(h: seq<Event>, e: Event, a: Addr, s: nat)
    ensures Owns(h + [e], a, s) <==>
              if SendsFrom(h + [e], |h|, a) then e.session == s
              else Owns(h, a, s) && e != Closed(s)
  {
    var g := h + [e];
    assert g[..|h|] == h && g[|h|] == e;
    hide Active, SendsFrom;
    forall j | 0 <= j < |h|
      ensures SendsFrom(g, j, a) <==> SendsFrom(h, j, a)
    {
      SendsFromPrefix(h, e, j, a);
    }
    if SendsFrom(g, |h|, a) && e.session == s {
      assert OwnsSince(g, a, s, |h|) by { SenderOwns(h, e, a); }
    }
    if Owns(h, a, s) && e != Closed(s) && !SendsFrom(g, |h|, a) {
      var i :| 0 <= i < |h| && OwnsSince(h, a, s, i);
      assert g[i] == h[i];
      assert OwnsSince(g, a, s, i);
    }
    if Owns(g, a, s) {
      var i :| 0 <= i < |g| && OwnsSince(g, a, s, i);
      if i < |h| {
        assert g[i] == h[i];
        assert OwnsSince(h, a, s, i);
      }
    }
  }

  lemma SenderOwns(h: seq<Event>, e: Event, a: Addr)
    requires SendsFrom(h + [e], |h|, a)
    ensures e.SentFrom? && (h + [e])[|h|] == e && Active(h, e.session)
  {
    assert (h + [e])[..|h|] == h;
  }

  lemma ActiveAppend(h: seq<Event>, e: Event, s: nat)
    ensures Active(h + [e], s) <==> e == Registered(s) || (e != Closed(s) && Active(h, s))
  {
    assert (h + [e])[..|h|] == h;
  }

  lemma NotASend(h: seq<Event>, e: Event, a: Addr)
    requires !e.SentFrom?
    ensures !SendsFrom(h + [e], |h|, a)
  {
  }

  lemma IsASend(h: seq<Event>, s: nat, src: Addr, a: Addr)
    ensures SendsFrom(h + [SentFrom(s, src)], |h|, a) <==> a == src && Active(h, s)
  {
    assert (h + [SentFrom(s, src)])[..|h|] == h;
  }

  lemma {:induction false} StaysActive(h: seq<Event>, s: nat, i: nat)
    requires i <= |h| && Active(h[..i], s) && forall j :: i <= j < |h| ==> h[j] != Closed(s)
    ensures Active(h, s)
    decreases |h|
  {
    if i < |h| {
      var front := h[..|h| - 1];
      assert front[..i] == h[..i];
      StaysActive(front, s, i);
    } else {
      assert h[..i] == h;
    }
  }

  /** An owner is active, and an address has at most one. */
  lemma OwnerIsActive(h: seq<Event>, a: Addr, s: nat, t: nat)
    requires Owns(h, a, s)
    ensures Active(h, s) && (Owns(h, a, t) ==> s == t)
  {
    hide Active;
    var i :| 0 <= i < |h| && OwnsSince(h, a, s, i);
    StaysActive(h, s, i);
  }

  // ---------------------------------------------------------------- one packet's session

  ghost predicate HasOwner(h: seq<Event>, a: Addr) { exists s: nat :: Owns(h, a, s) }

  /** s is the only active session. */
  ghost predicate Sole(h: seq<Event>, s: nat) { Active(h, s) && forall t: nat :: Active(h, t) ==> t == s }

  ghost predicate HasSole(h: seq<Event>) { exists s: nat :: Sole(h, s) }

  /** The right session for an address: its owner, or without one the only session. */
  ghost predicate IsAnswer(h: seq<Event>, a: Addr, r: Option<nat>) {
    match r
    case Some(s) => Owns(h, a, s) || (!HasOwner(h, a) && Sole(h, s))
    case None => !HasOwner(h, a) && !HasSole(h)
  }

  /** What the look under the first read lock gives. */
  ghost predicate IsFirstLook(h: seq<Event>, a: Addr, r: Option<nat>) {
    if r.Some? then Owns(h, a, r.value) else !HasOwner(h, a)
  }

  /** What the look under the second one gives. */
  ghost predicate IsSecondLook(h: seq<Event>, r: Option<nat>) {
    if r.Some? then Sole(h, r.value) else !HasSole(h)
  }

  /**
   The two looks happen under separate locks, with history h1 at the first and h2 at the second. The
   outcome is the right answer at one of the two moments, if and only if it is not the case that at
   first the only session did not own the address, and later the address has an owner among several.
   */
  lemma TwoLooksExactly(h1: seq<Event>, h2: seq<Event>, a: Addr, first: Option<nat>, second: Option<nat>)
    requires IsFirstLook(h1, a, first) && IsSecondLook(h2, second)
    ensures var r := if first.Some? then first else second;
            IsAnswer(h1, a, r) || IsAnswer(h2, a, r)
            <==> !(!HasOwner(h1, a) && HasSole(h1) && HasOwner(h2, a) && !HasSole(h2))
  {
    hide Active, Owns;
    if HasOwner(h2, a) && second.Some? {
      var s: nat :| Owns(h2, a, s);
      OwnerIsActive(h2, a, s, s);
    }
  }

  /** A packet for the only session is dropped: its address and a second session came in between. */
  lemma OwnerMissed(a: Addr)
    ensures var h1 := [Registered(0)];
            var h2 := h1 + [SentFrom(0, a), Registered(1)];
            && IsFirstLook(h1, a, None) && IsSecondLook(h2, None)
            && IsAnswer(h1, a, Some(0)) && IsAnswer(h2, a, Some(0)) && !IsAnswer(h1, a, None) && !IsAnswer(h2, a, None)
  {
    var h0: seq<Event> := [];
    var h1 := [Registered(0)];
    var m := h1 + [SentFrom(0, a)];
    var h2 := h1 + [SentFrom(0, a), Registered(1)];
    assert h1 == h0 + [Registered(0)] && h2 == m + [Registered(1)];
    hide Active, Owns, SendsFrom;
    forall t: nat
      ensures (Active(h1, t) <==> t == 0) && (Active(h2, t) <==> t < 2)
      ensures !Owns(h1, a, t) && (Owns(h2, a, t) <==> t == 0)
    {
      NothingBefore(a, t);
      ActiveAppend(h0, Registered(0), t);
      ActiveAppend(h1, SentFrom(0, a), t);
      ActiveAppend(m, Registered(1), t);
      ActiveAppend(h0, Registered(0), 0);
      OwnsAppend(h0, Registered(0), a, t);
      NotASend(h0, Registered(0), a);
      OwnsAppend(h1, SentFrom(0, a), a, t);
      IsASend(h1, 0, a, a);
      OwnsAppend(m, Registered(1), a, t);
      NotASend(m, Registered(1), a);
    }
    assert Sole(h1, 0) && Active(h2, 0) && Active(h2, 1);
  }

  lemma NothingBefore(a: Addr, t: nat)
    ensures !Active([], t) && !Owns([], a, t)
  {
  }

  // ---------------------------------------------------------------- tables

  /** sessions and byIP are the last-writer view of h. */
  ghost predicate IsView(h: seq<Event>, sessions: set<nat>, byIP: map<Addr, nat>) {
    && (forall s: nat :: s in sessions <==> Active(h, s))
    && (forall a: Addr, s: nat :: Owns(h, a, s) <==> a in byIP && byIP[a] == s)
  }

  /** byIP is the inverse of the active sessions' address sets. */
  ghost predicate IsInverse(sessions: set<nat>, byIP: map<Addr, nat>, ips: map<nat, set<Addr>>) {
    && sessions <= ips.Keys
    && (forall a: Addr :: a in byIP ==> byIP[a] in sessions)
    && (forall s: nat, a: Addr :: s in sessions ==> (a in ips[s] <==> a in byIP && byIP[a] == s))
  }

  lemma ViewAfterRegister(h: seq<Event>, sessions: set<nat>, byIP: map<Addr, nat>, s: nat)
    requires IsView(h, sessions, byIP)
    ensures IsView(h + [Registered(s)], sessions + {s}, byIP)
  {
    hide Active, Owns;
    var e := Registered(s);
    forall t: nat { ActiveAppend(h, e, t); }
    forall a: Addr, t: nat
      ensures Owns(h + [e], a, t) <==> Owns(h, a, t)
    {
      OwnsAppend(h, e, a, t);
      NotASend(h, e, a);
    }
  }

  lemma ViewAfterSend(h: seq<Event>, sessions: set<nat>, byIP: map<Addr, nat>, s: nat, src: Addr)
    requires IsView(h, sessions, byIP)
    ensures IsView(h + [SentFrom(s, src)], sessions, if s in sessions then byIP[src := s] else byIP)
  {
    hide Active, Owns;
    var e := SentFrom(s, src);
    forall t: nat { ActiveAppend(h, e, t); }
    forall a: Addr, t: nat
      ensures Owns(h + [e], a, t) <==> if a == src && s in sessions then t == s else Owns(h, a, t)
    {
      OwnsAppend(h, e, a, t);
      IsASend(h, s, src, a);
    }
  }

  function Without(byIP: map<Addr, nat>, s: nat): map<Addr, nat> {
    map a | a in byIP && byIP[a] != s :: byIP[a]
  }

  lemma ViewAfterClose(h: seq<Event>, sessions: set<nat>, byIP: map<Addr, nat>, s: nat)
    requires IsView(h, sessions, byIP)
    ensures IsView(h + [Closed(s)], sessions - {s}, Without(byIP, s))
  {
    hide Active, Owns;
    var e := Closed(s);
    forall t: nat { ActiveAppend(h, e, t); }
    forall a: Addr, t: nat
      ensures Owns(h + [e], a, t) <==> Owns(h, a, t) && t != s
    {
      OwnsAppend(h, e, a, t);
      NotASend(h, e, a);
    }
  }

  /** Learning an address takes it from its previous owner. */
  lemma InverseAfterLearn(sessions: set<nat>, byIP: map<Addr, nat>, ips: map<nat, set<Addr>>, s: nat, src: Addr)
    requires IsInverse(sessions, byIP, ips) && s in sessions && src !in ips[s]
    ensures var freed := if src in byIP then ips[byIP[src] := ips[byIP[src]] - {src}] else ips;
            IsInverse(sessions, byIP[src := s], freed[s := freed[s] + {src}])
  {
  }

  // ---------------------------------------------------------------- the router

  class Router {
    var sessions: set<nat>
    var byIP: map<Addr, nat>
    var ips: map<nat, set<Addr>>
    var count: nat
    ghost var history: seq<Event>

    /** The table is the last-writer view of the history and the inverse of the active sessions' address sets. */
    ghost predicate Valid()
      reads this
    {
      && (forall s: nat :: s in ips <==> s < count)
      && IsView(history, sessions, byIP)
      && IsInverse(sessions, byIP, ips)
    }

    constructor ()
      ensures Valid() && history == [] && sessions == {} && byIP == map[]
    {
      sessions, byIP, ips, count, history := {}, map[], map[], 0, [];
    }

    method RegisterSession() returns (s: nat)
      requires Valid()
      modifies this
      ensures Valid() && history == old(history) + [Registered(s)]
      ensures s !in old(sessions) && sessions == old(sessions) + {s} && ips[s] == {} && byIP == old(byIP)
    {
      ViewAfterRegister(history, sessions, byIP, count);
      hide IsView;
      s := count;
      count := count + 1;
      ips := ips[s := {}];
      sessions := sessions + {s};
      history := history + [Registered(s)];
    }

    /** A client's packet arrives on session s; malformed, unspecified and multicast sources teach nothing. */
    method LearnFromClientPacket(s: nat, pkt: seq<byte>)
      requires Valid() && s < count
      modifies this
      ensures Valid() && sessions == old(sessions)
      ensures Teaches(pkt).None? ==> history == old(history) && byIP == old(byIP)
      ensures Teaches(pkt).Some? ==>
                var src := Teaches(pkt).value;
                && history == old(history) + [SentFrom(s, src)]
                && byIP == if s in sessions then old(byIP)[src := s] else old(byIP)
    {
      hide IsView, IsInverse, Unspecified, Multicast;
      var ends := Endpoints(pkt);
      if ends.None? { return; }
      var src := ends.value.0;
      if Unspecified(src) || Multicast(src) { return; }
      Learn(s, src);
    }

    /** The part under the lock: src belongs to s from now on, unless s is closed. */
    method Learn(s: nat, src: Addr)
      requires Valid() && s < count
      modifies this
      ensures Valid() && sessions == old(sessions) && history == old(history) + [SentFrom(s, src)]
      ensures byIP == if s in sessions then old(byIP)[src := s] else old(byIP)
    {
      ViewAfterSend(history, sessions, byIP, s, src);
      hide IsView;
      history := history + [SentFrom(s, src)];
      if s !in sessions { return; }
      if src in ips[s] {
        assert byIP == byIP[src := s];
        return;
      }
      InverseAfterLearn(sessions, byIP, ips, s, src);
      if src in byIP && byIP[src] != s {
        var prev := byIP[src];
        ips := ips[prev := ips[prev] - {src}];
      }
      ips := ips[s := ips[s] + {src}];
      byIP := byIP[src := s];
    }

    /** Closes a session; its addresses are forgotten and closing again does nothing. */
    method Close(s: nat)
      requires Valid() && s < count
      modifies this
      ensures Valid() && history == old(history) + [Closed(s)]
      ensures sessions == old(sessions) - {s} && byIP == Without(old(byIP), s)
    {
      ViewAfterClose(history, sessions, byIP, s);
      hide IsView;
      ghost var table := byIP;
      history := history + [Closed(s)];
      if s !in sessions {
        assert sessions - {s} == sessions && Without(byIP, s) == byIP;
        return;
      }
      sessions := sessions - {s};
      var left := ips[s];
      while left != {}
        modifies this`byIP
        invariant left <= ips[s]
        invariant forall a: Addr :: a in byIP ==> a in table && byIP[a] == table[a]
        invariant forall a: Addr :: a in table && (table[a] != s || a in left) ==> a in byIP
        invariant forall a: Addr :: a in byIP && byIP[a] == s ==> a in left
        decreases left
      {
        var a :| a in left;
        if a in byIP && byIP[a] == s {
          byIP := byIP - {a};
        }
        left := left - {a};
      }
      assert byIP == Without(table, s);
    }

    /** The look under the first read lock: the owner of the destination. */
    method LookUpOwner(dst: Addr) returns (r: Option<nat>)
      requires Valid()
      ensures IsFirstLook(history, dst, r)
    {
      hide Active, Owns;
      if dst in byIP {
        r := Some(byIP[dst]);
        assert Owns(history, dst, byIP[dst]);
        return;
      }
      r := None;
    }

    /** The look under the second one: the only session there is. */
    method SingleSession() returns (r: Option<nat>)
      requires Valid()
      ensures IsSecondLook(history, r)
    {
      hide Active, Owns;
      if |sessions| != 1 {
        NotSole(sessions);
        return None;
      }
      var s :| s in sessions;
      SoleElement(sessions, s);
      r := Some(s);
    }

    /** Both looks with nothing in between: the right session for a packet, or the only one if it has no addresses. */
    method SessionForPacket(pkt: seq<byte>) returns (r: Option<nat>)
      requires Valid()
      ensures Endpoints(pkt).Some? ==> IsAnswer(history, Endpoints(pkt).value.1, r)
      ensures Endpoints(pkt).None? ==> IsSecondLook(history, r)
    {
      hide Active, Owns;
      var ends := Endpoints(pkt);
      if ends.None? {
        r := SingleSession();
        return;
      }
      r := LookUpOwner(ends.value.1);
      if r.Some? { return; }
      r := SingleSession();
    }
  }

  lemma SoleElement(sessions: set<nat>, s: nat)
    requires |sessions| == 1 && s in sessions
    ensures forall t: nat :: t in sessions ==> t == s
  {
    assert |sessions - {s}| == 0;
  }

  lemma NotSole(sessions: set<nat>)
    requires |sessions| != 1
    ensures forall s: nat :: s in sessions ==> exists t: nat :: t in sessions && t != s
  {
    forall s: nat | s in sessions
      ensures exists t: nat :: t in sessions && t != s
    {
      var rest := sessions - {s};
      assert |rest| > 0;
      var t :| t in rest;
    }
  }
}

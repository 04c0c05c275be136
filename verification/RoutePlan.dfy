/**
 The route planner, judged by longest-prefix match. Addresses are numbers of
 32 or 128 bits; entries arrive parsed.
 */
module RoutePlan {
  import opened Bytes

  // ---------------------------------------------------------------- shifts

  /** v >> k. */
  function Shift(v: nat, k: nat): nat {
    if k == 0 then v else Shift(v / 2, k - 1)
  }

  /** v << k. */
  function Unshift(v: nat, k: nat): nat {
    if k == 0 then v else 2 * Unshift(v, k - 1)
  }

  /** The low k bits of v. */
  function Low(v: nat, k: nat): (r: nat)
    ensures r < Pow2(k)
  {
    if k == 0 then 0 else v % 2 + 2 * Low(v / 2, k - 1)
  }

  lemma {:induction false} ShiftSum(h: nat, n: nat, v: nat, k: nat)
    requires k <= n
    ensures Shift(Unshift(h, n) + v, k) == Unshift(h, n - k) + Shift(v, k)
    decreases k
  {
    if k > 0 {
      assert (Unshift(h, n) + v) / 2 == Unshift(h, n - 1) + v / 2;
      ShiftSum(h, n - 1, v / 2, k - 1);
    }
  }

  lemma {:induction false} ShiftShift(v: nat, j: nat, k: nat)
    ensures Shift(v, j + k) == Shift(Shift(v, j), k)
    decreases j
  {
    if j > 0 {
      ShiftShift(v / 2, j - 1, k);
    }
  }

  lemma {:induction false} ShiftSmall(v: nat, n: nat)
    requires v < 2 * Pow2(n)
    ensures Shift(v, n) < 2 && (v < Pow2(n) ==> Shift(v, n) == 0) && (v == Pow2(n) ==> Shift(v, n) == 1)
    decreases n
  {
    if n > 0 {
      ShiftSmall(v / 2, n - 1);
    }
  }

  lemma {:induction false} Decompose(v: nat, k: nat)
    ensures v == Unshift(Shift(v, k), k) + Low(v, k)
    decreases k
  {
    if k > 0 {
      Decompose(v / 2, k - 1);
    }
  }

  // ---------------------------------------------------------------- addresses and prefixes

  function Width(v6: bool): nat { if v6 then 128 else 32 }

  datatype Addr = Addr(v6: bool, value: nat) {
    ghost predicate Valid() { value < Pow2(Width(v6)) }
  }

  /** The addresses that share the first len bits of addr. */
  datatype Prefix = Prefix(v6: bool, addr: nat, len: nat) {
    ghost predicate Valid() { addr < Pow2(Width(v6)) && len <= Width(v6) }

    function HostBits(): nat { if len <= Width(v6) then Width(v6) - len else 0 }

    predicate Covers(a: Addr) {
      a.v6 == v6 && Shift(a.value, HostBits()) == Shift(addr, HostBits())
    }
  }

  function HostPrefix(a: Addr): Prefix {
    Prefix(a.v6, a.value, Width(a.v6))
  }

  lemma HostCoversItself(a: Addr, b: Addr)
    ensures HostPrefix(a).Covers(b) <==> a == b
  {
  }

  // ---------------------------------------------------------------- normalisation

  /** p with its host bits cleared. */
  function Masked(p: Prefix): Prefix {
    p.(addr := Unshift(Shift(p.addr, p.HostBits()), p.HostBits()))
  }

  /** An IPv4 address written as an IPv6 address. */
  predicate Is4In6(p: Prefix) { p.v6 && Shift(p.addr, 32) == 0xffff }

  function NormalizePrefix(p: Prefix): Prefix {
    if Is4In6(p) then Masked(Prefix(false, Low(p.addr, 32), Max(p.len - 96, 0))) else Masked(p)
  }

  function Mapped(a: Addr): Addr { Addr(true, Unshift(0xffff, 32) + a.value) }

  lemma {:induction false} ShiftUnshift(v: nat, k: nat)
    ensures Shift(Unshift(v, k), k) == v
  {
    ShiftSum(v, k, 0, k);
    ShiftSmall(0, k);
  }

  /** Masking drops host bits without changing what is covered. */
  lemma MaskedCovers(p: Prefix, a: Addr)
    ensures Masked(p).Covers(a) <==> p.Covers(a)
    ensures Masked(Masked(p)) == Masked(p)
  {
    hide Shift, Unshift;
    ShiftUnshift(Shift(p.addr, p.HostBits()), p.HostBits());
  }

  /** Any other prefix covers the same addresses after normalising. */
  lemma NormalizedCovers(p: Prefix, a: Addr)
    requires !(p.v6 && Shift(p.addr, 32) == 0xffff)
    ensures NormalizePrefix(p).Covers(a) <==> p.Covers(a)
  {
    MaskedCovers(p, a);
  }

  /** A prefix covers the addresses of its family that agree with it in every bit but the host bits. */
  lemma CoversExactly(p: Prefix, a: Addr)
    ensures p.Covers(a) <==> a.v6 == p.v6 && AgreeFrom(a.value, p.addr, p.HostBits())
  {
    SameHighBits(a.value, p.addr, p.HostBits());
  }

  /** Masking clears exactly the host bits. */
  lemma MaskedBits(p: Prefix, i: nat)
    ensures Bit(Masked(p).addr, i) <==> p.HostBits() <= i && Bit(p.addr, i)
  {
    hide Shift, Unshift, Bit;
    var k := p.HostBits();
    UnshiftBits(Shift(p.addr, k), k, i);
    if i >= k {
      ShiftBits(p.addr, k, i - k);
    }
  }

  lemma {:induction false} ShiftBits(v: nat, k: nat, i: nat)
    ensures Bit(Shift(v, k), i) == Bit(v, k + i)
    decreases k
  {
    if k > 0 {
      ShiftBits(v / 2, k - 1, i);
    }
  }

  lemma {:induction false} UnshiftBits(v: nat, k: nat, i: nat)
    ensures Bit(Unshift(v, k), i) <==> k <= i && Bit(v, i - k)
    decreases k
  {
    if k > 0 && i > 0 {
      UnshiftBits(v, k - 1, i - 1);
    }
  }

  /** v and w have the same binary digits of weight 2^k and above. */
  ghost predicate AgreeFrom(v: nat, w: nat, k: nat) { forall i: nat :: k <= i ==> Bit(v, i) == Bit(w, i) }

  lemma SameHighBits(v: nat, w: nat, k: nat)
    ensures Shift(v, k) == Shift(w, k) <==> AgreeFrom(v, w, k)
  {
    hide Shift;
    if Shift(v, k) == Shift(w, k) {
      forall i: nat | k <= i
        ensures Bit(v, i) == Bit(w, i)
      {
        ShiftBits(v, k, i - k);
        ShiftBits(w, k, i - k);
      }
    } else if AgreeFrom(v, w, k) {
      forall i: nat
        ensures Bit(Shift(v, k), i) == Bit(Shift(w, k), i)
      {
        ShiftBits(v, k, i);
        ShiftBits(w, k, i);
      }
      SameBits(Shift(v, k), Shift(w, k));
    }
  }

  /** Numbers with the same binary digits are equal. */
  lemma {:induction false} SameBits(v: nat, w: nat)
    requires forall i: nat :: Bit(v, i) == Bit(w, i)
    ensures v == w
    decreases v + w
  {
    if v + w > 0 {
      assert Bit(v, 0) == Bit(w, 0);
      forall i: nat
        ensures Bit(v / 2, i) == Bit(w / 2, i)
      {
        assert Bit(v, i + 1) == Bit(w, i + 1);
      }
      SameBits(v / 2, w / 2);
    }
  }

  /** A normalised mapped prefix covers the IPv4 addresses whose mapped form the original covers. */
  lemma NormalizedMappedCovers(p: Prefix, a: Addr)
    requires p.len <= 128 && Is4In6(p) && a.Valid() && !a.v6
    ensures NormalizePrefix(p).Covers(a) <==> p.Covers(Mapped(a))
  {
    hide Shift, Unshift, Low, Pow2;
    var v, w := a.value, Low(p.addr, 32);
    Decompose(p.addr, 32);
    var q := Prefix(false, w, Max(p.len - 96, 0));
    MaskedCovers(q, a);
    var k := p.HostBits();
    if k <= 32 {
      ShiftSum(0xffff, 32, v, k);
      ShiftSum(0xffff, 32, w, k);
    } else {
      SameHighPart(v, w, k);
    }
  }

  /** Above the low 32 bits all mapped addresses look alike. */
  lemma SameHighPart(v: nat, w: nat, k: nat)
    requires v < Pow2(32) && w < Pow2(32) && k >= 32
    ensures Shift(Unshift(0xffff, 32) + v, k) == Shift(Unshift(0xffff, 32) + w, k)
    ensures Shift(v, 32) == Shift(w, 32)
  {
    hide Shift, Unshift, Pow2;
    ShiftSum(0xffff, 32, v, 32);
    ShiftSum(0xffff, 32, w, 32);
    ShiftSmall(v, 32);
    ShiftSmall(w, 32);
    ShiftShift(Unshift(0xffff, 32) + v, 32, k - 32);
    ShiftShift(Unshift(0xffff, 32) + w, 32, k - 32);
  }

  // ---------------------------------------------------------------- planning

  datatype Mode = Full | Include | Exclude

  /** A parsed entry: a prefix, or the resolved addresses of a domain. */
  datatype Entry = Cidr(prefix: Prefix) | Hosts(ips: seq<Addr>)

  predicate Kept(p: Prefix, ipv6: bool) { ipv6 || !p.v6 }

  function Hosted(ips: seq<Addr>): (r: seq<Prefix>)
    ensures |r| == |ips| && forall k :: 0 <= k < |ips| ==> r[k] == HostPrefix(ips[k])
  {
    seq(|ips|, k requires 0 <= k < |ips| => HostPrefix(ips[k]))
  }

  /** p is a kept split prefix. */
  predicate IsSplit(entries: seq<Entry>, ipv6: bool, p: Prefix) {
    Kept(p, ipv6) &&
    exists k :: 0 <= k < |entries| &&
      FromEntry(entries[k], p)
  }

  predicate FromEntry(e: Entry, p: Prefix) {
    match e
    case Cidr(q) => p == NormalizePrefix(q)
    case Hosts(ips) => p in Hosted(ips)
  }

  /** The kept split prefixes, in order of appearance. */
  method SplitPrefixes(entries: seq<Entry>, ipv6: bool) returns (split: seq<Prefix>)
    ensures forall p :: p in split <==> IsSplit(entries, ipv6, p)
  {
    split := [];
    var i := 0;
    while i < |entries|
      invariant i <= |entries|
      invariant forall p :: p in split <==> IsSplit(entries[..i], ipv6, p)
    {
      ghost var done := entries[..i];
      assert entries[..i + 1] == done + [entries[i]];
      match entries[i] {
        case Cidr(q) =>
          var p := NormalizePrefix(q);
          ghost var before := split;
          if Kept(p, ipv6) {
            split := split + [p];
          }
          forall x
            ensures x in split <==> IsSplit(entries[..i + 1], ipv6, x)
          {
            SplitAppend(done, entries[i], ipv6, x);
            assert x in split <==> x in before || (x == p && Kept(p, ipv6));
          }
        case Hosts(ips) =>
          ghost var before := split;
          var j := 0;
          while j < |ips|
            invariant j <= |ips|
            invariant forall x :: x in split <==> x in before || (Kept(x, ipv6) && x in Hosted(ips)[..j])
          {
            var p := HostPrefix(ips[j]);
            assert Hosted(ips)[..j + 1] == Hosted(ips)[..j] + [p];
            if Kept(p, ipv6) {
              split := split + [p];
            }
            j := j + 1;
          }
          assert Hosted(ips)[..j] == Hosted(ips);
          forall x
            ensures x in split <==> IsSplit(entries[..i + 1], ipv6, x)
          {
            SplitAppend(done, entries[i], ipv6, x);
          }
      }
      i := i + 1;
    }
    assert entries[..i] == entries;
  }

  lemma SplitAppend(entries: seq<Entry>, e: Entry, ipv6: bool, p: Prefix)
    ensures IsSplit(entries + [e], ipv6, p) <==>
              IsSplit(entries, ipv6, p)
              || (Kept(p, ipv6) && FromEntry(e, p))
  {
    hide FromEntry;
    var all := entries + [e];
    assert all[|entries|] == e;
    forall k | 0 <= k < |entries|
      ensures all[k] == entries[k]
    {
    }
  }

  /** The two halves of each address family. */
  function Defaults(): seq<Prefix> {
    [Prefix(false, 0, 1), Prefix(false, Pow2(31), 1), Prefix(true, 0, 1), Prefix(true, Pow2(127), 1)]
  }

  predicate NoDuplicates<T(==)>(s: seq<T>) {
    forall i, j :: 0 <= i < j < |s| ==> s[i] != s[j]
  }

  /** Appends the prefixes that are neither present nor in skip. */
  method AddAll(routes: seq<Prefix>, ps: seq<Prefix>, skip: seq<Prefix>) returns (r: seq<Prefix>)
    requires NoDuplicates(routes)
    ensures NoDuplicates(r)
    ensures forall p :: p in r <==> p in routes || (p in ps && p !in skip)
  {
    r := routes;
    var i := 0;
    while i < |ps|
      invariant i <= |ps| && NoDuplicates(r)
      invariant forall p :: p in r <==> p in routes || (p in ps[..i] && p !in skip)
    {
      assert ps[..i + 1] == ps[..i] + [ps[i]];
      if ps[i] !in r && ps[i] !in skip {
        r := r + [ps[i]];
      }
      i := i + 1;
    }
    assert ps[..i] == ps;
  }

  /** The inputs of a plan; server addresses and the DNS address are unmapped. */
  datatype Input = Input(mode: Mode, entries: seq<Entry>, dns: Option<Addr>, servers: seq<Addr>, ipv6: bool) {
    predicate IsServer(a: Addr) { a in servers }

    /** The kept DNS address. */
    predicate IsDns(a: Addr) { dns == Some(a) && Kept(HostPrefix(a), ipv6) }

    predicate SplitPrefix(p: Prefix) { mode != Full && IsSplit(entries, ipv6, p) }

    predicate ViaGateway(p: Prefix) {
      p in Hosted(servers) || (mode == Exclude && SplitPrefix(p))
    }

    predicate ViaTun(p: Prefix) {
      && p !in Hosted(servers)
      && (|| (mode == Include && SplitPrefix(p))
          || (mode != Include && p in Defaults())
          || (dns.Some? && p == HostPrefix(dns.value) && IsDns(dns.value)))
    }
  }

  method PlanRoutes(input: Input) returns (viaTun: seq<Prefix>, viaGateway: seq<Prefix>)
    ensures NoDuplicates(viaTun) && NoDuplicates(viaGateway)
    ensures forall p :: p in viaTun <==> input.ViaTun(p)
    ensures forall p :: p in viaGateway <==> input.ViaGateway(p)
  {
    hide IsSplit;
    var servers := Hosted(input.servers);
    viaGateway := AddAll([], servers, []);
    var split := [];
    if input.mode != Full {
      split := SplitPrefixes(input.entries, input.ipv6);
    }
    viaTun := [];
    match input.mode {
      case Include =>
        viaTun := AddAll(viaTun, split, servers);
      case Exclude =>
        viaTun := AddAll(viaTun, Defaults(), servers);
        viaGateway := AddAll(viaGateway, split, []);
      case Full =>
        viaTun := AddAll(viaTun, Defaults(), servers);
    }
    if input.dns.Some? {
      var p := HostPrefix(input.dns.value);
      if Kept(p, input.ipv6) {
        viaTun := AddAll(viaTun, [p], servers);
      }
    }
  }

  // ---------------------------------------------------------------- longest-prefix match

  /** The longest route that covers a is a gateway route, and no TUN route is as long. */
  ghost predicate GoesToGateway(input: Input, a: Addr) {
    exists g :: input.ViaGateway(g) && g.Covers(a) && forall t :: input.ViaTun(t) && t.Covers(a) ==> t.len < g.len
  }

  /** The longest route that covers a is a TUN route, and no gateway route is as long. */
  ghost predicate GoesToTun(input: Input, a: Addr) {
    exists t :: input.ViaTun(t) && t.Covers(a) && forall g :: input.ViaGateway(g) && g.Covers(a) ==> g.len < t.len
  }

  /** Some kept split prefix of at least n bits covers a. */
  ghost predicate SplitCovers(input: Input, a: Addr, n: nat) {
    exists p :: input.SplitPrefix(p) && p.Covers(a) && p.len >= n
  }

  ghost predicate ValidInput(input: Input) {
    forall p :: input.SplitPrefix(p) ==> p.len <= Width(p.v6)
  }

  /** The addresses an entry means: those of its prefix, a mapped one read as IPv4, or its resolved hosts. */
  predicate EntryCovers(e: Entry, a: Addr) {
    match e
    case Cidr(q) => if q.v6 && Shift(q.addr, 32) == 0xffff then !a.v6 && q.Covers(Mapped(a)) else q.Covers(a)
    case Hosts(ips) => a in ips
  }

  ghost predicate SomeEntryCovers(entries: seq<Entry>, a: Addr) {
    exists k :: 0 <= k < |entries| && EntryCovers(entries[k], a)
  }

  /** Outside full mode the split prefixes cover exactly what the entries mean, without IPv6 unless it is enabled. */
  lemma SplitCoversExactly(input: Input, a: Addr)
    requires input.mode != Full && a.Valid()
    requires forall k :: 0 <= k < |input.entries| && input.entries[k].Cidr? ==> input.entries[k].prefix.len <= 128
    ensures SplitCovers(input, a, 0) <==> (input.ipv6 || !a.v6) && SomeEntryCovers(input.entries, a)
  {
    hide Shift, Prefix.Covers, EntryCovers, FromEntry;
    if SplitCovers(input, a, 0) {
      var p :| input.SplitPrefix(p) && p.Covers(a) && p.len >= 0;
      var k :| 0 <= k < |input.entries| && FromEntry(input.entries[k], p);
      EntryMeans(input.entries[k], p, a);
    }
    if (input.ipv6 || !a.v6) && SomeEntryCovers(input.entries, a) {
      var k :| 0 <= k < |input.entries| && EntryCovers(input.entries[k], a);
      var p := CoveringPrefix(input.entries[k], a);
      assert input.SplitPrefix(p);
    }
  }

  lemma EntryMeans(e: Entry, p: Prefix, a: Addr)
    requires FromEntry(e, p) && p.Covers(a) && a.Valid() && (e.Cidr? ==> e.prefix.len <= 128)
    ensures EntryCovers(e, a) && a.v6 == p.v6
  {
    hide Shift;
    match e
    case Cidr(q) =>
      if Is4In6(q) {
        NormalizedMappedCovers(q, a);
      } else {
        NormalizedCovers(q, a);
      }
    case Hosts(ips) => HostedCovers(ips, p, a);
  }

  lemma CoveringPrefix(e: Entry, a: Addr) returns (p: Prefix)
    requires EntryCovers(e, a) && a.Valid() && (e.Cidr? ==> e.prefix.len <= 128)
    ensures FromEntry(e, p) && p.Covers(a) && a.v6 == p.v6
  {
    hide Shift;
    match e
    case Cidr(q) =>
      p := NormalizePrefix(q);
      if Is4In6(q) {
        NormalizedMappedCovers(q, a);
      } else {
        NormalizedCovers(q, a);
      }
    case Hosts(ips) =>
      p := HostPrefix(a);
      var k :| 0 <= k < |ips| && ips[k] == a;
      assert Hosted(ips)[k] == p;
      HostedCovers(ips, p, a);
  }

  lemma HostedCovers(ips: seq<Addr>, p: Prefix, a: Addr)
    requires p in Hosted(ips)
    ensures p.Covers(a) <==> a in ips && p == HostPrefix(a)
  {
    var k :| 0 <= k < |ips| && Hosted(ips)[k] == p;
    HostCoversItself(ips[k], a);
    if p == HostPrefix(a) {
      assert a == ips[k];
    }
  }

  /** A default route covers every address, and only with one bit. */
  lemma DefaultCovers(a: Addr) returns (d: Prefix)
    requires a.Valid()
    ensures d in Defaults() && d.Covers(a) && d.len == 1
  {
    hide Shift, Pow2;
    var n := Width(a.v6) - 1;
    DoublePow2(n);
    ShiftSmall(a.value, n);
    ShiftSmall(0, n);
    ShiftSmall(Pow2(n), n);
    d := Prefix(a.v6, if Shift(a.value, n) == 0 then 0 else Pow2(n), 1);
    var all := Defaults();
    assert d == if a.v6 then (if d.addr == 0 then all[2] else all[3]) else (if d.addr == 0 then all[0] else all[1]);
  }

  lemma DoublePow2(n: nat)
    ensures Pow2(n + 1) == 2 * Pow2(n) && Pow2(n) > 0
  {
  }

  lemma DefaultsAreShort(p: Prefix)
    requires p in Defaults()
    ensures p.len == 1
  {
  }

  /** A server address goes to the gateway in every mode. */
  lemma ServersBypass(input: Input, a: Addr)
    requires ValidInput(input) && a.Valid() && a in input.servers
    ensures GoesToGateway(input, a)
  {
    hide IsSplit, Shift;
    var g := HostPrefix(a);
    var k :| 0 <= k < |input.servers| && input.servers[k] == a;
    assert Hosted(input.servers)[k] == g;
    HostedCovers(input.servers, g, a);
    forall t | input.ViaTun(t) && t.Covers(a)
      ensures t.len < g.len
    {
      TunIsShorter(input, t, a);
    }
  }

  /** A TUN route over an address is its host route or shorter. */
  lemma TunIsShorter(input: Input, t: Prefix, a: Addr)
    requires ValidInput(input) && input.ViaTun(t) && t.Covers(a)
    ensures t.len < Width(a.v6) || t == HostPrefix(a)
    ensures input.IsServer(a) ==> t != HostPrefix(a)
  {
    hide IsSplit;
    assert t.len <= Width(t.v6);
    if t.len == Width(t.v6) {
      assert t.HostBits() == 0;
    }
    if input.IsServer(a) {
      var k :| 0 <= k < |input.servers| && input.servers[k] == a;
      assert Hosted(input.servers)[k] == HostPrefix(a);
    }
  }

  /** In full mode every other address goes to the TUN. */
  lemma FullModeTunnels(input: Input, a: Addr)
    requires input.mode == Full && a.Valid() && a !in input.servers
    ensures GoesToTun(input, a)
  {
    hide IsSplit, Shift, Pow2;
    var d := DefaultCovers(a);
    NotAServerRoute(input, d, a);
    forall g | input.ViaGateway(g) && g.Covers(a)
      ensures false
    {
      HostedCovers(input.servers, g, a);
    }
  }

  lemma NotAServerRoute(input: Input, p: Prefix, a: Addr)
    requires !input.IsServer(a) && p.Covers(a)
    ensures p !in Hosted(input.servers)
  {
    if p in Hosted(input.servers) {
      HostedCovers(input.servers, p, a);
    }
  }

  /** In include mode another address goes to the TUN iff a kept prefix covers it or it is the kept DNS address. */
  lemma IncludeModeTunnels(input: Input, a: Addr)
    requires input.mode == Include && a.Valid() && a !in input.servers
    ensures GoesToTun(input, a) <==> SplitCovers(input, a, 0) || (input.dns == Some(a) && (input.ipv6 || !a.v6))
    ensures !GoesToGateway(input, a)
  {
    hide IsSplit, Shift, Pow2;
    forall g | input.ViaGateway(g) && g.Covers(a)
      ensures false
    {
      HostedCovers(input.servers, g, a);
    }
    if SplitCovers(input, a, 0) {
      var p :| input.SplitPrefix(p) && p.Covers(a) && p.len >= 0;
      NotAServerRoute(input, p, a);
      assert input.ViaTun(p);
    } else if input.IsDns(a) {
      HostCoversItself(a, a);
      NotAServerRoute(input, HostPrefix(a), a);
      assert input.ViaTun(HostPrefix(a));
    } else if GoesToTun(input, a) {
      var t :| input.ViaTun(t) && t.Covers(a);
      if !input.SplitPrefix(t) {
        HostCoversItself(input.dns.value, a);
      }
    }
  }

  /**
   In exclude mode any other address that is not the kept DNS address goes to the gateway iff a kept
   split prefix of at least two bits covers it, and to the TUN iff none of at least one bit does.
   */
  lemma ExcludeModeBypasses(input: Input, a: Addr)
    requires input.mode == Exclude && a.Valid() && a !in input.servers
    requires !(input.dns == Some(a) && (input.ipv6 || !a.v6))
    ensures GoesToGateway(input, a) <==> SplitCovers(input, a, 2)
    ensures GoesToTun(input, a) <==> !SplitCovers(input, a, 1)
  {
    hide IsSplit, Shift, Pow2, Defaults;
    var d := DefaultCovers(a);
    NotAServerRoute(input, d, a);
    assert input.ViaTun(d);
    forall t | input.ViaTun(t) && t.Covers(a)
      ensures t.len == 1
    {
      if t in Defaults() {
        DefaultsAreShort(t);
      } else {
        HostCoversItself(input.dns.value, a);
      }
    }
    forall g: Prefix | g.Covers(a)
      ensures input.ViaGateway(g) <==> input.SplitPrefix(g)
    {
      NotAServerRoute(input, g, a);
    }
    OneBitRoutes(input, a, d);
  }

  /** When every TUN route over a has one bit and the gateway routes over a are the split prefixes. */
  lemma OneBitRoutes(input: Input, a: Addr, d: Prefix)
    requires input.ViaTun(d) && d.Covers(a)
    requires forall t :: input.ViaTun(t) && t.Covers(a) ==> t.len == 1
    requires forall g: Prefix :: g.Covers(a) ==> (input.ViaGateway(g) <==> input.SplitPrefix(g))
    ensures GoesToGateway(input, a) <==> SplitCovers(input, a, 2)
    ensures GoesToTun(input, a) <==> !SplitCovers(input, a, 1)
  {
    hide Input.ViaTun, Input.ViaGateway, Input.SplitPrefix, Prefix.Covers;
    if GoesToGateway(input, a) {
      var g :| input.ViaGateway(g) && g.Covers(a) && forall t :: input.ViaTun(t) && t.Covers(a) ==> t.len < g.len;
      assert d.len < g.len;
      assert SplitCovers(input, a, 2);
    }
    if SplitCovers(input, a, 2) {
      var g :| input.SplitPrefix(g) && g.Covers(a) && g.len >= 2;
      assert input.ViaGateway(g);
    }
    if GoesToTun(input, a) {
      var t :| input.ViaTun(t) && t.Covers(a) && forall g :: input.ViaGateway(g) && g.Covers(a) ==> g.len < t.len;
      assert t.len == 1;
    }
    if !SplitCovers(input, a, 1) {
      assert forall g :: input.ViaGateway(g) && g.Covers(a) ==> g.len < d.len;
    }
  }

  /** In exclude mode the kept DNS address goes to the TUN unless it is itself a split prefix. */
  lemma ExcludeModeDns(input: Input, a: Addr)
    requires ValidInput(input) && input.mode == Exclude && a.Valid() && a !in input.servers
    requires input.dns == Some(a) && (input.ipv6 || !a.v6)
    ensures GoesToTun(input, a) <==> !input.SplitPrefix(HostPrefix(a))
  {
    hide IsSplit, Shift, Pow2, Defaults;
    var h := HostPrefix(a);
    HostCoversItself(a, a);
    NotAServerRoute(input, h, a);
    assert input.ViaTun(h);
    forall g | input.ViaGateway(g) && g.Covers(a)
      ensures g.len < h.len || (g == h && input.SplitPrefix(h))
    {
      NotAServerRoute(input, g, a);
      if g.len == Width(g.v6) {
        FullLengthIsHost(g, a);
      }
    }
    if GoesToTun(input, a) && input.SplitPrefix(h) {
      var t :| input.ViaTun(t) && t.Covers(a) && forall g :: input.ViaGateway(g) && g.Covers(a) ==> g.len < t.len;
      assert input.ViaGateway(h);
      TunIsShorter(input, t, a);
    }
  }

  lemma FullLengthIsHost(p: Prefix, a: Addr)
    requires p.Covers(a) && p.len == Width(p.v6)
    ensures p == HostPrefix(a)
  {
  }
}

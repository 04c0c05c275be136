/**
 The server's hello replay cache together with the timestamp test: the same
 hello is let in at most once. Times are nanoseconds.
 */
module ReplayCache {
  import opened Bytes
  import opened Clock

  const RETENTION := 120 * SECOND
  const PURGE_SIZE := 4096

  type Digest = seq<byte>

  /** Digest to expiry time. */
  type Cache = map<Digest, int>

  function Purged(c: Cache, now: int): Cache {
    if |c| > PURGE_SIZE then map k | k in c && now < c[k] :: c[k] else c
  }

  /** Beyond 4096 entries exactly the expired ones are dropped, below nothing is. */
  lemma PurgedExactly(c: Cache, now: int, k: Digest)
    ensures k in Purged(c, now) <==> k in c && (|c| > 4096 ==> now < c[k])
    ensures k in Purged(c, now) ==> Purged(c, now)[k] == c[k]
  {
  }

  /** Whether the digest is known, and the cache afterwards. */
  function Lookup(c: Cache, key: Digest, now: int, ttl: int): (Cache, bool) {
    if key in c && now < c[key] then (c, true) else (Purged(c, now)[key := now + ttl], false)
  }

  class HandshakeReplayCache {
    const ttl: int
    var seen: Cache

    constructor (ttl: int)
      ensures this.ttl == ttl && seen == map[]
    {
      this.ttl, seen := ttl, map[];
    }

    method Seen(key: Digest, now: int) returns (known: bool)
      modifies this
      ensures (seen, known) == Lookup(old(seen), key, now, ttl)
    {
      if key in seen && now < seen[key] { return true; }
      if |seen| > PURGE_SIZE {
        ghost var before := seen;
        var keys := seen.Keys;
        while keys != {}
          modifies this`seen
          invariant keys <= before.Keys
          invariant forall k :: k in seen ==> k in before && seen[k] == before[k]
          invariant forall k :: k in before && (k in keys || now < before[k]) ==> k in seen
          invariant forall k :: k in seen && k !in keys ==> now < before[k]
          decreases keys
        {
          var k :| k in keys;
          if now >= seen[k] {
            seen := seen - {k};
          }
          keys := keys - {k};
        }
        assert seen == Purged(before, now);
      }
      seen := seen[key := now + ttl];
      known := false;
    }
  }

  // ---------------------------------------------------------------- server runs

  /** One handled connection: its hello, the clock when the cache is asked and the clock when the stamp is tested. */
  datatype Attempt = Attempt(hello: seq<byte>, seenAt: int, checkedAt: int)

  /** The digest function and the time stamp inside a hello. */
  datatype Server = Server(digest: seq<byte> -> Digest, stamp: seq<byte> -> nat)

  function CacheAfter(srv: Server, attempts: seq<Attempt>): Cache {
    if attempts == [] then map[]
    else
      var a := attempts[|attempts| - 1];
      Lookup(CacheAfter(srv, attempts[..|attempts| - 1]), srv.digest(a.hello), a.seenAt, RETENTION).0
  }

  /** The attempt passes the replay cache. */
  predicate NotSeen(srv: Server, attempts: seq<Attempt>, i: nat)
    requires i < |attempts|
  {
    !Lookup(CacheAfter(srv, attempts[..i]), srv.digest(attempts[i].hello), attempts[i].seenAt, RETENTION).1
  }

  /** The attempt passes the replay cache and the timestamp test. */
  predicate Passes(srv: Server, attempts: seq<Attempt>, i: nat)
    requires i < |attempts|
  {
    NotSeen(srv, attempts, i) && Fresh(attempts[i].checkedAt / SECOND, srv.stamp(attempts[i].hello))
  }

  /** Clocks do not run backwards between cache lookups. */
  predicate Ordered(attempts: seq<Attempt>) {
    forall i, j :: 0 <= i < j < |attempts| ==> attempts[i].seenAt <= attempts[j].seenAt
  }

  /** Every attempt is checked after its lookup and less than bound seconds, in whole seconds, later. */
  predicate Prompt(attempts: seq<Attempt>, bound: int) {
    forall i :: 0 <= i < |attempts| ==>
      && 0 <= attempts[i].seenAt <= attempts[i].checkedAt < MAX_SECONDS * SECOND
      && attempts[i].checkedAt / SECOND - attempts[i].seenAt / SECOND < bound
  }

  // ---------------------------------------------------------------- at most once

  /** Until it expires, an entry survives every lookup and every purge. */
  lemma EntryStays(c: Cache, key: Digest, exp: int, other: Digest, now: int)
    requires key in c && c[key] >= exp && now < exp
    ensures var c' := Lookup(c, other, now, RETENTION).0;
            key in c' && c'[key] >= exp
  {
  }

  lemma {:induction false} EntryIsKept(srv: Server, attempts: seq<Attempt>, i: nat, j: nat)
    requires i < j <= |attempts| && Ordered(attempts) && NotSeen(srv, attempts, i)
    requires j < |attempts| ==> attempts[j].seenAt < attempts[i].seenAt + RETENTION
    requires j == |attempts| ==> attempts[j - 1].seenAt < attempts[i].seenAt + RETENTION
    ensures var c := CacheAfter(srv, attempts[..j]);
            var key := srv.digest(attempts[i].hello);
            key in c && c[key] >= attempts[i].seenAt + RETENTION
    decreases j
  {
    hide Lookup;
    var a := attempts[j - 1];
    assert attempts[..j][..j - 1] == attempts[..j - 1];
    if i == j - 1 {
      FreshEntry(CacheAfter(srv, attempts[..i]), srv.digest(a.hello), a.seenAt);
    } else {
      EntryIsKept(srv, attempts, i, j - 1);
      EntryStays(CacheAfter(srv, attempts[..j - 1]), srv.digest(attempts[i].hello), attempts[i].seenAt + RETENTION,
                 srv.digest(a.hello), a.seenAt);
    }
  }

  lemma FreshEntry(c: Cache, key: Digest, now: int)
    requires !Lookup(c, key, now, RETENTION).1
    ensures var c' := Lookup(c, key, now, RETENTION).0; key in c' && c'[key] == now + RETENTION
  {
  }

  /** A hello that passes the cache again does so at least two minutes later. */
  lemma PassesCacheLater(srv: Server, attempts: seq<Attempt>, i: nat, j: nat)
    requires i < j < |attempts| && Ordered(attempts) && attempts[i].hello == attempts[j].hello
    requires NotSeen(srv, attempts, i) && NotSeen(srv, attempts, j)
    ensures attempts[j].seenAt >= attempts[i].seenAt + RETENTION
  {
    if attempts[j].seenAt < attempts[i].seenAt + RETENTION {
      EntryIsKept(srv, attempts, i, j);
    }
  }

  /** Every entry comes from an attempt that passed the cache. */
  lemma {:induction false} EntryHasOrigin(srv: Server, attempts: seq<Attempt>, n: nat, key: Digest)
    requires n <= |attempts| && key in CacheAfter(srv, attempts[..n])
    ensures exists j :: 0 <= j < n && srv.digest(attempts[j].hello) == key && NotSeen(srv, attempts, j)
                        && CacheAfter(srv, attempts[..n])[key] == attempts[j].seenAt + RETENTION
    decreases n
  {
    if n > 0 {
      var a := attempts[n - 1];
      assert attempts[..n][..n - 1] == attempts[..n - 1];
      var before := CacheAfter(srv, attempts[..n - 1]);
      var (after, known) := Lookup(before, srv.digest(a.hello), a.seenAt, RETENTION);
      if !known && key == srv.digest(a.hello) {
        assert NotSeen(srv, attempts, n - 1);
      } else {
        EntryHasOrigin(srv, attempts, n - 1, key);
      }
    }
  }

  /** A hello with the same digest passed the cache at j and is still remembered at i. */
  predicate Remembers(srv: Server, attempts: seq<Attempt>, i: nat, j: nat)
    requires j < i < |attempts|
  {
    && srv.digest(attempts[j].hello) == srv.digest(attempts[i].hello) && NotSeen(srv, attempts, j)
    && attempts[i].seenAt < attempts[j].seenAt + RETENTION
  }

  /** The purging cache answers like one with unlimited memory. */
  lemma PurgingIsInvisible(srv: Server, attempts: seq<Attempt>, i: nat)
    requires i < |attempts| && Ordered(attempts)
    ensures NotSeen(srv, attempts, i) <==> forall j :: 0 <= j < i ==> !Remembers(srv, attempts, i, j)
  {
    forall j | 0 <= j < i && Remembers(srv, attempts, i, j)
      ensures !NotSeen(srv, attempts, i)
    {
      EntryIsKept(srv, attempts, j, i);
    }
    if !NotSeen(srv, attempts, i) {
      EntryHasOrigin(srv, attempts, i, srv.digest(attempts[i].hello));
      var j :| 0 <= j < i && srv.digest(attempts[j].hello) == srv.digest(attempts[i].hello) && NotSeen(srv, attempts, j)
               && CacheAfter(srv, attempts[..i])[srv.digest(attempts[i].hello)] == attempts[j].seenAt + RETENTION;
      assert Remembers(srv, attempts, i, j);
    }
  }

  /** Two tests of one stamp can only both succeed within a minute. */
  lemma FreshTwice(now: int, later: int, stamp: nat)
    requires 0 <= now <= later < MAX_SECONDS && stamp < TWO64
    requires Fresh(now, stamp) && Fresh(later, stamp)
    ensures later - now <= 60
  {
    hide Fresh, Wrap;
    FreshMeans(now, stamp);
    FreshMeans(later, stamp);
  }

  /** The same hello bytes pass both tests at most once ever. */
  lemma AtMostOnce(srv: Server, attempts: seq<Attempt>, i: nat, j: nat)
    requires Ordered(attempts) && Prompt(attempts, 60)
    requires i < j < |attempts| && attempts[i].hello == attempts[j].hello && srv.stamp(attempts[i].hello) < TWO64
    ensures !(Passes(srv, attempts, i) && Passes(srv, attempts, j))
  {
    if Passes(srv, attempts, i) && Passes(srv, attempts, j) {
      hide NotSeen, Fresh;
      PassesCacheLater(srv, attempts, i, j);
      var a, b := attempts[i], attempts[j];
      assert a.checkedAt / SECOND < a.seenAt / SECOND + 60;
      assert b.checkedAt / SECOND >= b.seenAt / SECOND >= a.seenAt / SECOND + 120;
      FreshTwice(a.checkedAt / SECOND, b.checkedAt / SECOND, srv.stamp(a.hello));
    }
  }

  /** No two attempts with the same hello pass both tests. */
  ghost predicate EachPassesOnce(srv: Server, attempts: seq<Attempt>) {
    forall i, j :: 0 <= i < j < |attempts| && attempts[i].hello == attempts[j].hello ==>
      !(Passes(srv, attempts, i) && Passes(srv, attempts, j))
  }

  /** One hello twice: looked up 90 seconds before and 30 after its stamp, checked 30 before and after. */
  function SlowRun(hello: seq<byte>, stamp: int): seq<Attempt> {
    [Attempt(hello, (stamp - 90) * SECOND, (stamp - 30) * SECOND),
     Attempt(hello, (stamp + 30) * SECOND, (stamp + 30) * SECOND)]
  }

  /** The delay bound is sharp: a check a full minute after the lookup lets a hello in twice, whatever its stamp. */
  lemma SlowCheckPassesTwice(srv: Server, hello: seq<byte>)
    requires 90 <= srv.stamp(hello) && srv.stamp(hello) + 30 < MAX_SECONDS
    ensures var run := SlowRun(hello, srv.stamp(hello));
            Ordered(run) && Prompt(run, 61) && Passes(srv, run, 0) && Passes(srv, run, 1)
  {
    var t := srv.stamp(hello);
    var run := SlowRun(hello, t);
    assert run[..0] == [] && run[..1] == [run[0]] && run[..1][..0] == [];
    FreshWithinTolerance(t - 30, t);
    FreshWithinTolerance(t + 30, t);
    assert CacheAfter(srv, run[..1]) == map[srv.digest(hello) := (t - 90) * SECOND + RETENTION];
  }

  /**
   A bound on the delay between the two tests is enough for every run, if and only if it is at most
   a minute. For the failing half any one hello with a stamp that a clock can show will do.
   */
  lemma DelayBoundIsExact(srv: Server, hello: seq<byte>, bound: int)
    requires forall h :: srv.stamp(h) < TWO64
    requires 90 <= srv.stamp(hello) && srv.stamp(hello) + 30 < MAX_SECONDS
    ensures (forall attempts: seq<Attempt> | Ordered(attempts) && Prompt(attempts, bound) ::
               EachPassesOnce(srv, attempts))
            <==> bound <= 60
  {
    hide Passes;
    if bound <= 60 {
      forall attempts: seq<Attempt> | Ordered(attempts) && Prompt(attempts, bound)
        ensures EachPassesOnce(srv, attempts)
      {
        PromptEnough(srv, attempts, bound);
      }
    } else {
      SlowCheckPassesTwice(srv, hello);
      assert Prompt(SlowRun(hello, srv.stamp(hello)), bound);
    }
  }

  lemma PromptEnough(srv: Server, attempts: seq<Attempt>, bound: int)
    requires Ordered(attempts) && Prompt(attempts, bound) && bound <= 60 && forall h :: srv.stamp(h) < TWO64
    ensures EachPassesOnce(srv, attempts)
  {
    hide Passes;
    assert Prompt(attempts, 60);
    forall i, j | 0 <= i < j < |attempts| && attempts[i].hello == attempts[j].hello
      ensures !(Passes(srv, attempts, i) && Passes(srv, attempts, j))
    {
      AtMostOnce(srv, attempts, i, j);
    }
  }
}

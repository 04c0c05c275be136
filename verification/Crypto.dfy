/**
 The primitives the protocol is built on, as arbitrary functions with laws.
 */
module Crypto {
  import opened Bytes

  const TAG_SIZE := 16

  type Key = seq<byte>

  /** An authenticated cipher, a block function, a key stream and a message authentication code. */
  datatype Suite = Suite(
    seal: (Key, seq<byte>, seq<byte>, seq<byte>) -> seq<byte>,
    open: (Key, seq<byte>, seq<byte>, seq<byte>) -> Option<seq<byte>>,
    block: (Key, seq<byte>) -> seq<byte>,
    stream: (Key, seq<byte>) -> seq<byte>,
    mac: (Key, seq<byte>) -> seq<byte>)
  {
    /** Opening inverts sealing for the same key, nonce and associated data, and opens nothing else. */
    ghost predicate Lawful() {
      && (forall k, n, p, a :: |seal(k, n, p, a)| == |p| + TAG_SIZE)
      && (forall k, n, p, a :: open(k, n, seal(k, n, p, a), a) == Some(p))
      && (forall k, n, c, a :: open(k, n, c, a).Some? ==> c == seal(k, n, open(k, n, c, a).value, a))
      && (forall k, s :: |block(k, s)| == 16)
      && (forall k, n :: |stream(k, n)| == 8)
      && (forall k, m :: |mac(k, m)| == 32)
    }

    lemma OpenSeal(k: Key, n: seq<byte>, p: seq<byte>, a: seq<byte>)
      requires Lawful()
      ensures |seal(k, n, p, a)| == |p| + TAG_SIZE
      ensures open(k, n, seal(k, n, p, a), a) == Some(p)
    {
    }
  }

  const ZERO_TAG: seq<byte> := [0, 0, 0, 0, 0, 0, 0, 0, 0, 0, 0, 0, 0, 0, 0, 0]

  /** A cipher that appends a tag computed from key, nonce and associated data. */
  ghost function TaggedSuite(tagOf: (Key, seq<byte>, seq<byte>) -> seq<byte>): Suite {
    Suite(
      (k, n, p, a) => p + tagOf(k, n, a),
      (k, n, c, a) => if |c| >= 16 && c[|c| - 16..] == tagOf(k, n, a) then Some(c[..|c| - 16]) else None,
      (k, b) => ZERO_TAG,
      (k, n) => ZERO_TAG[..8],
      (k, m) => ZERO_TAG + ZERO_TAG)
  }

  /** The laws are satisfiable: every such cipher obeys them. */
  lemma TaggedIsLawful(tagOf: (Key, seq<byte>, seq<byte>) -> seq<byte>)
    requires forall k, n, a :: |tagOf(k, n, a)| == TAG_SIZE
    ensures TaggedSuite(tagOf).Lawful()
  {
    var s := TaggedSuite(tagOf);
    forall k, n, p: seq<byte>, a
      ensures s.open(k, n, s.seal(k, n, p, a), a) == Some(p)
    {
      assert (p + tagOf(k, n, a))[|p|..] == tagOf(k, n, a);
    }
    forall k, n, c: seq<byte>, a | s.open(k, n, c, a).Some?
      ensures c == s.seal(k, n, s.open(k, n, c, a).value, a)
    {
      assert c == c[..|c| - 16] + c[|c| - 16..];
    }
  }
}

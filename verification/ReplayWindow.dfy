/**
 The anti-replay window: a 4096-bit ring bitmap that stands for the set of
 accepted counters.
 */
module ReplayWindow {
  import opened Bytes

  const WINDOW := 4096

  // ---------------------------------------------------------------- words of bits

  /** w | 1 << k. */
  function SetBit(w: nat, k: nat): nat {
    if k == 0 then w / 2 * 2 + 1 else w % 2 + 2 * SetBit(w / 2, k - 1)
  }

  /** w &^ (1 << k). */
  function ClearBit(w: nat, k: nat): nat {
    if k == 0 then w / 2 * 2 else w % 2 + 2 * ClearBit(w / 2, k - 1)
  }

  lemma {:induction false} BitOfSet(w: nat, k: nat, j: nat)
    ensures Bit(SetBit(w, k), j) <==> j == k || Bit(w, j)
  {
    if k > 0 {
      assert SetBit(w, k) / 2 == SetBit(w / 2, k - 1) && SetBit(w, k) % 2 == w % 2;
    }
    if k > 0 && j > 0 {
      BitOfSet(w / 2, k - 1, j - 1);
    } else if j > 0 {
      assert SetBit(w, 0) / 2 == w / 2;
    }
  }

  lemma {:induction false} BitOfClear(w: nat, k: nat, j: nat)
    ensures Bit(ClearBit(w, k), j) <==> j != k && Bit(w, j)
  {
    if k > 0 {
      assert ClearBit(w, k) / 2 == ClearBit(w / 2, k - 1) && ClearBit(w, k) % 2 == w % 2;
    }
    if k > 0 && j > 0 {
      BitOfClear(w / 2, k - 1, j - 1);
    } else if j > 0 {
      assert ClearBit(w, 0) / 2 == w / 2;
    }
  }

  lemma {:induction false} BitOfZero(j: nat)
    ensures !Bit(0, j)
  {
    if j > 0 {
      BitOfZero(j - 1);
    }
  }

  // ---------------------------------------------------------------- the ring

  /** Whether the slot of counter c is marked. */
  predicate Marked(bitmap: seq<nat>, c: nat)
    requires |bitmap| == 64
  {
    var idx := c % WINDOW;
    Bit(bitmap[idx / 64], idx % 64)
  }

  lemma MarkedAfterSet(bitmap: seq<nat>, c: nat, d: nat)
    requires |bitmap| == 64
    ensures var idx := c % WINDOW;
            Marked(bitmap[idx / 64 := SetBit(bitmap[idx / 64], idx % 64)], d)
            <==> c % WINDOW == d % WINDOW || Marked(bitmap, d)
  {
    hide Bit, SetBit;
    var i, j := c % WINDOW, d % WINDOW;
    BitOfSet(bitmap[i / 64], i % 64, j % 64);
    assert i == i / 64 * 64 + i % 64 && j == j / 64 * 64 + j % 64;
  }

  lemma MarkedAfterClear(bitmap: seq<nat>, c: nat, d: nat)
    requires |bitmap| == 64
    ensures var idx := c % WINDOW;
            Marked(bitmap[idx / 64 := ClearBit(bitmap[idx / 64], idx % 64)], d)
            <==> c % WINDOW != d % WINDOW && Marked(bitmap, d)
  {
    hide Bit, ClearBit;
    var i, j := c % WINDOW, d % WINDOW;
    BitOfClear(bitmap[i / 64], i % 64, j % 64);
    assert i == i / 64 * 64 + i % 64 && j == j / 64 * 64 + j % 64;
  }

  /** Counters less than a window apart have different slots. */
  lemma DifferentSlots(c: nat, d: nat)
    requires c < d < c + WINDOW
    ensures c % WINDOW != d % WINDOW
  {
    assert d - c == WINDOW * (d / WINDOW - c / WINDOW) + d % WINDOW - c % WINDOW;
  }

  // ---------------------------------------------------------------- the specification

  /** The highest counter so far and every counter ever accepted. */
  datatype Spec = Spec(max: nat, accepted: set<nat>) {
    predicate Accepts(c: nat) {
      c > max || (max - c < WINDOW && c !in accepted)
    }

    function Next(c: nat): Spec {
      if Accepts(c) then Spec(Max(max, c), accepted + {c}) else this
    }
  }

  const EMPTY := Spec(0, {})

  function After(s: Spec, calls: seq<nat>): Spec {
    if calls == [] then s else After(s, calls[..|calls| - 1]).Next(calls[|calls| - 1])
  }

  /** Whether the call at position i of a run is accepted. */
  predicate AcceptedAt(calls: seq<nat>, i: nat)
    requires i < |calls|
  {
    After(EMPTY, calls[..i]).Accepts(calls[i])
  }

  lemma {:induction false} AcceptedStays(calls: seq<nat>, i: nat, j: nat)
    requires i < j <= |calls| && AcceptedAt(calls, i)
    ensures calls[i] in After(EMPTY, calls[..j]).accepted && calls[i] <= After(EMPTY, calls[..j]).max
  {
    assert calls[..j][..j - 1] == calls[..j - 1];
    if i < j - 1 {
      AcceptedStays(calls, i, j - 1);
    }
  }

  /** Over any run, no counter is accepted twice. */
  lemma NeverTwice(calls: seq<nat>, i: nat, j: nat)
    requires i < j < |calls| && calls[i] == calls[j] && AcceptedAt(calls, i)
    ensures !AcceptedAt(calls, j)
  {
    AcceptedStays(calls, i, j);
  }

  lemma {:induction false} AcceptedWasCalled(calls: seq<nat>, c: nat)
    requires c in After(EMPTY, calls).accepted
    ensures exists i :: 0 <= i < |calls| && calls[i] == c && AcceptedAt(calls, i)
  {
    if calls != [] {
      var front, last := calls[..|calls| - 1], calls[|calls| - 1];
      if c in After(EMPTY, front).accepted {
        AcceptedWasCalled(front, c);
        var i :| 0 <= i < |front| && front[i] == c && AcceptedAt(front, i);
        assert calls[..i] == front[..i];
        assert AcceptedAt(calls, i);
      } else {
        assert AcceptedAt(calls, |calls| - 1);
      }
    }
  }

  /** A counter that was not accepted before and is less than a window below the highest one is accepted. */
  lemma FreshIsAccepted(calls: seq<nat>, j: nat)
    requires j < |calls| && After(EMPTY, calls[..j]).max - calls[j] < WINDOW
    requires forall i :: 0 <= i < j && calls[i] == calls[j] ==> !AcceptedAt(calls, i)
    ensures AcceptedAt(calls, j)
  {
    AcceptedBefore(calls, j, calls[j]);
  }

  lemma AcceptedBefore(calls: seq<nat>, j: nat, c: nat)
    requires j <= |calls|
    ensures c in After(EMPTY, calls[..j]).accepted ==> exists i :: 0 <= i < j && calls[i] == c && AcceptedAt(calls, i)
  {
    if c in After(EMPTY, calls[..j]).accepted {
      AcceptedWasCalled(calls[..j], c);
      var i :| 0 <= i < j && calls[..j][i] == c && AcceptedAt(calls[..j], i);
      assert calls[..j][..i] == calls[..i];
      assert AcceptedAt(calls, i);
    }
  }

  /** What the calls say about the state: the maximum is the highest call, and a call is accepted or passed. */
  lemma {:induction false} StateOfCalls(calls: seq<nat>)
    ensures var s := After(EMPTY, calls);
            && (forall c :: c in s.accepted ==> c in calls)
            && (forall c :: c in calls ==> c <= s.max && (c in s.accepted || c + WINDOW <= s.max))
            && (calls != [] ==> s.max in calls) && (calls == [] ==> s.max == 0)
  {
    if calls != [] {
      var front, last := calls[..|calls| - 1], calls[|calls| - 1];
      StateOfCalls(front);
      assert forall c :: c in calls <==> c in front || c == last by { assert calls == front + [last]; }
    }
  }

  /** A call is accepted, if and only if it is new and no earlier call was a window or more above it. */
  lemma AcceptedExactly(calls: seq<nat>, c: nat)
    ensures After(EMPTY, calls).Accepts(c) <==> c !in calls && forall x :: x in calls ==> x < c + 4096
  {
    StateOfCalls(calls);
  }

  // ---------------------------------------------------------------- the implementation

  /** The unmarking loop's 64-bit variable gets past ctr, if and only if ctr is not the largest counter. */
  lemma ClearingEnds(maxSeq: nat, ctr: nat)
    requires maxSeq < ctr < TWO64
    ensures (exists k: nat :: LoopVariable(maxSeq, k) > ctr) <==> ctr < TWO64 - 1
  {
    if ctr < TWO64 - 1 {
      assert LoopVariable(maxSeq, ctr - maxSeq) == ctr + 1;
    }
  }

  /** The loop variable after k rounds. */
  function LoopVariable(maxSeq: nat, k: nat): nat { (maxSeq + 1 + k) % TWO64 }

  class Window {
    var maxSeq: nat
    const bitmap: array<nat>
    ghost var accepted: set<nat>

    ghost predicate Valid()
      reads this, bitmap
    {
      && bitmap.Length == 64
      && (forall c :: c in accepted ==> c <= maxSeq)
      && (forall c: nat :: c <= maxSeq < c + WINDOW ==> (Marked(bitmap[..], c) <==> c in accepted))
    }

    ghost function Abstract(): Spec
      reads this
    {
      Spec(maxSeq, accepted)
    }

    constructor ()
      ensures Valid() && fresh(bitmap) && Abstract() == EMPTY
    {
      maxSeq, accepted := 0, {};
      bitmap := new nat[64](i => 0);
      new;
      assert !Marked(bitmap[..], 0) by { BitOfZero(0); }
    }

    /** Unmarks the slots of maxSeq + 1 .. ctr; the 64-bit loop variable only ends below 2^64 - 1. */
    method ClearPassed(ctr: nat)
      requires Valid() && maxSeq < ctr < maxSeq + WINDOW && ctr < TWO64 - 1
      modifies bitmap
      ensures forall c: nat :: maxSeq < c <= ctr ==> !Marked(bitmap[..], c)
      ensures forall c: nat :: c <= maxSeq && ctr < c + WINDOW ==> (Marked(bitmap[..], c) <==> c in accepted)
    {
      hide Bit, ClearBit, Marked;
      var i := maxSeq + 1;
      while i <= ctr
        invariant maxSeq < i <= ctr + 1
        invariant forall c: nat :: maxSeq < c < i ==> !Marked(bitmap[..], c)
        invariant forall c: nat :: c <= maxSeq && ctr < c + WINDOW ==> (Marked(bitmap[..], c) <==> c in accepted)
        decreases ctr + 1 - i
      {
        ghost var was := bitmap[..];
        var idx := i % WINDOW;
        bitmap[idx / 64] := ClearBit(bitmap[idx / 64], idx % 64);
        assert bitmap[..] == was[idx / 64 := ClearBit(was[idx / 64], idx % 64)];
        forall c: nat | c <= i && ctr < c + WINDOW
          ensures Marked(bitmap[..], c) <==> c != i && Marked(was, c)
        {
          MarkedAfterClear(was, i, c);
          if c < i { DifferentSlots(c, i); }
        }
        i := (i + 1) % TWO64;
      }
    }

    method ClearAll()
      requires bitmap.Length == 64
      modifies bitmap
      ensures forall c: nat :: !Marked(bitmap[..], c)
    {
      var i := 0;
      while i < 64
        invariant i <= 64
        invariant forall k :: 0 <= k < i ==> bitmap[k] == 0
      {
        bitmap[i] := 0;
        i := i + 1;
      }
      forall c: nat
        ensures !Marked(bitmap[..], c)
      {
        BitOfZero(c % WINDOW % 64);
      }
    }

    /** Marks the slot of ctr; the other slots of the window ending at or after ctr are untouched. */
    method Mark(ctr: nat)
      requires bitmap.Length == 64
      modifies bitmap
      ensures Marked(bitmap[..], ctr)
      ensures forall c: nat :: c != ctr && c < ctr + WINDOW && ctr < c + WINDOW ==>
                (Marked(bitmap[..], c) <==> Marked(old(bitmap[..]), c))
    {
      hide Bit, SetBit, Marked;
      ghost var was := bitmap[..];
      var idx := ctr % WINDOW;
      bitmap[idx / 64] := SetBit(bitmap[idx / 64], idx % 64);
      assert bitmap[..] == was[idx / 64 := SetBit(was[idx / 64], idx % 64)];
      forall c: nat | c < ctr + WINDOW && ctr < c + WINDOW
        ensures Marked(bitmap[..], c) <==> c == ctr || Marked(was, c)
      {
        MarkedAfterSet(was, ctr, c);
        if c < ctr { DifferentSlots(c, ctr); } else if ctr < c { DifferentSlots(ctr, c); }
      }
    }

    /** The bitmap answers as the set of all accepted counters would. */
    method Check(ctr: nat) returns (ok: bool)
      requires Valid() && ctr < TWO64
      requires ctr == TWO64 - 1 ==> ctr <= maxSeq || ctr >= maxSeq + WINDOW
      modifies this, bitmap
      ensures Valid()
      ensures ok == old(Abstract()).Accepts(ctr)
      ensures Abstract() == old(Abstract()).Next(ctr)
    {
      hide Marked;
      if ctr > maxSeq {
        var diff := ctr - maxSeq;
        if diff >= WINDOW {
          ClearAll();
        } else {
          ClearPassed(ctr);
        }
        Mark(ctr);
        accepted := accepted + {ctr};
        maxSeq := ctr;
        return true;
      }
      if maxSeq - ctr >= WINDOW { return false; }
      var idx := ctr % WINDOW;
      var marked := Bit(bitmap[idx / 64], idx % 64);
      assert marked == Marked(bitmap[..], ctr) by { MarkedIs(bitmap[..], ctr); }
      if marked { return false; }
      Mark(ctr);
      accepted := accepted + {ctr};
      ok := true;
    }
  }

  lemma MarkedIs(bitmap: seq<nat>, c: nat)
    requires |bitmap| == 64
    ensures Marked(bitmap, c) <==> Bit(bitmap[c % WINDOW / 64], c % WINDOW % 64)
  {
  }
}

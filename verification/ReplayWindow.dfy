// src/internal/replay.ts: the bounded window of recently accepted counters.
module ReplayWindow {
  import opened ConstantTime
  import opened Lists

  // Counters are unsigned 64-bit values, which is all a parsed header yields.
  type Ctr = n: nat | n < TWO64

  // ------------------------------------------------------------------- spec

  predicate Fresh(w: nat, q: seq<Ctr>, c: Ctr) { w == 0 || c !in q }

  function Slide(w: nat, q: seq<Ctr>, c: Ctr): seq<Ctr> {
    if w == 0 || c in q then q
    else if |q| >= w then q[1..] + [c]
    else q + [c]
  }

  // Any w + 1 consecutive entries are pairwise distinct.
  ghost predicate RecentDistinct(w: nat, log: seq<Ctr>) {
    forall i, j | 0 <= i < j < |log| && j - i <= w :: log[i] != log[j]
  }

  // A window that holds the last w of the accepted counters refuses exactly
  // what would repeat within the last w, and keeps holding the last w.
  lemma AcceptExtends(w: nat, log: seq<Ctr>, c: Ctr)
    requires w >= 1 && RecentDistinct(w, log)
    ensures Fresh(w, LastN(log, w), c) <==> RecentDistinct(w, log + [c])
    ensures Fresh(w, LastN(log, w), c) ==> Slide(w, LastN(log, w), c) == LastN(log + [c], w)
  {
    var q, log' := LastN(log, w), log + [c];
    if c in q {
      var k :| 0 <= k < |q| && q[k] == c;
      assert log'[|log| - |q| + k] == log'[|log|];
    } else {
      forall i, j | 0 <= i < j < |log'| && j - i <= w ensures log'[i] != log'[j] {
        if j == |log| { assert log[i] == q[i - (|log| - |q|)]; }
      }
    }
  }

  // ------------------------------------------------------------------ class

  class SlidingReplayWindow {
    const windowSize: nat
    var seen: set<Ctr>
    var queue: seq<Ctr>

    ghost predicate Valid()
      reads this
    {
      seen == Elems(queue) && NoDup(queue) && |queue| <= windowSize
    }

    constructor (windowSize: nat)
      ensures Valid() && this.windowSize == windowSize && queue == []
    {
      this.windowSize := windowSize;
      this.seen := {};
      this.queue := [];
    }

    // The scan that check and accept share.
    method Seen(ctr: Ctr) returns (found: bool)
      requires Valid()
      ensures found <==> ctr in queue
    {
      var rest := seen;
      while rest != {}
        invariant rest <= seen
        invariant forall s | s in seen && s !in rest :: s != ctr
        decreases rest
      {
        var s :| s in rest;
        var equal := CtBigintEqual(s, ctr);
        if equal { return true; }
        rest := rest - {s};
      }
      assert forall s | s in queue :: s in seen && s !in rest;
      return false;
    }

    method Check(ctr: Ctr) returns (ok: bool)
      requires Valid()
      ensures ok == Fresh(windowSize, queue, ctr)
    {
      if windowSize == 0 { return true; }
      var found := Seen(ctr);
      return !found;
    }

    method Accept(ctr: Ctr)
      requires Valid()
      modifies this
      ensures Valid() && queue == Slide(windowSize, old(queue), ctr)
    {
      if windowSize == 0 { return; }
      var alreadySeen := Seen(ctr);
      if alreadySeen { return; }
      if |queue| >= windowSize {
        var oldest := queue[0];
        assert queue == [oldest] + queue[1..];
        queue := queue[1..];
        seen := seen - {oldest};
      }
      assert Elems(queue + [ctr]) == Elems(queue) + {ctr};
      seen := seen + {ctr};
      queue := queue + [ctr];
    }

    method Clear()
      requires Valid()
      modifies this
      ensures Valid() && queue == []
    {
      seen := {};
      queue := [];
    }
  }
}

// src/worker-frame.ts: coalescing of the starvation signals. The decode side
// and the encode side use the same rule on their own four fields.
module Starvation {

  const STARVE_COALESCE_MS: real := 1000.0

  datatype Starve = Starve(active: bool, sinceMs: real, framesDropped: nat, lastEmitMs: real)

  const IDLE := Starve(false, 0.0, 0, 0.0)

  // Whether a drop now is signalled.
  predicate Signalled(s: Starve, now: real) { !s.active || now - s.lastEmitMs >= STARVE_COALESCE_MS }

  function NoteDrop(s: Starve, now: real): Starve {
    if !s.active then Starve(true, now, 1, now)
    else Starve(true, s.sinceMs, s.framesDropped + 1, if Signalled(s, now) then now else s.lastEmitMs)
  }

  // The end of an episode, if one is on.
  function Clear(s: Starve): Starve { if s.active then IDLE else s }

  // ------------------------------------------------------------ one episode

  datatype Signal = Signal(at: real, framesDropped: nat, sinceMs: real)

  // The fields, and the signals sent, after drops at these times.
  function After(times: seq<real>): Starve {
    if times == [] then IDLE else NoteDrop(After(times[..|times| - 1]), times[|times| - 1])
  }

  function Signals(times: seq<real>): seq<Signal> {
    if times == [] then []
    else
      var init, now := times[..|times| - 1], times[|times| - 1];
      var s := NoteDrop(After(init), now);
      Signals(init) + if Signalled(After(init), now) then [Signal(now, s.framesDropped, now - s.sinceMs)] else []
  }

  lemma {:induction false} EpisodeState(times: seq<real>)
    requires times != []
    ensures var s := After(times);
      && s.active && s.sinceMs == times[0] && s.framesDropped == |times|
      && Signals(times) != [] && s.lastEmitMs == Signals(times)[|Signals(times)| - 1].at
    ensures Signals(times)[0] == Signal(times[0], 1, 0.0)
  {
    var init := times[..|times| - 1];
    if init != [] { EpisodeState(init); }
  }

  // Each signal reports the exact number of drops so far and the time since
  // the first of them.
  lemma {:induction false} SignalsAreExact(times: seq<real>, k: nat) returns (i: nat)
    requires k < |Signals(times)|
    ensures i < |times| && Signals(times)[k] == Signal(times[i], i + 1, times[i] - times[0])
  {
    EpisodeState(times);
    var init := times[..|times| - 1];
    if k < |Signals(init)| {
      i := SignalsAreExact(init, k);
    } else {
      i := |times| - 1;
      if init != [] { EpisodeState(init); }
    }
  }

  // Two signals in a row are at least the window apart, and the later one
  // counts more drops.
  lemma {:induction false} SignalsAreSpaced(times: seq<real>, k: nat)
    requires k + 1 < |Signals(times)|
    ensures Signals(times)[k + 1].at - Signals(times)[k].at >= STARVE_COALESCE_MS
    ensures Signals(times)[k + 1].framesDropped > Signals(times)[k].framesDropped
  {
    var init := times[..|times| - 1];
    EpisodeState(init);
    if k + 1 < |Signals(init)| {
      SignalsAreSpaced(init, k);
    } else {
      var i := SignalsAreExact(init, k);
    }
  }

  // A drop is left unsignalled only while the last signal is less than the
  // window old.
  lemma {:induction false} SilenceIsShort(times: seq<real>, i: nat) returns (k: nat)
    requires i < |times|
    ensures k < |Signals(times)|
    ensures Signals(times)[k].at == times[i] || times[i] - Signals(times)[k].at < STARVE_COALESCE_MS
    ensures Signals(times)[k].framesDropped <= i + 1
  {
    var init := times[..|times| - 1];
    if i < |init| {
      k := SilenceIsShort(init, i);
    } else {
      EpisodeState(times);
      k := |Signals(times)| - 1;
      if init != [] && !Signalled(After(init), times[i]) {
        EpisodeState(init);
        var j := SignalsAreExact(init, k);
      }
    }
  }

  ghost predicate NonDecreasing(times: seq<real>) {
    forall i, j | 0 <= i < j < |times| :: times[i] <= times[j]
  }

  lemma {:induction false} SignalAtLeast(times: seq<real>, k: nat)
    requires k < |Signals(times)|
    ensures Signals(times)[k].at - times[0] >= k as real * STARVE_COALESCE_MS
    decreases k
  {
    EpisodeState(times);
    if k > 0 {
      SignalAtLeast(times, k - 1);
      SignalsAreSpaced(times, k - 1);
    }
  }

  // An episode of length T sends at most 1 + floor(T / 1000) signals.
  lemma SignalsAreFew(times: seq<real>)
    requires times != [] && NonDecreasing(times)
    ensures |Signals(times)| <= 1 + ((times[|times| - 1] - times[0]) / STARVE_COALESCE_MS).Floor
  {
    EpisodeState(times);
    var last := |Signals(times)| - 1;
    SignalAtLeast(times, last);
    var i := SignalsAreExact(times, last);
    var length := times[|times| - 1] - times[0];
    assert length >= last as real * STARVE_COALESCE_MS;
    assert length / STARVE_COALESCE_MS >= last as real;
  }
}

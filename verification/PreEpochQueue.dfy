// src/worker-frame.ts: the bounded queue of frames that arrived before their
// keys. Overflow evicts the newest queued frame.
module PreEpochQueue {

  const PRE_EPOCH_QUEUE_CAP: nat := 50

  predicate Overflows<T>(queue: seq<T>, cap: nat) { |queue| >= cap }

  function Push<T>(queue: seq<T>, cap: nat, frame: T): seq<T> {
    (if Overflows(queue, cap) && queue != [] then queue[..|queue| - 1] else queue) + [frame]
  }

  function PushAll<T>(queue: seq<T>, cap: nat, frames: seq<T>): seq<T> {
    if frames == [] then queue
    else Push(PushAll(queue, cap, frames[..|frames| - 1]), cap, frames[|frames| - 1])
  }

  function Overflowed<T>(queue: seq<T>, cap: nat, frames: seq<T>): nat {
    if frames == [] then 0
    else
      var init := frames[..|frames| - 1];
      Overflowed(queue, cap, init) + if Overflows(PushAll(queue, cap, init), cap) then 1 else 0
  }

  // Everything pushed while it fits; beyond that the head of the stream and
  // the newest frame, and one overflow for every frame that is gone.
  lemma {:induction false} PushAllKeepsHead<T>(cap: nat, frames: seq<T>)
    requires cap >= 1
    ensures PushAll([], cap, frames)
         == if |frames| <= cap then frames else frames[..cap - 1] + [frames[|frames| - 1]]
    ensures Overflowed([], cap, frames) == if |frames| <= cap then 0 else |frames| - cap
  {
    if frames != [] {
      var init, last := frames[..|frames| - 1], frames[|frames| - 1];
      PushAllKeepsHead(cap, init);
      assert frames == init + [last];
      if |frames| > cap {
        var queued := PushAll([], cap, init);
        assert queued[..|queued| - 1] == frames[..cap - 1];
      }
    }
  }

  lemma {:induction false} PushAllAppend<T>(queue: seq<T>, cap: nat, frames: seq<T>, more: seq<T>)
    ensures PushAll(queue, cap, frames + more) == PushAll(PushAll(queue, cap, frames), cap, more)
    ensures Overflowed(queue, cap, frames + more)
         == Overflowed(queue, cap, frames) + Overflowed(PushAll(queue, cap, frames), cap, more)
  {
    if more == [] {
      assert frames + more == frames;
    } else {
      assert (frames + more)[..|frames + more| - 1] == frames + more[..|more| - 1];
      PushAllAppend(queue, cap, frames, more[..|more| - 1]);
    }
  }
}

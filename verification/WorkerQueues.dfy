// Over every run: drains, the frames of a drain pass, and the starvation
// signals.
module WorkerQueues {
  import opened Bytes
  import opened KidFormat
  import opened PreEpochQueue
  import opened Starvation
  import opened WorkerEffects
  import opened WorkerFrames
  import opened WorkerRuns
  import opened WorkerState

  // -------------------------------------------------------- drain coalescing

  predicate Requests(s: State, ev: Event) {
    ev.Install? && Encodable(s.conf.kidCodec, ev.epoch, ev.bundles.Keys)
  }

  predicate TakesSnapshot(s: State, ev: Event) {
    || (Requests(s, ev) && !s.drain.draining)
    || (ev.DrainDone? && s.drain.draining && s.drain.pass == [] && s.drain.pendingDrain)
  }

  // How many drains were requested, how many passes were started, and when
  // each last happened, counting events from 1.
  function RequestCount(u: Setup, evs: seq<Event>): nat {
    if evs == [] then 0
    else
      var init := evs[..|evs| - 1];
      RequestCount(u, init) + if Requests(Run(u, init), evs[|evs| - 1]) then 1 else 0
  }

  function SnapshotCount(u: Setup, evs: seq<Event>): nat {
    if evs == [] then 0
    else
      var init := evs[..|evs| - 1];
      SnapshotCount(u, init) + if TakesSnapshot(Run(u, init), evs[|evs| - 1]) then 1 else 0
  }

  function LastRequest(u: Setup, evs: seq<Event>): nat {
    if evs == [] then 0
    else if Requests(Run(u, evs[..|evs| - 1]), evs[|evs| - 1]) then |evs|
    else LastRequest(u, evs[..|evs| - 1])
  }

  function LastSnapshot(u: Setup, evs: seq<Event>): nat {
    if evs == [] then 0
    else if TakesSnapshot(Run(u, evs[..|evs| - 1]), evs[|evs| - 1]) then |evs|
    else LastSnapshot(u, evs[..|evs| - 1])
  }

  lemma FrameKeepsFlags(env: Env, s: State, ev: Event)
    requires FrameEvent(ev)
    ensures var d := Step(env, s, ev).0.drain;
      d.draining == s.drain.draining && d.pendingDrain == s.drain.pendingDrain
  {
    hide DecodeFrame, DrainFrame, KeysFollow, WindowsFollow, CountsFollow, Speaks, Push;
    if ev.Decode? {
      DecodeFollows(env, s, ev.frame, ev.durableFresh, ev.now);
    } else if s.drain.draining && s.drain.pass != [] {
      DrainFollows(env, s.(drain := s.drain.(pass := s.drain.pass[1..])), s.drain.pass[0], ev.durableFresh, ev.now);
    }
  }

  // What one event does to the two flags.
  lemma StepFlags(env: Env, s: State, ev: Event)
    ensures var d := Step(env, s, ev).0.drain;
      && (Requests(s, ev) && s.drain.draining ==> d.draining && d.pendingDrain)
      && (Requests(s, ev) && !s.drain.draining ==> d.draining && d.pendingDrain == s.drain.pendingDrain && d.pass == s.drain.preEpochQueue)
      && (ev.DrainDone? && TakesSnapshot(s, ev) ==> d.draining && !d.pendingDrain && d.pass == s.drain.preEpochQueue)
      && (ev.DrainDone? && !TakesSnapshot(s, ev) ==> d.pendingDrain == s.drain.pendingDrain)
      && (!Requests(s, ev) && !ev.DrainDone? ==> d.draining == s.drain.draining && d.pendingDrain == s.drain.pendingDrain)
      && (ev.DrainDone? && !TakesSnapshot(s, ev) && d.pendingDrain ==> d.draining == s.drain.draining)
  {
    hide DecodeFrame, DrainNext, Encodable, Keys, ResetCounts, EncodeOrDrop;
    if FrameEvent(ev) { FrameKeepsFlags(env, s, ev); }
    if ev.Encode? { EncodeTouches(s, ev.frame, ev.now); }
  }

  // A pending request implies a running drain; there are never more passes
  // than requests; and when no request is pending, in particular when no drain
  // is running, a pass has started at or after the last request.
  lemma {:induction false} DrainsCoalesce(u: Setup, evs: seq<Event>)
    ensures var d := Run(u, evs).drain;
      && (d.pendingDrain ==> d.draining)
      && SnapshotCount(u, evs) + (if d.pendingDrain then 1 else 0) <= RequestCount(u, evs)
      && (!d.pendingDrain ==> LastRequest(u, evs) <= LastSnapshot(u, evs))
      && LastRequest(u, evs) <= |evs| && LastSnapshot(u, evs) <= |evs|
  {
    hide Step, Encodable;
    if evs != [] {
      var init, last := evs[..|evs| - 1], evs[|evs| - 1];
      DrainsCoalesce(u, init);
      StepFlags(u.env, Run(u, init), last);
    }
  }

  // ------------------------------------------------------------- a drain pass

  datatype Answer = Answer(durableFresh: bool, now: real)

  // A pass with nothing in between, and what became of each frame.
  function DrainAll(env: Env, s: State, frames: seq<Frame>, answers: seq<Answer>): (State, seq<Report>)
    requires |answers| == |frames|
    decreases |frames|
  {
    if frames == [] then (s, [])
    else
      var (s1, r) := DrainFrame(env, s, frames[0], answers[0].durableFresh, answers[0].now);
      var (s2, rs) := DrainAll(env, s1, frames[1..], answers[1..]);
      (s2, [r] + rs)
  }

  function Requeued(frames: seq<Frame>, rs: seq<Report>): seq<Frame>
    requires |rs| == |frames|
  {
    if frames == [] then []
    else (if rs[0].Queued? then [frames[0]] else []) + Requeued(frames[1..], rs[1..])
  }

  predicate Silent(r: Report) { r.Delivered? || r.Queued? || (r.Refused? && r.error.StaleEpoch?) }

  // Frames that were neither decoded, queued again nor stale.
  function Troubled(rs: seq<Report>): nat {
    if rs == [] then 0 else (if Silent(rs[0]) then 0 else 1) + Troubled(rs[1..])
  }

  predicate Overflow(m: OutMsg) { m == DecryptFailure(QueueOverflow) }

  predicate Trouble(m: OutMsg) { m.DecryptFailure? && m.reason != QueueOverflow }

  function Tally(log: seq<OutMsg>, kind: OutMsg -> bool): nat {
    if log == [] then 0 else Tally(log[..|log| - 1], kind) + if kind(log[|log| - 1]) then 1 else 0
  }

  lemma {:induction false} TallyAppend(a: seq<OutMsg>, b: seq<OutMsg>, kind: OutMsg -> bool)
    ensures Tally(a + b, kind) == Tally(a, kind) + Tally(b, kind)
  {
    if b == [] {
      assert a + b == a;
    } else {
      assert (a + b)[..|a + b| - 1] == a + b[..|b| - 1];
      TallyAppend(a, b[..|b| - 1], kind);
    }
  }

  lemma TallySmall(log: seq<OutMsg>, kind: OutMsg -> bool)
    requires |log| <= 2
    ensures Tally(log, kind) == (if |log| > 0 && kind(log[0]) then 1 else 0) + (if |log| > 1 && kind(log[1]) then 1 else 0)
  {
    if |log| == 2 { assert log[..1] == [log[0]] && [log[0]][..0] == []; }
  }

  lemma SaidTallies(s: State, r: Report, now: real)
    requires r.Refused? || r.Delivered? || r.Queued?
    ensures Tally(Said(s, r, now, Draining), Trouble) == if Silent(r) then 0 else 1
    ensures Tally(Said(s, r, now, Draining), Overflow)
         == if r.Queued? && Overflows(s.drain.preEpochQueue, s.conf.preEpochQueueCap) then 1 else 0
  {
    hide Tally, Count, Signalled, NoteDrop;
    TallySmall(Said(s, r, now, Draining), Trouble);
    TallySmall(Said(s, r, now, Draining), Overflow);
  }

  lemma DrainReports(env: Env, s: State, frame: Frame, durableFresh: bool, now: real)
    ensures var r := DrainFrame(env, s, frame, durableFresh, now).1;
      r.Refused? || r.Delivered? || r.Queued?
  {
    hide Resolve, HeaderOf, Admit, PushToQueue;
  }

  lemma OneFrame(env: Env, s: State, frame: Frame, a: Answer)
    ensures var (s', r) := DrainFrame(env, s, frame, a.durableFresh, a.now);
      var queue, cap := s.drain.preEpochQueue, s.conf.preEpochQueueCap;
      && s'.conf == s.conf
      && (r.Refused? || r.Delivered? || r.Queued?)
      && s'.drain == s.drain.(preEpochQueue := if r.Queued? then Push(queue, cap, frame) else queue)
      && Tally(s'.log, Trouble) == Tally(s.log, Trouble) + (if Silent(r) then 0 else 1)
      && Tally(s'.log, Overflow) == Tally(s.log, Overflow) + if r.Queued? && Overflows(queue, cap) then 1 else 0
  {
    hide DrainFrame, Push, Tally, Said, WindowsFollow, CountsFollow, Overflows;
    DrainFollows(env, s, frame, a.durableFresh, a.now);
    DrainReports(env, s, frame, a.durableFresh, a.now);
    var r := DrainFrame(env, s, frame, a.durableFresh, a.now).1;
    TallyAppend(s.log, Said(s, r, a.now, Draining), Trouble);
    TallyAppend(s.log, Said(s, r, a.now, Draining), Overflow);
    SaidTallies(s, r, a.now);
  }

  // Every frame of a pass ends in exactly one way: decoded, reported by one
  // message, dropped as stale, or queued again in order, where overflow takes
  // what does not fit and says so once for each frame.
  lemma {:induction false} PassIsConserved(env: Env, s: State, frames: seq<Frame>, answers: seq<Answer>)
    requires |answers| == |frames|
    ensures var (s', rs) := DrainAll(env, s, frames, answers);
      && |rs| == |frames| && s'.conf == s.conf
      && (forall r | r in rs :: r.Refused? || r.Delivered? || r.Queued?)
      && var back, queue, cap := Requeued(frames, rs), s.drain.preEpochQueue, s.conf.preEpochQueueCap;
      && s'.drain == s.drain.(preEpochQueue := PushAll(queue, cap, back))
      && Tally(s'.log, Trouble) == Tally(s.log, Trouble) + Troubled(rs)
      && Tally(s'.log, Overflow) == Tally(s.log, Overflow) + Overflowed(queue, cap, back)
    decreases |frames|
  {
    hide DrainFrame, PushAll, Overflowed, Push, Overflows, Tally, Silent;
    var queue, cap := s.drain.preEpochQueue, s.conf.preEpochQueueCap;
    if frames == [] {
      PushNone(queue, cap);
    } else {
      var (s1, r) := DrainFrame(env, s, frames[0], answers[0].durableFresh, answers[0].now);
      OneFrame(env, s, frames[0], answers[0]);
      PassIsConserved(env, s1, frames[1..], answers[1..]);
      var rs := DrainAll(env, s1, frames[1..], answers[1..]).1;
      assert ([r] + rs)[1..] == rs;
      PushOne(queue, cap, frames[0]);
      PushNone(queue, cap);
      PushAllAppend(queue, cap, if r.Queued? then [frames[0]] else [], Requeued(frames[1..], rs));
    }
  }

  lemma PushOne<T>(queue: seq<T>, cap: nat, frame: T)
    ensures PushAll(queue, cap, [frame]) == Push(queue, cap, frame)
    ensures Overflowed(queue, cap, [frame]) == if Overflows(queue, cap) then 1 else 0
  {
    assert [frame][..0] == [];
  }

  lemma PushNone<T>(queue: seq<T>, cap: nat)
    ensures PushAll(queue, cap, []) == queue && Overflowed(queue, cap, []) == 0
  {
  }

  // ------------------------------------------------------ the queue in a run

  // The frame a frame event is about.
  function Subject(s: State, ev: Event): Frame
    requires ev.Decode? || (ev.DrainStep? && s.drain.pass != [])
  {
    if ev.Decode? then ev.frame else s.drain.pass[0]
  }

  lemma FramePushes(env: Env, s: State, ev: Event)
    requires FrameEvent(ev)
    ensures var (s', r) := Step(env, s, ev);
      && (r.Queued? ==> ev.Decode? || s.drain.pass != [])
      && s'.drain.preEpochQueue
           == if r.Queued? then Push(s.drain.preEpochQueue, s.conf.preEpochQueueCap, Subject(s, ev)) else s.drain.preEpochQueue
  {
    hide DecodeFrame, DrainFrame, KeysFollow, WindowsFollow, CountsFollow, Speaks, Push;
    if ev.Decode? {
      DecodeFollows(env, s, ev.frame, ev.durableFresh, ev.now);
    } else if s.drain.draining && s.drain.pass != [] {
      DrainFollows(env, s.(drain := s.drain.(pass := s.drain.pass[1..])), s.drain.pass[0], ev.durableFresh, ev.now);
    }
  }

  // The frames queued since the queue was last emptied.
  function Pushed(u: Setup, evs: seq<Event>): seq<Frame> {
    if evs == [] then []
    else
      var init, last := evs[..|evs| - 1], evs[|evs| - 1];
      var s, r := Run(u, init), ReportOf(u, init, last);
      if last.TeardownMsg? || TakesSnapshot(s, last) then []
      else if r.Queued? && (last.Decode? || (last.DrainStep? && s.drain.pass != [])) then Pushed(u, init) + [Subject(s, last)]
      else Pushed(u, init)
  }

  // In every run the queue is what pushing these frames into an empty queue
  // gives: all of them while they fit, else the oldest and the newest.
  lemma {:induction false} QueueIsPushed(u: Setup, evs: seq<Event>)
    ensures Run(u, evs).drain.preEpochQueue == PushAll([], u.cap, Pushed(u, evs))
  {
    hide Step, PushAll, Push, Encodable;
    if evs == [] {
      PushNone<Frame>([], u.cap);
    } else {
      var init, last := evs[..|evs| - 1], evs[|evs| - 1];
      QueueIsPushed(u, init);
      CodecStays(u, init);
      var s := Run(u, init);
      if last.TeardownMsg? || TakesSnapshot(s, last) {
        QueueEmptied(u.env, s, last);
        PushNone<Frame>([], u.cap);
      } else if FrameEvent(last) {
        FramePushes(u.env, s, last);
        if Step(u.env, s, last).1.Queued? { PushSnoc(u.cap, Pushed(u, init), Subject(s, last)); }
      } else {
        ControlKeepsQueue(u.env, s, last);
        ControlReportsNothing(u.env, s, last);
      }
    }
  }

  lemma PushSnoc<T>(cap: nat, frames: seq<T>, frame: T)
    ensures PushAll([], cap, frames + [frame]) == Push(PushAll([], cap, frames), cap, frame)
  {
    assert (frames + [frame])[..|frames|] == frames;
  }

  lemma QueueEmptied(env: Env, s: State, ev: Event)
    requires ev.TeardownMsg? || TakesSnapshot(s, ev)
    ensures Step(env, s, ev).0.drain.preEpochQueue == []
  {
    hide Encodable, Keys, ResetCounts;
  }

  lemma ControlKeepsQueue(env: Env, s: State, ev: Event)
    requires !FrameEvent(ev) && !ev.TeardownMsg? && !TakesSnapshot(s, ev)
    ensures Step(env, s, ev).0.drain.preEpochQueue == s.drain.preEpochQueue
  {
    hide Encodable, Keys, ResetCounts, EncodeOrDrop;
    if ev.Encode? { EncodeTouches(s, ev.frame, ev.now); }
  }

  // -------------------------------------------------- starvation in a run

  predicate Starves(s: State, r: Report) { r.Queued? && Overflows(s.drain.preEpochQueue, s.conf.preEpochQueueCap) }

  // The drops since the last delivered frame, and the signals sent for them.
  function Drops(u: Setup, evs: seq<Event>): seq<real> {
    if evs == [] then []
    else
      var init, last := evs[..|evs| - 1], evs[|evs| - 1];
      var r := ReportOf(u, init, last);
      if r.Delivered? then []
      else if FrameEvent(last) && Starves(Run(u, init), r) then Drops(u, init) + [last.now]
      else Drops(u, init)
  }

  function Starved(log: seq<OutMsg>): seq<OutMsg> {
    if log == [] then []
    else Starved(log[..|log| - 1]) + if log[|log| - 1].DecryptStarved? then [log[|log| - 1]] else []
  }

  // What an event adds to the log.
  function Added(u: Setup, evs: seq<Event>, ev: Event): seq<OutMsg> {
    var before, after := Run(u, evs).log, Run(u, evs + [ev]).log;
    if |before| <= |after| then after[|before|..] else []
  }

  function StarvedSinceDelivery(u: Setup, evs: seq<Event>): seq<OutMsg> {
    if evs == [] then []
    else
      var init, last := evs[..|evs| - 1], evs[|evs| - 1];
      if ReportOf(u, init, last).Delivered? then [] else StarvedSinceDelivery(u, init) + Starved(Added(u, init, last))
  }

  // Message by message, the signals of the episode.
  ghost predicate Mirror(msgs: seq<OutMsg>, signals: seq<Signal>) {
    && |msgs| == |signals|
    && forall i | 0 <= i < |msgs| :: msgs[i].DecryptStarved?
         && msgs[i].framesDropped == signals[i].framesDropped && msgs[i].sinceMs == signals[i].sinceMs
  }

  lemma StarvedSmall(log: seq<OutMsg>)
    requires |log| <= 2
    ensures Starved(log) == (if |log| > 0 && log[0].DecryptStarved? then [log[0]] else [])
                          + (if |log| > 1 && log[1].DecryptStarved? then [log[1]] else [])
  {
    if |log| == 2 { assert log[..1] == [log[0]] && [log[0]][..0] == []; }
  }

  lemma AfterSnoc(times: seq<real>, now: real)
    ensures After(times + [now]) == NoteDrop(After(times), now)
    ensures Signals(times + [now]) == Signals(times) +
      if Signalled(After(times), now)
      then [Signal(now, NoteDrop(After(times), now).framesDropped, now - NoteDrop(After(times), now).sinceMs)] else []
  {
    assert (times + [now])[..|times|] == times;
  }

  lemma SaidStarves(s: State, r: Report, now: real, path: Path)
    ensures Starved(Said(s, r, now, path)) == if Starves(s, r) && Signalled(s.starve, now)
      then [DecryptStarved(Some(r.peer), NoteDrop(s.starve, now).framesDropped, now - NoteDrop(s.starve, now).sinceMs)] else []
  {
    hide Starved, NoteDrop, Signalled, Count;
    StarvedSmall(Said(s, r, now, path));
  }

  // In every run the episode's fields and messages are those of its drops, so
  // everything proved of an episode holds of the worker.
  lemma {:induction false} EpisodeIsFaithful(u: Setup, evs: seq<Event>)
    ensures Run(u, evs).starve == After(Drops(u, evs))
    ensures Mirror(StarvedSinceDelivery(u, evs), Signals(Drops(u, evs)))
  {
    hide Run, Step, After, Signals, Starved, Clear, Added, Mirror;
    NoSignals();
    if evs == [] {
      NothingStarves(u);
    } else {
      var init, last := evs[..|evs| - 1], evs[|evs| - 1];
      EpisodeIsFaithful(u, init);
      assert evs == init + [last];
      StarveStepEffect(u, init, last);
      ClearedIsIdle(Drops(u, init));
      NothingMirrors();
      var msgs, drops, added := StarvedSinceDelivery(u, init), Drops(u, init), Starved(Added(u, init, last));
      MirrorSame(msgs, drops);
      if FrameEvent(last) && Starves(Run(u, init), ReportOf(u, init, last)) {
        MirrorSnoc(msgs, drops, last.now, added);
      }
    }
  }

  // The worker names a starved peer exactly while an episode is on.
  lemma {:induction false} PeerIsOfEpisode(u: Setup, evs: seq<Event>)
    ensures Run(u, evs).starvePeerIndex.Some? <==> Run(u, evs).starve.active
  {
    hide DecodeFrame, DrainNext, Encodable, Keys, ResetCounts, EncodeOrDrop, KeysFollow, WindowsFollow, CountsFollow;
    if evs != [] {
      var init, last := evs[..|evs| - 1], evs[|evs| - 1];
      PeerIsOfEpisode(u, init);
      var s := Run(u, init);
      if last.Encode? { EncodeTouches(s, last.frame, last.now); }
      if FrameEvent(last) { StepOfFrame(u.env, s, last); }
    }
  }

  lemma NothingStarves(u: Setup)
    ensures Run(u, []).starve == IDLE && Run(u, []).encryptStarve == IDLE && Mirror([], Signals([]))
  {
  }

  lemma NothingMirrors()
    ensures Mirror([], [])
  {
  }

  // What the message of a signal says.
  predicate Says(m: OutMsg, s: Starve, now: real) {
    m.DecryptStarved? && m.framesDropped == NoteDrop(s, now).framesDropped && m.sinceMs == now - NoteDrop(s, now).sinceMs
  }

  lemma MirrorSnoc(msgs: seq<OutMsg>, times: seq<real>, now: real, added: seq<OutMsg>)
    requires Mirror(msgs, Signals(times))
    requires |added| == if Signalled(After(times), now) then 1 else 0
    requires added != [] ==> Says(added[0], After(times), now)
    ensures Mirror(msgs + added, Signals(times + [now]))
    ensures After(times + [now]) == NoteDrop(After(times), now)
  {
    hide NoteDrop, Signals, Signalled;
    AfterSnoc(times, now);
  }

  lemma MirrorSame(msgs: seq<OutMsg>, times: seq<real>)
    requires Mirror(msgs, Signals(times))
    ensures Mirror(msgs + [], Signals(times))
  {
    assert msgs + [] == msgs;
  }

  lemma StarveStepEffect(u: Setup, evs: seq<Event>, ev: Event)
    ensures var s, s', r := Run(u, evs), Run(u, evs + [ev]), ReportOf(u, evs, ev);
      var added := Starved(Added(u, evs, ev));
      && (r.Delivered? ==> FrameEvent(ev) && s'.starve == Clear(s.starve))
      && (FrameEvent(ev) && Starves(s, r) ==> s'.starve == NoteDrop(s.starve, ev.now))
      && (FrameEvent(ev) && Starves(s, r) && Signalled(s.starve, ev.now) ==> |added| == 1 && Says(added[0], s.starve, ev.now))
      && (FrameEvent(ev) && Starves(s, r) && !Signalled(s.starve, ev.now) ==> added == [])
      && (!r.Delivered? && !(FrameEvent(ev) && Starves(s, r)) ==> s'.starve == s.starve && added == [])
  {
    hide Step, Run, Starved, NoteDrop, Signalled, Clear, WindowsFollow, CountsFollow, Said;
    RunSnoc(u, evs, ev);
    var s := Run(u, evs);
    var r := ReportOf(u, evs, ev);
    if FrameEvent(ev) {
      StepOfFrame(u.env, s, ev);
      assert Added(u, evs, ev) == Said(s, r, ev.now, PathOf(ev));
      SaidStarves(s, r, ev.now, PathOf(ev));
    } else {
      ControlStarvesNothing(u, evs, ev);
      ControlReportsNothing(u.env, s, ev);
    }
  }

  lemma NoSignals()
    ensures Signals([]) == [] && After([]) == IDLE
  {
  }

  lemma ClearedIsIdle(times: seq<real>)
    ensures Clear(After(times)) == IDLE
  {
    if times != [] { EpisodeState(times); }
  }

  lemma ControlStarvesNothing(u: Setup, evs: seq<Event>, ev: Event)
    requires !FrameEvent(ev)
    ensures Run(u, evs + [ev]).starve == Run(u, evs).starve && Starved(Added(u, evs, ev)) == []
  {
    hide Encodable, Keys, ResetCounts, EncodeOrDrop, Starved, Run;
    RunSnoc(u, evs, ev);
    if ev.Encode? { EncodeTouches(Run(u, evs), ev.frame, ev.now); }
    StarvedSmall(Added(u, evs, ev));
  }

  // ------------------------------------------------------- the bound, in a run

  // The events that read the clock.
  predicate Timed(ev: Event) { FrameEvent(ev) || ev.Encode? }

  ghost predicate ClockNeverGoesBack(evs: seq<Event>) {
    forall i, j | 0 <= i < j < |evs| && Timed(evs[i]) && Timed(evs[j]) :: evs[i].now <= evs[j].now
  }

  // Times in order, all of them readings of the run.
  ghost predicate Readings(times: seq<real>, evs: seq<Event>) {
    && NonDecreasing(times)
    && forall t | t in times :: exists i :: 0 <= i < |evs| && Timed(evs[i]) && evs[i].now == t
  }

  lemma ReadingsStay(times: seq<real>, init: seq<Event>, last: Event)
    requires Readings(times, init)
    ensures Readings(times, init + [last])
  {
    var evs := init + [last];
    forall t | t in times ensures exists i :: 0 <= i < |evs| && Timed(evs[i]) && evs[i].now == t {
      var i :| 0 <= i < |init| && Timed(init[i]) && init[i].now == t;
      assert Timed(evs[i]);
    }
  }

  lemma ReadingsGrow(times: seq<real>, init: seq<Event>, last: Event)
    requires Readings(times, init) && Timed(last) && ClockNeverGoesBack(init + [last])
    ensures Readings(times + [last.now], init + [last])
  {
    var evs, more := init + [last], times + [last.now];
    ReadingsStay(times, init, last);
    forall t | t in times ensures t <= last.now {
      var i :| 0 <= i < |init| && Timed(init[i]) && init[i].now == t;
      assert Timed(evs[i]) && Timed(evs[|init|]);
    }
    forall i, j | 0 <= i < j < |more| ensures more[i] <= more[j] {
      assert times[i] in times;
    }
    assert Timed(evs[|init|]) && evs[|init|].now == last.now;
  }

  lemma NoReadings(evs: seq<Event>)
    ensures Readings([], evs)
  {
  }

  lemma {:induction false} DropsAscend(u: Setup, evs: seq<Event>)
    requires ClockNeverGoesBack(evs)
    ensures Readings(Drops(u, evs), evs)
  {
    hide Run, Step, Readings;
    NoReadings(evs);
    if evs != [] {
      var init, last := evs[..|evs| - 1], evs[|evs| - 1];
      assert evs == init + [last];
      ClockStays(init, last);
      DropsAscend(u, init);
      ReadingsStay(Drops(u, init), init, last);
      if Timed(last) { ReadingsGrow(Drops(u, init), init, last); }
    }
  }

  lemma ClockStays(init: seq<Event>, last: Event)
    requires ClockNeverGoesBack(init + [last])
    ensures ClockNeverGoesBack(init)
  {
    assert forall i | 0 <= i < |init| :: (init + [last])[i] == init[i];
  }

  // Since the last delivered frame the worker has sent at most one signal, and
  // one more for every full second between the first drop and the last.
  lemma StarvedMessagesAreFew(u: Setup, evs: seq<Event>)
    requires ClockNeverGoesBack(evs) && Drops(u, evs) != []
    ensures var drops := Drops(u, evs);
      |StarvedSinceDelivery(u, evs)| <= 1 + ((drops[|drops| - 1] - drops[0]) / STARVE_COALESCE_MS).Floor
  {
    hide Drops, StarvedSinceDelivery;
    EpisodeIsFaithful(u, evs);
    DropsAscend(u, evs);
    SignalsAreFew(Drops(u, evs));
  }

  // And two of these messages in a row are at least a second apart by the
  // times they carry, the later one counting more drops.
  lemma StarvedMessagesAreSpaced(u: Setup, evs: seq<Event>, k: nat)
    requires k + 1 < |StarvedSinceDelivery(u, evs)|
    ensures var msgs := StarvedSinceDelivery(u, evs);
      && msgs[k].DecryptStarved? && msgs[k + 1].DecryptStarved?
      && msgs[k + 1].sinceMs - msgs[k].sinceMs >= STARVE_COALESCE_MS
      && msgs[k + 1].framesDropped > msgs[k].framesDropped
  {
    hide Drops, StarvedSinceDelivery;
    EpisodeIsFaithful(u, evs);
    var drops := Drops(u, evs);
    SignalsAreSpaced(drops, k);
    var i := SignalsAreExact(drops, k);
    var j := SignalsAreExact(drops, k + 1);
  }

  // --------------------------------------------------------- the encode side

  // The encode drops since the last finished encode or teardown.
  function EncodeDrops(u: Setup, evs: seq<Event>): seq<real> {
    if evs == [] then []
    else
      var init, last := evs[..|evs| - 1], evs[|evs| - 1];
      if last.TeardownMsg? || last.EncodeDone? then []
      else if last.Encode? && ReportOf(u, init, last).Nothing? then EncodeDrops(u, init) + [last.now]
      else EncodeDrops(u, init)
  }

  function Failures(log: seq<OutMsg>): nat {
    if log == [] then 0 else Failures(log[..|log| - 1]) + if log[|log| - 1].EncryptFailure? then 1 else 0
  }

  function TimeOf(ev: Event): real { if Timed(ev) then ev.now else 0.0 }

  // When the failure messages since the last finished encode or teardown were
  // sent: the time of their event, once for each message.
  function FailureTimes(u: Setup, evs: seq<Event>): seq<real> {
    if evs == [] then []
    else
      var init, last := evs[..|evs| - 1], evs[|evs| - 1];
      if last.TeardownMsg? || last.EncodeDone? then []
      else FailureTimes(u, init) + seq(Failures(Added(u, init, last)), i => TimeOf(last))
  }

  lemma FailuresSmall(log: seq<OutMsg>)
    requires |log| <= 2
    ensures Failures(log) == (if |log| > 0 && log[0].EncryptFailure? then 1 else 0)
                           + (if |log| > 1 && log[1].EncryptFailure? then 1 else 0)
  {
    if |log| == 2 { assert log[..1] == [log[0]] && [log[0]][..0] == []; }
  }

  lemma EncodeDropsOnce(s: State, frame: Frame, now: real)
    ensures var (s', r) := EncodeOrDrop(s, frame, now);
      && (r.Began? ==> s'.encryptStarve == s.encryptStarve && s'.log == s.log)
      && (!r.Began? ==> s'.encryptStarve == NoteDrop(s.encryptStarve, now))
      && (!r.Began? ==> |s'.log| == |s.log| + if Signalled(s.encryptStarve, now) then 1 else 0)
      && (|s'.log| > |s.log| ==> s'.log[|s.log|].EncryptFailure?)
  {
    hide KeyFor, NoteDrop, Signalled;
  }

  ghost predicate SentAt(times: seq<real>, signals: seq<Signal>) {
    |times| == |signals| && forall i | 0 <= i < |times| :: times[i] == signals[i].at
  }

  lemma NothingSent()
    ensures SentAt([], [])
  {
  }

  lemma SentAtSnoc(times: seq<real>, drops: seq<real>, now: real, n: nat)
    requires SentAt(times, Signals(drops)) && n == if Signalled(After(drops), now) then 1 else 0
    ensures SentAt(times + seq(n, i => now), Signals(drops + [now]))
  {
    hide NoteDrop, Signals, Signalled;
    AfterSnoc(drops, now);
  }

  // The twin on the encode side: an episode of its own drops, whose messages
  // are sent at the times of its signals.
  lemma {:induction false} EncodeEpisodeIsFaithful(u: Setup, evs: seq<Event>)
    ensures Run(u, evs).encryptStarve == After(EncodeDrops(u, evs))
    ensures SentAt(FailureTimes(u, evs), Signals(EncodeDrops(u, evs)))
  {
    hide Run, Step, After, Signals, Failures, NoteDrop, Signalled, Clear, Added, SentAt;
    NoSignals();
    NothingSent();
    if evs == [] {
      NothingStarves(u);
    } else {
      var init, last := evs[..|evs| - 1], evs[|evs| - 1];
      EncodeEpisodeIsFaithful(u, init);
      assert evs == init + [last];
      EncodeStepEffect(u, init, last);
      ClearedIsIdle(EncodeDrops(u, init));
      var n := Failures(Added(u, init, last));
      if last.Encode? && ReportOf(u, init, last).Nothing? {
        AfterSnoc(EncodeDrops(u, init), last.now);
        SentAtSnoc(FailureTimes(u, init), EncodeDrops(u, init), last.now, n);
        assert seq(n, i => TimeOf(last)) == seq(n, i => last.now);
      } else if n == 0 {
        assert FailureTimes(u, init) + seq(n, i => TimeOf(last)) == FailureTimes(u, init);
      }
    }
  }

  lemma {:induction false} EncodeDropsAscend(u: Setup, evs: seq<Event>)
    requires ClockNeverGoesBack(evs)
    ensures Readings(EncodeDrops(u, evs), evs)
  {
    hide Run, Step, Readings;
    NoReadings(evs);
    if evs != [] {
      var init, last := evs[..|evs| - 1], evs[|evs| - 1];
      assert evs == init + [last];
      ClockStays(init, last);
      EncodeDropsAscend(u, init);
      ReadingsStay(EncodeDrops(u, init), init, last);
      if Timed(last) { ReadingsGrow(EncodeDrops(u, init), init, last); }
    }
  }

  // Two failure messages in a row are sent at least a second apart.
  lemma EncryptFailuresAreSpaced(u: Setup, evs: seq<Event>, k: nat)
    requires k + 1 < |FailureTimes(u, evs)|
    ensures FailureTimes(u, evs)[k + 1] - FailureTimes(u, evs)[k] >= STARVE_COALESCE_MS
  {
    hide EncodeDrops, FailureTimes;
    EncodeEpisodeIsFaithful(u, evs);
    SignalsAreSpaced(EncodeDrops(u, evs), k);
  }

  // Since the last finished encode the worker has sent at most one failure
  // message, and one more for every full second between the first and the last
  // drop.
  lemma EncryptFailuresAreFew(u: Setup, evs: seq<Event>)
    requires ClockNeverGoesBack(evs) && EncodeDrops(u, evs) != []
    ensures var drops := EncodeDrops(u, evs);
      |FailureTimes(u, evs)| <= 1 + ((drops[|drops| - 1] - drops[0]) / STARVE_COALESCE_MS).Floor
  {
    hide EncodeDrops, FailureTimes;
    EncodeEpisodeIsFaithful(u, evs);
    EncodeDropsAscend(u, evs);
    SignalsAreFew(EncodeDrops(u, evs));
  }

  lemma EncodeStepEffect(u: Setup, evs: seq<Event>, ev: Event)
    ensures var s, s', r := Run(u, evs), Run(u, evs + [ev]), ReportOf(u, evs, ev);
      && (ev.TeardownMsg? ==> s'.encryptStarve == IDLE)
      && (ev.EncodeDone? ==> s'.encryptStarve == Clear(s.encryptStarve))
      && (ev.Encode? && r.Nothing? ==> s'.encryptStarve == NoteDrop(s.encryptStarve, ev.now))
      && (ev.Encode? && r.Nothing? ==> Failures(Added(u, evs, ev)) == if Signalled(s.encryptStarve, ev.now) then 1 else 0)
      && (!ev.TeardownMsg? && !ev.EncodeDone? && !(ev.Encode? && r.Nothing?) ==>
            s'.encryptStarve == s.encryptStarve && Failures(Added(u, evs, ev)) == 0)
  {
    hide DecodeFrame, DrainNext, Encodable, Keys, ResetCounts, EncodeOrDrop, Failures, Run, NoteDrop, Signalled,
         WindowsFollow, CountsFollow, Said;
    RunSnoc(u, evs, ev);
    var s := Run(u, evs);
    if FrameEvent(ev) {
      StepOfFrame(u.env, s, ev);
      var r := Step(u.env, s, ev).1;
      assert Added(u, evs, ev) == Said(s, r, ev.now, PathOf(ev));
      SaidFailsNothing(s, r, ev.now, PathOf(ev));
    } else {
      if ev.Encode? { EncodeDropsOnce(s, ev.frame, ev.now); EncodeTouches(s, ev.frame, ev.now); }
      FailuresSmall(Added(u, evs, ev));
    }
  }

  lemma SaidFailsNothing(s: State, r: Report, now: real, path: Path)
    ensures Failures(Said(s, r, now, path)) == 0
  {
    hide NoteDrop, Signalled, Count, Failures;
    FailuresSmall(Said(s, r, now, path));
  }
}

// Whole runs of the worker: any interleaving of control messages, timer
// firings, decoded frames, drained frames and suspended encodes.
module WorkerRuns {
  import opened Bytes
  import opened KidFormat
  import opened PreEpochQueue
  import opened ReplayWindow
  import opened Sframe
  import opened SframeHeader
  import opened Starvation
  import opened WorkerEffects
  import opened WorkerFrames
  import opened WorkerState

  datatype Setup = Setup(env: Env, kidCodec: WireCodec, cap: nat)

  // `Install` stands for both messages that carry keys. A timer fires only
  // while it is armed. `EncodeDone` is the end of some suspended encode.
  datatype Event =
    | Install(epoch: int, selfPeer: int, bundles: map<int, Bundle>)
    | WipeTimer(timerOf: int)
    | TeardownMsg
    | Decode(frame: Frame, durableFresh: bool, now: real)
    | DrainStep(durableFresh: bool, now: real)
    | DrainDone
    | Encode(frame: Frame, now: real)
    | EncodeDone
    | SetRatchetWindow(size: int)
    | SetReplaySize(size: int)
    | SetTolerance(tolerance: int)
    | SetMetricsEnabled(enabled: bool)
    | SetSifTrailer(trailer: Option<seq<byte>>)
    | SetCodec(codec: Codec)

  function InstallAndDrain(s: State, epoch: int, selfPeer: int, bundles: map<int, Bundle>): State {
    var installed := InstallEpoch(s, epoch, selfPeer, bundles);
    if installed.None? then s else RequestDrain(installed.value)
  }

  function EncodeOrDrop(s: State, frame: Frame, now: real): (State, Report) {
    var (s', r) := BeginEncode(s, frame);
    if r.Ok? then (s', Began(r.value))
    else (NoteEncryptDrop(s', if r.error.NoActiveEpoch? then NoEpoch else EncodeFailed, now), Nothing)
  }

  // An encode touches the counter, the encode-side episode and the log.
  lemma EncodeTouches(s: State, frame: Frame, now: real)
    ensures var (s', r) := EncodeOrDrop(s, frame, now);
      && s' == s.(keys := s.keys.(ctr := s'.keys.ctr), encryptStarve := s'.encryptStarve, log := s'.log)
      && s.keys.ctr <= s'.keys.ctr
      && (r.Nothing? || r.Began?)
      && (s'.log == s.log || s'.log == s.log + [EncryptFailure(ReasonFor(s))])
  {
    hide UnencryptedBytes, KeyFor;
  }

  // The reason a failed encode is reported with.
  function ReasonFor(s: State): EncodeReason {
    if s.keys.currentEpoch in s.keys.epochs then EncodeFailed else NoEpoch
  }

  function Configured(c: Config, ev: Event): Config {
    match ev
    case SetRatchetWindow(size) => c.(ratchetWindowSize := if size < 0 then 0 else size)
    case SetMetricsEnabled(enabled) => c.(metricsEnabled := enabled)
    case SetSifTrailer(trailer) => c.(sifTrailer := trailer)
    case SetCodec(codec) => c.(codec := Some(codec))
    case _ => c
  }

  function Step(env: Env, s: State, ev: Event): (State, Report) {
    match ev
    case Install(epoch, selfPeer, bundles) => (InstallAndDrain(s, epoch, selfPeer, bundles), Nothing)
    case WipeTimer(epoch) => (if epoch in s.keys.wipeTimers then WipeEpoch(s, epoch) else s, Nothing)
    case TeardownMsg => (Teardown(s), Nothing)
    case Decode(frame, durableFresh, now) => DecodeFrame(env, s, frame, durableFresh, now)
    case DrainStep(durableFresh, now) => DrainNext(env, s, durableFresh, now)
    case DrainDone => (if s.drain.draining && s.drain.pass == [] then s.(drain := EndDrain(s.drain)) else s, Nothing)
    case Encode(frame, now) => EncodeOrDrop(s, frame, now)
    case EncodeDone => (EndEncode(s), Nothing)
    case SetReplaySize(size) => (SetReplayWindow(s, size), Nothing)
    case SetTolerance(tolerance) => (SetFailureTolerance(s, tolerance), Nothing)
    case _ => (s.(conf := Configured(s.conf, ev)), Nothing)
  }

  function Run(u: Setup, evs: seq<Event>): State {
    if evs == [] then Initial(u.kidCodec, u.cap)
    else Step(u.env, Run(u, evs[..|evs| - 1]), evs[|evs| - 1]).0
  }

  // The report of one more event.
  function ReportOf(u: Setup, evs: seq<Event>, ev: Event): Report { Step(u.env, Run(u, evs), ev).1 }

  lemma RunSnoc(u: Setup, evs: seq<Event>, ev: Event)
    ensures Run(u, evs + [ev]) == Step(u.env, Run(u, evs), ev).0
  {
    assert (evs + [ev])[..|evs|] == evs;
  }

  // ------------------------------------------------------------ frame events

  predicate FrameEvent(ev: Event) { ev.Decode? || ev.DrainStep? }

  lemma ControlReportsNothing(env: Env, s: State, ev: Event)
    requires !FrameEvent(ev)
    ensures Step(env, s, ev).1.Nothing? || Step(env, s, ev).1.Began?
  {
  }

  function PathOf(ev: Event): Path { if ev.Decode? then Decoding else Draining }

  ghost predicate FrameStep(env: Env, s: State, s': State, r: Report, now: real, path: Path) {
    KeysFollow(env, s, s', r) && WindowsFollow(s, s', r) && CountsFollow(s, s', r) && Speaks(s, s', r, now, path)
  }

  lemma StepOfFrame(env: Env, s: State, ev: Event)
    requires FrameEvent(ev)
    ensures FrameStep(env, s, Step(env, s, ev).0, Step(env, s, ev).1, ev.now, PathOf(ev))
  {
    hide DecodeFrame, DrainFrame, KeysFollow, CountsFollow, Speaks, WindowsFollow;
    var (s', r) := Step(env, s, ev);
    if ev.Decode? {
      DecodeFollows(env, s, ev.frame, ev.durableFresh, ev.now);
    } else if s.drain.draining && s.drain.pass != [] {
      var s1 := s.(drain := s.drain.(pass := s.drain.pass[1..]));
      DrainFollows(env, s1, s.drain.pass[0], ev.durableFresh, ev.now);
      PassIsInvisible(env, s, s.drain.pass[1..], s', r, ev.now);
    } else {
      NothingFollows(env, s, ev.now);
    }
  }

  lemma PassIsInvisible(env: Env, s: State, pass: seq<Frame>, s': State, r: Report, now: real)
    requires FrameStep(env, s.(drain := s.drain.(pass := pass)), s', r, now, Draining)
    ensures FrameStep(env, s, s', r, now, Draining)
  {
    hide Window;
    WindowReads(s.(drain := s.drain.(pass := pass)), s);
    var s1 := s.(drain := s.drain.(pass := pass));
    forall epoch: int, peer: int ensures Count(s', epoch, peer) == CountAfter(s, r, epoch, peer) {
      assert Count(s', epoch, peer) == CountAfter(s1, r, epoch, peer);
    }
  }

  lemma NothingFollows(env: Env, s: State, now: real)
    ensures FrameStep(env, s, s, Nothing, now, Draining)
  {
  }

  // ------------------------------------------------- the epoch state machine

  // Advancing a cursor changes no epoch and no peer.
  lemma AdvanceShape(env: Env, k: KeyTable, epoch: int, peer: int, steps: nat)
    ensures var k' := Advance(env, k, epoch, peer, steps);
      && k' == k.(epochs := k'.epochs) && k'.epochs.Keys == k.epochs.Keys
      && forall e: int | e in k.epochs ::
           k'.epochs[e].keys.Keys == k.epochs[e].keys.Keys && k'.epochs[e].selfPeerIndex == k.epochs[e].selfPeerIndex
  {
    hide Ratcheted;
  }

  predicate GatesAtLeast(k': KeyTable, k: KeyTable) {
    k'.currentEpoch >= k.currentEpoch && k'.currentMinValidEpoch >= k.currentMinValidEpoch
  }

  lemma StepEpochs(env: Env, s: State, ev: Event)
    requires EpochsSound(s.keys)
    ensures var s' := Step(env, s, ev).0;
      && EpochsSound(s'.keys)
      && (!ev.TeardownMsg? ==> GatesAtLeast(s'.keys, s.keys))
  {
    hide DecodeFrame, DrainNext, Encodable, Keys, ResetCounts;
    if FrameEvent(ev) {
      StepOfFrame(env, s, ev);
      var r := Step(env, s, ev).1;
      if r.Delivered? { AdvanceShape(env, s.keys, r.header.epoch, r.header.peer, r.steps); }
    }
  }

  // In every reachable state the active epoch is installed and never stale,
  // only older epochs await a wipe, and no wipe can take the active epoch.
  lemma {:induction false} EpochsStaySound(u: Setup, evs: seq<Event>)
    ensures EpochsSound(Run(u, evs).keys)
  {
    if evs != [] {
      EpochsStaySound(u, evs[..|evs| - 1]);
      StepEpochs(u.env, Run(u, evs[..|evs| - 1]), evs[|evs| - 1]);
    }
  }

  // Between teardowns neither the active epoch nor the stale gate goes back.
  lemma {:induction false} GatesNeverGoBack(u: Setup, evs: seq<Event>, more: seq<Event>)
    requires TeardownMsg !in more
    ensures GatesAtLeast(Run(u, evs + more).keys, Run(u, evs).keys)
  {
    if more == [] {
      assert evs + more == evs;
    } else {
      var init, last := more[..|more| - 1], more[|more| - 1];
      GatesNeverGoBack(u, evs, init);
      assert evs + more == (evs + init) + [last];
      RunSnoc(u, evs + init, last);
      EpochsStaySound(u, evs + init);
      StepEpochs(u.env, Run(u, evs + init), last);
    }
  }

  lemma {:induction false} CodecStays(u: Setup, evs: seq<Event>)
    ensures Run(u, evs).conf.kidCodec == u.kidCodec && Run(u, evs).conf.preEpochQueueCap == u.cap
  {
    hide DecodeFrame, DrainNext, Encodable, Keys, ResetCounts;
    if evs != [] {
      var init, last := evs[..|evs| - 1], evs[|evs| - 1];
      CodecStays(u, init);
      if FrameEvent(last) { StepOfFrame(u.env, Run(u, init), last); }
    }
  }

  // An install changes nothing if some identifier cannot be given. Otherwise
  // the epoch has its own index and peers, and exactly an advance arms every
  // older installed epoch, starts the counter over and is announced.
  lemma AdvanceArmsTimers(u: Setup, evs: seq<Event>, epoch: int, selfPeer: int, bundles: map<int, Bundle>)
    ensures var s, s' := Run(u, evs), Run(u, evs + [Install(epoch, selfPeer, bundles)]);
      if !Encodable(u.kidCodec, epoch, bundles.Keys) then s' == s
      else
        && epoch in s'.keys.epochs && s'.keys.epochs[epoch].selfPeerIndex == selfPeer
        && s'.keys.epochs[epoch].keys.Keys == bundles.Keys
        && if epoch > s.keys.currentEpoch
           then
             && s'.keys.currentEpoch == epoch && s'.keys.ctr == 0
             && (forall e :: e in s'.keys.wipeTimers <==> e in s'.keys.epochs && e < epoch)
             && s'.log == s.log + [EpochApplied(epoch)]
           else
             && s'.keys.currentEpoch == s.keys.currentEpoch && s'.keys.ctr == s.keys.ctr
             && s'.keys.wipeTimers == s.keys.wipeTimers && s'.log == s.log
  {
    hide ResetCounts;
    CodecStays(u, evs);
    EpochsStaySound(u, evs);
    RunSnoc(u, evs, Install(epoch, selfPeer, bundles));
  }

  // How far the fired timers have reached since the last teardown.
  function WipedUpTo(u: Setup, evs: seq<Event>): int {
    if evs == [] then 0
    else
      var init, last := evs[..|evs| - 1], evs[|evs| - 1];
      if last.TeardownMsg? then 0
      else if last.WipeTimer? && last.timerOf in Run(u, init).keys.wipeTimers && last.timerOf >= WipedUpTo(u, init)
      then last.timerOf + 1
      else WipedUpTo(u, init)
  }

  // An epoch is stale exactly when it, or a later one, was wiped.
  lemma {:induction false} GateIsWiped(u: Setup, evs: seq<Event>)
    ensures Run(u, evs).keys.currentMinValidEpoch == WipedUpTo(u, evs)
  {
    hide DecodeFrame, DrainNext, Encodable, Keys, ResetCounts, EncodeOrDrop;
    if evs != [] {
      var init, last := evs[..|evs| - 1], evs[|evs| - 1];
      GateIsWiped(u, init);
      var s := Run(u, init);
      if last.Encode? { EncodeTouches(s, last.frame, last.now); }
      if FrameEvent(last) {
        StepOfFrame(u.env, s, last);
        var r := Step(u.env, s, last).1;
        if r.Delivered? { AdvanceShape(u.env, s.keys, r.header.epoch, r.header.peer, r.steps); }
      }
    }
  }

  // Each setting is set by its message, clamped from below, and by nothing
  // else; what was kept under the old size or tolerance is dropped.
  lemma SettingsTakeEffect(env: Env, s: State, ev: Event)
    ensures var c, c' := s.conf, Step(env, s, ev).0.conf;
      && c'.kidCodec == c.kidCodec && c'.preEpochQueueCap == c.preEpochQueueCap
      && c'.ratchetWindowSize == (if ev.SetRatchetWindow? then AtLeast(ev.size, 0) else c.ratchetWindowSize)
      && c'.replayWindowSize == (if ev.SetReplaySize? then AtLeast(ev.size, 0) else c.replayWindowSize)
      && c'.failureTolerance == (if ev.SetTolerance? then AtLeast(ev.tolerance, -1) else c.failureTolerance)
      && c'.metricsEnabled == (if ev.SetMetricsEnabled? then ev.enabled else c.metricsEnabled)
      && c'.sifTrailer == (if ev.SetSifTrailer? then ev.trailer else c.sifTrailer)
      && c'.codec == (if ev.SetCodec? then Some(ev.codec) else c.codec)
    ensures var r, r' := s.recv, Step(env, s, ev).0.recv;
      && (ev.SetReplaySize? ==> r' == r.(replayWindows := map[]))
      && (ev.SetTolerance? ==> r' == r.(failureCounts := map[]))
      && (ev.SetRatchetWindow? || ev.SetMetricsEnabled? || ev.SetSifTrailer? || ev.SetCodec? ==> r' == r)
  {
    hide DecodeFrame, DrainNext, Encodable, Keys, ResetCounts, EncodeOrDrop;
    if ev.Encode? { EncodeTouches(s, ev.frame, ev.now); }
    if FrameEvent(ev) { StepOfFrame(env, s, ev); }
  }

  function AtLeast(n: int, low: int): int { if n >= low then n else low }

  // ------------------------------------------------- runs from any state

  function Steps(env: Env, s: State, evs: seq<Event>): (r: (State, seq<Report>))
    ensures |r.1| == |evs|
    decreases |evs|
  {
    if evs == [] then (s, [])
    else
      var (s1, r) := Step(env, s, evs[0]);
      var (s2, rs) := Steps(env, s1, evs[1..]);
      (s2, [r] + rs)
  }

  // They are the continuations of runs from the start.
  lemma {:induction false} StepsContinueRuns(u: Setup, evs: seq<Event>, more: seq<Event>)
    ensures Run(u, evs + more) == Steps(u.env, Run(u, evs), more).0
    decreases |more|
  {
    hide Step;
    if more == [] {
      assert evs + more == evs;
    } else {
      assert evs + more == (evs + [more[0]]) + more[1..];
      RunSnoc(u, evs, more[0]);
      StepsContinueRuns(u, evs + [more[0]], more[1..]);
    }
  }

  lemma {:induction false} StepsAppend(env: Env, s: State, a: seq<Event>, b: seq<Event>)
    ensures Steps(env, s, a + b)
         == (Steps(env, Steps(env, s, a).0, b).0, Steps(env, s, a).1 + Steps(env, Steps(env, s, a).0, b).1)
    decreases |a|
  {
    hide Step;
    if a == [] {
      assert a + b == b && [] + Steps(env, s, b).1 == Steps(env, s, b).1;
    } else {
      assert (a + b)[1..] == a[1..] + b;
      var (s1, r) := Step(env, s, a[0]);
      StepsAppend(env, s1, a[1..], b);
      var (sa, ra) := Steps(env, s1, a[1..]);
      var rb := Steps(env, sa, b).1;
      assert [r] + (ra + rb) == ([r] + ra) + rb;
    }
  }
}

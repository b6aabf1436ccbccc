// What holds over every run of the worker: unique headers, no replays, a
// faithful ratchet cursor, exact failure counts.
module WorkerSafety {
  import opened Bytes
  import opened KidFormat
  import opened Lists
  import opened ReplayWindow
  import opened Sframe
  import opened SframeHeader
  import opened FrameLaws
  import opened WorkerEffects
  import opened WorkerFrames
  import opened WorkerRuns
  import opened WorkerState

  // --------------------------------------------------------- unique headers

  // The encodes begun since the last teardown.
  function Jobs(u: Setup, evs: seq<Event>): seq<Job> {
    if evs == [] then []
    else
      var init, last := evs[..|evs| - 1], evs[|evs| - 1];
      var r := ReportOf(u, init, last);
      if last.TeardownMsg? then []
      else if r.Began? then Jobs(u, init) + [r.job]
      else Jobs(u, init)
  }

  predicate Before(epoch: int, ctr: nat, epoch': int, ctr': nat) {
    epoch < epoch' || (epoch == epoch' && ctr < ctr')
  }

  ghost predicate KeysNamed(k: KeyTable, codec: WireCodec) {
    forall e: int, p: int | KeyFor(k, e, p).Some? :: codec.Encode(e, p) == Ok(KeyFor(k, e, p).value.kid)
  }

  lemma AdvanceNamed(env: Env, k: KeyTable, codec: WireCodec, epoch: int, peer: int, steps: nat)
    requires KeysNamed(k, codec)
    ensures KeysNamed(Advance(env, k, epoch, peer, steps), codec)
  {
    hide Ratcheted, KidCodec.Encode;
    var k' := Advance(env, k, epoch, peer, steps);
    forall e: int, p: int | KeyFor(k', e, p).Some? ensures codec.Encode(e, p) == Ok(KeyFor(k', e, p).value.kid) {
      assert KeyFor(k, e, p).Some?;
      if (e, p) == (epoch, peer) { RatchetedKeepsSalt(env, KeyFor(k, e, p).value, peer, steps); }
    }
  }

  lemma InstallNamed(k: KeyTable, codec: WireCodec, epoch: int, selfPeer: int, bundles: map<int, Bundle>)
    requires KeysNamed(k, codec) && Encodable(codec, epoch, bundles.Keys)
    ensures KeysNamed(InstallKeys(k, epoch, EpochEntry(selfPeer, Keys(codec, epoch, bundles), map[])), codec)
  {
    hide KidCodec.Encode, Older;
    var k' := InstallKeys(k, epoch, EpochEntry(selfPeer, Keys(codec, epoch, bundles), map[]));
    forall e: int, p: int | KeyFor(k', e, p).Some? ensures codec.Encode(e, p) == Ok(KeyFor(k', e, p).value.kid) {
      if e != epoch { assert KeyFor(k, e, p).Some?; }
    }
  }

  lemma StepNamed(env: Env, s: State, ev: Event)
    requires KeysNamed(s.keys, s.conf.kidCodec)
    ensures KeysNamed(Step(env, s, ev).0.keys, s.conf.kidCodec)
  {
    hide DecodeFrame, DrainNext, KeysNamed, Encodable, Keys, ResetCounts;
    if FrameEvent(ev) {
      StepOfFrame(env, s, ev);
      var r := Step(env, s, ev).1;
      if r.Delivered? { AdvanceNamed(env, s.keys, s.conf.kidCodec, r.header.epoch, r.header.peer, r.steps); }
    } else if ev.Install? {
      if Encodable(s.conf.kidCodec, ev.epoch, ev.bundles.Keys) {
        InstallNamed(s.keys, s.conf.kidCodec, ev.epoch, ev.selfPeer, ev.bundles);
      }
    } else {
      FewerNamed(s.keys, Step(env, s, ev).0.keys, s.conf.kidCodec);
    }
  }

  lemma FewerNamed(k: KeyTable, k': KeyTable, codec: WireCodec)
    requires KeysNamed(k, codec)
    requires forall e: int | e in k'.epochs :: e in k.epochs && k'.epochs[e] == k.epochs[e]
    ensures KeysNamed(k', codec)
  {
    hide KidCodec.Encode;
    forall e: int, p: int | KeyFor(k', e, p).Some? ensures codec.Encode(e, p) == Ok(KeyFor(k', e, p).value.kid) {
      assert KeyFor(k, e, p) == KeyFor(k', e, p);
    }
  }

  lemma {:induction false} KeysStayNamed(u: Setup, evs: seq<Event>)
    ensures KeysNamed(Run(u, evs).keys, u.kidCodec)
  {
    hide Step, KeysNamed;
    CodecStays(u, evs);
    if evs == [] {
      FewerNamed(KeyTable(map[], -1, 0, 0, {}), Run(u, []).keys, u.kidCodec) by { NoKeysNamed(u.kidCodec); }
    } else {
      var init := evs[..|evs| - 1];
      CodecStays(u, init);
      KeysStayNamed(u, init);
      StepNamed(u.env, Run(u, init), evs[|evs| - 1]);
    }
  }

  lemma NoKeysNamed(codec: WireCodec)
    ensures KeysNamed(KeyTable(map[], -1, 0, 0, {}), codec)
  {
  }

  lemma BeganFacts(env: Env, s: State, ev: Event)
    requires Step(env, s, ev).1.Began?
    ensures var job, s' := Step(env, s, ev).1.job, Step(env, s, ev).0;
      && Sealable(job.key, job.ctr)
      && job.epoch == s.keys.currentEpoch && job.ctr == s.keys.ctr
      && KeyFor(s.keys, job.epoch, job.peer) == Some(job.key)
      && s'.keys == s.keys.(ctr := s.keys.ctr + 1)
  {
    hide DecodeFrame, DrainNext, KeysFollow, WindowsFollow, CountsFollow, InstallEpoch;
    if FrameEvent(ev) { FrameBeginsNothing(env, s, ev); }
  }

  lemma FrameBeginsNothing(env: Env, s: State, ev: Event)
    requires FrameEvent(ev)
    ensures !Step(env, s, ev).1.Began?
  {
    hide Resolve, HeaderOf, Payload, Admit, PushToQueue;
  }

  lemma StepNeverReuses(env: Env, s: State, ev: Event)
    requires EpochsSound(s.keys) && !ev.TeardownMsg?
    ensures var k, k' := s.keys, Step(env, s, ev).0.keys;
      k.currentEpoch < k'.currentEpoch || (k.currentEpoch == k'.currentEpoch && k.ctr <= k'.ctr)
  {
    hide DecodeFrame, DrainNext, Encodable, Keys, ResetCounts;
    if FrameEvent(ev) {
      StepOfFrame(env, s, ev);
      var r := Step(env, s, ev).1;
      if r.Delivered? { AdvanceShape(env, s.keys, r.header.epoch, r.header.peer, r.steps); }
    }
  }

  ghost predicate Ordered(jobs: seq<Job>, k: KeyTable) {
    && (forall i, j | 0 <= i < j < |jobs| :: Before(jobs[i].epoch, jobs[i].ctr, jobs[j].epoch, jobs[j].ctr))
    && (forall i | 0 <= i < |jobs| :: Before(jobs[i].epoch, jobs[i].ctr, k.currentEpoch, k.ctr))
  }

  // The active epoch and the counter, taken together, only grow.
  lemma {:induction false} JobsAreOrdered(u: Setup, evs: seq<Event>)
    ensures Ordered(Jobs(u, evs), Run(u, evs).keys)
    ensures forall i | 0 <= i < |Jobs(u, evs)| ::
      NamedBy(u.kidCodec, Jobs(u, evs)[i]) && Sealable(Jobs(u, evs)[i].key, Jobs(u, evs)[i].ctr)
  {
    hide Step, KeysNamed, KidCodec.Encode, EpochsSound;
    if evs != [] {
      var init, last := evs[..|evs| - 1], evs[|evs| - 1];
      JobsAreOrdered(u, init);
      EpochsStaySound(u, init);
      var s := Run(u, init);
      if !last.TeardownMsg? { StepNeverReuses(u.env, s, last); }
      if Step(u.env, s, last).1.Began? {
        BeganFacts(u.env, s, last);
        KeysStayNamed(u, init);
        OneKeyNamed(s.keys, u.kidCodec, Step(u.env, s, last).1.job);
      }
    }
  }

  lemma OneKeyNamed(k: KeyTable, codec: WireCodec, job: Job)
    requires KeysNamed(k, codec) && KeyFor(k, job.epoch, job.peer) == Some(job.key)
    ensures NamedBy(codec, job)
  {
  }

  // Two encodes on the wire cannot be confused.
  ghost predicate Distinguished(a: Job, b: Job) {
    && Sealable(a.key, a.ctr) && Sealable(b.key, b.ctr)
    && (a.key.kid, a.ctr) != (b.key.kid, b.ctr)
    && Serialized(a.key.kid, a.ctr) != Serialized(b.key.kid, b.ctr)
    && (a.epoch == b.epoch && a.key.salt == b.key.salt ==> Iv(a.key.salt, a.ctr) != Iv(b.key.salt, b.ctr))
  }

  lemma OrderedAreDistinguished(codec: WireCodec, a: Job, b: Job)
    requires NamedBy(codec, a) && NamedBy(codec, b) && Sealable(a.key, a.ctr) && Sealable(b.key, b.ctr)
    requires Before(a.epoch, a.ctr, b.epoch, b.ctr)
    ensures Distinguished(a, b)
  {
    hide Iv, Serialized, KidCodec.Encode, KidCodec.Decode;
    if a.key.kid == b.key.kid { CodecInjective(codec, a.epoch, a.peer, b.epoch, b.peer); }
    if Serialized(a.key.kid, a.ctr) == Serialized(b.key.kid, b.ctr) {
      SerializedInjective(a.key.kid, a.ctr, b.key.kid, b.ctr, [], []);
    }
    if a.epoch == b.epoch && Iv(a.key.salt, a.ctr) == Iv(a.key.salt, b.ctr) { IvInjective(a.key.salt, a.ctr, b.ctr); }
  }

  // Between teardowns no two encodes, however they overlap, share a key
  // identifier and a counter; so no two headers are equal, and under one salt
  // no nonce repeats within an epoch.
  lemma HeadersAreUnique(u: Setup, evs: seq<Event>, i: nat, j: nat)
    requires i < j < |Jobs(u, evs)|
    ensures Distinguished(Jobs(u, evs)[i], Jobs(u, evs)[j])
  {
    hide Step, Distinguished, NamedBy, Sealable;
    JobsAreOrdered(u, evs);
    OrderedAreDistinguished(u.kidCodec, Jobs(u, evs)[i], Jobs(u, evs)[j]);
  }

  // ------------------------------------------------------------- no replays

  // The counters accepted for a sender since the last teardown or resize.
  function AcceptedLog(u: Setup, evs: seq<Event>, epoch: int, peer: int): seq<Ctr> {
    if evs == [] then []
    else
      var init, last := evs[..|evs| - 1], evs[|evs| - 1];
      var r := ReportOf(u, init, last);
      if last.TeardownMsg? || last.SetReplaySize? then []
      else if DeliveredFrom(r, epoch, peer) then AcceptedLog(u, init, epoch, peer) + [r.header.ctr]
      else AcceptedLog(u, init, epoch, peer)
  }

  // A window holds the last counters accepted, until its epoch goes stale.
  ghost predicate WindowHolds(s: State, epoch: int, peer: int, log: seq<Ctr>) {
    var w := s.conf.replayWindowSize;
    w >= 1 ==>
      && RecentDistinct(w, log)
      && (epoch >= s.keys.currentMinValidEpoch ==> Window(s, epoch, peer) == LastN(log, w))
  }

  lemma FrameKeepsWindow(env: Env, s: State, ev: Event, epoch: int, peer: int, log: seq<Ctr>)
    requires FrameEvent(ev) && WindowHolds(s, epoch, peer, log)
    ensures var (s', r) := Step(env, s, ev);
      WindowHolds(s', epoch, peer, if DeliveredFrom(r, epoch, peer) then log + [r.header.ctr] else log)
  {
    hide Step, Window, Fresh, Slide, RecentDistinct, CountsFollow, Speaks;
    StepOfFrame(env, s, ev);
    var (s', r) := Step(env, s, ev);
    if r.Delivered? { AdvanceShape(env, s.keys, r.header.epoch, r.header.peer, r.steps); }
    if DeliveredFrom(r, epoch, peer) && s.conf.replayWindowSize >= 1 {
      AcceptExtends(s.conf.replayWindowSize, log, r.header.ctr);
    }
  }

  lemma ControlKeepsWindow(env: Env, s: State, ev: Event, epoch: int, peer: int, log: seq<Ctr>)
    requires !FrameEvent(ev) && !ev.TeardownMsg? && !ev.SetReplaySize?
    requires EpochsSound(s.keys) && WindowHolds(s, epoch, peer, log)
    ensures WindowHolds(Step(env, s, ev).0, epoch, peer, log)
  {
    hide RecentDistinct, Encodable, Keys, ResetCounts;
    StepEpochs(env, s, ev);
  }

  // Any window of consecutive counters accepted from a sender is free of
  // repeats, across installs, drains and wipes: dropping the windows of a
  // wiped epoch never reopens it.
  lemma {:induction false} NoReplayIsAccepted(u: Setup, evs: seq<Event>, epoch: int, peer: int)
    ensures WindowHolds(Run(u, evs), epoch, peer, AcceptedLog(u, evs, epoch, peer))
    ensures var w := Run(u, evs).conf.replayWindowSize;
      w >= 1 ==> RecentDistinct(w, AcceptedLog(u, evs, epoch, peer))
  {
    hide Step, RecentDistinct, EpochsSound;
    if evs == [] {
      NothingAccepted(Run(u, evs), epoch, peer);
    } else {
      var init, last := evs[..|evs| - 1], evs[|evs| - 1];
      NoReplayIsAccepted(u, init, epoch, peer);
      EpochsStaySound(u, init);
      var s, log := Run(u, init), AcceptedLog(u, init, epoch, peer);
      if last.TeardownMsg? || last.SetReplaySize? {
        ResetEmpties(u.env, s, last);
        NothingAccepted(Run(u, evs), epoch, peer);
      } else if FrameEvent(last) {
        FrameKeepsWindow(u.env, s, last, epoch, peer, log);
      } else {
        ControlKeepsWindow(u.env, s, last, epoch, peer, log);
        ControlReportsNothing(u.env, s, last);
      }
    }
  }

  lemma ResetEmpties(env: Env, s: State, ev: Event)
    requires ev.TeardownMsg? || ev.SetReplaySize?
    ensures Step(env, s, ev).0.recv.replayWindows == map[]
  {
  }

  lemma NothingAccepted(s: State, epoch: int, peer: int)
    requires s.recv.replayWindows == map[]
    ensures WindowHolds(s, epoch, peer, [])
  {
  }

  // Once the stale gate has passed an epoch, nothing of it is delivered again
  // before a teardown.
  lemma StaleStaysClosed(u: Setup, evs: seq<Event>, more: seq<Event>, ev: Event)
    requires TeardownMsg !in more && ReportOf(u, evs + more, ev).Delivered?
    ensures ReportOf(u, evs + more, ev).header.epoch >= Run(u, evs).keys.currentMinValidEpoch
  {
    hide DecodeFrame, DrainNext, WindowsFollow, CountsFollow, Speaks, InstallEpoch;
    GatesNeverGoBack(u, evs, more);
    if FrameEvent(ev) { StepOfFrame(u.env, Run(u, evs + more), ev); }
  }
}

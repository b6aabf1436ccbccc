// Frames that arrive before their key: they wait in the queue, in order, while
// other epochs are installed and drained, and come back with their own.
module FrameWaits {
  import opened Bytes
  import opened KidFormat
  import opened PreEpochQueue
  import opened ReplayWindow
  import opened Sframe
  import opened SframeHeader
  import opened FrameLaws
  import opened FrameOutcomes
  import opened FrameStreams
  import opened WorkerEffects
  import opened WorkerFrames
  import opened WorkerRuns
  import opened WorkerState

  // ------------------------------------------------------- without their key

  // Behind a cut that is not the sender's no key at all opens the bytes. Only
  // VP9 and AV1 have such cuts.
  ghost predicate NothingElsewhere(env: Env, c: Config, kind: Option<FrameKind>, payload: seq<byte>) {
    forall cut, key | cut in FormatCandidates(c.codec, kind) && cut.prefixLen != UnencryptedBytes(c.codec, kind) ::
      Decrypt(env.aead, DropUpTo(payload, cut.prefixLen), Some(key), TakeUpTo(payload, cut.prefixLen), cut.aadForm).Err?
  }

  lemma NothingElsewhereForMost(env: Env, c: Config, kind: Option<FrameKind>, payload: seq<byte>)
    requires c.codec != Some(Vp9) && c.codec != Some(Av1)
    ensures NothingElsewhere(env, c, kind, payload)
  {
    hide Decrypt;
  }

  // A frame on the wire whose sender has no key here, and its job.
  ghost predicate Waits(env: Env, s: State, w: Frame, job: Job) {
    && NamedBy(s.conf.kidCodec, job) && Sealable(job.key, job.ctr) && job.trailer == [] && s.conf.sifTrailer.None?
    && w.data == Wire(env, job) && |job.prefix| == UnencryptedBytes(s.conf.codec, w.kind)
    && KeyFor(s.keys, job.epoch, job.peer).None? && job.epoch >= s.keys.currentMinValidEpoch
    && CacheFits(s, job.epoch, job.peer, |job.prefix|)
    && NothingElsewhere(env, s.conf, w.kind, w.data)
  }

  lemma {:induction false} ProbeFindsNothing(env: Env, s: State, payload: seq<byte>, candidates: seq<Candidate>)
    requires forall c | c in candidates :: TryCandidate(env, s, payload, c).None?
    ensures ProbeFormat(env, s, payload, candidates).None?
  {
    hide TryCandidate;
    if candidates != [] {
      assert candidates[0] in candidates && forall c | c in candidates[1..] :: c in candidates;
      ProbeFindsNothing(env, s, payload, candidates[1..]);
    }
  }

  // Even without a key its header is read where the sender put it.
  lemma WaitingHeader(env: Env, s: State, w: Frame, job: Job)
    requires env.aead.Lawful() && Waits(env, s, w, job)
    ensures var header := HeaderIn(env, s, w.kind, w.data);
      header.Ok? && header.value.epoch == job.epoch && header.value.peer == job.peer
  {
    hide Sealed, HeaderOf, Decrypt, KeyFor, FormatCandidates, KidCodec.Encode;
    var n, buf := |job.prefix|, Sealed(env.aead, job.key, job.ctr, job.body, [], HeaderForm);
    SealedOpens(env, s.conf.kidCodec, job, job.key, job.prefix);
    SplitAtPrefix(job.prefix, buf);
    assert w.data == job.prefix + buf;
    var candidates := FormatCandidates(s.conf.codec, w.kind);
    forall c | c in candidates ensures TryCandidate(env, s, w.data, c).None? {
      if c.prefixLen != n {
        var header := HeaderOf(s.conf.kidCodec, DropUpTo(w.data, c.prefixLen));
        if header.Ok? {
          var key := KeyFor(s.keys, header.value.epoch, header.value.peer);
          if key.Some? {
            assert Decrypt(env.aead, DropUpTo(w.data, c.prefixLen), Some(key.value), TakeUpTo(w.data, c.prefixLen), c.aadForm).Err?;
          }
        }
      }
    }
    ProbeFindsNothing(env, s, w.data, candidates);
  }

  // Waiting depends on settings, keys and cached layouts alone.
  lemma WaitsReads(env: Env, a: State, b: State, w: Frame, job: Job)
    requires Waits(env, a, w, job) && a.conf == b.conf && a.recv.formatCache == b.recv.formatCache
    requires KeyFor(b.keys, job.epoch, job.peer).None? && a.keys.currentMinValidEpoch == b.keys.currentMinValidEpoch
    ensures Waits(env, b, w, job)
  {
    hide NothingElsewhere, Wire, KidCodec.Encode;
  }

  ghost predicate AllWait(env: Env, s: State, ws: seq<Frame>, jobs: seq<Job>) {
    |ws| == |jobs| && forall i | 0 <= i < |ws| :: Waits(env, s, ws[i], jobs[i])
  }

  lemma FirstWaits(env: Env, s: State, ws: seq<Frame>, jobs: seq<Job>)
    requires AllWait(env, s, ws, jobs) && ws != []
    ensures |jobs| == |ws| && Waits(env, s, ws[0], jobs[0]) && AllWait(env, s, ws[1..], jobs[1..])
  {
    hide Waits;
  }

  ghost predicate SameButDrain(a: State, b: State) { b == a.(drain := b.drain) }

  lemma AllWaitReads(env: Env, a: State, b: State, ws: seq<Frame>, jobs: seq<Job>)
    requires AllWait(env, a, ws, jobs) && SameButDrain(a, b)
    ensures AllWait(env, b, ws, jobs)
  {
    forall i | 0 <= i < |ws| ensures Waits(env, b, ws[i], jobs[i]) {
      assert Waits(env, a, ws[i], jobs[i]);
      assert KeyFor(a.keys, jobs[i].epoch, jobs[i].peer).None?;
      WaitsReads(env, a, b, ws[i], jobs[i]);
    }
  }

  function WithQueue(s: State, queue: seq<Frame>): State { s.(drain := s.drain.(preEpochQueue := queue)) }

  // ------------------------------------------------------------- they queue

  lemma OneQueues(env: Env, s: State, w: Frame, job: Job, now: real)
    requires env.aead.Lawful() && Waits(env, s, w, job) && s.keys.currentEpoch == -1
    requires |s.drain.preEpochQueue| < s.conf.preEpochQueueCap
    ensures Step(env, s, Decode(w, true, now)).0 == WithQueue(s, s.drain.preEpochQueue + [w])
  {
    hide DecodeFrame, HeaderIn, PushToQueue;
    WaitingHeader(env, s, w, job);
    DecodeQueues(env, s, w, true, now);
    QueuedIsKept(s, w, Step(env, s, Decode(w, true, now)).1.peer, now);
  }

  lemma {:induction false} AllQueue(env: Env, s: State, ws: seq<Frame>, jobs: seq<Job>, clock: seq<real>)
    requires env.aead.Lawful() && |clock| == |ws| && AllWait(env, s, ws, jobs) && s.keys.currentEpoch == -1
    requires |s.drain.preEpochQueue| + |ws| <= s.conf.preEpochQueueCap
    ensures Steps(env, s, Arrivals(ws, clock)).0 == WithQueue(s, s.drain.preEpochQueue + ws)
    decreases |ws|
  {
    hide Step, Waits, AllWait;
    var evs := Arrivals(ws, clock);
    if ws == [] {
      assert s.drain.preEpochQueue + ws == s.drain.preEpochQueue;
    } else {
      FirstWaits(env, s, ws, jobs);
      OneQueues(env, s, ws[0], jobs[0], clock[0]);
      var s' := Step(env, s, evs[0]).0;
      AllWaitReads(env, s, s', ws[1..], jobs[1..]);
      AllQueue(env, s', ws[1..], jobs[1..], clock[1..]);
      assert evs[1..] == Arrivals(ws[1..], clock[1..]);
      assert (s.drain.preEpochQueue + [ws[0]]) + ws[1..] == s.drain.preEpochQueue + ws;
    }
  }

  // -------------------------------------------------------- they queue again

  function DrainSteps(clock: seq<real>): (evs: seq<Event>)
    ensures |evs| == |clock|
  {
    seq(|clock|, i requires 0 <= i < |clock| => DrainStep(true, clock[i]))
  }

  lemma OneQueuesAgain(env: Env, s: State, w: Frame, job: Job, now: real)
    requires env.aead.Lawful() && Waits(env, s, w, job)
    requires s.drain.draining && s.drain.pass != [] && s.drain.pass[0] == w
    requires |s.drain.preEpochQueue| < s.conf.preEpochQueueCap
    ensures Step(env, s, DrainStep(true, now)).0
         == s.(drain := s.drain.(preEpochQueue := s.drain.preEpochQueue + [w], pass := s.drain.pass[1..]))
  {
    hide DrainFrame, HeaderIn, PushToQueue, Waits;
    var s1 := s.(drain := s.drain.(pass := s.drain.pass[1..]));
    AllWaitReads(env, s, s1, [w], [job]) by { assert AllWait(env, s, [w], [job]); }
    assert Waits(env, s1, [w][0], [job][0]);
    WaitingHeader(env, s1, w, job);
    WaitsFacts(env, s1, w, job);
    DrainQueuesAgain(env, s1, w, true, now);
    QueuedIsKept(s1, w, DrainFrame(env, s1, w, true, now).1.peer, now);
  }

  lemma WaitsFacts(env: Env, s: State, w: Frame, job: Job)
    requires Waits(env, s, w, job)
    ensures KeyFor(s.keys, job.epoch, job.peer).None? && job.epoch >= s.keys.currentMinValidEpoch
  {
  }

  lemma {:induction false} AllQueueAgain(env: Env, s: State, ws: seq<Frame>, jobs: seq<Job>, clock: seq<real>)
    requires env.aead.Lawful() && |clock| == |ws| && AllWait(env, s, ws, jobs)
    requires s.drain.draining && s.drain.pass == ws && |s.drain.preEpochQueue| + |ws| <= s.conf.preEpochQueueCap
    ensures Steps(env, s, DrainSteps(clock)).0
         == s.(drain := s.drain.(preEpochQueue := s.drain.preEpochQueue + ws, pass := []))
    decreases |ws|
  {
    hide Step, Waits, AllWait;
    var evs := DrainSteps(clock);
    if ws == [] {
      assert s.drain.preEpochQueue + ws == s.drain.preEpochQueue;
    } else {
      FirstWaits(env, s, ws, jobs);
      OneQueuesAgain(env, s, ws[0], jobs[0], clock[0]);
      var s' := Step(env, s, evs[0]).0;
      AllWaitReads(env, s, s', ws[1..], jobs[1..]);
      AllQueueAgain(env, s', ws[1..], jobs[1..], clock[1..]);
      assert evs[1..] == DrainSteps(clock[1..]);
      assert (s.drain.preEpochQueue + [ws[0]]) + ws[1..] == s.drain.preEpochQueue + ws;
    }
  }

  // ------------------------------------------------------------------ rounds

  // An install of other keys, the drain of the queue, and its end.
  datatype Round = Round(epoch: int, selfPeer: int, bundles: map<int, Bundle>, clock: seq<real>)

  function RoundEvents(r: Round): seq<Event> {
    [Install(r.epoch, r.selfPeer, r.bundles)] + DrainSteps(r.clock) + [DrainDone]
  }

  function RoundsEvents(rounds: seq<Round>): seq<Event> {
    if rounds == [] then [] else RoundEvents(rounds[0]) + RoundsEvents(rounds[1..])
  }

  // The queue is idle and holds these frames.
  ghost predicate Holding(env: Env, s: State, ws: seq<Frame>, jobs: seq<Job>) {
    AllWait(env, s, ws, jobs) && s.drain == Drain(ws, false, false, []) && |ws| <= s.conf.preEpochQueueCap
  }

  predicate Keyless(r: Round, jobs: seq<Job>) {
    forall job | job in jobs :: !(r.epoch == job.epoch && job.peer in r.bundles)
  }

  // What a round of other keys leaves as it was.
  ghost predicate Unheard(a: State, b: State) {
    && b.conf == a.conf && b.recv.replayWindows == a.recv.replayWindows && b.recv.formatCache == a.recv.formatCache
    && b.keys.currentMinValidEpoch == a.keys.currentMinValidEpoch
  }

  lemma InstallOfOthers(env: Env, s: State, r: Round, job: Job, w: Frame)
    requires Waits(env, s, w, job) && !(r.epoch == job.epoch && job.peer in r.bundles)
    ensures Waits(env, InstallAndDrain(s, r.epoch, r.selfPeer, r.bundles), w, job)
  {
    hide NothingElsewhere, Wire, KidCodec.Encode, Encodable, ResetCounts, Older, CacheFits;
    var s' := InstallAndDrain(s, r.epoch, r.selfPeer, r.bundles);
    assert KeyFor(s'.keys, job.epoch, job.peer).None?;
    WaitsReads(env, s, s', w, job);
  }

  lemma InstallStartsDrain(s: State, r: Round)
    requires !s.drain.draining && !s.drain.pendingDrain && s.drain.pass == []
    ensures var s' := InstallAndDrain(s, r.epoch, r.selfPeer, r.bundles);
      && Unheard(s, s')
      && s'.drain == if Encodable(s.conf.kidCodec, r.epoch, r.bundles.Keys) then Drain([], true, false, s.drain.preEpochQueue)
                     else s.drain
  {
    hide Encodable, ResetCounts, Older, Keys;
  }

  lemma OneRound(env: Env, s: State, r: Round, ws: seq<Frame>, jobs: seq<Job>)
    requires env.aead.Lawful() && Holding(env, s, ws, jobs) && Keyless(r, jobs) && |r.clock| == |ws|
    ensures var s' := Steps(env, s, RoundEvents(r)).0; Holding(env, s', ws, jobs) && Unheard(s, s')
  {
    hide Steps, Waits, DrainSteps, InstallAndDrain, Encodable;
    var install, drain := [Install(r.epoch, r.selfPeer, r.bundles)], DrainSteps(r.clock);
    var s1 := InstallAndDrain(s, r.epoch, r.selfPeer, r.bundles);
    OneStep(env, s, install[0]);
    StepsAppend(env, s, install, drain);
    StepsAppend(env, s, install + drain, [DrainDone]);
    InstallStartsDrain(s, r);
    forall i | 0 <= i < |ws| ensures Waits(env, s1, ws[i], jobs[i]) {
      assert jobs[i] in jobs;
      InstallOfOthers(env, s, r, jobs[i], ws[i]);
    }
    var s2 := Steps(env, s1, drain).0;
    OneStep(env, s2, DrainDone);
    if Encodable(s.conf.kidCodec, r.epoch, r.bundles.Keys) {
      AllQueueAgain(env, s1, ws, jobs, r.clock);
      assert [] + ws == ws;
    } else {
      IdleDrain(env, s1, r.clock);
    }
    AllWaitReads(env, s1, Steps(env, s, RoundEvents(r)).0, ws, jobs);
  }

  lemma OneStep(env: Env, s: State, ev: Event)
    ensures Steps(env, s, [ev]).0 == Step(env, s, ev).0 && Steps(env, s, [ev]).1 == [Step(env, s, ev).1]
  {
    hide Step;
    assert [ev][1..] == [];
  }

  lemma {:induction false} IdleDrain(env: Env, s: State, clock: seq<real>)
    requires !s.drain.draining
    ensures Steps(env, s, DrainSteps(clock)).0 == s
    decreases |clock|
  {
    if clock != [] {
      assert DrainSteps(clock)[1..] == DrainSteps(clock[1..]);
      IdleDrain(env, s, clock[1..]);
    }
  }

  lemma {:induction false} AllRounds(env: Env, s: State, rounds: seq<Round>, ws: seq<Frame>, jobs: seq<Job>)
    requires env.aead.Lawful() && Holding(env, s, ws, jobs)
    requires forall r | r in rounds :: Keyless(r, jobs) && |r.clock| == |ws|
    ensures var s' := Steps(env, s, RoundsEvents(rounds)).0; Holding(env, s', ws, jobs) && Unheard(s, s')
    decreases |rounds|
  {
    hide Steps, Holding, Keyless, RoundEvents;
    if rounds == [] {
      NothingHappens(env, s);
    } else {
      assert rounds[0] in rounds && forall r | r in rounds[1..] :: r in rounds;
      OneRound(env, s, rounds[0], ws, jobs);
      StepsAppend(env, s, RoundEvents(rounds[0]), RoundsEvents(rounds[1..]));
      AllRounds(env, Steps(env, s, RoundEvents(rounds[0])).0, rounds[1..], ws, jobs);
    }
  }

  lemma NothingHappens(env: Env, s: State)
    ensures Steps(env, s, []).0 == s
  {
  }

  // ---------------------------------------------------------- they come back

  lemma OneDrained(env: Env, s: State, c: Config, epoch: int, peer: int, key: SenderKey, ctr: nat, n: nat,
                   frame: Frame, job: Job, now: real)
    requires env.aead.Lawful() && s.drain.draining && s.drain.pass != []
    requires Listens(s, epoch, peer, key, ctr, n) && IsJob(job, c, epoch, peer, key, ctr, frame) && SameFormats(c, s.conf)
    requires s.conf.sifTrailer.None? && s.drain.pass[0] == Frame(Wire(env, job), frame.kind)
    requires UnencryptedBytes(c.codec, frame.kind) == n <= |frame.data|
    ensures var (s', r) := Step(env, s, DrainStep(true, now));
      && r.Delivered? && r.data == frame.data
      && Listens(s', epoch, peer, key, ctr + 1, n) && s'.conf == s.conf
      && s'.drain.draining && s'.drain.pass == s.drain.pass[1..]
  {
    hide DrainFrame, Listens, Hears, KeysFollow, WindowsFollow, CountsFollow, Speaks, FormatsFollow, Resolve, Wire;
    var s1, wire := s.(drain := s.drain.(pass := s.drain.pass[1..])), s.drain.pass[0];
    ListensReads(s, s1, epoch, peer, key, ctr, n);
    JobIsHeard(s1, c, epoch, peer, key, ctr, n, frame, job);
    JobIsDrained(env, s1, frame.kind, job, now);
    DrainFollows(env, s1, wire, true, now);
    DrainFormats(env, s1, wire, true, now);
    var (s', r) := DrainFrame(env, s1, wire, true, now);
    StillListens(env, s1, s', r, epoch, peer, key, ctr, n, job);
  }

  lemma ListensReads(a: State, b: State, epoch: int, peer: int, key: SenderKey, ctr: nat, n: nat)
    requires Listens(a, epoch, peer, key, ctr, n) && SameButDrain(a, b)
    ensures Listens(b, epoch, peer, key, ctr, n)
  {
    assert Window(b, epoch, peer) == Window(a, epoch, peer);
  }

  lemma FirstWire(env: Env, jobs: seq<Job>, frames: seq<Frame>)
    requires |jobs| == |frames| && jobs != []
    requires forall i | 0 <= i < |jobs| :: Sealable(jobs[i].key, jobs[i].ctr)
    ensures var ws := Wires(env, jobs, frames);
      ws[0] == Frame(Wire(env, jobs[0]), frames[0].kind) && ws[1..] == Wires(env, jobs[1..], frames[1..])
  {
    hide Wire;
  }

  lemma {:induction false} AllDrained(env: Env, s: State, c: Config, epoch: int, peer: int, key: SenderKey, ctr: nat, n: nat,
                                      frames: seq<Frame>, jobs: seq<Job>, clock: seq<real>)
    requires env.aead.Lawful() && |clock| == |frames| && s.drain.draining && s.conf.sifTrailer.None?
    requires Listens(s, epoch, peer, key, ctr, n) && AreJobs(jobs, c, epoch, peer, key, ctr, frames) && SameFormats(c, s.conf)
    requires OneLayout(c, frames, n)
    requires |jobs| == |frames| && forall i | 0 <= i < |jobs| :: Sealable(jobs[i].key, jobs[i].ctr)
    requires s.drain.pass == Wires(env, jobs, frames)
    ensures AllBack(Steps(env, s, DrainSteps(clock)).1, frames)
    decreases |frames|
  {
    var evs := DrainSteps(clock);
    assert evs != [] ==> evs[0] == DrainStep(true, clock[0]) && evs[1..] == DrainSteps(clock[1..]);
    hide Step, Listens, IsJob, Wire, SameFormats, AreJobs, OneLayout, DrainSteps, Sealable, AllBack, Steps, Wires;
    if frames == [] {
      FrameStreams.NoSteps(env, s, evs, frames);
    } else {
      FirstJob(jobs, c, epoch, peer, key, ctr, frames);
      FirstLayout(c, frames, n);
      FirstWire(env, jobs, frames);
      OneDrained(env, s, c, epoch, peer, key, ctr, n, frames[0], jobs[0], clock[0]);
      var (s', r) := Step(env, s, DrainStep(true, clock[0]));
      assert SameFormats(c, s'.conf);
      AllDrained(env, s', c, epoch, peer, key, ctr + 1, n, frames[1..], jobs[1..], clock[1..]);
      StepsCons(env, s, evs);
      BackCons(r, Steps(env, s', evs[1..]).1, frames);
    }
  }

  // The install of their key, at last.
  lemma KeyArrives(env: Env, s: State, r: Round, epoch: int, peer: int, key: SenderKey, ctr: nat, n: nat, ws: seq<Frame>, jobs: seq<Job>)
    requires Holding(env, s, ws, jobs) && HeardBelow(s, epoch, peer, ctr) && CacheFits(s, epoch, peer, n)
    requires epoch >= s.keys.currentMinValidEpoch && epoch >= 0
    requires r.epoch == epoch && peer in r.bundles && r.bundles[peer] == Bundle(key.raw, key.salt)
    requires Encodable(s.conf.kidCodec, epoch, r.bundles.Keys)
    ensures var s' := InstallAndDrain(s, r.epoch, r.selfPeer, r.bundles);
      Listens(s', epoch, peer, key, ctr, n) && s'.conf == s.conf && s'.drain == Drain([], true, false, ws)
  {
    hide KidCodec.Encode, AllWait, Older;
    var s' := InstallAndDrain(s, r.epoch, r.selfPeer, r.bundles);
    assert Count(s', epoch, peer) == 0;
    assert Window(s', epoch, peer) == Window(s, epoch, peer);
  }

  // A receiver that has never had an epoch active and holds nothing.
  ghost predicate Idle(s: State, epoch: int, peer: int, ctr: nat, n: nat) {
    && s.keys.currentEpoch == -1 && s.drain == Drain([], false, false, [])
    && epoch >= s.keys.currentMinValidEpoch && KeyFor(s.keys, epoch, peer).None?
    && HeardBelow(s, epoch, peer, ctr) && CacheFits(s, epoch, peer, n) && s.conf.sifTrailer.None?
  }

  lemma JobsWait(env: Env, s: State, c: Config, epoch: int, peer: int, key: SenderKey, ctr: nat, n: nat,
                 frames: seq<Frame>, jobs: seq<Job>)
    requires Idle(s, epoch, peer, ctr, n) && AreJobs(jobs, c, epoch, peer, key, ctr, frames) && SameFormats(c, s.conf)
    requires OneLayout(c, frames, n)
    requires |jobs| == |frames| && forall i | 0 <= i < |jobs| :: Sealable(jobs[i].key, jobs[i].ctr)
    requires forall w | w in Wires(env, jobs, frames) :: NothingElsewhere(env, c, w.kind, w.data)
    ensures AllWait(env, s, Wires(env, jobs, frames), jobs)
  {
    hide NothingElsewhere, KidCodec.Encode, Wire, CacheFits;
    var ws := Wires(env, jobs, frames);
    forall i | 0 <= i < |ws| ensures Waits(env, s, ws[i], jobs[i]) {
      assert IsJob(jobs[i], c, epoch, peer, key, ctr + i, frames[i]);
      assert frames[i] in frames && ws[i] in ws;
      ElsewhereReads(env, c, s.conf, ws[i].kind, ws[i].data);
    }
  }

  lemma ElsewhereReads(env: Env, a: Config, b: Config, kind: Option<FrameKind>, payload: seq<byte>)
    requires a.codec == b.codec && NothingElsewhere(env, a, kind, payload)
    ensures NothingElsewhere(env, b, kind, payload)
  {
  }

  // A stream that fits the queue and arrives before any epoch waits through any
  // rounds of other keys, losing nothing, and comes back frame by frame in the
  // drain after the install of its own key.
  lemma WaitingStreamIsDelivered(env: Env, sender: State, receiver: State, epoch: int, peer: int, key: SenderKey,
                                 ctr: nat, n: nat, frames: seq<Frame>, departed: seq<real>, arrived: seq<real>,
                                 rounds: seq<Round>, last: Round)
    requires env.aead.Lawful() && |departed| == |frames| == |arrived| == |last.clock| && ctr + |frames| <= MAX_CTR + 1
    requires Sends(sender, epoch, peer, key, ctr) && Idle(receiver, epoch, peer, ctr, n)
    requires SameFormats(sender.conf, receiver.conf) && OneLayout(sender.conf, frames, n)
    requires |frames| <= receiver.conf.preEpochQueueCap
    requires forall r | r in rounds :: !(r.epoch == epoch && peer in r.bundles) && |r.clock| == |frames|
    requires last.epoch == epoch && peer in last.bundles && last.bundles[peer] == Bundle(key.raw, key.salt)
    requires Encodable(receiver.conf.kidCodec, epoch, last.bundles.Keys)
    requires var jobs := SendAll(env, sender, frames, departed);
      |jobs| == |frames| && (forall i | 0 <= i < |jobs| :: Sealable(jobs[i].key, jobs[i].ctr)) &&
      forall w | w in Wires(env, jobs, frames) :: NothingElsewhere(env, sender.conf, w.kind, w.data)
    ensures var ws := Wires(env, SendAll(env, sender, frames, departed), frames);
      var s := Steps(env, receiver, Arrivals(ws, arrived) + RoundsEvents(rounds)).0;
      var installed := Step(env, s, Install(epoch, last.selfPeer, last.bundles)).0;
      s.drain.preEpochQueue == ws && AllBack(Steps(env, installed, DrainSteps(last.clock)).1, frames)
  {
    hide Steps, SendAll, Wires, Arrivals, RoundsEvents, DrainSteps, InstallAndDrain, SameFormats, OneLayout, AllBack, AreJobs,
         NothingElsewhere, Encodable, Listens, HeardBelow, CacheFits, AllWait, IsJob, Sealable;
    var jobs := SendAll(env, sender, frames, departed);
    var ws := Wires(env, jobs, frames);
    AllDepart(env, sender, epoch, peer, key, ctr, frames, departed);
    JobsWait(env, receiver, sender.conf, epoch, peer, key, ctr, n, frames, jobs);
    AllQueue(env, receiver, ws, jobs, arrived);
    assert [] + ws == ws;
    var s1 := Steps(env, receiver, Arrivals(ws, arrived)).0;
    AllWaitReads(env, receiver, s1, ws, jobs);
    JobsOfSender(jobs, sender.conf, epoch, peer, key, ctr, frames);
    AllRounds(env, s1, rounds, ws, jobs);
    StepsAppend(env, receiver, Arrivals(ws, arrived), RoundsEvents(rounds));
    var s := Steps(env, s1, RoundsEvents(rounds)).0;
    UnheardFacts(receiver, s1, s, epoch, peer, ctr, n);
    NamedEpochIsNat(sender, epoch, peer, key, ctr);
    KeyArrives(env, s, last, epoch, peer, key, ctr, n, ws, jobs);
    var installed := Step(env, s, Install(epoch, last.selfPeer, last.bundles)).0;
    AllDrained(env, installed, sender.conf, epoch, peer, key, ctr, n, frames, jobs, last.clock);
  }

  lemma JobsOfSender(jobs: seq<Job>, c: Config, epoch: int, peer: int, key: SenderKey, ctr: nat, frames: seq<Frame>)
    requires AreJobs(jobs, c, epoch, peer, key, ctr, frames)
    ensures forall job | job in jobs :: job.epoch == epoch && job.peer == peer
  {
    hide KidCodec.Encode;
    forall i | 0 <= i < |jobs| ensures jobs[i].epoch == epoch && jobs[i].peer == peer {
      assert IsJob(jobs[i], c, epoch, peer, key, ctr + i, frames[i]);
    }
  }

  lemma UnheardFacts(a: State, b: State, c: State, epoch: int, peer: int, ctr: nat, n: nat)
    requires HeardBelow(a, epoch, peer, ctr) && CacheFits(a, epoch, peer, n) && SameButDrain(a, b) && Unheard(b, c)
    ensures HeardBelow(c, epoch, peer, ctr) && CacheFits(c, epoch, peer, n)
  {
    assert Window(c, epoch, peer) == Window(a, epoch, peer);
  }

  lemma NamedEpochIsNat(s: State, epoch: int, peer: int, key: SenderKey, ctr: nat)
    requires Sends(s, epoch, peer, key, ctr)
    ensures epoch >= 0
  {
    hide KidCodec.Encode, KidCodec.Decode;
    CodecRoundTrip(s.conf.kidCodec, epoch, peer);
  }

  // A new worker is such a receiver, for every sender.
  lemma NewWorkerIsIdle(env: Env, kidCodec: WireCodec, cap: nat, codec: Codec, epoch: nat, peer: int, n: nat)
    ensures var s := Step(env, Initial(kidCodec, cap), SetCodec(codec)).0;
      Idle(s, epoch, peer, 0, n) && s.conf.codec == Some(codec) && s.conf.kidCodec == kidCodec
  {
  }
}

// Streams of frames between a sender and a receiver: every frame of a stream
// comes back, and a stream of bad frames invalidates a key.
module FrameStreams {
  import opened Bytes
  import opened ConstantTime
  import opened KidFormat
  import opened PreEpochQueue
  import opened ReplayWindow
  import opened Sframe
  import opened SframeHeader
  import opened FrameLaws
  import opened FrameOutcomes
  import opened WorkerEffects
  import opened WorkerFrames
  import opened WorkerRuns
  import opened WorkerState

  // ------------------------------------------------------------- departures

  // A sender under its own key, with its next counter.
  ghost predicate Sends(s: State, epoch: int, peer: int, key: SenderKey, ctr: nat) {
    && s.keys.currentEpoch == epoch && epoch in s.keys.epochs && s.keys.epochs[epoch].selfPeerIndex == peer
    && KeyFor(s.keys, epoch, peer) == Some(key) && s.keys.ctr == ctr
    && key.kid <= MAX_KID && |key.salt| == IV_BYTES && s.conf.kidCodec.Encode(epoch, peer) == Ok(key.kid)
  }

  // The jobs that encoding these frames one after the other begins.
  function SendAll(env: Env, s: State, frames: seq<Frame>, clock: seq<real>): seq<Job>
    requires |clock| == |frames|
    decreases |frames|
  {
    if frames == [] then []
    else
      var (s', r) := Step(env, s, Encode(frames[0], clock[0]));
      (if r.Began? then [r.job] else []) + SendAll(env, s', frames[1..], clock[1..])
  }

  // The frames as they are on the wire.
  function Wires(env: Env, jobs: seq<Job>, frames: seq<Frame>): (ws: seq<Frame>)
    requires |jobs| == |frames| && forall i | 0 <= i < |jobs| :: Sealable(jobs[i].key, jobs[i].ctr)
    ensures |ws| == |jobs|
  {
    seq(|jobs|, i requires 0 <= i < |jobs| => Frame(Wire(env, jobs[i]), frames[i].kind))
  }

  // The i-th job of a stream.
  ghost predicate IsJob(job: Job, c: Config, epoch: int, peer: int, key: SenderKey, ctr: nat, frame: Frame) {
    && job.epoch == epoch && job.peer == peer && job.key == key && job.ctr == ctr && Sealable(key, ctr)
    && c.kidCodec.Encode(epoch, peer) == Ok(key.kid)
    && job.prefix + job.body == frame.data && |job.prefix| == Min(UnencryptedBytes(c.codec, frame.kind), |frame.data|)
    && job.trailer == TrailerOf(c)
  }

  ghost predicate AreJobs(jobs: seq<Job>, c: Config, epoch: int, peer: int, key: SenderKey, ctr: nat, frames: seq<Frame>) {
    |jobs| == |frames| && forall i | 0 <= i < |jobs| :: IsJob(jobs[i], c, epoch, peer, key, ctr + i, frames[i])
  }

  lemma OneDeparture(env: Env, s: State, epoch: int, peer: int, key: SenderKey, ctr: nat, frame: Frame, now: real)
    requires Sends(s, epoch, peer, key, ctr) && ctr <= MAX_CTR
    ensures var (s', r) := Step(env, s, Encode(frame, now));
      r.Began? && IsJob(r.job, s.conf, epoch, peer, key, ctr, frame) && Sends(s', epoch, peer, key, ctr + 1) && s'.conf == s.conf
  {
    hide KidCodec.Encode;
  }

  // Every frame of the stream departs, under consecutive counters.
  lemma {:induction false} AllDepart(env: Env, s: State, epoch: int, peer: int, key: SenderKey, ctr: nat,
                                     frames: seq<Frame>, clock: seq<real>)
    requires |clock| == |frames| && Sends(s, epoch, peer, key, ctr) && ctr + |frames| <= MAX_CTR + 1
    ensures AreJobs(SendAll(env, s, frames, clock), s.conf, epoch, peer, key, ctr, frames)
    decreases |frames|
  {
    hide Step, Sends, IsJob;
    if frames != [] {
      OneDeparture(env, s, epoch, peer, key, ctr, frames[0], clock[0]);
      AllDepart(env, Step(env, s, Encode(frames[0], clock[0])).0, epoch, peer, key, ctr + 1, frames[1..], clock[1..]);
    }
  }

  // --------------------------------------------------------------- arrivals

  function Arrivals(ws: seq<Frame>, clock: seq<real>): (evs: seq<Event>)
    requires |clock| == |ws|
    ensures |evs| == |ws|
  {
    seq(|ws|, i requires 0 <= i < |ws| => Decode(ws[i], true, clock[i]))
  }

  // A receiver with the sender's key that has heard nothing from this counter
  // on, and has nothing cached for the sender but its layout.
  ghost predicate Listens(s: State, epoch: int, peer: int, key: SenderKey, ctr: nat, n: nat) {
    && epoch >= s.keys.currentMinValidEpoch && s.keys.currentEpoch != -1 && !IsKeyInvalid(s, epoch, peer)
    && HoldsKey(s, epoch, peer, key) && HeardBelow(s, epoch, peer, ctr) && CacheFits(s, epoch, peer, n)
  }

  ghost predicate HoldsKey(s: State, epoch: int, peer: int, key: SenderKey) {
    var held := KeyFor(s.keys, epoch, peer);
    held.Some? && held.value.raw == key.raw && held.value.salt == key.salt
  }

  ghost predicate HeardBelow(s: State, epoch: int, peer: int, ctr: nat) {
    forall c | c in Window(s, epoch, peer) :: c < ctr
  }

  // Every frame shows the same clear prefix and is at least that long.
  ghost predicate OneLayout(c: Config, frames: seq<Frame>, n: nat) {
    forall f | f in frames :: UnencryptedBytes(c.codec, f.kind) == n && |f.data| >= n
  }

  lemma JobIsHeard(s: State, c: Config, epoch: int, peer: int, key: SenderKey, ctr: nat, n: nat, frame: Frame, job: Job)
    requires Listens(s, epoch, peer, key, ctr, n) && IsJob(job, c, epoch, peer, key, ctr, frame) && SameFormats(c, s.conf)
    requires UnencryptedBytes(c.codec, frame.kind) == n <= |frame.data|
    ensures Hears(s, frame.kind, job) && job.trailer == TrailerOf(s.conf) && |job.prefix| == n
  {
    hide KidCodec.Encode;
  }

  // A delivery that resolved to the sender's layout leaves the receiver
  // listening for the next counter.
  lemma StillListens(env: Env, s: State, s': State, r: Report, epoch: int, peer: int, key: SenderKey, ctr: nat, n: nat, job: Job)
    requires Listens(s, epoch, peer, key, ctr, n) && Heard(r, job) && job.epoch == epoch && job.peer == peer && job.ctr == ctr
    requires KeysFollow(env, s, s', r) && WindowsFollow(s, s', r) && CountsFollow(s, s', r)
    requires FormatsFollow(s, s', r, FormatGuess(n, HeaderForm))
    ensures Listens(s', epoch, peer, key, ctr + 1, n) && s'.conf == s.conf
    ensures Lookup(s'.recv.formatCache, epoch, peer) == Some(FormatGuess(n, HeaderForm))
  {
    hide Window;
    assert Count(s', epoch, peer) == CountAfter(s, r, epoch, peer);
    var window, slid := Window(s, epoch, peer), Window(s', epoch, peer);
    assert slid == Slide(s.conf.replayWindowSize, window, r.header.ctr);
    forall c | c in slid ensures c < ctr + 1 { assert c in window || c == ctr; }
  }

  lemma OneArrival(env: Env, s: State, c: Config, epoch: int, peer: int, key: SenderKey, ctr: nat, n: nat,
                   frame: Frame, job: Job, now: real)
    requires env.aead.Lawful()
    requires Listens(s, epoch, peer, key, ctr, n) && IsJob(job, c, epoch, peer, key, ctr, frame) && SameFormats(c, s.conf)
    requires UnencryptedBytes(c.codec, frame.kind) == n <= |frame.data|
    ensures var (s', r) := Step(env, s, Decode(Frame(Wire(env, job), frame.kind), true, now));
      && r.Delivered? && r.data == frame.data
      && Listens(s', epoch, peer, key, ctr + 1, n) && s'.conf == s.conf
      && Lookup(s'.recv.formatCache, epoch, peer) == Some(FormatGuess(n, HeaderForm))
  {
    hide DecodeFrame, Listens, Hears, KeysFollow, WindowsFollow, CountsFollow, Speaks, FormatsFollow, Resolve, Payload, Wire;
    var wire := Frame(Wire(env, job), frame.kind);
    JobIsHeard(s, c, epoch, peer, key, ctr, n, frame, job);
    JobIsDecoded(env, s, frame.kind, job, now);
    DecodeFollows(env, s, wire, true, now);
    DecodeFormats(env, s, wire, true, now);
    var (s', r) := DecodeFrame(env, s, wire, true, now);
    StillListens(env, s, s', r, epoch, peer, key, ctr, n, job);
  }

  // The frames of the stream, as reports say.
  ghost predicate AllBack(rs: seq<Report>, frames: seq<Frame>) {
    |rs| == |frames| && forall i | 0 <= i < |rs| :: rs[i].Delivered? && rs[i].data == frames[i].data
  }

  lemma FirstJob(jobs: seq<Job>, c: Config, epoch: int, peer: int, key: SenderKey, ctr: nat, frames: seq<Frame>)
    requires AreJobs(jobs, c, epoch, peer, key, ctr, frames) && frames != []
    ensures IsJob(jobs[0], c, epoch, peer, key, ctr, frames[0])
    ensures AreJobs(jobs[1..], c, epoch, peer, key, ctr + 1, frames[1..])
  {
    hide IsJob;
    assert IsJob(jobs[0], c, epoch, peer, key, ctr + 0, frames[0]);
    forall i | 0 <= i < |jobs| - 1 ensures IsJob(jobs[1..][i], c, epoch, peer, key, ctr + 1 + i, frames[1..][i]) {
      assert IsJob(jobs[i + 1], c, epoch, peer, key, ctr + (i + 1), frames[i + 1]);
    }
  }

  lemma FirstLayout(c: Config, frames: seq<Frame>, n: nat)
    requires OneLayout(c, frames, n) && frames != []
    ensures UnencryptedBytes(c.codec, frames[0].kind) == n <= |frames[0].data| && OneLayout(c, frames[1..], n)
  {
    assert frames[0] in frames && forall f | f in frames[1..] :: f in frames;
  }

  lemma FirstArrival(env: Env, jobs: seq<Job>, frames: seq<Frame>, clock: seq<real>)
    requires |jobs| == |frames| == |clock| && jobs != []
    requires forall i | 0 <= i < |jobs| :: Sealable(jobs[i].key, jobs[i].ctr)
    ensures var evs := Arrivals(Wires(env, jobs, frames), clock);
      && evs[0] == Decode(Frame(Wire(env, jobs[0]), frames[0].kind), true, clock[0])
      && evs[1..] == Arrivals(Wires(env, jobs[1..], frames[1..]), clock[1..])
  {
    hide Wire;
  }

  lemma BackCons(r: Report, rs: seq<Report>, frames: seq<Frame>)
    requires frames != [] && r.Delivered? && r.data == frames[0].data && AllBack(rs, frames[1..])
    ensures AllBack([r] + rs, frames)
  {
  }

  lemma {:induction false} AllArrive(env: Env, s: State, c: Config, epoch: int, peer: int, key: SenderKey, ctr: nat, n: nat,
                                     frames: seq<Frame>, jobs: seq<Job>, clock: seq<real>)
    requires env.aead.Lawful() && |clock| == |frames|
    requires Listens(s, epoch, peer, key, ctr, n) && AreJobs(jobs, c, epoch, peer, key, ctr, frames) && SameFormats(c, s.conf)
    requires OneLayout(c, frames, n)
    ensures |jobs| == |frames| && forall i | 0 <= i < |jobs| :: Sealable(jobs[i].key, jobs[i].ctr)
    ensures AllBack(Steps(env, s, Arrivals(Wires(env, jobs, frames), clock)).1, frames)
    decreases |frames|
  {
    JobsAreSealable(jobs, c, epoch, peer, key, ctr, frames);
    var evs := Arrivals(Wires(env, jobs, frames), clock);
    hide Step, Listens, IsJob, Wire, SameFormats, AreJobs, OneLayout, Wires, Arrivals, Sealable, AllBack, Steps;
    if frames == [] {
      NoSteps(env, s, evs, frames);
    } else {
      FirstJob(jobs, c, epoch, peer, key, ctr, frames);
      FirstLayout(c, frames, n);
      FirstArrival(env, jobs, frames, clock);
      OneArrival(env, s, c, epoch, peer, key, ctr, n, frames[0], jobs[0], clock[0]);
      var (s', r) := Step(env, s, Decode(Frame(Wire(env, jobs[0]), frames[0].kind), true, clock[0]));
      assert SameFormats(c, s'.conf);
      AllArrive(env, s', c, epoch, peer, key, ctr + 1, n, frames[1..], jobs[1..], clock[1..]);
      StepsCons(env, s, evs);
      BackCons(r, Steps(env, s', evs[1..]).1, frames);
    }
  }

  lemma StepsCons(env: Env, s: State, evs: seq<Event>)
    requires evs != []
    ensures var (s', r) := Step(env, s, evs[0]);
      Steps(env, s, evs) == (Steps(env, s', evs[1..]).0, [r] + Steps(env, s', evs[1..]).1)
  {
    hide Step;
  }

  lemma NoSteps(env: Env, s: State, evs: seq<Event>, frames: seq<Frame>)
    requires evs == [] && frames == []
    ensures Steps(env, s, evs) == (s, []) && AllBack(Steps(env, s, evs).1, frames)
  {
  }

  // A stream of any length, encoded in turn and decoded in turn, comes back
  // frame by frame: the layout cached with each frame is the one the next needs.
  lemma StreamIsDelivered(env: Env, sender: State, receiver: State, epoch: int, peer: int, key: SenderKey, ctr: nat, n: nat,
                          frames: seq<Frame>, departed: seq<real>, arrived: seq<real>)
    requires env.aead.Lawful() && |departed| == |frames| == |arrived| && ctr + |frames| <= MAX_CTR + 1
    requires Sends(sender, epoch, peer, key, ctr) && Listens(receiver, epoch, peer, key, ctr, n)
    requires SameFormats(sender.conf, receiver.conf) && OneLayout(sender.conf, frames, n)
    ensures var jobs := SendAll(env, sender, frames, departed);
      && |jobs| == |frames| && (forall i | 0 <= i < |jobs| :: Sealable(jobs[i].key, jobs[i].ctr))
      && AllBack(Steps(env, receiver, Arrivals(Wires(env, jobs, frames), arrived)).1, frames)
  {
    hide Step, Steps, Sends, Listens, SameFormats, OneLayout, SendAll, AllBack;
    AllDepart(env, sender, epoch, peer, key, ctr, frames, departed);
    var jobs := SendAll(env, sender, frames, departed);
    JobsAreSealable(jobs, sender.conf, epoch, peer, key, ctr, frames);
    AllArrive(env, receiver, sender.conf, epoch, peer, key, ctr, n, frames, jobs, arrived);
  }

  lemma JobsAreSealable(jobs: seq<Job>, c: Config, epoch: int, peer: int, key: SenderKey, ctr: nat, frames: seq<Frame>)
    requires AreJobs(jobs, c, epoch, peer, key, ctr, frames)
    ensures |jobs| == |frames| && forall i | 0 <= i < |jobs| :: Sealable(jobs[i].key, jobs[i].ctr)
  {
    hide KidCodec.Encode;
    forall i | 0 <= i < |jobs| ensures Sealable(jobs[i].key, jobs[i].ctr) {
      assert IsJob(jobs[i], c, epoch, peer, key, ctr + i, frames[i]);
    }
  }

  // ------------------------------------------------------------ a whole call

  // A new worker that is told its codec and installs an epoch.
  function Joined(env: Env, kidCodec: WireCodec, cap: nat, codec: Codec, epoch: int, self: int, bundles: map<int, Bundle>): State {
    Steps(env, Initial(kidCodec, cap), [SetCodec(codec), Install(epoch, self, bundles)]).0
  }

  lemma JoinedIs(env: Env, kidCodec: WireCodec, cap: nat, codec: Codec, epoch: int, self: int, bundles: map<int, Bundle>)
    ensures var start := Initial(kidCodec, cap);
      Joined(env, kidCodec, cap, codec, epoch, self, bundles)
      == InstallAndDrain(start.(conf := start.conf.(codec := Some(codec))), epoch, self, bundles)
  {
    var start := Initial(kidCodec, cap);
    var evs := [SetCodec(codec), Install(epoch, self, bundles)];
    StepsCons(env, start, evs);
    assert evs[1..] == [Install(epoch, self, bundles)];
    StepsCons(env, Step(env, start, evs[0]).0, evs[1..]);
    assert evs[1..][1..] == [];
  }

  lemma JoinedSends(env: Env, kidCodec: WireCodec, cap: nat, codec: Codec, epoch: int, self: int, bundles: map<int, Bundle>)
    requires epoch >= 0 && Encodable(kidCodec, epoch, bundles.Keys)
    requires self in bundles && |bundles[self].salt| == IV_BYTES
    ensures kidCodec.Encode(epoch, self).Ok?
    ensures var s := Joined(env, kidCodec, cap, codec, epoch, self, bundles);
      Sends(s, epoch, self, KeyOf(kidCodec, epoch, self, bundles[self]), 0) && s.conf.codec == Some(codec)
  {
    hide KidCodec.Encode, KidCodec.Decode, Joined, Older, ResetCounts;
    JoinedIs(env, kidCodec, cap, codec, epoch, self, bundles);
    CodecRoundTrip(kidCodec, epoch, self);
  }

  lemma JoinedListens(env: Env, kidCodec: WireCodec, cap: nat, codec: Codec, epoch: int, self: int, bundles: map<int, Bundle>,
                      peer: int, n: nat)
    requires epoch >= 0 && Encodable(kidCodec, epoch, bundles.Keys) && peer in bundles
    ensures kidCodec.Encode(epoch, peer).Ok?
    ensures var s := Joined(env, kidCodec, cap, codec, epoch, self, bundles);
      Listens(s, epoch, peer, KeyOf(kidCodec, epoch, peer, bundles[peer]), 0, n) && s.conf.codec == Some(codec)
  {
    hide KidCodec.Encode, Joined, Older;
    JoinedIs(env, kidCodec, cap, codec, epoch, self, bundles);
  }

  lemma JoinedFormats(env: Env, kidCodec: WireCodec, cap: nat, cap': nat, codec: Codec, epoch: int, self: int, self': int,
                      bundles: map<int, Bundle>, bundles': map<int, Bundle>)
    ensures SameFormats(Joined(env, kidCodec, cap, codec, epoch, self, bundles).conf,
                        Joined(env, kidCodec, cap', codec, epoch, self', bundles').conf)
  {
    hide Joined, Encodable, Keys, Older, ResetCounts;
    JoinedIs(env, kidCodec, cap, codec, epoch, self, bundles);
    JoinedIs(env, kidCodec, cap', codec, epoch, self', bundles');
  }

  // Two new workers that agree on the identifier format, the codec and the
  // sender's bundle: everything one encodes the other gives back.
  lemma CallIsHeard(env: Env, kidCodec: WireCodec, codec: Codec, epoch: int, sender: int, receiver: int, cap: nat, cap': nat,
                    bundles: map<int, Bundle>, bundles': map<int, Bundle>, n: nat,
                    frames: seq<Frame>, departed: seq<real>, arrived: seq<real>)
    requires env.aead.Lawful() && epoch >= 0
    requires Encodable(kidCodec, epoch, bundles.Keys) && Encodable(kidCodec, epoch, bundles'.Keys)
    requires sender in bundles && sender in bundles' && bundles[sender] == bundles'[sender] && |bundles[sender].salt| == IV_BYTES
    requires |departed| == |frames| == |arrived| <= MAX_CTR + 1
    requires forall f | f in frames :: UnencryptedBytes(Some(codec), f.kind) == n && |f.data| >= n
    ensures var s := Joined(env, kidCodec, cap, codec, epoch, sender, bundles);
      var jobs := SendAll(env, s, frames, departed);
      && |jobs| == |frames| && (forall i | 0 <= i < |jobs| :: Sealable(jobs[i].key, jobs[i].ctr))
      && AllBack(Steps(env, Joined(env, kidCodec, cap', codec, epoch, receiver, bundles'),
                       Arrivals(Wires(env, jobs, frames), arrived)).1, frames)
  {
    hide Joined, Sends, Listens, SendAll, Wires, Arrivals, Steps, AllBack, Encodable, UnencryptedBytes, SameFormats;
    JoinedSends(env, kidCodec, cap, codec, epoch, sender, bundles);
    JoinedListens(env, kidCodec, cap', codec, epoch, receiver, bundles', sender, n);
    JoinedFormats(env, kidCodec, cap, cap', codec, epoch, sender, receiver, bundles, bundles');
    StreamIsDelivered(env, Joined(env, kidCodec, cap, codec, epoch, sender, bundles),
                      Joined(env, kidCodec, cap', codec, epoch, receiver, bundles'),
                      epoch, sender, KeyOf(kidCodec, epoch, sender, bundles[sender]), 0, n, frames, departed, arrived);
  }

  // -------------------------------------------------------- bad frames in turn

  // A frame that gets past every gate but that of invalid keys, and fails in
  // a way that tells on its sender's key.
  ghost predicate Bad(env: Env, s: State, frame: Frame, epoch: int, peer: int) {
    var payload := Payload(s, frame.data);
    payload.Some? && HeaderIn(env, s, frame.kind, payload.value).Ok? &&
    var h := HeaderIn(env, s, frame.kind, payload.value).value;
    && h.epoch == epoch && h.peer == peer
    && h.epoch >= s.keys.currentMinValidEpoch && s.keys.currentEpoch != -1
    && Fresh(s.conf.replayWindowSize, Window(s, epoch, peer), h.ctr)
    && TellsOnKey(env, s, frame.kind, payload.value, h, Decoding)
  }

  lemma BadReads(env: Env, a: State, b: State, frame: Frame, epoch: int, peer: int)
    requires SameView(a, b) && Window(a, epoch, peer) == Window(b, epoch, peer) && Bad(env, a, frame, epoch, peer)
    ensures Bad(env, b, frame, epoch, peer)
  {
    hide HeaderOf, Resolve, Lookup, Window, TellsOnKey, Fresh;
    var payload := Payload(a, frame.data).value;
    ResolveReads(env, a, b, frame.kind, payload);
    TellsReads(env, a, b, frame.kind, payload, HeaderIn(env, a, frame.kind, payload).value);
  }

  lemma TellsReads(env: Env, a: State, b: State, kind: Option<FrameKind>, payload: seq<byte>, h: FrameHeader)
    requires a.conf == b.conf && a.keys == b.keys && Resolve(env, a, kind, payload) == Resolve(env, b, kind, payload)
    ensures TellsOnKey(env, a, kind, payload, h, Decoding) <==> TellsOnKey(env, b, kind, payload, h, Decoding)
  {
    hide Resolve, OpensAt;
    assert Inside(env, a, kind, payload) == Inside(env, b, kind, payload);
    assert Clear(env, a, kind, payload) == Clear(env, b, kind, payload);
    assert Opens(env, a, kind, payload, h) <==> Opens(env, b, kind, payload, h);
  }

  lemma OneBadFrame(env: Env, s: State, frame: Frame, epoch: int, peer: int, now: real)
    requires s.conf.failureTolerance >= 0 && Bad(env, s, frame, epoch, peer) && !IsKeyInvalid(s, epoch, peer)
    ensures var s' := Step(env, s, Decode(frame, true, now)).0;
      && Count(s', epoch, peer) == Count(s, epoch, peer) + 1
      && SameView(s, s') && Window(s', epoch, peer) == Window(s, epoch, peer)
  {
    hide DecodeFrame, Resolve, HeaderOf, Payload, Window, Fresh, Opens, TellsOnKey, Lookup, Count, Speaks, HeaderIn;
    DecodeOutcome(env, s, frame, true, now);
    DecodeCounts(env, s, frame, true, now, epoch, peer);
    DecodeFollows(env, s, frame, true, now);
    DecodeFormats(env, s, frame, true, now);
    TellingIsNotOpening(env, s, frame.kind, Payload(s, frame.data).value, HeaderIn(env, s, frame.kind, Payload(s, frame.data).value).value);
  }

  lemma TellingIsNotOpening(env: Env, s: State, kind: Option<FrameKind>, payload: seq<byte>, h: FrameHeader)
    requires TellsOnKey(env, s, kind, payload, h, Decoding)
    ensures !Opens(env, s, kind, payload, h)
  {
  }

  lemma {:induction false} BadFramesCount(env: Env, s: State, frames: seq<Frame>, clock: seq<real>, epoch: int, peer: int)
    requires |clock| == |frames| && s.conf.failureTolerance >= 0
    requires forall f | f in frames :: Bad(env, s, f, epoch, peer)
    requires Count(s, epoch, peer) + |frames| <= s.conf.failureTolerance + 1
    ensures var s' := Steps(env, s, Arrivals(frames, clock)).0;
      && Count(s', epoch, peer) == Count(s, epoch, peer) + |frames|
      && SameView(s, s') && Window(s', epoch, peer) == Window(s, epoch, peer)
    decreases |frames|
  {
    hide Step, Bad, Count, Lookup, Window;
    if frames != [] {
      var evs := Arrivals(frames, clock);
      assert frames[0] in frames && forall f | f in frames[1..] :: f in frames;
      assert !IsKeyInvalid(s, epoch, peer);
      OneBadFrame(env, s, frames[0], epoch, peer, clock[0]);
      var s' := Step(env, s, evs[0]).0;
      forall f | f in frames[1..] ensures Bad(env, s', f, epoch, peer) { BadReads(env, s, s', f, epoch, peer); }
      BadFramesCount(env, s', frames[1..], clock[1..], epoch, peer);
      assert evs[1..] == Arrivals(frames[1..], clock[1..]);
    }
  }

  // From a clean slate, tolerance + 1 bad frames make a key invalid and no
  // fewer do; the next bad frame is then dropped for that.
  lemma ToleranceIsExact(env: Env, s: State, frames: seq<Frame>, clock: seq<real>, epoch: int, peer: int, next: Frame, now: real)
    requires |clock| == |frames| <= s.conf.failureTolerance + 1 && Count(s, epoch, peer) == 0
    requires s.conf.failureTolerance >= 0
    requires forall f | f in frames + [next] :: Bad(env, s, f, epoch, peer)
    ensures var s' := Steps(env, s, Arrivals(frames, clock)).0;
      && (IsKeyInvalid(s', epoch, peer) <==> |frames| == s.conf.failureTolerance + 1)
      && var r := Step(env, s', Decode(next, true, now)).1;
         r.Refused? && (r.error == KeyInvalid <==> |frames| == s.conf.failureTolerance + 1)
  {
    hide Step, Steps, Bad, Count, Lookup, Window;
    assert forall f | f in frames :: f in frames + [next];
    assert next in frames + [next];
    BadFramesCount(env, s, frames, clock, epoch, peer);
    var s' := Steps(env, s, Arrivals(frames, clock)).0;
    BadReads(env, s, s', next, epoch, peer);
    BadIsRefused(env, s', next, epoch, peer, now);
  }

  lemma BadIsRefused(env: Env, s: State, frame: Frame, epoch: int, peer: int, now: real)
    requires Bad(env, s, frame, epoch, peer)
    ensures var r := Step(env, s, Decode(frame, true, now)).1;
      r.Refused? && (r.error == KeyInvalid <==> IsKeyInvalid(s, epoch, peer))
  {
    hide DecodeFrame, Resolve, HeaderOf, Payload, Window, Fresh, Opens, TellsOnKey, HeaderIn, IsKeyInvalid;
    DecodeOutcome(env, s, frame, true, now);
    var payload := Payload(s, frame.data).value;
    var h := HeaderIn(env, s, frame.kind, payload).value;
    TellingIsNotOpening(env, s, frame.kind, payload, h);
  }
}

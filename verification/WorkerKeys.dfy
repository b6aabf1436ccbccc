// Over every run: where the ratchet cursor stands, and when a key counts as
// invalid.
module WorkerKeys {
  import opened Bytes
  import opened KidFormat
  import opened Sframe
  import opened SframeHeader
  import opened Starvation
  import opened FrameLaws
  import opened WorkerEffects
  import opened WorkerFrames
  import opened WorkerRuns
  import opened WorkerSafety
  import opened WorkerState

  // ------------------------------------------------------ the ratchet cursor

  // What was last installed for an epoch that is still there.
  function Installed(u: Setup, evs: seq<Event>, epoch: int): Option<map<int, Bundle>> {
    if evs == [] then None
    else
      var init, last := evs[..|evs| - 1], evs[|evs| - 1];
      match last
      case TeardownMsg => None
      case Install(e, _, bundles) =>
        if e == epoch && Encodable(u.kidCodec, e, bundles.Keys) then Some(bundles) else Installed(u, init, epoch)
      case WipeTimer(e) =>
        if e == epoch && e in Run(u, init).keys.wipeTimers then None else Installed(u, init, epoch)
      case _ => Installed(u, init, epoch)
  }

  // Every key of an epoch is its installed key, ratcheted as often as the
  // cursor says.
  ghost predicate CursorHolds(env: Env, codec: WireCodec, k: KeyTable, epoch: int, installed: Option<map<int, Bundle>>) {
    && (epoch in k.epochs <==> installed.Some?)
    && (installed.Some? ==>
         && Encodable(codec, epoch, installed.value.Keys)
         && k.epochs[epoch].keys.Keys == installed.value.Keys
         && forall p: int | p in installed.value :: k.epochs[epoch].keys[p]
              == Ratcheted(env, KeyOf(codec, epoch, p, installed.value[p]), p, StepsOf(k, epoch, p)))
  }

  lemma AdvanceMoves(env: Env, k: KeyTable, epoch: int, peer: int, steps: nat, p: int)
    requires KeyFor(k, epoch, p).Some?
    ensures var k' := Advance(env, k, epoch, peer, steps);
      && KeyFor(k', epoch, p) == Some(if p == peer then Ratcheted(env, KeyFor(k, epoch, p).value, p, steps) else KeyFor(k, epoch, p).value)
      && StepsOf(k', epoch, p) == StepsOf(k, epoch, p) + if p == peer then steps else 0
  {
  }

  lemma AdvanceKeepsCursor(env: Env, codec: WireCodec, k: KeyTable, epoch: int, installed: Option<map<int, Bundle>>,
                           e: int, peer: int, steps: nat)
    requires CursorHolds(env, codec, k, epoch, installed)
    ensures CursorHolds(env, codec, Advance(env, k, e, peer, steps), epoch, installed)
  {
    hide Encodable, Ratcheted, KidCodec.Encode, KeyOf, Advance, StepsOf;
    AdvanceShape(env, k, e, peer, steps);
    var k' := Advance(env, k, e, peer, steps);
    if installed.Some? {
      forall p: int | p in installed.value ensures codec.Encode(epoch, p).Ok? && k'.epochs[epoch].keys[p]
        == Ratcheted(env, KeyOf(codec, epoch, p, installed.value[p]), p, StepsOf(k', epoch, p)) {
        EncodableOne(codec, epoch, installed.value.Keys, p);
        if e == epoch {
          AdvanceMoves(env, k, epoch, peer, steps, p);
          RatchetedTwice(env, KeyOf(codec, epoch, p, installed.value[p]), p, StepsOf(k, epoch, p), steps);
        } else {
          OtherEpochStays(env, k, e, peer, steps, epoch, p);
        }
      }
    }
  }

  lemma EncodableOne(codec: KidCodec, epoch: int, peers: set<int>, p: int)
    requires Encodable(codec, epoch, peers) && p in peers
    ensures codec.Encode(epoch, p).Ok?
  {
  }

  lemma OtherEpochStays(env: Env, k: KeyTable, epoch: int, peer: int, steps: nat, e: int, p: int)
    requires e != epoch
    ensures var k' := Advance(env, k, epoch, peer, steps);
      KeyFor(k', e, p) == KeyFor(k, e, p) && StepsOf(k', e, p) == StepsOf(k, e, p)
  {
  }

  lemma InstallSetsCursor(env: Env, codec: WireCodec, k: KeyTable, epoch: int, installed: Option<map<int, Bundle>>,
                          e: int, selfPeer: int, bundles: map<int, Bundle>)
    requires CursorHolds(env, codec, k, epoch, installed) && Encodable(codec, e, bundles.Keys)
    ensures var k' := InstallKeys(k, e, EpochEntry(selfPeer, Keys(codec, e, bundles), map[]));
      CursorHolds(env, codec, k', epoch, if e == epoch then Some(bundles) else installed)
  {
    hide Encodable, KidCodec.Encode, KeyOf, Older;
    var k' := InstallKeys(k, e, EpochEntry(selfPeer, Keys(codec, e, bundles), map[]));
    if e == epoch {
      forall p: int | p in bundles ensures codec.Encode(epoch, p).Ok? && k'.epochs[epoch].keys[p]
        == Ratcheted(env, KeyOf(codec, epoch, p, bundles[p]), p, StepsOf(k', epoch, p)) {
        EncodableOne(codec, epoch, bundles.Keys, p);
      }
    } else {
      SameEntryKeepsCursor(env, codec, k, k', epoch, installed);
    }
  }

  lemma SameEntryKeepsCursor(env: Env, codec: WireCodec, k: KeyTable, k': KeyTable, epoch: int, installed: Option<map<int, Bundle>>)
    requires CursorHolds(env, codec, k, epoch, installed)
    requires epoch in k'.epochs <==> epoch in k.epochs
    requires epoch in k.epochs ==> k'.epochs[epoch] == k.epochs[epoch]
    ensures CursorHolds(env, codec, k', epoch, installed)
  {
    hide Encodable, KidCodec.Encode, KeyOf, Ratcheted;
    if installed.Some? {
      forall p: int | p in installed.value ensures codec.Encode(epoch, p).Ok? && k'.epochs[epoch].keys[p]
        == Ratcheted(env, KeyOf(codec, epoch, p, installed.value[p]), p, StepsOf(k', epoch, p)) {
        EncodableOne(codec, epoch, installed.value.Keys, p);
        assert StepsOf(k', epoch, p) == StepsOf(k, epoch, p);
      }
    }
  }

  lemma GoneKeepsCursor(env: Env, codec: WireCodec, k: KeyTable, epoch: int)
    requires epoch !in k.epochs
    ensures CursorHolds(env, codec, k, epoch, None)
  {
  }

  lemma StepKeepsCursor(u: Setup, s: State, ev: Event, epoch: int, installed: Option<map<int, Bundle>>)
    requires s.conf.kidCodec == u.kidCodec
    requires CursorHolds(u.env, u.kidCodec, s.keys, epoch, installed)
    ensures var k' := Step(u.env, s, ev).0.keys;
      match ev
      case TeardownMsg => CursorHolds(u.env, u.kidCodec, k', epoch, None)
      case Install(e, _, bundles) => CursorHolds(u.env, u.kidCodec, k', epoch,
        if e == epoch && Encodable(u.kidCodec, e, bundles.Keys) then Some(bundles) else installed)
      case WipeTimer(e) => CursorHolds(u.env, u.kidCodec, k', epoch,
        if e == epoch && e in s.keys.wipeTimers then None else installed)
      case _ => CursorHolds(u.env, u.kidCodec, k', epoch, installed)
  {
    hide DecodeFrame, DrainNext, CursorHolds, Encodable, Keys, ResetCounts, Advance, EncodeOrDrop, WindowsFollow, CountsFollow, Speaks;
    var k' := Step(u.env, s, ev).0.keys;
    if FrameEvent(ev) {
      StepOfFrame(u.env, s, ev);
      var r := Step(u.env, s, ev).1;
      if r.Delivered? {
        AdvanceKeepsCursor(u.env, u.kidCodec, s.keys, epoch, installed, r.header.epoch, r.header.peer, r.steps);
      }
    } else if ev.TeardownMsg? || (ev.WipeTimer? && ev.timerOf == epoch && epoch in s.keys.wipeTimers) {
      GoneKeepsCursor(u.env, u.kidCodec, k', epoch);
    } else if ev.Install? {
      if Encodable(u.kidCodec, ev.epoch, ev.bundles.Keys) {
        InstallSetsCursor(u.env, u.kidCodec, s.keys, epoch, installed, ev.epoch, ev.selfPeer, ev.bundles);
      }
    } else {
      if ev.Encode? { EncodeTouches(s, ev.frame, ev.now); }
      SameEntryKeepsCursor(u.env, u.kidCodec, s.keys, k', epoch, installed);
    }
  }

  // In every run each cached key is the installed one ratcheted by the cursor.
  lemma {:induction false} CursorIsFaithful(u: Setup, evs: seq<Event>, epoch: int)
    ensures CursorHolds(u.env, u.kidCodec, Run(u, evs).keys, epoch, Installed(u, evs, epoch))
  {
    hide Step, CursorHolds, Encodable;
    if evs == [] {
      GoneKeepsCursor(u.env, u.kidCodec, Run(u, evs).keys, epoch);
    } else {
      var init, last := evs[..|evs| - 1], evs[|evs| - 1];
      CursorIsFaithful(u, init, epoch);
      CodecStays(u, init);
      StepKeepsCursor(u, Run(u, init), last, epoch, Installed(u, init, epoch));
    }
  }

  // Salt and identifier of a cached key are the installed ones.
  lemma SaltNeverMoves(u: Setup, evs: seq<Event>, epoch: int, peer: int)
    requires KeyFor(Run(u, evs).keys, epoch, peer).Some?
    ensures var installed := Installed(u, evs, epoch);
      && installed.Some? && peer in installed.value
      && KeyFor(Run(u, evs).keys, epoch, peer).value.salt == installed.value[peer].salt
  {
    hide Step, Encodable, KidCodec.Encode;
    CursorIsFaithful(u, evs, epoch);
    var bundles := Installed(u, evs, epoch).value;
    EncodableOne(u.kidCodec, epoch, bundles.Keys, peer);
    RatchetedKeepsSalt(u.env, KeyOf(u.kidCodec, epoch, peer, bundles[peer]), peer, StepsOf(Run(u, evs).keys, epoch, peer));
  }

  // -------------------------------------------------- whose key an encode uses

  // The own index of the last install of an epoch that is still there.
  function InstalledSelf(u: Setup, evs: seq<Event>, epoch: int): Option<int> {
    if evs == [] then None
    else
      var init, last := evs[..|evs| - 1], evs[|evs| - 1];
      match last
      case TeardownMsg => None
      case Install(e, selfPeer, bundles) =>
        if e == epoch && Encodable(u.kidCodec, e, bundles.Keys) then Some(selfPeer) else InstalledSelf(u, init, epoch)
      case WipeTimer(e) =>
        if e == epoch && e in Run(u, init).keys.wipeTimers then None else InstalledSelf(u, init, epoch)
      case _ => InstalledSelf(u, init, epoch)
  }

  predicate SelfIs(k: KeyTable, epoch: int, self: Option<int>) {
    (epoch in k.epochs <==> self.Some?) && (self.Some? ==> k.epochs[epoch].selfPeerIndex == self.value)
  }

  // The active epoch, since the last teardown.
  function Active(u: Setup, evs: seq<Event>): int {
    if evs == [] then -1
    else
      var init, last := evs[..|evs| - 1], evs[|evs| - 1];
      if last.TeardownMsg? then -1
      else if last.Install? && last.epoch > Active(u, init) && Encodable(u.kidCodec, last.epoch, last.bundles.Keys) then last.epoch
      else Active(u, init)
  }

  lemma {:induction false} SelfIsInstalled(u: Setup, evs: seq<Event>, epoch: int)
    ensures SelfIs(Run(u, evs).keys, epoch, InstalledSelf(u, evs, epoch))
    ensures Run(u, evs).keys.currentEpoch == Active(u, evs)
  {
    hide DecodeFrame, DrainNext, Encodable, Keys, ResetCounts, EncodeOrDrop, Advance;
    if evs != [] {
      var init, last := evs[..|evs| - 1], evs[|evs| - 1];
      SelfIsInstalled(u, init, epoch);
      CodecStays(u, init);
      var s := Run(u, init);
      if last.Encode? { EncodeTouches(s, last.frame, last.now); }
      if FrameEvent(last) {
        StepOfFrame(u.env, s, last);
        var r := Step(u.env, s, last).1;
        if r.Delivered? { AdvanceShape(u.env, s.keys, r.header.epoch, r.header.peer, r.steps); }
      }
    }
  }

  // What an encode needs, told by the history: an active epoch, a key of its
  // own in it with a salt of twelve bytes, and a counter of 64 bits.
  ghost predicate CanEncode(u: Setup, evs: seq<Event>) {
    var epoch := Active(u, evs);
    var self, installed := InstalledSelf(u, evs, epoch), Installed(u, evs, epoch);
    && self.Some? && installed.Some? && self.value in installed.value
    && |installed.value[self.value].salt| == IV_BYTES && Run(u, evs).keys.ctr <= MAX_CTR
  }

  // An encode begins exactly then, and it is the installed sender's own: its
  // epoch is active, its peer is the own index installed with that epoch, its
  // key is that peer's, ratcheted by the cursor, and its identifier names both.
  lemma EncodeIsOwn(u: Setup, evs: seq<Event>, frame: Frame, now: real)
    ensures var r := ReportOf(u, evs, Encode(frame, now));
      && (r.Began? <==> CanEncode(u, evs))
      && (r.Began? ==>
           && r.job.epoch == Active(u, evs) && InstalledSelf(u, evs, r.job.epoch) == Some(r.job.peer)
           && KeyFor(Run(u, evs).keys, r.job.epoch, r.job.peer) == Some(r.job.key)
           && u.kidCodec.Encode(r.job.epoch, r.job.peer) == Ok(r.job.key.kid)
           && r.job.key.salt == Installed(u, evs, r.job.epoch).value[r.job.peer].salt
           && r.job.ctr == Run(u, evs).keys.ctr)
  {
    hide Run, Encodable, KidCodec.Encode, CursorHolds, KidCodec.Decode;
    var epoch, s := Active(u, evs), Run(u, evs);
    SelfIsInstalled(u, evs, epoch);
    KeyIsInstalled(u, evs, epoch);
    KeysStayNamed(u, evs);
    CodecStays(u, evs);
    var key := SelfKey(s.keys);
    if key.Some? {
      var peer := s.keys.epochs[epoch].selfPeerIndex;
      OneKeyNamed(s.keys, u.kidCodec, Job(epoch, peer, key.value, 0, [], [], []));
      CodecRoundTrip(u.kidCodec, epoch, peer);
      SaltNeverMoves(u, evs, epoch, peer);
    }
  }

  // Whether the sender has a key of its own in its active epoch.
  predicate HoldsOwn(u: Setup, evs: seq<Event>) {
    var epoch := Active(u, evs);
    var self := InstalledSelf(u, evs, epoch);
    self.Some? && Holds(Installed(u, evs, epoch), self.value)
  }

  // The encodes since the active epoch was installed that found a key of their
  // own, whatever became of them.
  function Spent(u: Setup, evs: seq<Event>): nat {
    if evs == [] then 0
    else
      var init, last := evs[..|evs| - 1], evs[|evs| - 1];
      if last.TeardownMsg? || (last.Install? && Active(u, evs) != Active(u, init)) then 0
      else Spent(u, init) + if last.Encode? && HoldsOwn(u, init) then 1 else 0
  }

  // Why an encode fails, in the order of the tests.
  function WhyNot(u: Setup, evs: seq<Event>): Option<EncodeError> {
    var epoch := Active(u, evs);
    if InstalledSelf(u, evs, epoch).None? then Some(NoActiveEpoch)
    else if !HoldsOwn(u, evs) then Some(NoSelfKey)
    else if Spent(u, evs) > MAX_CTR then Some(EncodeError.Header(CtrRange))
    else if |Installed(u, evs, epoch).value[InstalledSelf(u, evs, epoch).value].salt| != IV_BYTES then Some(Salt)
    else None
  }

  // Every encode that finds a key spends one counter, also when it then fails,
  // and the history tells why it fails.
  lemma EncodeIsTold(u: Setup, evs: seq<Event>, frame: Frame)
    requires Run(u, evs).keys.ctr == Spent(u, evs)
    ensures var (s', r) := BeginEncode(Run(u, evs), frame);
      && (if r.Ok? then WhyNot(u, evs).None? else WhyNot(u, evs) == Some(r.error))
      && s' == Run(u, evs).(keys := Run(u, evs).keys.(ctr := Spent(u, evs) + if HoldsOwn(u, evs) then 1 else 0))
  {
    hide Run, Encodable, KidCodec.Encode, CursorHolds, KidCodec.Decode, Spent, Active, InstalledSelf, Installed;
    var epoch, s := Active(u, evs), Run(u, evs);
    SelfIsInstalled(u, evs, epoch);
    KeyIsInstalled(u, evs, epoch);
    KeysStayNamed(u, evs);
    CodecStays(u, evs);
    var key := SelfKey(s.keys);
    if key.Some? {
      var peer := s.keys.epochs[epoch].selfPeerIndex;
      OneKeyNamed(s.keys, u.kidCodec, Job(epoch, peer, key.value, 0, [], [], []));
      CodecRoundTrip(u.kidCodec, epoch, peer);
      SaltNeverMoves(u, evs, epoch, peer);
    }
  }

  lemma {:induction false} CounterIsTally(u: Setup, evs: seq<Event>)
    ensures Run(u, evs).keys.ctr == Spent(u, evs)
  {
    hide DecodeFrame, DrainNext, Encodable, Keys, ResetCounts, EncodeOrDrop, Advance, HoldsOwn, Active;
    if evs != [] {
      var init, last := evs[..|evs| - 1], evs[|evs| - 1];
      CounterIsTally(u, init);
      CodecStays(u, init);
      SelfIsInstalled(u, init, Active(u, init));
      SelfIsInstalled(u, evs, Active(u, evs));
      var s := Run(u, init);
      if last.Encode? {
        EncodeTouches(s, last.frame, last.now);
        EncodeIsTold(u, init, last.frame);
        BeginsFirst(s, last.frame, last.now);
      }
      if FrameEvent(last) {
        StepOfFrame(u.env, s, last);
        var r := Step(u.env, s, last).1;
        if r.Delivered? { AdvanceShape(u.env, s.keys, r.header.epoch, r.header.peer, r.steps); }
      }
    }
  }

  lemma BeginsFirst(s: State, frame: Frame, now: real)
    ensures EncodeOrDrop(s, frame, now).0.keys == BeginEncode(s, frame).0.keys
  {
    hide BeginEncode;
  }

  // So in every run each encode begins, or fails, for the reason told.
  lemma EncodeOutcome(u: Setup, evs: seq<Event>, frame: Frame)
    ensures var (s', r) := BeginEncode(Run(u, evs), frame);
      && (if r.Ok? then WhyNot(u, evs).None? && r.value.ctr == Spent(u, evs) else WhyNot(u, evs) == Some(r.error))
      && s'.keys.ctr == Spent(u, evs) + if HoldsOwn(u, evs) then 1 else 0
  {
    hide Run, Spent, WhyNot, HoldsOwn, KeyFor, UnencryptedBytes;
    CounterIsTally(u, evs);
    EncodeIsTold(u, evs, frame);
  }

  predicate Holds(installed: Option<map<int, Bundle>>, p: int) { installed.Some? && p in installed.value }

  lemma KeyIsInstalled(u: Setup, evs: seq<Event>, epoch: int)
    ensures forall p: int :: KeyFor(Run(u, evs).keys, epoch, p).Some? <==> Holds(Installed(u, evs, epoch), p)
  {
    hide Run, Encodable, Ratcheted, KeyOf;
    CursorIsFaithful(u, evs, epoch);
  }

  // Between installs the cursor only moves with a delivered frame, forward,
  // and by no more than the window; a frame that fails moves nothing.
  lemma CursorOnlyAdvances(env: Env, s: State, ev: Event, epoch: int, peer: int)
    requires !ev.TeardownMsg? && !(ev.Install? && ev.epoch == epoch) && !(ev.WipeTimer? && ev.timerOf == epoch)
    requires KeyFor(s.keys, epoch, peer).Some?
    ensures var (s', r) := Step(env, s, ev);
      && StepsOf(s'.keys, epoch, peer) == StepsOf(s.keys, epoch, peer) + (if DeliveredFrom(r, epoch, peer) then r.steps else 0)
      && (DeliveredFrom(r, epoch, peer) ==> r.steps <= s.conf.ratchetWindowSize)
      && (!r.Delivered? ==> KeyFor(s'.keys, epoch, peer) == KeyFor(s.keys, epoch, peer))
  {
    hide DecodeFrame, DrainNext, Encodable, Keys, ResetCounts, Advance, EncodeOrDrop, WindowsFollow, CountsFollow, Speaks;
    if ev.Encode? { EncodeTouches(s, ev.frame, ev.now); }
    if FrameEvent(ev) {
      StepOfFrame(env, s, ev);
      var r := Step(env, s, ev).1;
      if r.Delivered? {
        if r.header.epoch == epoch { AdvanceMoves(env, s.keys, epoch, r.header.peer, r.steps, peer); }
        else { OtherEpochStays(env, s.keys, r.header.epoch, r.header.peer, r.steps, epoch, peer); }
      }
    }
  }

  // --------------------------------------------------- failure invalidation

  // The outcomes of a key since its install, a tolerance change or a teardown:
  // true for an opened frame, false for a failure that tells on the key.
  function Outcomes(u: Setup, evs: seq<Event>, epoch: int, peer: int): seq<bool> {
    if evs == [] then []
    else
      var init, last := evs[..|evs| - 1], evs[|evs| - 1];
      var r := ReportOf(u, init, last);
      if last.TeardownMsg? || last.SetTolerance? || Reinstalls(u.kidCodec, last, epoch, peer) then []
      else if DeliveredFrom(r, epoch, peer) then Outcomes(u, init, epoch, peer) + [true]
      else if FailedFrom(r, epoch, peer) then Outcomes(u, init, epoch, peer) + [false]
      else Outcomes(u, init, epoch, peer)
  }

  predicate Reinstalls(codec: WireCodec, ev: Event, epoch: int, peer: int) {
    ev.Install? && ev.epoch == epoch && peer in ev.bundles && Encodable(codec, ev.epoch, ev.bundles.Keys)
  }

  // How many failures a history ends in.
  function Trailing(outcomes: seq<bool>): nat {
    if outcomes == [] || outcomes[|outcomes| - 1] then 0 else Trailing(outcomes[..|outcomes| - 1]) + 1
  }

  lemma ControlKeepsCount(env: Env, s: State, ev: Event, epoch: int, peer: int)
    requires !FrameEvent(ev) && !ev.TeardownMsg? && !ev.SetTolerance?
    ensures var s' := Step(env, s, ev).0;
      && s'.conf.failureTolerance == s.conf.failureTolerance
      && Count(s', epoch, peer) == if Reinstalls(s.conf.kidCodec, ev, epoch, peer) then 0 else Count(s, epoch, peer)
  {
    hide Encodable, Keys, EncodeOrDrop;
    if ev.Encode? { EncodeTouches(s, ev.frame, ev.now); }
  }

  ghost predicate CountHolds(s: State, epoch: int, peer: int, outcomes: seq<bool>) {
    s.conf.failureTolerance >= 0 ==>
      Count(s, epoch, peer) == Trailing(outcomes) && Count(s, epoch, peer) <= s.conf.failureTolerance + 1
  }

  lemma FrameKeepsCount(env: Env, s: State, ev: Event, epoch: int, peer: int, outcomes: seq<bool>)
    requires FrameEvent(ev) && CountHolds(s, epoch, peer, outcomes)
    ensures var (s', r) := Step(env, s, ev);
      CountHolds(s', epoch, peer, if DeliveredFrom(r, epoch, peer) then outcomes + [true]
                                  else if FailedFrom(r, epoch, peer) then outcomes + [false] else outcomes)
  {
    hide Step, Count, WindowsFollow, Speaks;
    StepOfFrame(env, s, ev);
    var (s', r) := Step(env, s, ev);
    assert Count(s', epoch, peer) == CountAfter(s, r, epoch, peer);
    assert (outcomes + [false])[..|outcomes|] == outcomes;
  }

  // Where the tolerance is in force, the count is the number of failures the
  // history ends in, and it never passes the tolerance by more than one.
  lemma {:induction false} CountIsTrailing(u: Setup, evs: seq<Event>, epoch: int, peer: int)
    ensures CountHolds(Run(u, evs), epoch, peer, Outcomes(u, evs, epoch, peer))
  {
    hide Step, Encodable;
    if evs != [] {
      var init, last := evs[..|evs| - 1], evs[|evs| - 1];
      CountIsTrailing(u, init, epoch, peer);
      CodecStays(u, init);
      var s := Run(u, init);
      if last.TeardownMsg? || last.SetTolerance? {
        ResetCountsAll(u.env, s, last, epoch, peer);
      } else if FrameEvent(last) {
        FrameKeepsCount(u.env, s, last, epoch, peer, Outcomes(u, init, epoch, peer));
      } else {
        ControlKeepsCount(u.env, s, last, epoch, peer);
        ControlReportsNothing(u.env, s, last);
      }
    }
  }

  lemma ResetCountsAll(env: Env, s: State, ev: Event, epoch: int, peer: int)
    requires ev.TeardownMsg? || ev.SetTolerance?
    ensures Count(Step(env, s, ev).0, epoch, peer) == 0
  {
  }

  // A key is invalid exactly when the tolerance is in force and its history
  // ends in more failures than it allows.
  lemma InvalidIff(u: Setup, evs: seq<Event>, epoch: int, peer: int)
    ensures var s := Run(u, evs);
      IsKeyInvalid(s, epoch, peer)
      <==> s.conf.failureTolerance >= 0 && Trailing(Outcomes(u, evs, epoch, peer)) > s.conf.failureTolerance
  {
    CountIsTrailing(u, evs, epoch, peer);
  }

  // An invalid key delivers nothing, and stays invalid until it is installed
  // again, the tolerance changes or the worker is torn down.
  lemma InvalidStaysInvalid(env: Env, s: State, ev: Event, epoch: int, peer: int)
    requires IsKeyInvalid(s, epoch, peer)
    ensures !DeliveredFrom(Step(env, s, ev).1, epoch, peer)
    ensures ev.TeardownMsg? || ev.SetTolerance? || Reinstalls(s.conf.kidCodec, ev, epoch, peer)
         || IsKeyInvalid(Step(env, s, ev).0, epoch, peer)
  {
    hide Step, Count, WindowsFollow, Speaks, Encodable;
    var (s', r) := Step(env, s, ev);
    if FrameEvent(ev) {
      StepOfFrame(env, s, ev);
      assert Count(s', epoch, peer) == CountAfter(s, r, epoch, peer);
    } else {
      ControlReportsNothing(env, s, ev);
      if !ev.TeardownMsg? && !ev.SetTolerance? { ControlKeepsCount(env, s, ev, epoch, peer); }
    }
  }

  // ----------------------------------------------------- the announcement

  function Announcements(log: seq<OutMsg>, epoch: int, peer: int): nat {
    if log == [] then 0
    else
      var m := log[|log| - 1];
      Announcements(log[..|log| - 1], epoch, peer)
        + if m.KeyInvalidated? && m.epochOf == epoch && m.peerOf == peer then 1 else 0
  }

  lemma {:induction false} AnnouncementsAppend(a: seq<OutMsg>, b: seq<OutMsg>, epoch: int, peer: int)
    ensures Announcements(a + b, epoch, peer) == Announcements(a, epoch, peer) + Announcements(b, epoch, peer)
  {
    if b == [] {
      assert a + b == a;
    } else {
      assert (a + b)[..|a + b| - 1] == a + b[..|b| - 1];
      AnnouncementsAppend(a, b[..|b| - 1], epoch, peer);
    }
  }

  lemma OneAnnouncement(m: OutMsg, epoch: int, peer: int)
    ensures Announcements([m], epoch, peer) == if m.KeyInvalidated? && m.epochOf == epoch && m.peerOf == peer then 1 else 0
  {
    assert [m][..0] == [];
  }

  lemma SaidAnnounces(s: State, r: Report, now: real, path: Path, epoch: int, peer: int)
    requires r.Refused? && r.counted ==> r.at.Some? && !Reported(r.error)
    ensures Announcements(Said(s, r, now, path), epoch, peer)
         == if FailedFrom(r, epoch, peer) && s.conf.metricsEnabled && Count(s, epoch, peer) == s.conf.failureTolerance then 1 else 0
  {
    hide Count, Announcements, Signalled, NoteDrop;
    var said := Said(s, r, now, path);
    AnnouncementsNone(epoch, peer);
    forall m: OutMsg ensures Announcements([m], epoch, peer)
      == if m.KeyInvalidated? && m.epochOf == epoch && m.peerOf == peer then 1 else 0 { OneAnnouncement(m, epoch, peer); }
    if |said| == 2 {
      AnnouncementsAppend([said[0]], [said[1]], epoch, peer);
      assert said == [said[0]] + [said[1]];
    } else if |said| == 1 {
      assert said == [said[0]];
    }
  }

  lemma AnnouncementsNone(epoch: int, peer: int)
    ensures Announcements([], epoch, peer) == 0
  {
  }

  lemma ControlAnnouncesNothing(env: Env, s: State, ev: Event, epoch: int, peer: int)
    requires !FrameEvent(ev)
    ensures Announcements(Step(env, s, ev).0.log, epoch, peer) == Announcements(s.log, epoch, peer)
  {
    hide Encodable, Keys, ResetCounts, Announcements, EncodeOrDrop;
    if ev.Encode? { EncodeTouches(s, ev.frame, ev.now); }
    AnnouncementsNone(epoch, peer);
    var log' := Step(env, s, ev).0.log;
    if |log'| > |s.log| {
      var m := log'[|s.log|];
      OneAnnouncement(m, epoch, peer);
      AnnouncementsAppend(s.log, [m], epoch, peer);
      assert log' == s.log + [m];
    }
  }

  // The key is announced as invalid exactly by the event that makes it so,
  // once, when metrics are on.
  lemma AnnouncedWhenInvalidated(u: Setup, evs: seq<Event>, ev: Event, epoch: int, peer: int)
    ensures var s, s' := Run(u, evs), Run(u, evs + [ev]);
      Announcements(s'.log, epoch, peer) == Announcements(s.log, epoch, peer)
        + if s.conf.metricsEnabled && !IsKeyInvalid(s, epoch, peer) && IsKeyInvalid(s', epoch, peer) then 1 else 0
  {
    hide Step, Run, Announcements, Said, Count, WindowsFollow, Encodable;
    RunSnoc(u, evs, ev);
    var s, s' := Run(u, evs), Run(u, evs + [ev]);
    if FrameEvent(ev) {
      StepOfFrame(u.env, s, ev);
      var r := Step(u.env, s, ev).1;
      assert Count(s', epoch, peer) == CountAfter(s, r, epoch, peer);
      SaidAnnounces(s, r, ev.now, PathOf(ev), epoch, peer);
      AnnouncementsAppend(s.log, Said(s, r, ev.now, PathOf(ev)), epoch, peer);
    } else {
      ControlAnnouncesNothing(u.env, s, ev, epoch, peer);
      if ev.TeardownMsg? || ev.SetTolerance? { ResetCountsAll(u.env, s, ev, epoch, peer); }
      else { ControlKeepsCount(u.env, s, ev, epoch, peer); }
      if !ev.SetTolerance? { ToleranceAfter(u.env, s, ev); }
    }
  }

  lemma ToleranceAfter(env: Env, s: State, ev: Event)
    requires !FrameEvent(ev) && !ev.SetTolerance?
    ensures Step(env, s, ev).0.conf.failureTolerance == s.conf.failureTolerance
  {
    hide Encodable, Keys, ResetCounts, EncodeOrDrop;
    if ev.Encode? { EncodeTouches(s, ev.frame, ev.now); }
  }
}

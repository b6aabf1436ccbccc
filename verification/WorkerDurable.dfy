// The worker with its durable guard: the answers that the worker alone takes
// as inputs come from a guard that accepts every delivered counter and survives
// teardowns.
module WorkerDurable {
  import opened Bytes
  import opened Lists
  import opened ReplayWindow
  import opened Sframe
  import opened FrameLaws
  import opened FrameOutcomes
  import opened WorkerEffects
  import opened WorkerFrames
  import opened WorkerRuns
  import opened WorkerState
  import D = DurableReplay

  // ------------------------------------------------------------- the guard key

  function Digit(d: nat): char
    requires d < 10
  {
    ('0' as int + d) as char
  }

  function Decimal(n: nat): string {
    if n < 10 then [Digit(n)] else Decimal(n / 10) + [Digit(n % 10)]
  }

  function DurableReplayKey(epoch: nat, peer: nat): string { Decimal(epoch) + "|" + Decimal(peer) }

  lemma {:induction false} DecimalHasNoBar(n: nat)
    ensures Decimal(n) != "" && '|' !in Decimal(n)
  {
    if n >= 10 { DecimalHasNoBar(n / 10); }
  }

  lemma {:induction false} DecimalInjective(m: nat, n: nat)
    requires Decimal(m) == Decimal(n)
    ensures m == n
  {
    DecimalHasNoBar(m / 10);
    DecimalHasNoBar(n / 10);
    var a, b := Decimal(m), Decimal(n);
    assert a[|a| - 1] == Digit(m % 10) && b[|b| - 1] == Digit(n % 10);
    if m >= 10 && n >= 10 {
      assert Decimal(m / 10) == a[..|a| - 1] && Decimal(n / 10) == b[..|b| - 1];
      DecimalInjective(m / 10, n / 10);
    }
  }

  // Different senders have different keys.
  lemma KeyInjective(epoch: nat, peer: nat, epoch': nat, peer': nat)
    requires DurableReplayKey(epoch, peer) == DurableReplayKey(epoch', peer')
    ensures epoch == epoch' && peer == peer'
  {
    var a, b, key := Decimal(epoch), Decimal(epoch'), DurableReplayKey(epoch, peer);
    DecimalHasNoBar(epoch);
    DecimalHasNoBar(epoch');
    DecimalHasNoBar(peer);
    DecimalHasNoBar(peer');
    assert key[|a|] == '|' && key[|b|] == '|';
    assert a == key[..|a|] && Decimal(peer) == key[|a| + 1..] && Decimal(peer') == key[|b| + 1..];
    DecimalInjective(epoch, epoch');
    DecimalInjective(peer, peer');
  }

  // The number that a numeral stands for.
  function ValueOf(numeral: string): int {
    if numeral == "" then 0
    else ValueOf(numeral[..|numeral| - 1]) * 10 + (numeral[|numeral| - 1] as int - '0' as int)
  }

  lemma {:induction false} DecimalIsValue(n: nat)
    ensures ValueOf(Decimal(n)) == n
  {
    if n >= 10 {
      DecimalIsValue(n / 10);
      assert Decimal(n)[..|Decimal(n)| - 1] == Decimal(n / 10);
    } else {
      assert ValueOf("") == 0 && Decimal(n)[..0] == "";
    }
  }

  // The key reads as the epoch, a bar and the peer index.
  lemma KeyReads(epoch: nat, peer: nat) returns (bar: nat)
    ensures var key := DurableReplayKey(epoch, peer);
      bar < |key| && key[bar] == '|' && ValueOf(key[..bar]) == epoch && ValueOf(key[bar + 1..]) == peer
  {
    DecimalIsValue(epoch);
    DecimalIsValue(peer);
    var key := DurableReplayKey(epoch, peer);
    bar := |Decimal(epoch)|;
    assert key[..bar] == Decimal(epoch) && key[bar + 1..] == Decimal(peer);
  }

  // ------------------------------------------------- who asks the guard, when

  // The header for which a frame event reaches the durable check.
  function Asks(env: Env, s: State, ev: Event): Option<FrameHeader>
    requires FrameEvent(ev)
  {
    if ev.Decode? then
      var payload := Payload(s, ev.frame.data);
      if payload.None? || s.keys.currentEpoch == -1 then None else AsksOf(env, s, ev.frame.kind, payload.value)
    else if !s.drain.draining || s.drain.pass == [] then None
    else
      var h := AsksOf(env, s, s.drain.pass[0].kind, s.drain.pass[0].data);
      if h.Some? && KeyFor(s.keys, h.value.epoch, h.value.peer).None? then None else h
  }

  function AsksOf(env: Env, s: State, kind: Option<FrameKind>, payload: seq<byte>): Option<FrameHeader> {
    var header := HeaderOf(s.conf.kidCodec, DropUpTo(payload, Resolve(env, s, kind, payload).prefixLen));
    if header.Err? || header.value.epoch < s.keys.currentMinValidEpoch then None
    else if !Fresh(s.conf.replayWindowSize, Window(s, header.value.epoch, header.value.peer), header.value.ctr) then None
    else Some(header.value)
  }

  function Answered(ev: Event, answer: bool): Event
    requires FrameEvent(ev)
  {
    match ev
    case Decode(frame, _, now) => Decode(frame, answer, now)
    case DrainStep(_, now) => DrainStep(answer, now)
  }

  lemma AdmitAsks(env: Env, s: State, payload: seq<byte>, layout: Layout, h: FrameHeader, durableFresh: bool)
    ensures Admit(env, s, payload, layout, h, durableFresh).1.Ok? ==>
      durableFresh && Fresh(s.conf.replayWindowSize, Window(s, h.epoch, h.peer), h.ctr)
  {
    hide Open, Accepted, WithWindow, Window, Fresh;
  }

  // A delivered frame was asked for and answered fresh.
  lemma DeliveredWasAsked(env: Env, s: State, ev: Event, answer: bool)
    requires FrameEvent(ev) && Step(env, s, Answered(ev, answer)).1.Delivered?
    ensures answer && Asks(env, s, ev) == Some(Step(env, s, Answered(ev, answer)).1.header)
  {
    hide Resolve, HeaderOf, Payload, Admit, PushToQueue, Window, Fresh, KeyFor;
    var payload := if ev.Decode? then Payload(s, ev.frame.data).value else s.drain.pass[0].data;
    var kind := if ev.Decode? then ev.frame.kind else s.drain.pass[0].kind;
    var s1 := if ev.Decode? then s else s.(drain := s.drain.(pass := s.drain.pass[1..]));
    PassChangesNoLayout(env, s, kind, payload);
    var layout := Resolve(env, s1, kind, payload);
    var h := HeaderOf(s.conf.kidCodec, DropUpTo(payload, layout.prefixLen)).value;
    AdmitAsks(env, s1, payload, layout, h, answer);
    WindowReads(s1, s);
  }

  // Frames left in a pass do not matter to the layout.
  lemma PassChangesNoLayout(env: Env, s: State, kind: Option<FrameKind>, payload: seq<byte>)
    ensures forall pass :: Resolve(env, s.(drain := s.drain.(pass := pass)), kind, payload) == Resolve(env, s, kind, payload)
  {
    hide Resolve;
    forall pass ensures Resolve(env, s.(drain := s.drain.(pass := pass)), kind, payload) == Resolve(env, s, kind, payload) {
      ResolveReads(env, s.(drain := s.drain.(pass := pass)), s, kind, payload);
    }
  }

  // ------------------------------------------------------------ joint runs

  datatype Joint = Joint(state: State, guard: D.Guard)

  // A load of the guard may start and a queued persist may run at any time.
  datatype JointEvent = OfWorker(ev: Event) | LoadStarts(key: D.Key) | PersistRuns

  ghost function Cleared(g: D.Guard, keys: set<D.Key>): D.Guard {
    D.Guard(g.window, g.mem - keys, Kept(g.memKeys, keys), g.hydrating - keys, g.jobs, g.store - keys)
  }

  function Kept(keys: seq<D.Key>, gone: set<D.Key>): seq<D.Key> {
    if keys == [] then [] else (if keys[0] in gone then [] else [keys[0]]) + Kept(keys[1..], gone)
  }

  // The keys whose durable windows a fired timer clears.
  ghost function WipedKeys(s: State, epoch: int): set<D.Key> {
    if epoch < 0 || epoch !in s.keys.epochs then {}
    else set p: nat | p in s.keys.epochs[epoch].keys :: DurableReplayKey(epoch, p)
  }

  ghost function FrameJoint(env: Env, j: Joint, ev: Event): (Joint, Report)
    requires FrameEvent(ev) && D.Inv(j.guard)
  {
    var asked := Asks(env, j.state, ev);
    if asked.None? then
      var (s', r) := Step(env, j.state, Answered(ev, true));
      (Joint(s', j.guard), r)
    else
      var key := DurableReplayKey(asked.value.epoch, asked.value.peer);
      var (s', r) := Step(env, j.state, Answered(ev, asked.value.ctr !in D.View(j.guard, key)));
      D.HydrateKeeps(j.guard, key);
      var checked := D.Hydrate(j.guard, key);
      (Joint(s', if r.Delivered? then D.Accept(checked, key, asked.value.ctr) else checked), r)
  }

  // A teardown drops the guard; the next one reads the same store. A wipe
  // clears the windows of its peers. Both find the queued persists settled.
  ghost function JointStep(env: Env, j: Joint, e: JointEvent): (Joint, Report)
    requires D.Inv(j.guard)
  {
    match e
    case LoadStarts(key) => (Joint(j.state, D.StartHydrate(j.guard, key)), Nothing)
    case PersistRuns => (Joint(j.state, if j.guard.jobs == [] then j.guard else D.Persist(j.guard)), Nothing)
    case OfWorker(ev) =>
      if FrameEvent(ev) then FrameJoint(env, j, ev)
      else
        var (s', r) := Step(env, j.state, ev);
        var guard := if ev.TeardownMsg? then D.Reload(j.guard)
                     else if ev.WipeTimer? && ev.timerOf in j.state.keys.wipeTimers
                     then Cleared(D.Settle(j.guard), WipedKeys(j.state, ev.timerOf))
                     else j.guard;
        (Joint(s', guard), r)
  }

  lemma {:induction false} KeptFacts(keys: seq<D.Key>, gone: set<D.Key>)
    requires NoDup(keys)
    ensures NoDup(Kept(keys, gone)) && Elems(Kept(keys, gone)) == Elems(keys) - gone
  {
    if keys != [] {
      assert keys == [keys[0]] + keys[1..];
      ElemsConcat([keys[0]], keys[1..]);
      KeptFacts(keys[1..], gone);
      ElemsConcat([keys[0]], Kept(keys[1..], gone));
      assert keys[0] !in Elems(keys[1..]);
    }
  }

  lemma ClearKeeps(g: D.Guard, keys: set<D.Key>)
    requires D.Inv(g) && g.jobs == []
    ensures D.Inv(Cleared(g, keys)) && Cleared(g, keys).window == g.window
    ensures forall k :: D.View(Cleared(g, keys), k) == if k in keys then [] else D.View(g, k)
  {
    hide NoDup, Elems;
    KeptFacts(g.memKeys, keys);
    var h := Cleared(g, keys);
    assert Elems(h.memKeys) == h.mem.Keys;
    forall k ensures D.Coherent(h, k) && D.View(h, k) == if k in keys then [] else D.View(g, k) {
      assert D.Coherent(g, k);
      assert D.Stored(h, k) == if k in keys then [] else D.Stored(g, k);
    }
  }

  // What an event does to the durable window of a sender.
  ghost predicate Slides(g: D.Guard, g': D.Guard, epoch: nat, peer: nat, r: Report, cleared: bool) {
    var key := DurableReplayKey(epoch, peer);
    && D.Inv(g') && g'.window == g.window
    && (DeliveredFrom(r, epoch, peer) ==> !cleared && r.header.ctr !in D.View(g, key))
    && D.View(g', key) == if cleared then []
                          else if DeliveredFrom(r, epoch, peer) then Slide(g.window, D.View(g, key), r.header.ctr)
                          else D.View(g, key)
  }

  // Whether an event clears the durable window of a sender.
  ghost predicate Clears(s: State, e: JointEvent, epoch: nat, peer: nat) {
    && e.OfWorker? && e.ev.WipeTimer? && e.ev.timerOf in s.keys.wipeTimers
    && DurableReplayKey(epoch, peer) in WipedKeys(s, e.ev.timerOf)
  }

  lemma FrameSlides(env: Env, j: Joint, ev: Event, epoch: nat, peer: nat)
    requires FrameEvent(ev) && D.Inv(j.guard)
    ensures var (j', r) := FrameJoint(env, j, ev); Slides(j.guard, j'.guard, epoch, peer, r, false)
  {
    hide D.Inv, D.View, D.Hydrate, D.Accept, Slide, Step, Asks, DurableReplayKey;
    var asked := Asks(env, j.state, ev);
    if asked.None? {
      if Step(env, j.state, Answered(ev, true)).1.Delivered? { DeliveredWasAsked(env, j.state, ev, true); }
    } else {
      var h := asked.value;
      var key := DurableReplayKey(h.epoch, h.peer);
      var answer := h.ctr !in D.View(j.guard, key);
      var r := Step(env, j.state, Answered(ev, answer)).1;
      D.HydrateKeeps(j.guard, key);
      var checked := D.Hydrate(j.guard, key);
      if r.Delivered? {
        DeliveredWasAsked(env, j.state, ev, answer);
        D.AcceptKeeps(checked, key, h.ctr);
        if DurableReplayKey(epoch, peer) == key { KeyInjective(epoch, peer, h.epoch, h.peer); }
      }
    }
  }

  lemma StepSlides(env: Env, j: Joint, e: JointEvent, epoch: nat, peer: nat)
    requires D.Inv(j.guard)
    ensures var (j', r) := JointStep(env, j, e);
      Slides(j.guard, j'.guard, epoch, peer, r, Clears(j.state, e, epoch, peer))
  {
    hide D.Inv, D.View, D.Settle, D.Reload, D.Persist, Cleared, Slide, Step, FrameJoint, WipedKeys,
         DurableReplayKey;
    match e
    case LoadStarts(key) => D.StartHydrateKeeps(j.guard, key);
    case PersistRuns => if j.guard.jobs != [] { D.PersistKeeps(j.guard); }
    case OfWorker(ev) =>
      if FrameEvent(ev) {
        FrameSlides(env, j, ev, epoch, peer);
      } else {
        ControlReportsNothing(env, j.state, ev);
        D.SettleKeeps(j.guard);
        D.ReloadKeeps(j.guard);
        ClearKeeps(D.Settle(j.guard), WipedKeys(j.state, if ev.WipeTimer? then ev.timerOf else -1));
      }
  }

  function Start(u: Setup, window: nat): Joint {
    Joint(Initial(u.kidCodec, u.cap), D.Guard(window, map[], [], {}, [], map[]))
  }

  lemma StartSound(u: Setup, window: nat)
    requires window >= 1
    ensures D.Inv(Start(u, window).guard) && forall k :: D.View(Start(u, window).guard, k) == []
  {
  }

  ghost function JointRun(u: Setup, window: nat, evs: seq<JointEvent>): (j: Joint)
    requires window >= 1
    ensures D.Inv(j.guard) && j.guard.window == window
    decreases |evs|
  {
    if evs == [] then StartSound(u, window); Start(u, window)
    else
      var before := JointRun(u, window, evs[..|evs| - 1]);
      StepSlides(u.env, before, evs[|evs| - 1], 0, 0);
      JointStep(u.env, before, evs[|evs| - 1]).0
  }

  // The counters accepted from a sender over the whole run, teardowns
  // included, since a wipe last cleared its durable window.
  ghost function DurableLog(u: Setup, window: nat, evs: seq<JointEvent>, epoch: nat, peer: nat): seq<Ctr>
    requires window >= 1
    decreases |evs|
  {
    if evs == [] then []
    else
      var init, last := evs[..|evs| - 1], evs[|evs| - 1];
      var before := JointRun(u, window, init);
      var r := JointStep(u.env, before, last).1;
      if Clears(before.state, last, epoch, peer) then []
      else if DeliveredFrom(r, epoch, peer) then DurableLog(u, window, init, epoch, peer) + [r.header.ctr]
      else DurableLog(u, window, init, epoch, peer)
  }

  // Across teardowns and reloads no counter is accepted again within the
  // durable window, whatever the worker has forgotten meanwhile.
  lemma {:induction false} NoReplayAcrossTeardowns(u: Setup, window: nat, evs: seq<JointEvent>, epoch: nat, peer: nat)
    requires window >= 1
    ensures var log := DurableLog(u, window, evs, epoch, peer);
      && RecentDistinct(window, log)
      && D.View(JointRun(u, window, evs).guard, DurableReplayKey(epoch, peer)) == LastN(log, window)
    decreases |evs|
  {
    hide D.Inv, D.View, JointStep, Clears, RecentDistinct, Slide, DurableReplayKey;
    NothingRepeats(window);
    if evs == [] {
      StartSound(u, window);
    } else {
      var init, last := evs[..|evs| - 1], evs[|evs| - 1];
      NoReplayAcrossTeardowns(u, window, init, epoch, peer);
      var before := JointRun(u, window, init);
      StepSlides(u.env, before, last, epoch, peer);
      var r := JointStep(u.env, before, last).1;
      if DeliveredFrom(r, epoch, peer) {
        AcceptExtends(window, DurableLog(u, window, init, epoch, peer), r.header.ctr);
      }
    }
  }

  // When a frame event is refused for a replay.
  lemma RefusedForReplay(env: Env, s: State, ev: Event, answer: bool)
    requires FrameEvent(ev)
    ensures var r := Step(env, s, Answered(ev, answer)).1;
      r.Refused? && r.error == Replay ==>
        && r.at.Some? && Asks(env, s, ev) in {None, r.at}
        && (answer ==> !Fresh(s.conf.replayWindowSize, Window(s, r.at.value.epoch, r.at.value.peer), r.at.value.ctr))
  {
    hide DecodeFrame, DrainFrame, Resolve, HeaderOf, Payload, Window, Fresh, KeyFor, Opens, TellsOnKey, IsKeyInvalid, Lookup;
    if ev.Decode? {
      if Payload(s, ev.frame.data).Some? { DecodeOutcome(env, s, ev.frame, answer, ev.now); }
      else { NoPayload(env, s, ev.frame, answer, ev.now); }
    } else if s.drain.draining && s.drain.pass != [] {
      var s1, frame := s.(drain := s.drain.(pass := s.drain.pass[1..])), s.drain.pass[0];
      DrainOutcome(env, s1, frame, answer, ev.now);
      PassChangesNoLayout(env, s, frame.kind, frame.data);
      WindowReads(s1, s);
    }
  }

  // And no frame is refused without cause: its counter is in the window of the
  // worker, or among the newest that the sender's log holds.
  lemma RefusalHasCause(u: Setup, window: nat, evs: seq<JointEvent>, ev: Event)
    requires window >= 1 && FrameEvent(ev)
    ensures var j := JointRun(u, window, evs);
      var r := JointStep(u.env, j, OfWorker(ev)).1;
      r.Refused? && r.error == Replay ==>
        r.at.Some? && var h := r.at.value;
        || !Fresh(j.state.conf.replayWindowSize, Window(j.state, h.epoch, h.peer), h.ctr)
        || h.ctr in LastN(DurableLog(u, window, evs, h.epoch, h.peer), window)
  {
    hide D.Inv, D.View, D.Hydrate, D.Accept, JointRun, Asks, Step, Answered, Fresh, Window, DurableLog, DurableReplayKey;
    var j := JointRun(u, window, evs);
    var asked := Asks(u.env, j.state, ev);
    if asked.None? {
      RefusedForReplay(u.env, j.state, ev, true);
    } else {
      var h := asked.value;
      NoReplayAcrossTeardowns(u, window, evs, h.epoch, h.peer);
      RefusedForReplay(u.env, j.state, ev, h.ctr !in D.View(j.guard, DurableReplayKey(h.epoch, h.peer)));
    }
  }

  lemma NothingRepeats(window: nat)
    ensures RecentDistinct(window, []) && LastN<Ctr>([], window) == []
  {
  }
}

// What one frame, decoded or drained, does to each part of the state, told by
// its report.
module WorkerEffects {
  import opened Bytes
  import opened KidFormat
  import opened PreEpochQueue
  import opened ReplayWindow
  import opened Sframe
  import opened SframeHeader
  import opened Starvation
  import opened FrameLaws
  import opened WorkerState
  import opened WorkerFrames

  // Whether a report concerns this sender.
  predicate DeliveredFrom(r: Report, epoch: int, peer: int) {
    r.Delivered? && r.header.epoch == epoch && r.header.peer == peer
  }

  predicate FailedFrom(r: Report, epoch: int, peer: int) {
    r.Refused? && r.counted && r.at.Some? && r.at.value.epoch == epoch && r.at.value.peer == peer
  }

  // Keys move only with a delivered frame, by the steps it was found at.
  ghost predicate KeysFollow(env: Env, s: State, s': State, r: Report) {
    && s'.conf == s.conf && s'.encryptStarve == s.encryptStarve
    && s'.keys == (if r.Delivered? then Advance(env, s.keys, r.header.epoch, r.header.peer, r.steps) else s.keys)
    && (r.Delivered? ==> r.steps <= s.conf.ratchetWindowSize && r.header.epoch >= s.keys.currentMinValidEpoch)
  }

  ghost predicate WindowsFollow(s: State, s': State, r: Report) {
    && (r.Delivered? ==> Fresh(s.conf.replayWindowSize, Window(s, r.header.epoch, r.header.peer), r.header.ctr))
    && forall epoch: int, peer: int :: Window(s', epoch, peer) ==
         if DeliveredFrom(r, epoch, peer) then Slide(s.conf.replayWindowSize, Window(s, epoch, peer), r.header.ctr)
         else Window(s, epoch, peer)
  }

  function CountAfter(s: State, r: Report, epoch: int, peer: int): nat {
    if s.conf.failureTolerance < 0 then Count(s, epoch, peer)
    else if DeliveredFrom(r, epoch, peer) then 0
    else if FailedFrom(r, epoch, peer) then Count(s, epoch, peer) + 1
    else Count(s, epoch, peer)
  }

  ghost predicate CountsFollow(s: State, s': State, r: Report) {
    && (r.Delivered? ==> !IsKeyInvalid(s, r.header.epoch, r.header.peer))
    && (r.Refused? && r.counted ==> r.at.Some? && !Reported(r.error) && !IsKeyInvalid(s, r.at.value.epoch, r.at.value.peer))
    && forall epoch: int, peer: int :: Count(s', epoch, peer) == CountAfter(s, r, epoch, peer)
  }

  ghost predicate QueueFollows(s: State, s': State, r: Report, frame: Frame) {
    s'.drain == if r.Queued? then s.drain.(preEpochQueue := Push(s.drain.preEpochQueue, s.conf.preEpochQueueCap, frame))
                else s.drain
  }

  ghost predicate Follows(env: Env, s: State, s': State, r: Report, frame: Frame) {
    KeysFollow(env, s, s', r) && WindowsFollow(s, s', r) && CountsFollow(s, s', r) && QueueFollows(s, s', r, frame)
  }

  // The two paths report differently.
  datatype Path = Decoding | Draining

  // A counted failure that carries the key past the tolerance is announced.
  function Announced(s: State, r: Report): seq<OutMsg> {
    if r.Refused? && r.counted && r.at.Some? && s.conf.metricsEnabled
       && Count(s, r.at.value.epoch, r.at.value.peer) == s.conf.failureTolerance
    then [KeyInvalidated(r.at.value.epoch, r.at.value.peer, s.conf.failureTolerance + 1)] else []
  }

  function OverflowSaid(s: State, peer: int, now: real): seq<OutMsg> {
    if !Overflows(s.drain.preEpochQueue, s.conf.preEpochQueueCap) then []
    else
      var noted := NoteDrop(s.starve, now);
      [DecryptFailure(QueueOverflow)] +
      if Signalled(s.starve, now) then [DecryptStarved(Some(peer), noted.framesDropped, now - noted.sinceMs)] else []
  }

  // Every message a frame causes, told by its report.
  function Said(s: State, r: Report, now: real, path: Path): seq<OutMsg> {
    match r
    case Queued(peer) => OverflowSaid(s, peer, now)
    case Refused(StaleEpoch, _, _) => if path.Decoding? then [DecryptFailure(StaleEpochDrop)] else []
    case Refused(Replay, _, _) => [DecryptFailure(ReplayDrop)]
    case Refused(KeyInvalid, _, _) => [DecryptFailure(KeyInvalidDrop)]
    case Refused(_, _, _) =>
      Announced(s, r) + [DecryptFailure(if path.Decoding? then DecryptFailed else DecryptFailedAfterEpoch)]
    case _ => []
  }

  function StarveAfter(s: State, r: Report, now: real): Starve {
    if r.Queued? && Overflows(s.drain.preEpochQueue, s.conf.preEpochQueueCap) then NoteDrop(s.starve, now)
    else if r.Delivered? then Clear(s.starve)
    else s.starve
  }

  // The peer of the last drop, as long as its episode lasts.
  function StarvedPeer(s: State, r: Report): Option<int> {
    if r.Queued? && Overflows(s.drain.preEpochQueue, s.conf.preEpochQueueCap) then Some(r.peer)
    else if r.Delivered? && s.starve.active then None
    else s.starvePeerIndex
  }

  ghost predicate Speaks(s: State, s': State, r: Report, now: real, path: Path) {
    && s'.log == s.log + Said(s, r, now, path)
    && s'.starve == StarveAfter(s, r, now) && s'.starvePeerIndex == StarvedPeer(s, r)
  }

  // ------------------------------------------------------------------ pieces

  lemma WithWindowIsInvisible(s: State, h: FrameHeader)
    ensures var w := WithWindow(s, h);
      && w.conf == s.conf && w.keys == s.keys && w.drain == s.drain && w.encryptStarve == s.encryptStarve
      && w.recv.failureCounts == s.recv.failureCounts && w.log == s.log
      && forall epoch: int, peer: int :: Window(w, epoch, peer) == Window(s, epoch, peer)
  {
    forall epoch: int, peer: int ensures Window(WithWindow(s, h), epoch, peer) == Window(s, epoch, peer) {
      LookupPut(s.recv.replayWindows, h.epoch, h.peer, Window(s, h.epoch, h.peer), epoch, peer);
    }
  }

  lemma AcceptedEffect(s: State, layout: Layout, h: FrameHeader)
    ensures var s' := Accepted(s, layout, h);
      && s'.conf == s.conf && s'.keys == s.keys && s'.drain == s.drain && s'.encryptStarve == s.encryptStarve
      && s'.log == s.log && s'.starve == Clear(s.starve)
      && s'.starvePeerIndex == (if s.starve.active then None else s.starvePeerIndex)
      && (forall epoch: int, peer: int :: Window(s', epoch, peer) ==
            if epoch == h.epoch && peer == h.peer then Slide(s.conf.replayWindowSize, Window(s, epoch, peer), h.ctr)
            else Window(s, epoch, peer))
      && (forall epoch: int, peer: int :: Count(s', epoch, peer) ==
            if s.conf.failureTolerance >= 0 && epoch == h.epoch && peer == h.peer then 0 else Count(s, epoch, peer))
  {
    hide Slide;
    var window := Slide(s.conf.replayWindowSize, Window(s, h.epoch, h.peer), h.ctr);
    forall epoch: int, peer: int ensures Window(Accepted(s, layout, h), epoch, peer) ==
      if epoch == h.epoch && peer == h.peer then window else Window(s, epoch, peer) {
      LookupPut(s.recv.replayWindows, h.epoch, h.peer, window, epoch, peer);
    }
  }

  lemma OpenWithinWindow(env: Env, s: State, payload: seq<byte>, layout: Layout, h: FrameHeader)
    ensures var r := Open(env, s, payload, layout, h);
      && (r.Ok? ==> r.value.steps <= s.conf.ratchetWindowSize)
      && (r.Err? ==> !Reported(r.error))
  {
    hide RatchetSearch, Decrypt;
    var key := KeyFor(s.keys, h.epoch, h.peer);
    var buf, prefix := DropUpTo(payload, layout.prefixLen), TakeUpTo(payload, layout.prefixLen);
    if layout.probed.None? && key.Some? {
      SearchIsLeast(env, buf, key.value, h.peer, prefix, layout.aadForm, 1, s.conf.ratchetWindowSize);
      DecryptErrors(env, buf, key.value, prefix, layout.aadForm);
    }
  }

  lemma DecryptErrors(env: Env, buf: seq<byte>, key: SenderKey, prefix: seq<byte>, form: AadForm)
    ensures var r := Decrypt(env.aead, buf, Some(key), prefix, form);
      r.Err? ==> !Reported(r.error)
  {
    hide Parse;
  }

  // The report of an admitted frame, before a failure is recorded.
  function AdmitReport(h: FrameHeader, data: seq<byte>, plain: Result<Plain, SframeError>): Report {
    if plain.Ok? then Delivered(h, data, plain.value.steps) else Refused(plain.error, Some(h), false)
  }

  lemma AdmitFollows(env: Env, s: State, payload: seq<byte>, layout: Layout, h: FrameHeader, durableFresh: bool,
                     data: seq<byte>, frame: Frame)
    requires h.epoch >= s.keys.currentMinValidEpoch
    ensures var (s', plain) := Admit(env, s, payload, layout, h, durableFresh);
      && Follows(env, s, s', AdmitReport(h, data, plain), frame)
      && (plain.Err? && !Reported(plain.error) ==> !IsKeyInvalid(s, h.epoch, h.peer))
      && s'.starve == (if plain.Ok? then Clear(s.starve) else s.starve)
      && s'.starvePeerIndex == (if plain.Ok? && s.starve.active then None else s.starvePeerIndex)
      && (plain.Err? ==> !plain.error.StaleEpoch?)
      && s'.log == s.log + (if plain.Err? && plain.error.Replay? then [DecryptFailure(ReplayDrop)]
                            else if plain.Err? && plain.error.KeyInvalid? then [DecryptFailure(KeyInvalidDrop)] else [])
  {
    hide Open, Slide, Fresh, Window, Accepted, Advance, WithWindow;
    var w := WithWindow(s, h);
    WithWindowIsInvisible(s, h);
    assert w.starve == s.starve && w.starvePeerIndex == s.starvePeerIndex by { WithWindowStarve(s, h); }
    OpenWithinWindow(env, w, payload, layout, h);
    var plain := Open(env, w, payload, layout, h);
    if plain.Ok? {
      var moved := w.(keys := Advance(env, w.keys, h.epoch, h.peer, plain.value.steps));
      AcceptedEffect(moved, layout, h);
      WindowReads(moved, w);
    }
    WindowReads(Emit(w, DecryptFailure(ReplayDrop)), w);
    WindowReads(Emit(w, DecryptFailure(KeyInvalidDrop)), w);
  }

  lemma WithWindowStarve(s: State, h: FrameHeader)
    ensures WithWindow(s, h).starve == s.starve && WithWindow(s, h).starvePeerIndex == s.starvePeerIndex
  {
  }

  // A window is a matter of the receiver's part of the state alone.
  lemma WindowReads(a: State, b: State)
    requires a.recv.replayWindows == b.recv.replayWindows
    ensures forall epoch: int, peer: int :: Window(a, epoch, peer) == Window(b, epoch, peer)
  {
  }

  lemma FailedFollows(env: Env, s: State, s1: State, error: SframeError, h: FrameHeader, counted: bool, reason: Reason, frame: Frame)
    requires Follows(env, s, s1, Refused(error, Some(h), false), frame)
    requires counted ==> !Reported(error) && !IsKeyInvalid(s, h.epoch, h.peer)
    ensures var (s', r) := Failed(s1, error, h, counted, reason);
      && Follows(env, s, s', r, frame) && r == Refused(error, Some(h), counted) && s'.starve == s1.starve
      && s'.starvePeerIndex == s1.starvePeerIndex
      && s'.log == s1.log + (if counted then Announced(s, r) else [])
                          + if Reported(error) then [] else [DecryptFailure(reason)]
  {
    hide Slide, Fresh, Window, Advance;
    var s' := Failed(s1, error, h, counted, reason).0;
    WindowReads(s', s1);
    forall epoch: int, peer: int ensures Count(s', epoch, peer) == CountAfter(s, Refused(error, Some(h), counted), epoch, peer) {
      assert Count(s1, epoch, peer) == CountAfter(s, Refused(error, Some(h), false), epoch, peer);
    }
  }

  lemma PushFollows(env: Env, s: State, frame: Frame, peer: int, now: real)
    ensures Follows(env, s, PushToQueue(s, frame, peer, now), Queued(peer), frame)
    ensures Speaks(s, PushToQueue(s, frame, peer, now), Queued(peer), now, Decoding)
  {
    hide Window;
    WindowReads(PushToQueue(s, frame, peer, now), s);
  }

  lemma UnchangedFollows(env: Env, s: State, msgs: seq<OutMsg>, r: Report, frame: Frame)
    requires r.PassedThrough? || r.Nothing? || (r.Refused? && !r.counted)
    ensures Follows(env, s, s.(log := s.log + msgs), r, frame)
  {
    hide Window;
    WindowReads(s.(log := s.log + msgs), s);
  }

  // ------------------------------------------------------------- both paths

  lemma DecodeFollows(env: Env, s: State, frame: Frame, durableFresh: bool, now: real)
    ensures var (s', r) := DecodeFrame(env, s, frame, durableFresh, now);
      Follows(env, s, s', r, frame) && Speaks(s, s', r, now, Decoding)
  {
    hide Resolve, HeaderOf, Payload, Admit, Failed, PushToQueue, Follows;
    var payload := Payload(s, frame.data);
    if payload.None? {
      assert s == s.(log := s.log + []);
      UnchangedFollows(env, s, [], PassedThrough, frame);
      return;
    }
    var layout := Resolve(env, s, frame.kind, payload.value);
    var header := HeaderOf(s.conf.kidCodec, DropUpTo(payload.value, layout.prefixLen));
    if header.Err? {
      UnchangedFollows(env, s, [DecryptFailure(DecryptFailed)], Refused(HeaderParse(header.error), None, false), frame);
      return;
    }
    var h := header.value;
    if h.epoch < s.keys.currentMinValidEpoch {
      var s1 := Emit(s, DecryptFailure(StaleEpochDrop));
      UnchangedFollows(env, s, [DecryptFailure(StaleEpochDrop)], Refused(StaleEpoch, Some(h), false), frame);
      FailedFollows(env, s, s1, StaleEpoch, h, false, DecryptFailed, frame);
    } else if s.keys.currentEpoch == -1 {
      PushFollows(env, s, frame, h.peer, now);
    } else {
      var (s1, plain) := Admit(env, s, payload.value, layout, h, durableFresh);
      var data := if plain.Ok? then TakeUpTo(payload.value, layout.prefixLen) + plain.value.text else [];
      AdmitFollows(env, s, payload.value, layout, h, durableFresh, data, frame);
      if plain.Err? {
        FailedFollows(env, s, s1, plain.error, h, plain.error.AeadAuth? || plain.error.RatchetExhausted?, DecryptFailed, frame);
      }
    }
  }

  lemma DrainFollows(env: Env, s: State, frame: Frame, durableFresh: bool, now: real)
    ensures var (s', r) := DrainFrame(env, s, frame, durableFresh, now);
      Follows(env, s, s', r, frame) && Speaks(s, s', r, now, Draining)
  {
    hide Resolve, HeaderOf, Admit, Failed, PushToQueue, Follows;
    var layout := Resolve(env, s, frame.kind, frame.data);
    var buf := DropUpTo(frame.data, layout.prefixLen);
    var header := HeaderOf(s.conf.kidCodec, buf);
    if header.Err? {
      UnchangedFollows(env, s, [DecryptFailure(DecryptFailedAfterEpoch)], Refused(HeaderParse(header.error), None, false), frame);
      return;
    }
    var h := header.value;
    if h.epoch < s.keys.currentMinValidEpoch {
      assert s == s.(log := s.log + []);
      UnchangedFollows(env, s, [], Refused(StaleEpoch, Some(h), false), frame);
    } else if KeyFor(s.keys, h.epoch, h.peer).None? {
      PushFollows(env, s, frame, h.peer, now);
    } else {
      var (s1, plain) := Admit(env, s, frame.data, layout, h, durableFresh);
      var data := if plain.Ok? then TakeUpTo(frame.data, layout.prefixLen) + plain.value.text else [];
      AdmitFollows(env, s, frame.data, layout, h, durableFresh, data, frame);
      if plain.Err? {
        FailedFollows(env, s, s1, plain.error, h, Attributed(plain.error, buf, h), DecryptFailedAfterEpoch, frame);
      }
    }
  }

  // --------------------------------------------------------- the format cache

  // A delivery stores one layout for its sender; nothing else is stored.
  ghost predicate FormatsFollow(s: State, s': State, r: Report, guess: FormatGuess) {
    forall epoch: int, peer: int :: Lookup(s'.recv.formatCache, epoch, peer)
      == if DeliveredFrom(r, epoch, peer) then Some(guess) else Lookup(s.recv.formatCache, epoch, peer)
  }

  lemma AdmitFormats(env: Env, s: State, payload: seq<byte>, layout: Layout, h: FrameHeader, durableFresh: bool)
    ensures var (s', plain) := Admit(env, s, payload, layout, h, durableFresh);
      forall epoch: int, peer: int :: Lookup(s'.recv.formatCache, epoch, peer)
        == if plain.Ok? && epoch == h.epoch && peer == h.peer then Some(FormatGuess(layout.prefixLen, layout.aadForm))
           else Lookup(s.recv.formatCache, epoch, peer)
  {
    hide Open, Slide, Fresh, Window, Advance;
    forall epoch: int, peer: int {
      LookupPut(s.recv.formatCache, h.epoch, h.peer, FormatGuess(layout.prefixLen, layout.aadForm), epoch, peer);
    }
  }

  lemma FailedFormats(s: State, error: SframeError, h: FrameHeader, counted: bool, reason: Reason)
    ensures Failed(s, error, h, counted, reason).0.recv.formatCache == s.recv.formatCache
    ensures Failed(s, error, h, counted, reason).1.Refused?
  {
  }

  // The layout a frame resolves to.
  function GuessFor(env: Env, s: State, frame: Frame): FormatGuess {
    var payload := Payload(s, frame.data);
    var layout := Resolve(env, s, frame.kind, if payload.Some? then payload.value else []);
    FormatGuess(layout.prefixLen, layout.aadForm)
  }

  // After a decode the sender's entry is the layout that the frame resolved
  // to, which is the one its text opened under, and no other entry changes.
  lemma DecodeFormats(env: Env, s: State, frame: Frame, durableFresh: bool, now: real)
    ensures var (s', r) := DecodeFrame(env, s, frame, durableFresh, now);
      && (r.Delivered? ==> Payload(s, frame.data).Some?)
      && FormatsFollow(s, s', r, GuessFor(env, s, frame))
  {
    hide Resolve, HeaderOf, Payload, Admit, Failed, PushToQueue, Lookup;
    var payload := Payload(s, frame.data);
    if payload.Some? {
      var layout := Resolve(env, s, frame.kind, payload.value);
      var header := HeaderOf(s.conf.kidCodec, DropUpTo(payload.value, layout.prefixLen));
      if header.Ok? {
        var h := header.value;
        var (s1, plain) := Admit(env, s, payload.value, layout, h, durableFresh);
        AdmitFormats(env, s, payload.value, layout, h, durableFresh);
        PushFormats(s, frame, h.peer, now);
        FailedFormats(Emit(s, DecryptFailure(StaleEpochDrop)), StaleEpoch, h, false, DecryptFailed);
        if plain.Err? {
          FailedFormats(s1, plain.error, h, plain.error.AeadAuth? || plain.error.RatchetExhausted?, DecryptFailed);
        }
      }
    }
  }

  lemma PushFormats(s: State, frame: Frame, peer: int, now: real)
    ensures PushToQueue(s, frame, peer, now).recv == s.recv
  {
  }

  // The same for a drained frame.
  lemma DrainFormats(env: Env, s: State, frame: Frame, durableFresh: bool, now: real)
    ensures var (s', r) := DrainFrame(env, s, frame, durableFresh, now);
      var layout := Resolve(env, s, frame.kind, frame.data);
      FormatsFollow(s, s', r, FormatGuess(layout.prefixLen, layout.aadForm))
  {
    hide Resolve, HeaderOf, Admit, Failed, PushToQueue, Lookup;
    var layout := Resolve(env, s, frame.kind, frame.data);
    var buf := DropUpTo(frame.data, layout.prefixLen);
    var header := HeaderOf(s.conf.kidCodec, buf);
    if header.Ok? {
      var h := header.value;
      var (s1, plain) := Admit(env, s, frame.data, layout, h, durableFresh);
      AdmitFormats(env, s, frame.data, layout, h, durableFresh);
      PushFormats(s, frame, h.peer, now);
      if plain.Err? { FailedFormats(s1, plain.error, h, Attributed(plain.error, buf, h), DecryptFailedAfterEpoch); }
    }
  }
}

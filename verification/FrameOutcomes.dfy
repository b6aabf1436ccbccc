// What becomes of every frame, decoded or drained, told by the state and the
// bytes alone: which gate it fails, whether it opens, whether it counts against
// its key.
module FrameOutcomes {
  import opened Bytes
  import opened ConstantTime
  import opened KidFormat
  import opened PreEpochQueue
  import opened ReplayWindow
  import opened Sframe
  import opened SframeHeader
  import opened FrameLaws
  import opened WorkerEffects
  import opened WorkerFrames
  import opened WorkerState

  // The bytes behind the clear prefix, and the prefix, where the frame
  // resolves to.
  function Inside(env: Env, s: State, kind: Option<FrameKind>, payload: seq<byte>): seq<byte> {
    DropUpTo(payload, Resolve(env, s, kind, payload).prefixLen)
  }

  function Clear(env: Env, s: State, kind: Option<FrameKind>, payload: seq<byte>): seq<byte> {
    TakeUpTo(payload, Resolve(env, s, kind, payload).prefixLen)
  }

  function HeaderIn(env: Env, s: State, kind: Option<FrameKind>, payload: seq<byte>): Result<FrameHeader, HeaderError> {
    HeaderOf(s.conf.kidCodec, Inside(env, s, kind, payload))
  }

  // Some key of the sender within reach opens the frame: the cached one, or one
  // that the ratchet can derive within the window.
  ghost predicate Opens(env: Env, s: State, kind: Option<FrameKind>, payload: seq<byte>, h: FrameHeader) {
    var key := KeyFor(s.keys, h.epoch, h.peer);
    key.Some? && exists j | 0 <= j <= s.conf.ratchetWindowSize ::
      && OpensAt(env, Inside(env, s, kind, payload), key.value, h.peer, Clear(env, s, kind, payload),
                 Resolve(env, s, kind, payload).aadForm, j)
      && (j == 0 || Derivable(h.peer))
  }

  predicate TooShort(buf: seq<byte>, h: FrameHeader) { |buf| < h.bodyOffset + AEAD_TAG_BYTES }

  // Not opening tells on the key: with a ratchet window, whenever every step
  // can be derived and fails; without one, when the cached key could be tried
  // in earnest. A frame without room for its tag counts so only when decoded.
  ghost predicate TellsOnKey(env: Env, s: State, kind: Option<FrameKind>, payload: seq<byte>, h: FrameHeader, path: Path) {
    var key := KeyFor(s.keys, h.epoch, h.peer);
    && key.Some? && !Opens(env, s, kind, payload, h)
    && if s.conf.ratchetWindowSize > 0 then Derivable(h.peer)
       else if TooShort(Inside(env, s, kind, payload), h) then path.Decoding?
       else |key.value.salt| == IV_BYTES
  }

  predicate PassesGates(s: State, h: FrameHeader, durableFresh: bool) {
    && Fresh(s.conf.replayWindowSize, Window(s, h.epoch, h.peer), h.ctr) && durableFresh
    && !IsKeyInvalid(s, h.epoch, h.peer)
  }

  // -------------------------------------------------------------- opening

  lemma FirstAttempt(env: Env, buf: seq<byte>, key: SenderKey, prefix: seq<byte>, form: AadForm)
    requires Parse(buf).Ok?
    ensures var r := Decrypt(env.aead, buf, Some(key), prefix, form);
      r.Err? ==>
        && (r.error.AeadAuth? <==> |buf| < Parse(buf).value.bodyOffset + AEAD_TAG_BYTES || |key.salt| == IV_BYTES)
        && !r.error.KeyNotFound? && !r.error.RatchetExhausted? && !r.error.PeerIndexRange?
  {
    hide Parse, Iv, Aad;
  }

  lemma HeaderIsParsed(codec: WireCodec, buf: seq<byte>)
    requires HeaderOf(codec, buf).Ok?
    ensures Parse(buf).Ok? && Parse(buf).value.bodyOffset == HeaderOf(codec, buf).value.bodyOffset
  {
    hide Parse, KidCodec.Decode;
  }

  // Opening a frame, where it gets that far.
  lemma OpenOutcome(env: Env, s: State, kind: Option<FrameKind>, payload: seq<byte>, h: FrameHeader)
    requires HeaderIn(env, s, kind, payload) == Ok(h)
    ensures var r := Open(env, WithWindow(s, h), payload, Resolve(env, s, kind, payload), h);
      && (r.Ok? <==> Opens(env, s, kind, payload, h))
      && (r.Err? ==>
           && !Reported(r.error)
           && (r.error.KeyNotFound? <==> KeyFor(s.keys, h.epoch, h.peer).None?)
           && (r.error.AeadAuth? || r.error.RatchetExhausted? <==> TellsOnKey(env, s, kind, payload, h, Decoding))
           && (Attributed(r.error, Inside(env, s, kind, payload), h) <==> TellsOnKey(env, s, kind, payload, h, Draining)))
  {
    hide HeaderOf, Resolve, Decrypt, RatchetSearch;
    var layout := Resolve(env, s, kind, payload);
    var buf, prefix := Inside(env, s, kind, payload), Clear(env, s, kind, payload);
    var key := KeyFor(s.keys, h.epoch, h.peer);
    OpenWithinWindow(env, WithWindow(s, h), payload, layout, h);
    if layout.probed.Some? {
      ProbedAtStepZero(env, s, kind, payload, h);
    } else if key.Some? {
      var w := WithWindow(s, h);
      RetryIsLeast(env, w, buf, h.epoch, h.peer, prefix, layout.aadForm);
      SearchIsLeast(env, buf, key.value, h.peer, prefix, layout.aadForm, 1, s.conf.ratchetWindowSize);
      HeaderIsParsed(s.conf.kidCodec, buf);
      FirstAttempt(env, buf, key.value, prefix, layout.aadForm);
    }
  }

  lemma ProbedAtStepZero(env: Env, s: State, kind: Option<FrameKind>, payload: seq<byte>, h: FrameHeader)
    requires HeaderIn(env, s, kind, payload) == Ok(h) && Resolve(env, s, kind, payload).probed.Some?
    ensures KeyFor(s.keys, h.epoch, h.peer).Some?
    ensures OpensAt(env, Inside(env, s, kind, payload), KeyFor(s.keys, h.epoch, h.peer).value, h.peer,
                    Clear(env, s, kind, payload), Resolve(env, s, kind, payload).aadForm, 0)
  {
    hide HeaderOf, Decrypt, ProbeFormat, FormatCandidates;
    ProbedOpens(env, s, payload, FormatCandidates(s.conf.codec, kind));
  }

  // ------------------------------------------------------------- decoding

  // A frame without the configured trailer passes through, and only such.
  lemma PlainFramesPass(env: Env, s: State, frame: Frame, durableFresh: bool, now: real)
    ensures var (s', r) := DecodeFrame(env, s, frame, durableFresh, now);
      && (r.PassedThrough? <==> s.conf.sifTrailer.Some? && !EndsWith(frame.data, s.conf.sifTrailer.value))
      && (r.PassedThrough? ==> s' == s)
      && (!r.PassedThrough? ==> Payload(s, frame.data).Some?)
      && (!r.PassedThrough? && s.conf.sifTrailer.None? ==> Payload(s, frame.data).value == frame.data)
      && (!r.PassedThrough? && s.conf.sifTrailer.Some? ==>
            frame.data == Payload(s, frame.data).value + s.conf.sifTrailer.value)
  {
    hide Resolve, HeaderOf, Admit, PushToQueue;
  }

  // The first gate a frame fails decides what becomes of it; a frame that
  // passes them all is delivered exactly if it opens.
  lemma DecodeOutcome(env: Env, s: State, frame: Frame, durableFresh: bool, now: real)
    requires Payload(s, frame.data).Some?
    ensures var payload := Payload(s, frame.data).value;
      var header := HeaderIn(env, s, frame.kind, payload);
      var (s', r) := DecodeFrame(env, s, frame, durableFresh, now);
      if header.Err? then r == Refused(HeaderParse(header.error), None, false)
      else
        var h := header.value;
        if h.epoch < s.keys.currentMinValidEpoch then r.Refused? && r.error == StaleEpoch && r.at == Some(h)
        else if s.keys.currentEpoch == -1 then r == Queued(h.peer)
        else if !Fresh(s.conf.replayWindowSize, Window(s, h.epoch, h.peer), h.ctr) || !durableFresh
        then r.Refused? && r.error == Replay && r.at == Some(h)
        else if IsKeyInvalid(s, h.epoch, h.peer) then r.Refused? && r.error == KeyInvalid && r.at == Some(h)
        else if Opens(env, s, frame.kind, payload, h) then r.Delivered? && r.header == h
        else
          && r.Refused? && r.at == Some(h) && !Reported(r.error)
          && (r.error == KeyNotFound <==> KeyFor(s.keys, h.epoch, h.peer).None?)
          && (r.counted <==> TellsOnKey(env, s, frame.kind, payload, h, Decoding))
  {
    hide Resolve, HeaderOf, Payload, PushToQueue, Open, Accepted, WithWindow, Window, Fresh, IsKeyInvalid, Opens, TellsOnKey;
    var payload := Payload(s, frame.data).value;
    var header := HeaderIn(env, s, frame.kind, payload);
    if header.Ok? { OpenOutcome(env, s, frame.kind, payload, header.value); }
  }

  // What a decode does to every failure count: a frame that passes the gates
  // clears its sender's count if it opens, raises it by one if it tells on the
  // key, and no other frame changes any count.
  lemma DecodeCounts(env: Env, s: State, frame: Frame, durableFresh: bool, now: real, epoch: int, peer: int)
    requires s.conf.failureTolerance >= 0
    ensures var payload := Payload(s, frame.data);
      var s' := DecodeFrame(env, s, frame, durableFresh, now).0;
      Count(s', epoch, peer) ==
        if payload.None? || HeaderIn(env, s, frame.kind, payload.value).Err? then Count(s, epoch, peer)
        else
          var h := HeaderIn(env, s, frame.kind, payload.value).value;
          if (h.epoch, h.peer) != (epoch, peer) || h.epoch < s.keys.currentMinValidEpoch || s.keys.currentEpoch == -1
             || !PassesGates(s, h, durableFresh) then Count(s, epoch, peer)
          else if Opens(env, s, frame.kind, payload.value, h) then 0
          else if TellsOnKey(env, s, frame.kind, payload.value, h, Decoding) then Count(s, epoch, peer) + 1
          else Count(s, epoch, peer)
  {
    hide Resolve, HeaderOf, Payload, DecodeFrame, Window, Fresh, Opens, TellsOnKey, KeysFollow, WindowsFollow, Speaks, Count,
         HeaderIn;
    DecodeFollows(env, s, frame, durableFresh, now);
    var (s', r) := DecodeFrame(env, s, frame, durableFresh, now);
    assert Count(s', epoch, peer) == CountAfter(s, r, epoch, peer);
    if Payload(s, frame.data).Some? { DecodeOutcome(env, s, frame, durableFresh, now); }
    else { NoPayload(env, s, frame, durableFresh, now); }
  }

  lemma NoPayload(env: Env, s: State, frame: Frame, durableFresh: bool, now: real)
    requires Payload(s, frame.data).None?
    ensures DecodeFrame(env, s, frame, durableFresh, now) == (s, PassedThrough)
  {
  }

  // ------------------------------------------------------------- draining

  lemma DrainOutcome(env: Env, s: State, frame: Frame, durableFresh: bool, now: real)
    ensures var header := HeaderIn(env, s, frame.kind, frame.data);
      var (s', r) := DrainFrame(env, s, frame, durableFresh, now);
      if header.Err? then r == Refused(HeaderParse(header.error), None, false)
      else
        var h := header.value;
        if h.epoch < s.keys.currentMinValidEpoch then r == Refused(StaleEpoch, Some(h), false) && s' == s
        else if KeyFor(s.keys, h.epoch, h.peer).None? then r == Queued(h.peer)
        else if !Fresh(s.conf.replayWindowSize, Window(s, h.epoch, h.peer), h.ctr) || !durableFresh
        then r.Refused? && r.error == Replay && r.at == Some(h)
        else if IsKeyInvalid(s, h.epoch, h.peer) then r.Refused? && r.error == KeyInvalid && r.at == Some(h)
        else if Opens(env, s, frame.kind, frame.data, h) then r.Delivered? && r.header == h
        else
          && r.Refused? && r.at == Some(h) && !Reported(r.error)
          && (r.counted <==> TellsOnKey(env, s, frame.kind, frame.data, h, Draining))
  {
    hide Resolve, HeaderOf, PushToQueue, Open, Accepted, WithWindow, Window, Fresh, IsKeyInvalid, Opens, TellsOnKey;
    var header := HeaderIn(env, s, frame.kind, frame.data);
    if header.Ok? { OpenOutcome(env, s, frame.kind, frame.data, header.value); }
  }

  lemma DrainCounts(env: Env, s: State, frame: Frame, durableFresh: bool, now: real, epoch: int, peer: int)
    requires s.conf.failureTolerance >= 0
    ensures var s' := DrainFrame(env, s, frame, durableFresh, now).0;
      Count(s', epoch, peer) ==
        if HeaderIn(env, s, frame.kind, frame.data).Err? then Count(s, epoch, peer)
        else
          var h := HeaderIn(env, s, frame.kind, frame.data).value;
          if (h.epoch, h.peer) != (epoch, peer) || h.epoch < s.keys.currentMinValidEpoch
             || !PassesGates(s, h, durableFresh) then Count(s, epoch, peer)
          else if Opens(env, s, frame.kind, frame.data, h) then 0
          else if TellsOnKey(env, s, frame.kind, frame.data, h, Draining) then Count(s, epoch, peer) + 1
          else Count(s, epoch, peer)
  {
    hide Resolve, HeaderOf, DrainFrame, Window, Fresh, OpensAt, KeysFollow, WindowsFollow, Speaks, Count, HeaderIn;
    DrainFollows(env, s, frame, durableFresh, now);
    var (s', r) := DrainFrame(env, s, frame, durableFresh, now);
    assert Count(s', epoch, peer) == CountAfter(s, r, epoch, peer);
    DrainOutcome(env, s, frame, durableFresh, now);
  }

  // ---------------------------------------------------------------- queueing

  // A frame that is queued, first or again, is at the end of the queue
  // afterwards; while the queue has room, that is all that changes.
  lemma QueuedIsKept(s: State, frame: Frame, peer: int, now: real)
    ensures var s' := PushToQueue(s, frame, peer, now);
      && s'.drain.preEpochQueue != [] && s'.drain.preEpochQueue[|s'.drain.preEpochQueue| - 1] == frame
      && (|s.drain.preEpochQueue| < s.conf.preEpochQueueCap ==>
            s' == s.(drain := s.drain.(preEpochQueue := s.drain.preEpochQueue + [frame])))
  {
    hide NoteStarveDrop;
  }

  // A decode queues exactly the readable frames that arrive, not stale, while
  // no epoch was ever active.
  lemma DecodeQueues(env: Env, s: State, frame: Frame, durableFresh: bool, now: real)
    ensures var (s', r) := DecodeFrame(env, s, frame, durableFresh, now);
      var payload := Payload(s, frame.data);
      && (r.Queued? <==>
           && payload.Some? && HeaderIn(env, s, frame.kind, payload.value).Ok?
           && HeaderIn(env, s, frame.kind, payload.value).value.epoch >= s.keys.currentMinValidEpoch
           && s.keys.currentEpoch == -1)
      && (r.Queued? ==> s' == PushToQueue(s, frame, r.peer, now))
  {
    hide Resolve, HeaderOf, PushToQueue, Open, Accepted, WithWindow, Window, Fresh, IsKeyInvalid;
  }

  // A drain queues exactly the readable frames, not stale, whose sender has no
  // key yet.
  lemma DrainQueuesAgain(env: Env, s: State, frame: Frame, durableFresh: bool, now: real)
    ensures var (s', r) := DrainFrame(env, s, frame, durableFresh, now);
      var header := HeaderIn(env, s, frame.kind, frame.data);
      && (r.Queued? <==>
           && header.Ok? && header.value.epoch >= s.keys.currentMinValidEpoch
           && KeyFor(s.keys, header.value.epoch, header.value.peer).None?)
      && (r.Queued? ==> s' == PushToQueue(s, frame, r.peer, now))
  {
    hide Resolve, HeaderOf, PushToQueue, Open, Accepted, WithWindow, Window, Fresh, IsKeyInvalid;
  }
}

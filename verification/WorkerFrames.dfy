// src/worker-frame.ts: sealing and opening frames against the worker's state,
// as functions on values. A decode and a drained frame are single steps; an
// encode takes its counter in one step and is sealed in a later one.
module WorkerFrames {
  import opened Bytes
  import opened ConstantTime
  import opened JsNumber
  import opened KidFormat
  import opened PreEpochQueue
  import opened ReplayWindow
  import opened Sframe
  import opened SframeHeader
  import opened Starvation
  import opened WorkerState

  // The ratchet step on a raw key of a peer, next to the sealing functions. It
  // is taken only for a peer whose index fits two bytes.
  datatype Env = Env(aead: Aead, ratchet: (RawKey, int) -> RawKey)

  function Min(a: nat, b: nat): nat { if a <= b then a else b }

  // ----------------------------------------------------------------- encoding

  // An encode between taking its counter and sealing.
  datatype Job = Job(epoch: int, peer: int, key: SenderKey, ctr: nat, prefix: seq<byte>, body: seq<byte>, trailer: seq<byte>)

  datatype EncodeError = NoActiveEpoch | NoSelfKey | Header(error: HeaderError) | Salt

  function SelfKey(k: KeyTable): Option<SenderKey> {
    if k.currentEpoch in k.epochs then KeyFor(k, k.currentEpoch, k.epochs[k.currentEpoch].selfPeerIndex) else None
  }

  predicate Sealable(key: SenderKey, ctr: nat) { key.kid <= MAX_KID && ctr <= MAX_CTR && |key.salt| == IV_BYTES }

  // The counter is spent even when serialising or the nonce then fails.
  function BeginEncode(s: State, frame: Frame): (State, Result<Job, EncodeError>) {
    var key := SelfKey(s.keys);
    if s.keys.currentEpoch !in s.keys.epochs then (s, Err(NoActiveEpoch))
    else if key.None? then (s, Err(NoSelfKey))
    else
      var ctr := s.keys.ctr;
      var s' := s.(keys := s.keys.(ctr := ctr + 1));
      var n := Min(UnencryptedBytes(s.conf.codec, frame.kind), |frame.data|);
      var trailer := if s.conf.sifTrailer.Some? then s.conf.sifTrailer.value else [];
      if key.value.kid > MAX_KID then (s', Err(Header(HeaderError.KidRange)))
      else if ctr > MAX_CTR then (s', Err(Header(HeaderError.CtrRange)))
      else if |key.value.salt| != IV_BYTES then (s', Err(Salt))
      else (s', Ok(Job(s.keys.currentEpoch, s.keys.epochs[s.keys.currentEpoch].selfPeerIndex, key.value, ctr,
                       frame.data[..n], frame.data[n..], trailer)))
  }

  // Prefix, header, sealed body, trailer; the additional data is the header.
  function Wire(env: Env, job: Job): seq<byte>
    requires Sealable(job.key, job.ctr)
  {
    job.prefix + Sealed(env.aead, job.key, job.ctr, job.body, [], HeaderForm) + job.trailer
  }

  function EndEncode(s: State): State { s.(encryptStarve := Clear(s.encryptStarve)) }

  // The pipe drops a frame whose encode threw, and reports it at most once a second.
  function NoteEncryptDrop(s: State, reason: EncodeReason, now: real): State {
    var s' := s.(encryptStarve := NoteDrop(s.encryptStarve, now));
    if Signalled(s.encryptStarve, now) then Emit(s', EncryptFailure(reason)) else s'
  }

  // ------------------------------------------------------- format resolution

  datatype Candidate = Candidate(prefixLen: nat, aadForm: AadForm)

  function FormatCandidates(codec: Option<Codec>, kind: Option<FrameKind>): seq<Candidate> {
    if codec == Some(Vp9) || codec == Some(Av1) then
      [Candidate(0, HeaderForm), Candidate(1, CanonicalForm), Candidate(1, PrefixForm), Candidate(1, HeaderForm)]
    else
      var n := UnencryptedBytes(codec, kind);
      if n == 0 then [Candidate(0, HeaderForm), Candidate(0, CanonicalForm)]
      else [Candidate(n, HeaderForm), Candidate(n, CanonicalForm), Candidate(n, PrefixForm)]
  }

  // A parsed header with the epoch and peer its identifier stands for. The
  // source's tests that both are non-negative therefore always hold.
  datatype FrameHeader = FrameHeader(epoch: nat, peer: nat, ctr: Ctr, bodyOffset: nat)

  function HeaderOf(codec: WireCodec, buf: seq<byte>): Result<FrameHeader, HeaderError> {
    var parsed := Parse(buf);
    if parsed.Err? then Err(parsed.error)
    else
      ParseBounds(buf);
      var (epoch, peer) := codec.Decode(parsed.value.kid);
      DecodeIsNat(codec, parsed.value.kid);
      Ok(FrameHeader(epoch, peer, parsed.value.ctr, parsed.value.bodyOffset))
  }

  // What a candidate layout opens with the cached key.
  function TryCandidate(env: Env, s: State, payload: seq<byte>, c: Candidate): Option<seq<byte>> {
    var buf := DropUpTo(payload, c.prefixLen);
    var header := HeaderOf(s.conf.kidCodec, buf);
    if |buf| < 1 || header.Err? || |buf| < header.value.bodyOffset + AEAD_TAG_BYTES then None
    else
      var key := KeyFor(s.keys, header.value.epoch, header.value.peer);
      if key.None? then None
      else
        var result := Decrypt(env.aead, buf, key, TakeUpTo(payload, c.prefixLen), c.aadForm);
        if result.Ok? then Some(result.value) else None
  }

  // A layout, and the plaintext when probing has already opened the frame.
  datatype Layout = Layout(prefixLen: nat, aadForm: AadForm, probed: Option<seq<byte>>)

  function ProbeFormat(env: Env, s: State, payload: seq<byte>, candidates: seq<Candidate>): Option<Layout> {
    if candidates == [] then None
    else
      var plain := TryCandidate(env, s, payload, candidates[0]);
      if plain.Some? then Some(Layout(candidates[0].prefixLen, candidates[0].aadForm, plain))
      else ProbeFormat(env, s, payload, candidates[1..])
  }

  function CachedFormat(s: State, payload: seq<byte>, n: nat): Option<FormatGuess> {
    var header := HeaderOf(s.conf.kidCodec, DropUpTo(payload, n));
    if n >= |payload| || header.Err? then None
    else Lookup(s.recv.formatCache, header.value.epoch, header.value.peer)
  }

  function Resolve(env: Env, s: State, kind: Option<FrameKind>, payload: seq<byte>): Layout {
    var n := Min(UnencryptedBytes(s.conf.codec, kind), |payload|);
    var cached := CachedFormat(s, payload, n);
    if cached.Some? then Layout(cached.value.prefixLen, cached.value.aadForm, None)
    else
      var probed := ProbeFormat(env, s, payload, FormatCandidates(s.conf.codec, kind));
      if probed.Some? then probed.value else Layout(n, HeaderForm, None)
  }

  // ------------------------------------------------------------ the ratchet

  // A plaintext, and how many steps ahead of the cached key it was found.
  datatype Plain = Plain(text: seq<byte>, steps: nat)

  function Ratcheted(env: Env, key: SenderKey, peer: int, steps: nat): SenderKey {
    if steps == 0 then key
    else
      var before := Ratcheted(env, key, peer, steps - 1);
      before.(raw := env.ratchet(before.raw, peer))
  }

  // Deriving a step puts the peer index into two bytes, and throws otherwise.
  predicate Derivable(peer: int) { 0 <= peer <= 0xffff }

  // Steps `step` up to the window, in order.
  function RatchetSearch(env: Env, buf: seq<byte>, key: SenderKey, peer: int, prefix: seq<byte>, form: AadForm,
                         step: nat, window: nat): Result<Plain, SframeError>
    decreases window + 1 - step
  {
    if step > window then Err(RatchetExhausted)
    else if !Derivable(peer) then Err(PeerIndexRange)
    else
      var result := Decrypt(env.aead, buf, Some(Ratcheted(env, key, peer, step)), prefix, form);
      if result.Ok? then Ok(Plain(result.value, step))
      else RatchetSearch(env, buf, key, peer, prefix, form, step + 1, window)
  }

  function TryDecryptWithRatchet(env: Env, s: State, buf: seq<byte>, epoch: int, peer: int,
                                 prefix: seq<byte>, form: AadForm): Result<Plain, SframeError> {
    var key := KeyFor(s.keys, epoch, peer);
    if key.None? then Err(KeyNotFound)
    else
      var first := Decrypt(env.aead, buf, key, prefix, form);
      if first.Ok? then Ok(Plain(first.value, 0))
      else if s.conf.ratchetWindowSize == 0 then Err(first.error)
      else RatchetSearch(env, buf, key.value, peer, prefix, form, 1, s.conf.ratchetWindowSize)
  }

  // Only a search that moves changes the entry.
  function Advance(env: Env, k: KeyTable, epoch: int, peer: int, steps: nat): KeyTable {
    if steps == 0 || KeyFor(k, epoch, peer).None? then k
    else
      var entry := k.epochs[epoch];
      k.(epochs := k.epochs[epoch := entry.(
        keys := entry.keys[peer := Ratcheted(env, entry.keys[peer], peer, steps)],
        ratchetSteps := entry.ratchetSteps[peer := StepsOf(k, epoch, peer) + steps])])
  }

  // ------------------------------------------------ what both paths share

  function Window(s: State, epoch: int, peer: int): seq<Ctr> {
    var w := Lookup(s.recv.replayWindows, epoch, peer);
    if w.Some? then w.value else []
  }

  // The window of a sender is created when it is first asked for.
  function WithWindow(s: State, h: FrameHeader): State {
    s.(recv := s.recv.(replayWindows := Put(s.recv.replayWindows, h.epoch, h.peer, Window(s, h.epoch, h.peer))))
  }

  function Open(env: Env, s: State, payload: seq<byte>, layout: Layout, h: FrameHeader): Result<Plain, SframeError> {
    if layout.probed.Some? then Ok(Plain(layout.probed.value, 0))
    else TryDecryptWithRatchet(env, s, DropUpTo(payload, layout.prefixLen), h.epoch, h.peer,
                               TakeUpTo(payload, layout.prefixLen), layout.aadForm)
  }

  function ClearStarve(s: State): State {
    if s.starve.active then s.(starve := IDLE, starvePeerIndex := None) else s
  }

  // After a frame has opened: its layout and counter are remembered, the
  // failure slate is clean and a starvation episode is over.
  function Accepted(s: State, layout: Layout, h: FrameHeader): State {
    var window := Slide(s.conf.replayWindowSize, Window(s, h.epoch, h.peer), h.ctr);
    var s' := s.(recv := s.recv.(
      formatCache := Put(s.recv.formatCache, h.epoch, h.peer, FormatGuess(layout.prefixLen, layout.aadForm)),
      replayWindows := Put(s.recv.replayWindows, h.epoch, h.peer, window)));
    ClearStarve(RecordSuccess(s', h.epoch, h.peer))
  }

  // What happened to a frame. `counted` failures are the ones that tell on a key.
  datatype Report =
    | PassedThrough
    | Queued(peer: int)
    | Delivered(header: FrameHeader, data: seq<byte>, steps: nat)
    | Refused(error: SframeError, at: Option<FrameHeader>, counted: bool)
    | Began(job: Job)
    | Nothing

  // The gates behind the stale-epoch gate, then decryption. `durableFresh` is
  // the answer of the durable guard, or true without one.
  function Admit(env: Env, s: State, payload: seq<byte>, layout: Layout, h: FrameHeader, durableFresh: bool)
      : (State, Result<Plain, SframeError>) {
    var w := WithWindow(s, h);
    if !Fresh(s.conf.replayWindowSize, Window(s, h.epoch, h.peer), h.ctr) || !durableFresh
    then (Emit(w, DecryptFailure(ReplayDrop)), Err(Replay))
    else if IsKeyInvalid(s, h.epoch, h.peer) then (Emit(w, DecryptFailure(KeyInvalidDrop)), Err(KeyInvalid))
    else
      var result := Open(env, w, payload, layout, h);
      (if result.Err? then w
       else Accepted(w.(keys := Advance(env, w.keys, h.epoch, h.peer, result.value.steps)), layout, h), result)
  }

  predicate Reported(e: SframeError) { e.StaleEpoch? || e.Replay? || e.KeyInvalid? }

  // Failing: counted against the key if it tells on it, and reported once.
  function Failed(s: State, error: SframeError, h: FrameHeader, counted: bool, reason: Reason): (State, Report) {
    var s' := if counted then RecordFailure(s, h.epoch, h.peer) else s;
    (if Reported(error) then s' else Emit(s', DecryptFailure(reason)), Refused(error, Some(h), counted))
  }

  function PushToQueue(s: State, frame: Frame, peer: int, now: real): State {
    var s' := if !Overflows(s.drain.preEpochQueue, s.conf.preEpochQueueCap) then s
              else NoteStarveDrop(Emit(s, DecryptFailure(QueueOverflow)), peer, now);
    s'.(drain := s.drain.(preEpochQueue := Push(s.drain.preEpochQueue, s.conf.preEpochQueueCap, frame)))
  }

  function NoteStarveDrop(s: State, peer: int, now: real): State {
    var noted := NoteDrop(s.starve, now);
    var s' := s.(starve := noted, starvePeerIndex := Some(peer));
    if Signalled(s.starve, now)
    then Emit(s', DecryptStarved(Some(peer), noted.framesDropped, now - noted.sinceMs)) else s'
  }

  // ----------------------------------------------------------------- decoding

  function Payload(s: State, data: seq<byte>): Option<seq<byte>> {
    if s.conf.sifTrailer.None? then Some(data)
    else if !EndsWith(data, s.conf.sifTrailer.value) then None
    else Some(data[..|data| - |s.conf.sifTrailer.value|])
  }

  function DecodeFrame(env: Env, s: State, frame: Frame, durableFresh: bool, now: real): (State, Report) {
    var payload := Payload(s, frame.data);
    if payload.None? then (s, PassedThrough)
    else
      var layout := Resolve(env, s, frame.kind, payload.value);
      var header := HeaderOf(s.conf.kidCodec, DropUpTo(payload.value, layout.prefixLen));
      if header.Err? then
        (Emit(s, DecryptFailure(DecryptFailed)), Refused(HeaderParse(header.error), None, false))
      else
        var h := header.value;
        if h.epoch < s.keys.currentMinValidEpoch then
          Failed(Emit(s, DecryptFailure(StaleEpochDrop)), StaleEpoch, h, false, DecryptFailed)
        else if s.keys.currentEpoch == -1 then (PushToQueue(s, frame, h.peer, now), Queued(h.peer))
        else
          var (s', plain) := Admit(env, s, payload.value, layout, h, durableFresh);
          if plain.Ok? then (s', Delivered(h, TakeUpTo(payload.value, layout.prefixLen) + plain.value.text, plain.value.steps))
          else Failed(s', plain.error, h, plain.error.AeadAuth? || plain.error.RatchetExhausted?, DecryptFailed)
  }

  // ----------------------------------------------------------------- draining

  // A second request only marks the running drain.
  function RequestDrain(s: State): State {
    if s.drain.draining then s.(drain := s.drain.(pendingDrain := true)) else s.(drain := Snapshot(s.drain))
  }

  function Snapshot(d: Drain): Drain { Drain([], true, d.pendingDrain, d.preEpochQueue) }

  // The end of a pass, with the trailing re-run.
  function EndDrain(d: Drain): Drain {
    if d.pendingDrain then Snapshot(d.(pendingDrain := false)) else d.(draining := false)
  }

  // The failure of a frame that is too short for its tag names no sender.
  predicate Attributed(error: SframeError, buf: seq<byte>, h: FrameHeader) {
    error.RatchetExhausted? || (error.AeadAuth? && |buf| >= h.bodyOffset + AEAD_TAG_BYTES)
  }

  // One frame of a pass. No trailer is stripped here, a stale frame goes
  // silently, and a frame without a key goes back to the queue.
  function DrainFrame(env: Env, s: State, frame: Frame, durableFresh: bool, now: real): (State, Report) {
    var layout := Resolve(env, s, frame.kind, frame.data);
    var buf := DropUpTo(frame.data, layout.prefixLen);
    var header := HeaderOf(s.conf.kidCodec, buf);
    if header.Err? then
      (Emit(s, DecryptFailure(DecryptFailedAfterEpoch)), Refused(HeaderParse(header.error), None, false))
    else
      var h := header.value;
      if h.epoch < s.keys.currentMinValidEpoch then (s, Refused(StaleEpoch, Some(h), false))
      else if KeyFor(s.keys, h.epoch, h.peer).None? then (PushToQueue(s, frame, h.peer, now), Queued(h.peer))
      else
        var (s', plain) := Admit(env, s, frame.data, layout, h, durableFresh);
        if plain.Ok? then (s', Delivered(h, TakeUpTo(frame.data, layout.prefixLen) + plain.value.text, plain.value.steps))
        else Failed(s', plain.error, h, Attributed(plain.error, buf, h), DecryptFailedAfterEpoch)
  }

  // One iteration of the pass under way.
  function DrainNext(env: Env, s: State, durableFresh: bool, now: real): (State, Report) {
    if !s.drain.draining || s.drain.pass == [] then (s, Nothing)
    else DrainFrame(env, s.(drain := s.drain.(pass := s.drain.pass[1..])), s.drain.pass[0], durableFresh, now)
  }
}

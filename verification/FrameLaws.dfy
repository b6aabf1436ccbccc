// What single frames obey: the ratchet finds the least step that opens, and
// decoding gives back the frame that was encoded.
module FrameLaws {
  import opened Bytes
  import opened ConstantTime
  import opened KidFormat
  import opened ReplayWindow
  import opened Sframe
  import opened SframeHeader
  import opened WorkerState
  import opened WorkerFrames

  // -------------------------------------------------------------- the ratchet

  predicate OpensAt(env: Env, buf: seq<byte>, key: SenderKey, peer: int, prefix: seq<byte>, form: AadForm, step: nat) {
    Decrypt(env.aead, buf, Some(Ratcheted(env, key, peer, step)), prefix, form).Ok?
  }

  lemma {:induction false} SearchIsLeast(env: Env, buf: seq<byte>, key: SenderKey, peer: int, prefix: seq<byte>,
                                         form: AadForm, step: nat, window: nat)
    ensures var found := RatchetSearch(env, buf, key, peer, prefix, form, step, window);
      && (found.Ok? <==> Derivable(peer) && exists j | step <= j <= window :: OpensAt(env, buf, key, peer, prefix, form, j))
      && (found.Err? ==> found.error == if step <= window && !Derivable(peer) then PeerIndexRange else RatchetExhausted)
      && (found.Ok? ==>
           && step <= found.value.steps <= window
           && Decrypt(env.aead, buf, Some(Ratcheted(env, key, peer, found.value.steps)), prefix, form) == Ok(found.value.text)
           && forall j | step <= j < found.value.steps :: !OpensAt(env, buf, key, peer, prefix, form, j))
    decreases window + 1 - step
  {
    hide Decrypt, Ratcheted;
    if step <= window && Derivable(peer) && !OpensAt(env, buf, key, peer, prefix, form, step) {
      SearchIsLeast(env, buf, key, peer, prefix, form, step + 1, window);
    }
  }

  // The retry opens a frame exactly when the cached key does, or some later
  // step in the window of a peer with a two-byte index, and at the least one.
  lemma RetryIsLeast(env: Env, s: State, buf: seq<byte>, epoch: int, peer: int, prefix: seq<byte>, form: AadForm)
    requires KeyFor(s.keys, epoch, peer).Some?
    ensures var key, r := KeyFor(s.keys, epoch, peer).value, TryDecryptWithRatchet(env, s, buf, epoch, peer, prefix, form);
      && (r.Ok? <==> exists j | 0 <= j <= s.conf.ratchetWindowSize ::
            OpensAt(env, buf, key, peer, prefix, form, j) && (j == 0 || Derivable(peer)))
      && (r.Ok? ==>
           && r.value.steps <= s.conf.ratchetWindowSize
           && Decrypt(env.aead, buf, Some(Ratcheted(env, key, peer, r.value.steps)), prefix, form) == Ok(r.value.text)
           && forall j | 0 <= j < r.value.steps :: !OpensAt(env, buf, key, peer, prefix, form, j))
  {
    hide Decrypt, RatchetSearch;
    var key := KeyFor(s.keys, epoch, peer).value;
    assert Ratcheted(env, key, peer, 0) == key;
    SearchIsLeast(env, buf, key, peer, prefix, form, 1, s.conf.ratchetWindowSize);
    if OpensAt(env, buf, key, peer, prefix, form, 0) { assert Decrypt(env.aead, buf, Some(key), prefix, form).Ok?; }
  }

  lemma {:induction false} RatchetedTwice(env: Env, key: SenderKey, peer: int, m: nat, n: nat)
    ensures Ratcheted(env, Ratcheted(env, key, peer, m), peer, n) == Ratcheted(env, key, peer, m + n)
  {
    if n > 0 { RatchetedTwice(env, key, peer, m, n - 1); }
  }

  // Every step leaves the identifier and the salt alone.
  lemma {:induction false} RatchetedKeepsSalt(env: Env, key: SenderKey, peer: int, n: nat)
    ensures Ratcheted(env, key, peer, n).kid == key.kid && Ratcheted(env, key, peer, n).salt == key.salt
  {
    if n > 0 { RatchetedKeepsSalt(env, key, peer, n - 1); }
  }

  // ------------------------------------------------------------ authenticity

  lemma {:induction false} ProbedOpens(env: Env, s: State, payload: seq<byte>, candidates: seq<Candidate>)
    ensures var layout := ProbeFormat(env, s, payload, candidates);
      layout.Some? ==>
        && layout.value.probed.Some?
        && TryCandidate(env, s, payload, Candidate(layout.value.prefixLen, layout.value.aadForm)) == layout.value.probed
  {
    hide TryCandidate;
    if candidates != [] { ProbedOpens(env, s, payload, candidates[1..]); }
  }

  // Opening under the sender's key, ratcheted this often and no less, yields
  // this text.
  ghost predicate Authentic(env: Env, s: State, payload: seq<byte>, layout: Layout, h: FrameHeader, plain: Plain) {
    var buf, prefix := DropUpTo(payload, layout.prefixLen), TakeUpTo(payload, layout.prefixLen);
    var key := KeyFor(s.keys, h.epoch, h.peer);
    && key.Some?
    && Decrypt(env.aead, buf, Some(Ratcheted(env, key.value, h.peer, plain.steps)), prefix, layout.aadForm) == Ok(plain.text)
    && forall j | 0 <= j < plain.steps :: !OpensAt(env, buf, key.value, h.peer, prefix, layout.aadForm, j)
  }

  lemma OpenIsAuthentic(env: Env, s: State, kind: Option<FrameKind>, payload: seq<byte>, h: FrameHeader)
    requires var layout := Resolve(env, s, kind, payload);
      HeaderOf(s.conf.kidCodec, DropUpTo(payload, layout.prefixLen)) == Ok(h)
    ensures var layout := Resolve(env, s, kind, payload);
      var plain := Open(env, WithWindow(s, h), payload, layout, h);
      plain.Ok? ==> Authentic(env, s, payload, layout, h, plain.value)
  {
    hide HeaderOf, Decrypt, ProbeFormat, RatchetSearch, TryDecryptWithRatchet;
    var layout := Resolve(env, s, kind, payload);
    if layout.probed.Some? {
      ProbedOpens(env, s, payload, FormatCandidates(s.conf.codec, kind));
    } else if KeyFor(s.keys, h.epoch, h.peer).Some? {
      RetryIsLeast(env, WithWindow(s, h), DropUpTo(payload, layout.prefixLen), h.epoch, h.peer,
                   TakeUpTo(payload, layout.prefixLen), layout.aadForm);
    } else {
      NoKeyNoText(env, WithWindow(s, h), payload, layout, h);
    }
  }

  lemma NoKeyNoText(env: Env, s: State, payload: seq<byte>, layout: Layout, h: FrameHeader)
    requires layout.probed.None? && KeyFor(s.keys, h.epoch, h.peer).None?
    ensures Open(env, s, payload, layout, h).Err?
  {
  }

  // Whatever a decode delivers, the sender's key opened: clear prefix, then
  // the opened text, found at the least ratchet step that opens it.
  lemma DeliveredIsAuthentic(env: Env, s: State, frame: Frame, durableFresh: bool, now: real) returns (plain: Plain)
    requires DecodeFrame(env, s, frame, durableFresh, now).1.Delivered?
    ensures var r, payload := DecodeFrame(env, s, frame, durableFresh, now).1, Payload(s, frame.data);
      && payload.Some?
      && var layout := Resolve(env, s, frame.kind, payload.value);
      && r.data == TakeUpTo(payload.value, layout.prefixLen) + plain.text && r.steps == plain.steps
      && Authentic(env, s, payload.value, layout, r.header, plain)
  {
    hide HeaderOf, Decrypt, Resolve, Open, PushToQueue, Accepted, Authentic, WithWindow;
    var payload := Payload(s, frame.data).value;
    var layout := Resolve(env, s, frame.kind, payload);
    var h := HeaderOf(s.conf.kidCodec, DropUpTo(payload, layout.prefixLen)).value;
    OpenIsAuthentic(env, s, frame.kind, payload, h);
    plain := Open(env, WithWindow(s, h), payload, layout, h).value;
  }

  // The same for a drained frame.
  lemma DrainedIsAuthentic(env: Env, s: State, frame: Frame, durableFresh: bool, now: real) returns (plain: Plain)
    requires DrainFrame(env, s, frame, durableFresh, now).1.Delivered?
    ensures var r, layout := DrainFrame(env, s, frame, durableFresh, now).1, Resolve(env, s, frame.kind, frame.data);
      && r.data == TakeUpTo(frame.data, layout.prefixLen) + plain.text && r.steps == plain.steps
      && Authentic(env, s, frame.data, layout, r.header, plain)
  {
    hide HeaderOf, Decrypt, Resolve, Open, PushToQueue, Accepted, Authentic, WithWindow;
    var layout := Resolve(env, s, frame.kind, frame.data);
    var h := HeaderOf(s.conf.kidCodec, DropUpTo(frame.data, layout.prefixLen)).value;
    OpenIsAuthentic(env, s, frame.kind, frame.data, h);
    plain := Open(env, WithWindow(s, h), frame.data, layout, h).value;
  }

  // ------------------------------------------------------------ the layout

  // A key as a sender holds it: its identifier names its epoch and peer.
  predicate NamedBy(codec: WireCodec, job: Job) { codec.Encode(job.epoch, job.peer) == Ok(job.key.kid) }

  // An opened body under a key equal to the sealing one up to its identifier.
  lemma SealedOpens(env: Env, codec: WireCodec, job: Job, key: SenderKey, prefix: seq<byte>)
    requires env.aead.Lawful() && NamedBy(codec, job) && Sealable(job.key, job.ctr)
    requires key.raw == job.key.raw && key.salt == job.key.salt
    ensures var buf := Sealed(env.aead, job.key, job.ctr, job.body, [], HeaderForm);
      var header := HeaderOf(codec, buf);
      && |buf| >= 1 && header.Ok?
      && header.value.epoch == job.epoch && header.value.peer == job.peer && header.value.ctr == job.ctr
      && |buf| >= header.value.bodyOffset + AEAD_TAG_BYTES
      && Decrypt(env.aead, buf, Some(key), prefix, HeaderForm) == Ok(job.body)
  {
    hide Parse, Serialized, Iv, KidCodec.Encode, KidCodec.Decode;
    DecryptUndoesSeal(env.aead, job.key, job.ctr, job.body, [], HeaderForm);
    CodecRoundTrip(codec, job.epoch, job.peer);
    var header := Serialized(job.key.kid, job.ctr);
    var buf := Sealed(env.aead, job.key, job.ctr, job.body, [], HeaderForm);
    assert buf[..|header|] == header;
    assert Aad(prefix, header, HeaderForm) == Aad([], header, HeaderForm);
    assert |buf| >= |header| + AEAD_TAG_BYTES;
  }

  lemma SplitAtPrefix(prefix: seq<byte>, rest: seq<byte>)
    ensures TakeUpTo(prefix + rest, |prefix|) == prefix && DropUpTo(prefix + rest, |prefix|) == rest
  {
  }

  lemma TrailerStrips(s: State, inner: seq<byte>)
    ensures Payload(s, inner + if s.conf.sifTrailer.Some? then s.conf.sifTrailer.value else []) == Some(inner)
  {
    if s.conf.sifTrailer.Some? {
      var data := inner + s.conf.sifTrailer.value;
      assert data[..|inner|] == inner && data[|inner|..] == s.conf.sifTrailer.value;
    } else {
      assert inner + [] == inner;
    }
  }

  // ------------------------------------------------------------- round trip

  // The receiver's side of the contract: same formats, the sender's key, and
  // every gate open for this counter.
  ghost predicate GatesOpen(s: State, epoch: int, peer: int, ctr: nat) {
    && epoch >= s.keys.currentMinValidEpoch && s.keys.currentEpoch != -1
    && ctr < TWO64 && Fresh(s.conf.replayWindowSize, Window(s, epoch, peer), ctr)
    && !IsKeyInvalid(s, epoch, peer)
  }

  ghost predicate SameFormats(a: Config, b: Config) {
    a.kidCodec == b.kidCodec && a.codec == b.codec && a.sifTrailer == b.sifTrailer
  }

  // Nothing cached for the sender, or the layout it uses.
  predicate CacheFits(s: State, epoch: int, peer: int, n: nat) {
    var cached := Lookup(s.recv.formatCache, epoch, peer);
    cached.None? || cached == Some(FormatGuess(n, HeaderForm))
  }

  lemma FirstCandidate(codec: Option<Codec>, kind: Option<FrameKind>)
    ensures FormatCandidates(codec, kind) != [] && FormatCandidates(codec, kind)[0] == Candidate(UnencryptedBytes(codec, kind), HeaderForm)
  {
  }

  // What is common to the two round trips below.
  lemma JobShape(sender: State, frame: Frame, receiver: State)
    requires BeginEncode(sender, frame).1.Ok? && SameFormats(sender.conf, receiver.conf)
    ensures var job := BeginEncode(sender, frame).1.value;
      && Sealable(job.key, job.ctr)
      && job.prefix + job.body == frame.data
      && |job.prefix| == Min(UnencryptedBytes(receiver.conf.codec, frame.kind), |frame.data|)
      && job.trailer == if receiver.conf.sifTrailer.Some? then receiver.conf.sifTrailer.value else []
  {
  }

  // The layout resolves to the sender's, by probing or from the cache.
  lemma ResolvesToSent(env: Env, receiver: State, kind: Option<FrameKind>, job: Job, key: SenderKey)
    requires env.aead.Lawful() && NamedBy(receiver.conf.kidCodec, job) && Sealable(job.key, job.ctr)
    requires |job.prefix| == UnencryptedBytes(receiver.conf.codec, kind)
    requires KeyFor(receiver.keys, job.epoch, job.peer) == Some(key)
    requires key.raw == job.key.raw && key.salt == job.key.salt
    requires CacheFits(receiver, job.epoch, job.peer, |job.prefix|)
    ensures var payload := job.prefix + Sealed(env.aead, job.key, job.ctr, job.body, [], HeaderForm);
      var layout := Resolve(env, receiver, kind, payload);
      && layout.prefixLen == |job.prefix| && layout.aadForm == HeaderForm
      && (layout.probed.None? || layout.probed == Some(job.body))
  {
    hide Sealed, HeaderOf, Decrypt, FormatCandidates, KeyFor;
    var buf := Sealed(env.aead, job.key, job.ctr, job.body, [], HeaderForm);
    SealedOpens(env, receiver.conf.kidCodec, job, key, job.prefix);
    SplitAtPrefix(job.prefix, buf);
    FirstCandidate(receiver.conf.codec, kind);
    var candidates := FormatCandidates(receiver.conf.codec, kind);
    assert TryCandidate(env, receiver, job.prefix + buf, candidates[0]) == Some(job.body);
  }

  // The two sides of a call: what the encoder made, and a receiver that
  // holds its key.
  ghost predicate Matched(env: Env, sender: State, receiver: State, frame: Frame) {
    && env.aead.Lawful()
    && BeginEncode(sender, frame).1.Ok? && SameFormats(sender.conf, receiver.conf)
    && var job := BeginEncode(sender, frame).1.value;
    && NamedBy(receiver.conf.kidCodec, job)
    && GatesOpen(receiver, job.epoch, job.peer, job.ctr)
    && CacheFits(receiver, job.epoch, job.peer, UnencryptedBytes(receiver.conf.codec, frame.kind))
    && KeyFor(receiver.keys, job.epoch, job.peer).Some?
    && KeyFor(receiver.keys, job.epoch, job.peer).value.raw == job.key.raw
    && KeyFor(receiver.keys, job.epoch, job.peer).value.salt == job.key.salt
  }

  function Received(env: Env, sender: State, receiver: State, frame: Frame, now: real): Report
    requires BeginEncode(sender, frame).1.Ok?
  {
    DecodeFrame(env, receiver, Frame(Wire(env, BeginEncode(sender, frame).1.value), frame.kind), true, now).1
  }

  // A receiver that is ready for one job: same formats, the sealing key, open
  // gates, and nothing cached but the layout the job has.
  ghost predicate Hears(receiver: State, kind: Option<FrameKind>, job: Job) {
    && NamedBy(receiver.conf.kidCodec, job) && Sealable(job.key, job.ctr)
    && |job.prefix| == UnencryptedBytes(receiver.conf.codec, kind)
    && GatesOpen(receiver, job.epoch, job.peer, job.ctr)
    && CacheFits(receiver, job.epoch, job.peer, |job.prefix|)
    && SameKey(receiver, job)
  }

  ghost predicate SameKey(receiver: State, job: Job) {
    var key := KeyFor(receiver.keys, job.epoch, job.peer);
    key.Some? && key.value.raw == job.key.raw && key.value.salt == job.key.salt
  }

  function TrailerOf(c: Config): seq<byte> { if c.sifTrailer.Some? then c.sifTrailer.value else [] }

  // What a delivery of a job reports.
  predicate Heard(r: Report, job: Job) {
    && r.Delivered? && r.data == job.prefix + job.body && r.steps == 0
    && r.header.epoch == job.epoch && r.header.peer == job.peer && r.header.ctr == job.ctr
  }

  // A decoded job comes back, and resolves to the layout it has.
  lemma JobIsDecoded(env: Env, receiver: State, kind: Option<FrameKind>, job: Job, now: real)
    requires env.aead.Lawful() && Hears(receiver, kind, job) && job.trailer == TrailerOf(receiver.conf)
    ensures var wire := Wire(env, job);
      && Heard(DecodeFrame(env, receiver, Frame(wire, kind), true, now).1, job)
      && Payload(receiver, wire).Some?
      && Resolve(env, receiver, kind, Payload(receiver, wire).value).prefixLen == |job.prefix|
      && Resolve(env, receiver, kind, Payload(receiver, wire).value).aadForm == HeaderForm
  {
    hide Sealed, HeaderOf, Decrypt, Resolve, KeyFor, Accepted, Window, IsKeyInvalid, Fresh, RatchetSearch;
    var key := KeyFor(receiver.keys, job.epoch, job.peer).value;
    var buf := Sealed(env.aead, job.key, job.ctr, job.body, [], HeaderForm);
    SealedOpens(env, receiver.conf.kidCodec, job, key, job.prefix);
    ResolvesToSent(env, receiver, kind, job, key);
    SplitAtPrefix(job.prefix, buf);
    TrailerStrips(receiver, job.prefix + buf);
  }

  // So does a drained one, where no trailer is in use.
  lemma JobIsDrained(env: Env, receiver: State, kind: Option<FrameKind>, job: Job, now: real)
    requires env.aead.Lawful() && Hears(receiver, kind, job) && job.trailer == []
    ensures var wire := Wire(env, job);
      && Heard(DrainFrame(env, receiver, Frame(wire, kind), true, now).1, job)
      && Resolve(env, receiver, kind, wire).prefixLen == |job.prefix|
      && Resolve(env, receiver, kind, wire).aadForm == HeaderForm
  {
    hide Sealed, HeaderOf, Decrypt, Resolve, KeyFor, Accepted, Window, IsKeyInvalid, Fresh, RatchetSearch;
    var key := KeyFor(receiver.keys, job.epoch, job.peer).value;
    var buf := Sealed(env.aead, job.key, job.ctr, job.body, [], HeaderForm);
    SealedOpens(env, receiver.conf.kidCodec, job, key, job.prefix);
    ResolvesToSent(env, receiver, kind, job, key);
    SplitAtPrefix(job.prefix, buf);
    assert Wire(env, job) == job.prefix + buf;
  }

  // Decoding undoes encoding, whether the layout was cached or is probed.
  lemma DecodeUndoesEncode(env: Env, sender: State, receiver: State, frame: Frame, now: real)
    requires Matched(env, sender, receiver, frame)
    requires |frame.data| >= UnencryptedBytes(receiver.conf.codec, frame.kind)
    ensures var report := Received(env, sender, receiver, frame, now);
      report.Delivered? && report.data == frame.data && report.steps == 0
  {
    hide BeginEncode, DecodeFrame, Wire, GatesOpen, CacheFits, NamedBy, Sealable;
    JobShape(sender, frame, receiver);
    JobIsDecoded(env, receiver, frame.kind, BeginEncode(sender, frame).1.value, now);
  }

  // So does draining, where no trailer is in use: a frame that waited for its
  // key comes back as it was.
  lemma DrainUndoesEncode(env: Env, sender: State, receiver: State, frame: Frame, now: real)
    requires Matched(env, sender, receiver, frame) && receiver.conf.sifTrailer.None?
    requires |frame.data| >= UnencryptedBytes(receiver.conf.codec, frame.kind)
    ensures var wire := Wire(env, BeginEncode(sender, frame).1.value);
      var report := DrainFrame(env, receiver, Frame(wire, frame.kind), true, now).1;
      report.Delivered? && report.data == frame.data && report.steps == 0
  {
    hide BeginEncode, DrainFrame, Wire, GatesOpen, CacheFits, NamedBy, Sealable;
    JobShape(sender, frame, receiver);
    JobIsDrained(env, receiver, frame.kind, BeginEncode(sender, frame).1.value, now);
  }

  // ---------------------------------------------- what a layout depends on

  // Two states that no frame can tell apart before its gates.
  ghost predicate SameView(a: State, b: State) {
    && a.conf == b.conf && a.keys == b.keys
    && forall epoch: int, peer: int :: Lookup(a.recv.formatCache, epoch, peer) == Lookup(b.recv.formatCache, epoch, peer)
  }

  lemma ResolveReads(env: Env, a: State, b: State, kind: Option<FrameKind>, payload: seq<byte>)
    requires SameView(a, b)
    ensures Resolve(env, a, kind, payload) == Resolve(env, b, kind, payload)
  {
    hide HeaderOf, FormatCandidates, Lookup;
    ProbeReads(env, a, b, payload, FormatCandidates(a.conf.codec, kind));
  }

  lemma {:induction false} ProbeReads(env: Env, a: State, b: State, payload: seq<byte>, candidates: seq<Candidate>)
    requires a.conf == b.conf && a.keys == b.keys
    ensures ProbeFormat(env, a, payload, candidates) == ProbeFormat(env, b, payload, candidates)
  {
    hide HeaderOf, Decrypt;
    if candidates != [] { ProbeReads(env, a, b, payload, candidates[1..]); }
  }

  lemma {:induction false} ProbedIsCandidate(env: Env, s: State, payload: seq<byte>, candidates: seq<Candidate>)
    ensures var layout := ProbeFormat(env, s, payload, candidates);
      layout.Some? ==> Candidate(layout.value.prefixLen, layout.value.aadForm) in candidates
  {
    hide TryCandidate;
    if candidates != [] { ProbedIsCandidate(env, s, payload, candidates[1..]); }
  }

  ghost predicate CachedPrefixes(s: State, n: nat) {
    forall epoch, peer :: Lookup(s.recv.formatCache, epoch, peer).Some? ==>
      Lookup(s.recv.formatCache, epoch, peer).value.prefixLen == n
  }

  lemma ResolvedPrefix(env: Env, s: State, kind: Option<FrameKind>, payload: seq<byte>)
    requires UnencryptedBytes(s.conf.codec, kind) > 0 && |payload| >= 10
    requires CachedPrefixes(s, UnencryptedBytes(s.conf.codec, kind))
    ensures Resolve(env, s, kind, payload).prefixLen == UnencryptedBytes(s.conf.codec, kind)
  {
    hide HeaderOf, ProbeFormat, Lookup;
    ProbedIsCandidate(env, s, payload, FormatCandidates(s.conf.codec, kind));
  }

  // The exact condition: a frame shorter than the clear prefix of its codec
  // never comes back, because the receiver takes the whole prefix off.
  lemma DecodeUndoesEncodeIff(env: Env, sender: State, receiver: State, frame: Frame, now: real)
    requires Matched(env, sender, receiver, frame)
    requires CachedPrefixes(receiver, UnencryptedBytes(receiver.conf.codec, frame.kind))
    ensures var report := Received(env, sender, receiver, frame, now);
      (report.Delivered? && report.data == frame.data)
      <==> |frame.data| >= UnencryptedBytes(receiver.conf.codec, frame.kind)
  {
    hide Sealed, HeaderOf, Decrypt, Resolve, KeyFor, BeginEncode, Accepted, PushToQueue, TryDecryptWithRatchet;
    var n := UnencryptedBytes(receiver.conf.codec, frame.kind);
    if |frame.data| >= n {
      DecodeUndoesEncode(env, sender, receiver, frame, now);
    } else {
      var job := BeginEncode(sender, frame).1.value;
      JobShape(sender, frame, receiver);
      var buf := Sealed(env.aead, job.key, job.ctr, job.body, [], HeaderForm);
      SealedLength(env, job);
      TrailerStrips(receiver, job.prefix + buf);
      ResolvedPrefix(env, receiver, frame.kind, job.prefix + buf);
    }
  }

  lemma SealedLength(env: Env, job: Job)
    requires env.aead.Lawful() && Sealable(job.key, job.ctr)
    ensures |Sealed(env.aead, job.key, job.ctr, job.body, [], HeaderForm)| >= 22
  {
    hide Serialized, Iv, Aad;
    assert |Serialized(job.key.kid, job.ctr)| >= 6;
  }

  // No candidate that cuts the frame elsewhere opens it; only VP9 and AV1 have
  // such candidates.
  predicate NoOtherCut(env: Env, s: State, kind: Option<FrameKind>, payload: seq<byte>) {
    forall c | c in FormatCandidates(s.conf.codec, kind) ::
      c.prefixLen == UnencryptedBytes(s.conf.codec, kind) || TryCandidate(env, s, payload, c).None?
  }

  lemma OnlyTwoCodecsCutElsewhere(env: Env, s: State, kind: Option<FrameKind>, payload: seq<byte>)
    requires s.conf.codec != Some(Vp9) && s.conf.codec != Some(Av1)
    ensures NoOtherCut(env, s, kind, payload)
  {
    hide TryCandidate;
  }

  // The layout resolves to the cut of the sender; a probe that opens the frame
  // does so under the cached key.
  lemma ResolvesToCut(env: Env, s: State, kind: Option<FrameKind>, payload: seq<byte>, h: FrameHeader, key: SenderKey)
    requires |payload| > UnencryptedBytes(s.conf.codec, kind)
    requires HeaderOf(s.conf.kidCodec, DropUpTo(payload, UnencryptedBytes(s.conf.codec, kind))) == Ok(h)
    requires KeyFor(s.keys, h.epoch, h.peer) == Some(key)
    requires CacheFits(s, h.epoch, h.peer, UnencryptedBytes(s.conf.codec, kind)) && NoOtherCut(env, s, kind, payload)
    ensures var n, layout := UnencryptedBytes(s.conf.codec, kind), Resolve(env, s, kind, payload);
      && layout.prefixLen == n
      && (layout.probed.None? ==> layout.aadForm == HeaderForm)
      && (layout.probed.Some? ==>
            Decrypt(env.aead, DropUpTo(payload, n), Some(key), TakeUpTo(payload, n), layout.aadForm) == Ok(layout.probed.value))
  {
    hide HeaderOf, Decrypt, ProbeFormat, FormatCandidates;
    ProbedIsCandidate(env, s, payload, FormatCandidates(s.conf.codec, kind));
    ProbedOpens(env, s, payload, FormatCandidates(s.conf.codec, kind));
  }

  // What the theorem below asks: a sender whose key is `ahead` steps past the
  // cached one, and open gates.
  ghost predicate Ahead(env: Env, sender: State, receiver: State, frame: Frame, ahead: nat) {
    && env.aead.Lawful()
    && BeginEncode(sender, frame).1.Ok? && SameFormats(sender.conf, receiver.conf)
    && ahead <= receiver.conf.ratchetWindowSize
    && (ahead == 0 || Derivable(BeginEncode(sender, frame).1.value.peer))
    && |frame.data| >= UnencryptedBytes(receiver.conf.codec, frame.kind)
    && var job := BeginEncode(sender, frame).1.value;
    && NamedBy(receiver.conf.kidCodec, job)
    && GatesOpen(receiver, job.epoch, job.peer, job.ctr)
    && CacheFits(receiver, job.epoch, job.peer, UnencryptedBytes(receiver.conf.codec, frame.kind))
    && KeyFor(receiver.keys, job.epoch, job.peer).Some?
    && Ratcheted(env, KeyFor(receiver.keys, job.epoch, job.peer).value, job.peer, ahead).raw == job.key.raw
    && KeyFor(receiver.keys, job.epoch, job.peer).value.salt == job.key.salt
  }

  function Inner(env: Env, job: Job): seq<byte>
    requires Sealable(job.key, job.ctr)
  {
    Sealed(env.aead, job.key, job.ctr, job.body, [], HeaderForm)
  }

  // A sender ahead of the cached key by no more than the window is heard, and
  // unless an earlier key or another form of additional data happens to open
  // the frame, exactly and at its step.
  lemma SenderAheadIsHeard(env: Env, sender: State, receiver: State, frame: Frame, ahead: nat, now: real)
    requires Ahead(env, sender, receiver, frame, ahead)
    requires var job := BeginEncode(sender, frame).1.value;
      NoOtherCut(env, receiver, frame.kind, job.prefix + Inner(env, job))
    ensures var job, report := BeginEncode(sender, frame).1.value, Received(env, sender, receiver, frame, now);
      && report.Delivered? && report.steps <= ahead
      && (Resolve(env, receiver, frame.kind, job.prefix + Inner(env, job)).aadForm == HeaderForm
          && (forall j | 0 <= j < ahead :: !OpensAt(env, Inner(env, job), KeyFor(receiver.keys, job.epoch, job.peer).value,
                                                    job.peer, job.prefix, HeaderForm, j))
          ==> report.steps == ahead && report.data == frame.data)
  {
    hide Sealed, HeaderOf, Decrypt, Resolve, KeyFor, BeginEncode, Accepted, Window, IsKeyInvalid, Fresh,
         TryDecryptWithRatchet, Ratcheted, NoOtherCut, CacheFits;
    var job := BeginEncode(sender, frame).1.value;
    JobShape(sender, frame, receiver);
    var key := KeyFor(receiver.keys, job.epoch, job.peer).value;
    var ratcheted := Ratcheted(env, key, job.peer, ahead);
    RatchetedKeepsSalt(env, key, job.peer, ahead);
    assert Ratcheted(env, key, job.peer, 0) == key by { NoSteps(env, key, job.peer); }
    var buf := Inner(env, job);
    SealedOpens(env, receiver.conf.kidCodec, job, ratcheted, job.prefix);
    SplitAtPrefix(job.prefix, buf);
    TrailerStrips(receiver, job.prefix + buf);
    var h := HeaderOf(receiver.conf.kidCodec, buf).value;
    ResolvesToCut(env, receiver, frame.kind, job.prefix + buf, h, key);
    var layout := Resolve(env, receiver, frame.kind, job.prefix + buf);
    assert OpensAt(env, buf, key, job.peer, job.prefix, HeaderForm, ahead);
    var w := WithWindow(receiver, h);
    RetryIsLeast(env, w, buf, job.epoch, job.peer, job.prefix, HeaderForm);
    if layout.probed.Some? {
      assert layout.aadForm == HeaderForm ==> OpensAt(env, buf, key, job.peer, job.prefix, HeaderForm, 0);
    } else {
      var plain := TryDecryptWithRatchet(env, w, buf, job.epoch, job.peer, job.prefix, HeaderForm).value;
      assert OpensAt(env, buf, key, job.peer, job.prefix, HeaderForm, plain.steps);
      assert plain.steps == ahead ==> plain.text == job.body;
    }
  }

  lemma NoSteps(env: Env, key: SenderKey, peer: int)
    ensures Ratcheted(env, key, peer, 0) == key
  {
  }

  // A key other than the sealing one opens nothing of a text that opens only
  // as it was sealed.
  lemma OtherKeyOpensNothing(env: Env, codec: WireCodec, job: Job, key: SenderKey, prefix: seq<byte>, form: AadForm)
    requires env.aead.Lawful() && Sealable(job.key, job.ctr) && key.raw != job.key.raw
    requires OpensAsSealed(env, job)
    ensures Decrypt(env.aead, Inner(env, job), Some(key), prefix, form).Err?
  {
    hide Parse, Serialized, Iv, Aad;
    DecryptUndoesSeal(env.aead, job.key, job.ctr, job.body, [], HeaderForm);
    var header, buf := Serialized(job.key.kid, job.ctr), Inner(env, job);
    assert buf[|header|..] == env.aead.seal(job.key.raw, Iv(job.key.salt, job.ctr), Aad([], header, HeaderForm), job.body);
  }

  ghost predicate OpensAsSealed(env: Env, job: Job)
    requires Sealable(job.key, job.ctr)
  {
    env.aead.OpensOnlyAs(job.key.raw, Iv(job.key.salt, job.ctr), Aad([], Serialized(job.key.kid, job.ctr), HeaderForm), job.body)
  }

  // Where the sealed text opens only as it was sealed and the steps before the
  // sender's give other keys, the frame is delivered exactly as it was sent and
  // the cursor moves exactly to the sender. With OnlyTwoCodecsCutElsewhere, for
  // every codec but VP9 and AV1 without further premise.
  lemma SenderAheadIsExact(env: Env, sender: State, receiver: State, frame: Frame, ahead: nat, now: real)
    requires Ahead(env, sender, receiver, frame, ahead)
    requires var job := BeginEncode(sender, frame).1.value;
      && NoOtherCut(env, receiver, frame.kind, job.prefix + Inner(env, job))
      && OpensAsSealed(env, job)
      && forall j | 0 <= j < ahead ::
           Ratcheted(env, KeyFor(receiver.keys, job.epoch, job.peer).value, job.peer, j).raw != job.key.raw
    ensures var report := Received(env, sender, receiver, frame, now);
      report.Delivered? && report.steps == ahead && report.data == frame.data
  {
    hide Sealed, HeaderOf, Decrypt, Resolve, KeyFor, BeginEncode, DecodeFrame, OpensAsSealed, NoOtherCut, CacheFits,
         GatesOpen, Ratcheted;
    var job := BeginEncode(sender, frame).1.value;
    JobShape(sender, frame, receiver);
    var key := KeyFor(receiver.keys, job.epoch, job.peer).value;
    var codec := receiver.conf.kidCodec;
    assert Ratcheted(env, key, job.peer, 0) == key by { NoSteps(env, key, job.peer); }
    if ahead == 0 {
      DecodeUndoesEncode(env, sender, receiver, frame, now);
    } else {
      forall j | 0 <= j < ahead ensures !OpensAt(env, Inner(env, job), key, job.peer, job.prefix, HeaderForm, j) {
        OtherKeyOpensNothing(env, codec, job, Ratcheted(env, key, job.peer, j), job.prefix, HeaderForm);
      }
      var ratcheted, buf := Ratcheted(env, key, job.peer, ahead), Inner(env, job);
      RatchetedKeepsSalt(env, key, job.peer, ahead);
      SealedOpens(env, codec, job, ratcheted, job.prefix);
      SplitAtPrefix(job.prefix, buf);
      ResolvesToCut(env, receiver, frame.kind, job.prefix + buf, HeaderOf(codec, buf).value, key);
      OtherKeyOpensNothing(env, codec, job, key, job.prefix, Resolve(env, receiver, frame.kind, job.prefix + buf).aadForm);
      SenderAheadIsHeard(env, sender, receiver, frame, ahead, now);
    }
  }
}

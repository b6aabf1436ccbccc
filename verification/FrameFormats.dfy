// Which wire layouts a receiver hears. Senders of earlier and later releases
// differ in the clear prefix and in the additional data; the receiver tells
// them apart by probing, and afterwards goes by the layout it has cached.
module FrameFormats {
  import opened Bytes
  import opened ConstantTime
  import opened KidFormat
  import opened ReplayWindow
  import opened Sframe
  import opened SframeHeader
  import opened FrameLaws
  import opened FrameOutcomes
  import opened FrameStreams
  import opened WorkerEffects
  import opened WorkerFrames
  import opened WorkerRuns
  import opened WorkerState

  // Two forms that give the same data: the same, or both without a length
  // where the prefix is empty.
  predicate SameData(n: nat, a: AadForm, b: AadForm) {
    a == b || (n == 0 && a != CanonicalForm && b != CanonicalForm)
  }

  // The layouts that receivers of this release promise to hear at first sight.
  // For VP9 and AV1 the whole frame sealed as it always was, or all but one
  // byte under any form; for the others the prefix of the codec under any form.
  predicate Promised(codec: Option<Codec>, kind: Option<FrameKind>, n: nat, form: AadForm) {
    if codec == Some(Vp9) || codec == Some(Av1) then n == 1 || (n == 0 && form != CanonicalForm)
    else n == UnencryptedBytes(codec, kind)
  }

  // A job as a sender of some release seals it, without the trailer.
  function Released(env: Env, job: Job, form: AadForm): seq<byte>
    requires Sealable(job.key, job.ctr)
  {
    job.prefix + Sealed(env.aead, job.key, job.ctr, job.body, job.prefix, form)
  }

  // Its text opens only as it was sealed, and behind none of these other cuts
  // of the bytes does any key open anything.
  ghost predicate Unforgeable(env: Env, cuts: set<nat>, job: Job, form: AadForm)
    requires Sealable(job.key, job.ctr)
  {
    && env.aead.OpensOnlyAs(job.key.raw, Iv(job.key.salt, job.ctr),
                            Aad(job.prefix, Serialized(job.key.kid, job.ctr), form), job.body)
    && OnlyOneCut(env, cuts, Released(env, job, form), |job.prefix|)
  }

  ghost predicate OnlyOneCut(env: Env, cuts: set<nat>, payload: seq<byte>, n: nat) {
    forall m: nat, key: SenderKey, form: AadForm | m in cuts && m != n ::
      Decrypt(env.aead, DropUpTo(payload, m), Some(key), TakeUpTo(payload, m), form).Err?
  }

  // The receiver reaches the sealing key after this many steps, and no sooner.
  ghost predicate Reaches(env: Env, s: State, job: Job, ahead: nat) {
    var key := KeyFor(s.keys, job.epoch, job.peer);
    && key.Some? && key.value.salt == job.key.salt
    && ahead <= s.conf.ratchetWindowSize && (ahead == 0 || Derivable(job.peer))
    && Ratcheted(env, key.value, job.peer, ahead).raw == job.key.raw
    && forall j | 0 <= j < ahead :: Ratcheted(env, key.value, job.peer, j).raw != job.key.raw
  }

  // What the receiver has cached for whoever the bytes at the codec's own cut
  // name.
  function CachedAt(s: State, kind: Option<FrameKind>, payload: seq<byte>): Option<FormatGuess> {
    CachedFormat(s, payload, Min(UnencryptedBytes(s.conf.codec, kind), |payload|))
  }

  // The cuts it may try on these bytes.
  function Cuts(s: State, kind: Option<FrameKind>, payload: seq<byte>): set<nat> {
    var cached := CachedAt(s, kind, payload);
    (set c | c in FormatCandidates(s.conf.codec, kind) :: c.prefixLen) + if cached.Some? then {cached.value.prefixLen} else {}
  }

  // With a layout cached, that one alone is heard. With none, every promised
  // one of a sender at the cached key; a sender ahead of it only in the layout
  // that this release emits.
  predicate InLayout(s: State, kind: Option<FrameKind>, cached: Option<FormatGuess>, n: nat, form: AadForm, ahead: nat) {
    match cached
    case Some(guess) => guess.prefixLen == n && SameData(n, guess.aadForm, form)
    case None =>
      if ahead == 0 then Promised(s.conf.codec, kind, n, form)
      else n == UnencryptedBytes(s.conf.codec, kind) && SameData(n, HeaderForm, form)
  }

  // ------------------------------------------------------------- one attempt

  lemma DataTellFormsApart(prefix: seq<byte>, header: seq<byte>, a: AadForm, b: AadForm)
    ensures Aad(prefix, header, a) == Aad(prefix, header, b) <==> SameData(|prefix|, a, b)
  {
    assert |Be16(|prefix|)| == 2;
    if prefix == [] { assert [] + header == header; }
  }

  lemma ReleasedHeader(env: Env, codec: WireCodec, job: Job, form: AadForm)
    requires env.aead.Lawful() && NamedBy(codec, job) && Sealable(job.key, job.ctr)
    ensures var payload, n := Released(env, job, form), |job.prefix|;
      var header := HeaderOf(codec, DropUpTo(payload, n));
      && TakeUpTo(payload, n) == job.prefix && |payload| > n && header.Ok?
      && header.value.epoch == job.epoch && header.value.peer == job.peer && header.value.ctr == job.ctr
      && |DropUpTo(payload, n)| >= header.value.bodyOffset + AEAD_TAG_BYTES
  {
    hide Parse, Serialized, Iv, Aad, KidCodec.Encode, KidCodec.Decode, Decrypt;
    var buf := Sealed(env.aead, job.key, job.ctr, job.body, job.prefix, form);
    DecryptUndoesSeal(env.aead, job.key, job.ctr, job.body, job.prefix, form);
    CodecRoundTrip(codec, job.epoch, job.peer);
    SplitAtPrefix(job.prefix, buf);
    assert |buf| >= |Serialized(job.key.kid, job.ctr)| + AEAD_TAG_BYTES;
  }

  // One attempt opens the bytes exactly at the sender's cut, form and key.
  lemma AttemptIsExact(env: Env, cuts: set<nat>, job: Job, form: AadForm, key: SenderKey, m: nat, g: AadForm)
    requires env.aead.Lawful() && Sealable(job.key, job.ctr) && Unforgeable(env, cuts, job, form)
    requires key.salt == job.key.salt && (m == |job.prefix| || m in cuts)
    ensures var payload := Released(env, job, form);
      var r := Decrypt(env.aead, DropUpTo(payload, m), Some(key), TakeUpTo(payload, m), g);
      && (r.Ok? <==> m == |job.prefix| && SameData(m, g, form) && key.raw == job.key.raw)
      && (r.Ok? ==> r.value == job.body)
  {
    hide Parse, Serialized, Iv, Aad, OnlyOneCut, SameData;
    var payload, header := Released(env, job, form), Serialized(job.key.kid, job.ctr);
    var buf := Sealed(env.aead, job.key, job.ctr, job.body, job.prefix, form);
    SplitAtPrefix(job.prefix, buf);
    if m == |job.prefix| {
      DecryptUndoesSeal(env.aead, job.key, job.ctr, job.body, job.prefix, form);
      DataTellFormsApart(job.prefix, header, g, form);
      var text := env.aead.seal(job.key.raw, Iv(job.key.salt, job.ctr), Aad(job.prefix, header, form), job.body);
      assert buf[..|header|] == header && buf[|header|..] == text;
    } else {
      assert OnlyOneCut(env, cuts, payload, |job.prefix|);
      OneCut(env, cuts, payload, |job.prefix|, m, key, g);
    }
  }

  lemma OneCut(env: Env, cuts: set<nat>, payload: seq<byte>, n: nat, m: nat, key: SenderKey, form: AadForm)
    requires OnlyOneCut(env, cuts, payload, n) && m in cuts && m != n
    ensures Decrypt(env.aead, DropUpTo(payload, m), Some(key), TakeUpTo(payload, m), form).Err?
  {
  }

  // ---------------------------------------------------------------- probing

  lemma CandidateIsExact(env: Env, s: State, cuts: set<nat>, job: Job, form: AadForm, c: Candidate)
    requires env.aead.Lawful() && NamedBy(s.conf.kidCodec, job) && Sealable(job.key, job.ctr)
    requires Unforgeable(env, cuts, job, form)
    requires Reaches(env, s, job, 0) && c.prefixLen in cuts
    ensures var r := TryCandidate(env, s, Released(env, job, form), c);
      r == if c.prefixLen == |job.prefix| && SameData(|job.prefix|, c.aadForm, form) then Some(job.body) else None
  {
    hide HeaderOf, Decrypt, Released, Unforgeable, SameData, KidCodec.Encode;
    var payload, n := Released(env, job, form), |job.prefix|;
    ReleasedHeader(env, s.conf.kidCodec, job, form);
    var key := KeyFor(s.keys, job.epoch, job.peer).value;
    FrameLaws.NoSteps(env, key, job.peer);
    AttemptIsExact(env, cuts, job, form, key, c.prefixLen, c.aadForm);
    if c.prefixLen != n {
      var header := HeaderOf(s.conf.kidCodec, DropUpTo(payload, c.prefixLen));
      if header.Ok? && KeyFor(s.keys, header.value.epoch, header.value.peer).Some? {
        OtherCut(env, cuts, job, form, KeyFor(s.keys, header.value.epoch, header.value.peer).value, c.prefixLen, c.aadForm);
      }
    }
  }

  lemma OtherCut(env: Env, cuts: set<nat>, job: Job, form: AadForm, key: SenderKey, m: nat, g: AadForm)
    requires Sealable(job.key, job.ctr) && Unforgeable(env, cuts, job, form) && m in cuts && m != |job.prefix|
    ensures var payload := Released(env, job, form);
      Decrypt(env.aead, DropUpTo(payload, m), Some(key), TakeUpTo(payload, m), g).Err?
  {
    hide Decrypt, Released;
  }

  // A sender ahead of the cached key opens under no candidate.
  lemma NoCandidateAhead(env: Env, s: State, cuts: set<nat>, job: Job, form: AadForm, ahead: nat, c: Candidate)
    requires env.aead.Lawful() && NamedBy(s.conf.kidCodec, job) && Sealable(job.key, job.ctr)
    requires Unforgeable(env, cuts, job, form)
    requires Reaches(env, s, job, ahead) && ahead > 0 && c.prefixLen in cuts
    ensures TryCandidate(env, s, Released(env, job, form), c).None?
  {
    hide HeaderOf, Decrypt, Released, Unforgeable, SameData, KidCodec.Encode, Ratcheted;
    var payload, n := Released(env, job, form), |job.prefix|;
    ReleasedHeader(env, s.conf.kidCodec, job, form);
    var key := KeyFor(s.keys, job.epoch, job.peer).value;
    FrameLaws.NoSteps(env, key, job.peer);
    assert Ratcheted(env, key, job.peer, 0).raw != job.key.raw;
    AttemptIsExact(env, cuts, job, form, key, c.prefixLen, c.aadForm);
    if c.prefixLen != n {
      var header := HeaderOf(s.conf.kidCodec, DropUpTo(payload, c.prefixLen));
      if header.Ok? && KeyFor(s.keys, header.value.epoch, header.value.peer).Some? {
        OtherCut(env, cuts, job, form, KeyFor(s.keys, header.value.epoch, header.value.peer).value, c.prefixLen, c.aadForm);
      }
    }
  }

  predicate Matches(n: nat, form: AadForm, c: Candidate) { c.prefixLen == n && SameData(n, c.aadForm, form) }

  lemma {:induction false} ProbeIsExact(env: Env, s: State, cuts: set<nat>, job: Job, form: AadForm, candidates: seq<Candidate>)
    requires env.aead.Lawful() && NamedBy(s.conf.kidCodec, job) && Sealable(job.key, job.ctr)
    requires Unforgeable(env, cuts, job, form)
    requires Reaches(env, s, job, 0) && forall c | c in candidates :: c.prefixLen in cuts
    ensures var layout := ProbeFormat(env, s, Released(env, job, form), candidates);
      && (layout.Some? <==> exists c | c in candidates :: Matches(|job.prefix|, form, c))
      && (layout.Some? ==>
            && layout.value.prefixLen == |job.prefix| && SameData(|job.prefix|, layout.value.aadForm, form)
            && layout.value.probed == Some(job.body))
  {
    hide TryCandidate, Released, Unforgeable, Reaches, SameData, KidCodec.Encode;
    if candidates != [] {
      CandidateIsExact(env, s, cuts, job, form, candidates[0]);
      ProbeIsExact(env, s, cuts, job, form, candidates[1..]);
      if c :| c in candidates && Matches(|job.prefix|, form, c) { assert c == candidates[0] || c in candidates[1..]; }
      if Matches(|job.prefix|, form, candidates[0]) { assert candidates[0] in candidates; }
    }
  }

  lemma {:induction false} ProbeFailsAhead(env: Env, s: State, cuts: set<nat>, job: Job, form: AadForm, ahead: nat, candidates: seq<Candidate>)
    requires env.aead.Lawful() && NamedBy(s.conf.kidCodec, job) && Sealable(job.key, job.ctr)
    requires Unforgeable(env, cuts, job, form)
    requires Reaches(env, s, job, ahead) && ahead > 0 && forall c | c in candidates :: c.prefixLen in cuts
    ensures ProbeFormat(env, s, Released(env, job, form), candidates).None?
  {
    hide TryCandidate, Released, Unforgeable, Reaches, KidCodec.Encode;
    if candidates != [] {
      NoCandidateAhead(env, s, cuts, job, form, ahead, candidates[0]);
      ProbeFailsAhead(env, s, cuts, job, form, ahead, candidates[1..]);
    }
  }

  // The candidates are the promised layouts, each once up to forms that give
  // the same data, and the layout that this release emits first.
  lemma CandidatesArePromised(codec: Option<Codec>, kind: Option<FrameKind>, n: nat, form: AadForm)
    ensures var candidates := FormatCandidates(codec, kind);
      && (Promised(codec, kind, n, form) <==> exists c | c in candidates :: Matches(n, form, c))
      && candidates != [] && candidates[0] == Candidate(UnencryptedBytes(codec, kind), HeaderForm)
      && forall i, j | 0 <= i < j < |candidates| :: !Matches(candidates[i].prefixLen, candidates[i].aadForm, candidates[j])
  {
    var candidates := FormatCandidates(codec, kind);
    if Promised(codec, kind, n, form) {
      var shown := if n == 0 && form == PrefixForm then HeaderForm else form;
      assert Candidate(n, shown) in candidates && Matches(n, form, Candidate(n, shown));
    }
  }

  // The order in which layouts are tried: the cut of the codec before any
  // other, and there the form of this release, then canonical, then prefix.
  function Turn(own: nat, c: Candidate): nat {
    if c.prefixLen == own
    then match c.aadForm case HeaderForm => 0 case CanonicalForm => 1 case PrefixForm => 2
    else match c.aadForm case CanonicalForm => 3 case PrefixForm => 4 case HeaderForm => 5
  }

  ghost predicate InTurn(own: nat, candidates: seq<Candidate>) {
    forall i, j | 0 <= i < j < |candidates| :: Turn(own, candidates[i]) < Turn(own, candidates[j])
  }

  lemma {:induction false} ProbeIsFirst(env: Env, s: State, payload: seq<byte>, own: nat, candidates: seq<Candidate>)
    requires InTurn(own, candidates)
    ensures var layout := ProbeFormat(env, s, payload, candidates);
      && (layout.None? <==> forall c | c in candidates :: TryCandidate(env, s, payload, c).None?)
      && (layout.Some? ==> forall c | c in candidates && TryCandidate(env, s, payload, c).Some? ::
            Turn(own, Candidate(layout.value.prefixLen, layout.value.aadForm)) <= Turn(own, c))
  {
    hide TryCandidate, Turn;
    if candidates != [] {
      var rest := candidates[1..];
      assert InTurn(own, rest) by { assert forall i | 0 <= i < |rest| :: rest[i] == candidates[i + 1]; }
      ProbeIsFirst(env, s, payload, own, rest);
      forall c | c in rest ensures Turn(own, candidates[0]) < Turn(own, c) {
        var i :| 0 <= i < |rest| && rest[i] == c;
        assert candidates[i + 1] == c;
      }
      assert forall c :: c in candidates <==> c == candidates[0] || c in rest;
    }
  }

  // What probing finds opens the frame, and no promised layout whose turn is
  // earlier does.
  lemma ProbedInTurn(env: Env, s: State, kind: Option<FrameKind>, payload: seq<byte>)
    ensures var candidates, own := FormatCandidates(s.conf.codec, kind), UnencryptedBytes(s.conf.codec, kind);
      var layout := ProbeFormat(env, s, payload, candidates);
      && (layout.None? <==> forall c | c in candidates :: TryCandidate(env, s, payload, c).None?)
      && (layout.Some? ==>
           && var found := Candidate(layout.value.prefixLen, layout.value.aadForm);
           && found in candidates && TryCandidate(env, s, payload, found) == layout.value.probed
           && forall c | c in candidates && Turn(own, c) < Turn(own, found) :: TryCandidate(env, s, payload, c).None?)
  {
    hide TryCandidate;
    var candidates, own := FormatCandidates(s.conf.codec, kind), UnencryptedBytes(s.conf.codec, kind);
    ProbedOpens(env, s, payload, candidates);
    ProbedIsCandidate(env, s, payload, candidates);
    ProbeIsFirst(env, s, payload, own, candidates);
  }

  // ------------------------------------------------------------- resolution

  // A frame of some release whose key is within reach.
  ghost predicate SentTo(env: Env, s: State, kind: Option<FrameKind>, job: Job, form: AadForm, ahead: nat) {
    && env.aead.Lawful() && NamedBy(s.conf.kidCodec, job) && Sealable(job.key, job.ctr)
    && Unforgeable(env, Cuts(s, kind, Released(env, job, form)), job, form)
    && Reaches(env, s, job, ahead)
  }

  // What is resolved to is a cut that was tried, or leaves nothing.
  lemma ResolvedCut(env: Env, s: State, kind: Option<FrameKind>, payload: seq<byte>)
    ensures var n := Resolve(env, s, kind, payload).prefixLen; n in Cuts(s, kind, payload) || DropUpTo(payload, n) == []
  {
    hide HeaderOf, ProbeFormat, FormatCandidates;
    ProbedIsCandidate(env, s, payload, FormatCandidates(s.conf.codec, kind));
    FirstCandidate(s.conf.codec, kind);
    assert FormatCandidates(s.conf.codec, kind)[0] in FormatCandidates(s.conf.codec, kind);
  }

  predicate AsSent(layout: Layout, n: nat, form: AadForm) { layout.prefixLen == n && SameData(n, layout.aadForm, form) }

  lemma ResolveIsExact(env: Env, s: State, kind: Option<FrameKind>, job: Job, form: AadForm, ahead: nat)
    requires SentTo(env, s, kind, job, form, ahead)
    ensures var payload, n := Released(env, job, form), |job.prefix|;
      var layout := Resolve(env, s, kind, payload);
      (if InLayout(s, kind, CachedAt(s, kind, payload), n, form, ahead) then AsSent(layout, n, form)
       else layout.probed.None? && !AsSent(layout, n, form))
  {
    hide HeaderOf, ProbeFormat, Released, Unforgeable, Reaches, SameData, KidCodec.Encode, FormatCandidates, Promised,
         UnencryptedBytes;
    var payload, n := Released(env, job, form), |job.prefix|;
    var cuts := Cuts(s, kind, payload);
    ReleasedHeader(env, s.conf.kidCodec, job, form);
    var candidates := FormatCandidates(s.conf.codec, kind);
    CandidatesArePromised(s.conf.codec, kind, n, form);
    if ahead == 0 {
      ProbeIsExact(env, s, cuts, job, form, candidates);
      assert candidates[0] in candidates;
    } else {
      ProbeFailsAhead(env, s, cuts, job, form, ahead, candidates);
    }
  }

  lemma EmptyHasNoHeader(codec: WireCodec)
    ensures HeaderOf(codec, []).Err?
  {
  }

  // At the sender's own layout the window opens the frame; at another, nothing.
  lemma OpensInLayout(env: Env, s: State, kind: Option<FrameKind>, job: Job, form: AadForm, ahead: nat, h: FrameHeader)
    requires SentTo(env, s, kind, job, form, ahead)
    requires HeaderIn(env, s, kind, Released(env, job, form)) == Ok(h)
    ensures var payload := Released(env, job, form);
      Opens(env, s, kind, payload, h) <==> AsSent(Resolve(env, s, kind, payload), |job.prefix|, form)
  {
    hide HeaderOf, Resolve, Released, Unforgeable, SameData, KidCodec.Encode, Decrypt, Ratcheted, Cuts;
    assert HeaderOf(s.conf.kidCodec, []).Err? by { EmptyHasNoHeader(s.conf.kidCodec); }
    var payload, n := Released(env, job, form), |job.prefix|;
    var cuts := Cuts(s, kind, payload);
    var layout := Resolve(env, s, kind, payload);
    ReleasedHeader(env, s.conf.kidCodec, job, form);
    ResolvedCut(env, s, kind, payload);
    if layout.prefixLen == n {
      var key := KeyFor(s.keys, job.epoch, job.peer).value;
      forall j: nat
        ensures OpensAt(env, Inside(env, s, kind, payload), key, h.peer, Clear(env, s, kind, payload), layout.aadForm, j)
           <==> SameData(n, layout.aadForm, form) && Ratcheted(env, key, job.peer, j).raw == job.key.raw
      {
        RatchetedKeepsSalt(env, key, job.peer, j);
        AttemptIsExact(env, cuts, job, form, Ratcheted(env, key, job.peer, j), n, layout.aadForm);
      }
      if SameData(n, layout.aadForm, form) {
        assert OpensAt(env, Inside(env, s, kind, payload), key, h.peer, Clear(env, s, kind, payload), layout.aadForm, ahead);
      }
    } else if KeyFor(s.keys, h.epoch, h.peer).Some? {
      var key := KeyFor(s.keys, h.epoch, h.peer).value;
      forall j: nat | j <= s.conf.ratchetWindowSize
        ensures !OpensAt(env, Inside(env, s, kind, payload), key, h.peer, Clear(env, s, kind, payload), layout.aadForm, j)
      {
        OtherCut(env, cuts, job, form, Ratcheted(env, key, h.peer, j), layout.prefixLen, layout.aadForm);
      }
    }
  }

  // What a decode delivers of such a frame is what was sent, at its step.
  lemma DeliveredAsSent(env: Env, s: State, kind: Option<FrameKind>, job: Job, form: AadForm, ahead: nat, frame: Frame, now: real)
    requires SentTo(env, s, kind, job, form, ahead) && frame.kind == kind && Payload(s, frame.data) == Some(Released(env, job, form))
    requires AsSent(Resolve(env, s, kind, Released(env, job, form)), |job.prefix|, form)
    requires DecodeFrame(env, s, frame, true, now).1.Delivered?
    requires HeaderIn(env, s, kind, Released(env, job, form)) == Ok(DecodeFrame(env, s, frame, true, now).1.header)
    ensures var r := DecodeFrame(env, s, frame, true, now).1;
      r.data == job.prefix + job.body && r.steps == ahead
  {
    hide HeaderOf, Resolve, Released, Unforgeable, SameData, KidCodec.Encode, Decrypt, Ratcheted, DecodeFrame, Payload;
    var payload, n := Released(env, job, form), |job.prefix|;
    var cuts := Cuts(s, kind, payload);
    var layout := Resolve(env, s, kind, payload);
    ReleasedHeader(env, s.conf.kidCodec, job, form);
    var plain := DeliveredIsAuthentic(env, s, frame, true, now);
    var key := KeyFor(s.keys, job.epoch, job.peer).value;
    RatchetedKeepsSalt(env, key, job.peer, plain.steps);
    AttemptIsExact(env, cuts, job, form, Ratcheted(env, key, job.peer, plain.steps), n, layout.aadForm);
    RatchetedKeepsSalt(env, key, job.peer, ahead);
    AttemptIsExact(env, cuts, job, form, Ratcheted(env, key, job.peer, ahead), n, layout.aadForm);
    assert OpensAt(env, DropUpTo(payload, n), key, job.peer, TakeUpTo(payload, n), layout.aadForm, ahead);
  }

  // ------------------------------------------------------------ the theorem

  // A frame of any release, under a key within reach, is heard exactly if it
  // is in the layout cached for its sender, or, with none cached, in a promised
  // one; what comes back is what was sent, and its layout is then cached.
  lemma HeardInLayout(env: Env, s: State, kind: Option<FrameKind>, job: Job, form: AadForm, ahead: nat, now: real)
    requires SentTo(env, s, kind, job, form, ahead) && GatesOpen(s, job.epoch, job.peer, job.ctr)
    ensures var payload, n := Released(env, job, form), |job.prefix|;
      var (s', r) := DecodeFrame(env, s, Frame(payload + TrailerOf(s.conf), kind), true, now);
      && (r.Delivered? <==> InLayout(s, kind, CachedAt(s, kind, payload), n, form, ahead))
      && (r.Delivered? ==>
            && r.data == job.prefix + job.body && r.steps == ahead
            && r.header.epoch == job.epoch && r.header.peer == job.peer && r.header.ctr == job.ctr
            && var cached := Lookup(s'.recv.formatCache, job.epoch, job.peer);
               cached.Some? && cached.value.prefixLen == n && SameData(n, cached.value.aadForm, form))
  {
    hide Opens, Resolve, Released, Unforgeable, SameData, KidCodec.Encode, DecodeFrame, Payload, Reaches, InLayout, HeaderOf,
         Lookup, Fresh, Window, IsKeyInvalid, TellsOnKey, CachedFormat;
    var payload, n := Released(env, job, form), |job.prefix|;
    var cuts := Cuts(s, kind, payload);
    var frame := Frame(payload + TrailerOf(s.conf), kind);
    TrailerStrips(s, payload);
    ReleasedHeader(env, s.conf.kidCodec, job, form);
    ResolveIsExact(env, s, kind, job, form, ahead);
    DecodeOutcome(env, s, frame, true, now);
    DecodeFormats(env, s, frame, true, now);
    var header := HeaderIn(env, s, kind, payload);
    if header.Ok? { OpensInLayout(env, s, kind, job, form, ahead, header.value); }
    if DecodeFrame(env, s, frame, true, now).1.Delivered? {
      DeliveredAsSent(env, s, kind, job, form, ahead, frame, now);
    }
  }

  // ----------------------------------------------------- streams of one sender

  // Every cut that any codec makes.
  const Widths: set<nat> := {0, 1, 3, 10}

  lemma WireIsReleased(env: Env, job: Job)
    requires Sealable(job.key, job.ctr)
    ensures Wire(env, job) == Released(env, job, HeaderForm) + job.trailer
  {
    hide Serialized, Iv;
  }

  lemma FewerCuts(env: Env, s: State, kind: Option<FrameKind>, job: Job)
    requires Sealable(job.key, job.ctr) && Unforgeable(env, Widths, job, HeaderForm)
    requires var cached := CachedAt(s, kind, Released(env, job, HeaderForm)); cached.Some? ==> cached.value.prefixLen in Widths
    ensures Unforgeable(env, Cuts(s, kind, Released(env, job, HeaderForm)), job, HeaderForm)
  {
    hide Decrypt, Released, CachedAt, Serialized, Iv, Aad;
    assert Cuts(s, kind, Released(env, job, HeaderForm)) <= Widths;
  }

  // A frame of another clear prefix than the cached one is lost.
  lemma OtherPrefixIsLost(env: Env, s: State, c: Config, epoch: int, peer: int, key: SenderKey, ctr: nat, n: nat,
                          frame: Frame, job: Job, now: real)
    requires env.aead.Lawful() && n in Widths
    requires Listens(s, epoch, peer, key, ctr, n) && IsJob(job, c, epoch, peer, key, ctr, frame) && SameFormats(c, s.conf)
    requires Lookup(s.recv.formatCache, epoch, peer) == Some(FormatGuess(n, HeaderForm))
    requires UnencryptedBytes(c.codec, frame.kind) != n && |frame.data| >= UnencryptedBytes(c.codec, frame.kind)
    requires Unforgeable(env, Widths, job, HeaderForm)
    ensures !Step(env, s, Decode(Frame(Wire(env, job), frame.kind), true, now)).1.Delivered?
  {
    hide Released, Unforgeable, DecodeFrame, KidCodec.Encode, HeaderOf, Ratcheted, Wire, SameData, InLayout;
    var payload := Released(env, job, HeaderForm);
    ReleasedHeader(env, s.conf.kidCodec, job, HeaderForm);
    assert CachedAt(s, frame.kind, payload) == Some(FormatGuess(n, HeaderForm));
    FewerCuts(env, s, frame.kind, job);
    FrameLaws.NoSteps(env, KeyFor(s.keys, epoch, peer).value, peer);
    HeardInLayout(env, s, frame.kind, job, HeaderForm, 0, now);
    WireIsReleased(env, job);
    AnotherPrefix(s, frame.kind, n, |job.prefix|);
  }

  lemma AnotherPrefix(s: State, kind: Option<FrameKind>, n: nat, m: nat)
    requires m != n
    ensures !InLayout(s, kind, Some(FormatGuess(n, HeaderForm)), m, HeaderForm, 0)
  {
  }

  // The frames that show another prefix than this have texts that only their
  // own layout opens.
  ghost predicate OthersUnforgeable(env: Env, c: Config, jobs: seq<Job>, frames: seq<Frame>, n: nat) {
    |jobs| == |frames| && forall i | 0 <= i < |frames| && UnencryptedBytes(c.codec, frames[i].kind) != n ::
      Sealable(jobs[i].key, jobs[i].ctr) && Unforgeable(env, Widths, jobs[i], HeaderForm)
  }

  lemma FirstOther(env: Env, c: Config, jobs: seq<Job>, frames: seq<Frame>, n: nat)
    requires OthersUnforgeable(env, c, jobs, frames, n) && frames != []
    ensures |jobs| == |frames| && OthersUnforgeable(env, c, jobs[1..], frames[1..], n)
    ensures UnencryptedBytes(c.codec, frames[0].kind) != n ==>
      Sealable(jobs[0].key, jobs[0].ctr) && Unforgeable(env, Widths, jobs[0], HeaderForm)
  {
    hide Unforgeable, Sealable;
  }

  lemma NoLayouts(c: Config, n: nat)
    ensures OneLayout(c, [], n)
  {
  }

  lemma LayoutsCons(c: Config, frames: seq<Frame>, n: nat)
    requires frames != [] && OneLayout(c, frames[1..], n)
    requires UnencryptedBytes(c.codec, frames[0].kind) == n <= |frames[0].data|
    ensures OneLayout(c, frames, n)
  {
    hide UnencryptedBytes;
    assert frames == [frames[0]] + frames[1..];
  }

  // The jobs come back as the frames they were made of.
  ghost predicate ComeBack(env: Env, s: State, frames: seq<Frame>, jobs: seq<Job>, clock: seq<real>) {
    && |jobs| == |frames| == |clock| && (forall i | 0 <= i < |jobs| :: Sealable(jobs[i].key, jobs[i].ctr))
    && AllBack(Steps(env, s, Arrivals(Wires(env, jobs, frames), clock)).1, frames)
  }

  lemma FirstComesBack(env: Env, s: State, frames: seq<Frame>, jobs: seq<Job>, clock: seq<real>)
    requires ComeBack(env, s, frames, jobs, clock) && frames != []
    ensures |jobs| == |frames| == |clock| && Sealable(jobs[0].key, jobs[0].ctr)
    ensures var (s', r) := Step(env, s, Decode(Frame(Wire(env, jobs[0]), frames[0].kind), true, clock[0]));
      r.Delivered? && ComeBack(env, s', frames[1..], jobs[1..], clock[1..])
  {
    hide Step, Steps, Wire, Wires, Arrivals, AllBack, Sealable;
    var evs := Arrivals(Wires(env, jobs, frames), clock);
    FirstArrival(env, jobs, frames, clock);
    var (s', r) := Step(env, s, Decode(Frame(Wire(env, jobs[0]), frames[0].kind), true, clock[0]));
    StepsCons(env, s, evs);
    RestIsBack(r, Steps(env, s', evs[1..]).1, frames);
  }

  lemma {:induction false} OnlyOneLayoutIsBack(env: Env, s: State, c: Config, epoch: int, peer: int, key: SenderKey, ctr: nat,
                                               n: nat, frames: seq<Frame>, jobs: seq<Job>, clock: seq<real>)
    requires env.aead.Lawful() && n in Widths
    requires Listens(s, epoch, peer, key, ctr, n) && AreJobs(jobs, c, epoch, peer, key, ctr, frames) && SameFormats(c, s.conf)
    requires forall f | f in frames :: |f.data| >= UnencryptedBytes(c.codec, f.kind)
    requires frames == [] || UnencryptedBytes(c.codec, frames[0].kind) == n
          || Lookup(s.recv.formatCache, epoch, peer) == Some(FormatGuess(n, HeaderForm))
    requires OthersUnforgeable(env, c, jobs, frames, n) && ComeBack(env, s, frames, jobs, clock)
    ensures OneLayout(c, frames, n)
    decreases |frames|
  {
    hide Step, Listens, IsJob, Wire, SameFormats, AreJobs, Sealable, Unforgeable, UnencryptedBytes, OthersUnforgeable,
         OneLayout, Lookup, ComeBack;
    if frames == [] {
      NoLayouts(c, n);
    } else {
      FirstJob(jobs, c, epoch, peer, key, ctr, frames);
      FirstComesBack(env, s, frames, jobs, clock);
      FirstOther(env, c, jobs, frames, n);
      assert frames[0] in frames && forall f | f in frames[1..] :: f in frames;
      if UnencryptedBytes(c.codec, frames[0].kind) != n {
        OtherPrefixIsLost(env, s, c, epoch, peer, key, ctr, n, frames[0], jobs[0], clock[0]);
        assert false;
      } else {
        OneArrival(env, s, c, epoch, peer, key, ctr, n, frames[0], jobs[0], clock[0]);
        var s' := Step(env, s, Decode(Frame(Wire(env, jobs[0]), frames[0].kind), true, clock[0])).0;
        OnlyOneLayoutIsBack(env, s', c, epoch, peer, key, ctr + 1, n, frames[1..], jobs[1..], clock[1..]);
        LayoutsCons(c, frames, n);
      }
    }
  }

  lemma RestIsBack(r: Report, rs: seq<Report>, frames: seq<Frame>)
    requires frames != [] && AllBack([r] + rs, frames)
    ensures r.Delivered? && AllBack(rs, frames[1..])
  {
    assert ([r] + rs)[0] == r && forall i | 0 <= i < |rs| :: ([r] + rs)[i + 1] == rs[i];
  }

  // The exact condition for streams: with nothing cached for the sender, all
  // frames come back if and only if all show as long a clear prefix as the
  // first. The layout of the first is cached, and no frame of another is heard.
  lemma StreamIsDeliveredIff(env: Env, sender: State, receiver: State, epoch: int, peer: int, key: SenderKey, ctr: nat, n: nat,
                             frames: seq<Frame>, departed: seq<real>, arrived: seq<real>)
    requires env.aead.Lawful() && |departed| == |frames| == |arrived| && ctr + |frames| <= MAX_CTR + 1
    requires Sends(sender, epoch, peer, key, ctr) && Listens(receiver, epoch, peer, key, ctr, n)
    requires SameFormats(sender.conf, receiver.conf)
    requires frames != [] && UnencryptedBytes(sender.conf.codec, frames[0].kind) == n
    requires forall f | f in frames :: |f.data| >= UnencryptedBytes(sender.conf.codec, f.kind)
    requires OthersUnforgeable(env, sender.conf, SendAll(env, sender, frames, departed), frames, n)
    ensures var jobs := SendAll(env, sender, frames, departed);
      && |jobs| == |frames| && (forall i | 0 <= i < |jobs| :: Sealable(jobs[i].key, jobs[i].ctr))
      && (AllBack(Steps(env, receiver, Arrivals(Wires(env, jobs, frames), arrived)).1, frames)
          <==> forall f | f in frames :: UnencryptedBytes(sender.conf.codec, f.kind) == n)
  {
    hide Step, Steps, Sends, Listens, SameFormats, SendAll, AllBack, AreJobs, Wires, Arrivals, OthersUnforgeable, Sealable,
         UnencryptedBytes;
    AllDepart(env, sender, epoch, peer, key, ctr, frames, departed);
    var jobs := SendAll(env, sender, frames, departed);
    JobsAreSealable(jobs, sender.conf, epoch, peer, key, ctr, frames);
    if forall f | f in frames :: UnencryptedBytes(sender.conf.codec, f.kind) == n {
      StreamIsDelivered(env, sender, receiver, epoch, peer, key, ctr, n, frames, departed, arrived);
    } else if AllBack(Steps(env, receiver, Arrivals(Wires(env, jobs, frames), arrived)).1, frames) {
      OnlyOneLayoutIsBack(env, receiver, sender.conf, epoch, peer, key, ctr, n, frames, jobs, arrived);
      assert false;
    }
  }

  // -------------------------------------------------- the condition is needed

  lemma MarkedOpens(key: RawKey, nonce: seq<byte>, data: seq<byte>, text: seq<byte>,
                    k: RawKey, n: seq<byte>, a: seq<byte>, c: seq<byte>)
    requires |c| >= AEAD_TAG_BYTES && c[|c| - AEAD_TAG_BYTES..] == Mark
    requires MarkingAead(key, nonce, data, text).open(k, n, a, c).Some?
    ensures a == data && c == text + Mark
  {
  }

  // Released with the second tag at its end.
  lemma MarkedEnd(env: Env, job: Job)
    requires Sealable(job.key, job.ctr)
    requires env.aead == MarkingAead(job.key.raw, Iv(job.key.salt, job.ctr), Serialized(job.key.kid, job.ctr), job.body)
    ensures var header, payload := Serialized(job.key.kid, job.ctr), Released(env, job, HeaderForm);
      && |payload| == |job.prefix| + |header| + |job.body| + AEAD_TAG_BYTES
      && payload[|payload| - AEAD_TAG_BYTES..] == Mark
  {
    hide Serialized, Iv;
    var header, payload := Serialized(job.key.kid, job.ctr), Released(env, job, HeaderForm);
    assert payload == job.prefix + (header + (job.body + Mark));
  }

  // What a key opens behind another cut of bytes that end in the second tag.
  lemma MarkedOpensOnce(env: Env, job: Job, m: nat, key: SenderKey, form: AadForm)
    requires Sealable(job.key, job.ctr) && job.prefix != [] && m != |job.prefix|
    requires env.aead == MarkingAead(job.key.raw, Iv(job.key.salt, job.ctr), Serialized(job.key.kid, job.ctr), job.body)
    ensures var payload := Released(env, job, HeaderForm);
      Decrypt(env.aead, DropUpTo(payload, m), Some(key), TakeUpTo(payload, m), form).Err?
  {
    hide Parse, Serialized, Iv, Aad, Released, MarkingAead;
    var header, payload := Serialized(job.key.kid, job.ctr), Released(env, job, HeaderForm);
    var buf := DropUpTo(payload, m);
    MarkedEnd(env, job);
    if Parse(buf).Ok? {
      ParseBounds(buf);
      var off := Parse(buf).value.bodyOffset;
      if |buf| >= off + AEAD_TAG_BYTES && |key.salt| == IV_BYTES {
        var text, data := buf[off..], Aad(TakeUpTo(payload, m), buf[..off], form);
        assert text[|text| - AEAD_TAG_BYTES..] == Mark;
        if env.aead.open(key.raw, Iv(key.salt, Parse(buf).value.ctr), data, text).Some? {
          MarkedOpens(job.key.raw, Iv(job.key.salt, job.ctr), header, job.body,
                      key.raw, Iv(key.salt, Parse(buf).value.ctr), data, text);
          DataOfOtherCut(payload, m, off, |job.prefix|, |header|, form);
          assert false;
        }
      }
    }
  }

  // A cut elsewhere with the header ending at the same place has other data.
  lemma DataOfOtherCut(payload: seq<byte>, m: nat, off: nat, n: nat, hl: nat, form: AadForm)
    requires m + off == n + hl <= |payload| && m != n && n > 0
    ensures |Aad(TakeUpTo(payload, m), payload[m..][..off], form)| != hl
  {
    assert |Be16(m)| == 2;
  }

  lemma UnforgeableHasModel(ratchet: (RawKey, int) -> RawKey, cuts: set<nat>, job: Job) returns (env: Env)
    requires Sealable(job.key, job.ctr) && job.prefix != []
    ensures env.aead.Lawful() && Unforgeable(env, cuts, job, HeaderForm)
  {
    hide Parse, Serialized, Iv, Decrypt, Released;
    env := Env(MarkingAead(job.key.raw, Iv(job.key.salt, job.ctr), Serialized(job.key.kid, job.ctr), job.body), ratchet);
    forall m: nat, key: SenderKey, form: AadForm | m in cuts && m != |job.prefix|
      ensures var payload := Released(env, job, HeaderForm);
        Decrypt(env.aead, DropUpTo(payload, m), Some(key), TakeUpTo(payload, m), form).Err?
    {
      MarkedOpensOnce(env, job, m, key, form);
    }
  }

  // A VP8 key frame and the inter frame after it, with prefixes of ten and
  // three bytes: some lawful cipher delivers the first alone, whoever the
  // sender and the receiver are.
  lemma KeyThenInterIsLost(ratchet: (RawKey, int) -> RawKey, sender: State, receiver: State, epoch: int, peer: int,
                           key: SenderKey, ctr: nat, frames: seq<Frame>, departed: seq<real>, arrived: seq<real>)
      returns (env: Env)
    requires |departed| == |frames| == |arrived| == 2 && ctr + 2 <= MAX_CTR + 1
    requires Sends(sender, epoch, peer, key, ctr) && Listens(receiver, epoch, peer, key, ctr, 10)
    requires SameFormats(sender.conf, receiver.conf) && sender.conf.codec == Some(Vp8)
    requires frames[0].kind == Some(KeyFrame) && |frames[0].data| >= 10
    requires frames[1].kind == Some(InterFrame) && |frames[1].data| >= 3
    ensures env.aead.Lawful()
    ensures var jobs := SendAll(env, sender, frames, departed);
      && |jobs| == |frames| && (forall i | 0 <= i < |jobs| :: Sealable(jobs[i].key, jobs[i].ctr))
      && !AllBack(Steps(env, receiver, Arrivals(Wires(env, jobs, frames), arrived)).1, frames)
  {
    hide Step, Steps, Sends, Listens, SendAll, AllBack, AreJobs, Wires, Arrivals, Unforgeable, OthersUnforgeable, SameFormats;
    var data := frames[1].data;
    var job := Job(epoch, peer, key, ctr + 1, data[..3], data[3..], TrailerOf(sender.conf));
    SendsSealable(sender, epoch, peer, key, ctr);
    env := UnforgeableHasModel(ratchet, Widths, job);
    AllDepart(env, sender, epoch, peer, key, ctr, frames, departed);
    var jobs := SendAll(env, sender, frames, departed);
    SecondJob(jobs, sender.conf, epoch, peer, key, ctr, frames, job);
    assert OthersUnforgeable(env, sender.conf, jobs, frames, 10) by { OthersAreSecond(env, sender.conf, jobs, frames); }
    assert frames[1] in frames;
    StreamIsDeliveredIff(env, sender, receiver, epoch, peer, key, ctr, 10, frames, departed, arrived);
  }

  lemma SendsSealable(s: State, epoch: int, peer: int, key: SenderKey, ctr: nat)
    requires Sends(s, epoch, peer, key, ctr) && ctr < MAX_CTR
    ensures Sealable(key, ctr + 1)
  {
  }

  lemma SecondJob(jobs: seq<Job>, c: Config, epoch: int, peer: int, key: SenderKey, ctr: nat, frames: seq<Frame>, job: Job)
    requires |frames| == 2 && AreJobs(jobs, c, epoch, peer, key, ctr, frames) && |frames[1].data| >= 3
    requires c.codec == Some(Vp8) && frames[1].kind == Some(InterFrame)
    requires job == Job(epoch, peer, key, ctr + 1, frames[1].data[..3], frames[1].data[3..], TrailerOf(c))
    ensures |jobs| == 2 && jobs[1] == job
  {
    hide KidCodec.Encode;
    assert IsJob(jobs[1], c, epoch, peer, key, ctr + 1, frames[1]);
    assert jobs[1].prefix == (jobs[1].prefix + jobs[1].body)[..3] && jobs[1].body == (jobs[1].prefix + jobs[1].body)[3..];
  }

  lemma OthersAreSecond(env: Env, c: Config, jobs: seq<Job>, frames: seq<Frame>)
    requires |jobs| == |frames| == 2 && c.codec == Some(Vp8) && frames[0].kind == Some(KeyFrame)
    requires Sealable(jobs[1].key, jobs[1].ctr) && Unforgeable(env, Widths, jobs[1], HeaderForm)
    ensures OthersUnforgeable(env, c, jobs, frames, 10)
  {
    hide Unforgeable, Sealable;
  }

  // So does every VP8 call between two new workers that agree on everything.
  lemma Vp8CallLosesFrames(ratchet: (RawKey, int) -> RawKey, kidCodec: WireCodec, epoch: nat, sender: int, receiver: int,
                           cap: nat, bundles: map<int, Bundle>, frames: seq<Frame>, departed: seq<real>, arrived: seq<real>)
      returns (env: Env)
    requires Encodable(kidCodec, epoch, bundles.Keys) && sender in bundles && |bundles[sender].salt| == IV_BYTES
    requires |departed| == |frames| == |arrived| == 2
    requires frames[0].kind == Some(KeyFrame) && |frames[0].data| >= 10
    requires frames[1].kind == Some(InterFrame) && |frames[1].data| >= 3
    ensures env.aead.Lawful()
    ensures var jobs := SendAll(env, Joined(env, kidCodec, cap, Vp8, epoch, sender, bundles), frames, departed);
      && |jobs| == |frames| && (forall i | 0 <= i < |jobs| :: Sealable(jobs[i].key, jobs[i].ctr))
      && !AllBack(Steps(env, Joined(env, kidCodec, cap, Vp8, epoch, receiver, bundles),
                        Arrivals(Wires(env, jobs, frames), arrived)).1, frames)
  {
    hide Joined, Sends, Listens, SendAll, Wires, Arrivals, Steps, AllBack, Encodable, SameFormats, Sealable, Keys;
    var any := Env(TaggingAead(), ratchet);
    var a, b := Joined(any, kidCodec, cap, Vp8, epoch, sender, bundles), Joined(any, kidCodec, cap, Vp8, epoch, receiver, bundles);
    JoinedSends(any, kidCodec, cap, Vp8, epoch, sender, bundles);
    JoinedListens(any, kidCodec, cap, Vp8, epoch, receiver, bundles, sender, 10);
    JoinedFormats(any, kidCodec, cap, cap, Vp8, epoch, sender, receiver, bundles, bundles);
    env := KeyThenInterIsLost(ratchet, a, b, epoch, sender, KeyOf(kidCodec, epoch, sender, bundles[sender]), 0,
                              frames, departed, arrived);
    JoinedIs(any, kidCodec, cap, Vp8, epoch, sender, bundles);
    JoinedIs(env, kidCodec, cap, Vp8, epoch, sender, bundles);
    JoinedIs(any, kidCodec, cap, Vp8, epoch, receiver, bundles);
    JoinedIs(env, kidCodec, cap, Vp8, epoch, receiver, bundles);
  }
}

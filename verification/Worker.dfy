// The worker itself: src/worker-state.ts and src/worker-frame.ts on mutable
// fields, grouped as in State. Every method is tied to the function on values
// that it performs.
module Worker {
  import opened Bytes
  import opened ConstantTime
  import opened KidFormat
  import opened Lists
  import opened PreEpochQueue
  import opened ReplayWindow
  import opened Sframe
  import opened SframeHeader
  import opened Starvation
  import W = WorkerState
  import F = WorkerFrames
  import R = WorkerRuns
  import Q = WorkerQueues

  class WorkerObject {
    const env: F.Env
    var conf: W.Config
    var keys: W.KeyTable
    var recv: W.Receiver
    var drain: W.Drain
    var starve: Starve
    var starvePeerIndex: Option<int>
    var encryptStarve: Starve
    var log: seq<W.OutMsg>

    function Abs(): W.State
      reads this
    {
      W.State(conf, keys, recv, drain, starve, starvePeerIndex, encryptStarve, log)
    }

    constructor (env: F.Env, kidCodec: W.WireCodec, cap: nat)
      ensures Abs() == W.Initial(kidCodec, cap) && this.env == env
    {
      this.env := env;
      conf := W.Config(kidCodec, None, None, 8, 64, cap, false, -1);
      keys := W.KeyTable(map[], -1, 0, 0, {});
      recv := W.Receiver(map[], map[], map[]);
      drain := W.Drain([], false, false, []);
      starve, starvePeerIndex, encryptStarve := IDLE, None, IDLE;
      log := [];
    }

    method Emit(msg: W.OutMsg)
      modifies this`log
      ensures Abs() == W.Emit(old(Abs()), msg)
    {
      log := log + [msg];
    }

    // ------------------------------------------------------ failure tracking

    method IsKeyInvalid(epoch: int, peer: int) returns (invalid: bool)
      ensures invalid == W.IsKeyInvalid(Abs(), epoch, peer)
    {
      if conf.failureTolerance < 0 { return false; }
      var count := if (epoch, peer) in recv.failureCounts then recv.failureCounts[(epoch, peer)] else 0;
      return count > conf.failureTolerance;
    }

    method RecordFailure(epoch: int, peer: int)
      modifies this`recv, this`log
      ensures Abs() == W.RecordFailure(old(Abs()), epoch, peer)
    {
      if conf.failureTolerance < 0 { return; }
      var prev := if (epoch, peer) in recv.failureCounts then recv.failureCounts[(epoch, peer)] else 0;
      var next := prev + 1;
      recv := recv.(failureCounts := recv.failureCounts[(epoch, peer) := next]);
      if prev <= conf.failureTolerance && next > conf.failureTolerance {
        if conf.metricsEnabled { Emit(W.KeyInvalidated(epoch, peer, next)); }
      }
    }

    method RecordSuccess(epoch: int, peer: int)
      modifies this`recv
      ensures Abs() == W.RecordSuccess(old(Abs()), epoch, peer)
    {
      if conf.failureTolerance < 0 { return; }
      recv := recv.(failureCounts := recv.failureCounts[(epoch, peer) := 0]);
    }

    method ResetFailureCounts(epoch: int, peers: set<int>)
      modifies this`recv
      ensures recv == old(recv).(failureCounts := W.ResetCounts(old(recv.failureCounts), epoch, peers))
    {
      var rest, counts := peers, recv.failureCounts;
      while rest != {}
        invariant rest <= peers && recv == old(recv)
        invariant counts == W.ResetCounts(recv.failureCounts, epoch, peers - rest)
        decreases rest
      {
        Inhabited(rest);
        var peer :| peer in rest;
        counts := counts - {(epoch, peer)};
        rest := rest - {peer};
      }
      assert peers - rest == peers;
      recv := recv.(failureCounts := counts);
    }

    // ---------------------------------------------------------------- epochs

    method BuildKeys(epoch: int, bundles: map<int, W.Bundle>) returns (built: Option<map<int, SenderKey>>)
      ensures built.Some? <==> W.Encodable(conf.kidCodec, epoch, bundles.Keys)
      ensures built.Some? ==> built.value == W.Keys(conf.kidCodec, epoch, bundles)
    {
      hide KidCodec.Encode;
      var table: map<int, SenderKey> := map[];
      var rest := bundles.Keys;
      while rest != {}
        invariant rest <= bundles.Keys && table.Keys == bundles.Keys - rest
        invariant W.Encodable(conf.kidCodec, epoch, table.Keys)
        invariant forall p | p in table :: table[p] == W.KeyOf(conf.kidCodec, epoch, p, bundles[p])
        decreases rest
      {
        Inhabited(rest);
        var peer :| peer in rest;
        var kid := conf.kidCodec.Encode(epoch, peer);
        if kid.Err? { return None; }
        table := table[peer := SenderKey(kid.value, bundles[peer].rawKey, bundles[peer].salt)];
        rest := rest - {peer};
      }
      return Some(table);
    }

    method ScheduleWipeOfEpochsBelow(newEpoch: int)
      modifies this`keys
      ensures keys == old(keys).(wipeTimers := old(keys.wipeTimers) + W.Older(old(keys.epochs.Keys), newEpoch))
    {
      var rest, timers := keys.epochs.Keys, keys.wipeTimers;
      while rest != {}
        invariant rest <= keys.epochs.Keys && keys == old(keys)
        invariant timers == keys.wipeTimers + W.Older(keys.epochs.Keys - rest, newEpoch)
        decreases rest
      {
        Inhabited(rest);
        var epoch :| epoch in rest;
        rest := rest - {epoch};
        if epoch >= newEpoch { continue; }
        if epoch in timers { continue; }
        timers := timers + {epoch};
      }
      assert keys.epochs.Keys - rest == keys.epochs.Keys;
      keys := keys.(wipeTimers := timers);
    }

    // False when a key identifier is out of range; nothing has changed then.
    method InstallEpoch(epoch: int, selfPeer: int, bundles: map<int, W.Bundle>) returns (ok: bool)
      modifies this`keys, this`recv, this`log
      ensures ok == W.InstallEpoch(old(Abs()), epoch, selfPeer, bundles).Some?
      ensures Abs() == if ok then W.InstallEpoch(old(Abs()), epoch, selfPeer, bundles).value else old(Abs())
    {
      hide W.Encodable, W.Keys, W.ResetCounts, W.Older;
      var built := BuildKeys(epoch, bundles);
      if built.None? { return false; }
      keys := keys.(epochs := keys.epochs[epoch := W.EpochEntry(selfPeer, built.value, map[])]);
      ResetFailureCounts(epoch, bundles.Keys);
      if epoch > keys.currentEpoch {
        keys := keys.(currentEpoch := epoch, ctr := 0);
        ScheduleWipeOfEpochsBelow(epoch);
        Emit(W.EpochApplied(epoch));
      }
      return true;
    }

    method WipeEpoch(epoch: int)
      modifies this`keys, this`recv
      ensures Abs() == W.WipeEpoch(old(Abs()), epoch)
    {
      keys := keys.(epochs := keys.epochs - {epoch}, wipeTimers := keys.wipeTimers - {epoch});
      recv := recv.(replayWindows := recv.replayWindows - {epoch}, formatCache := recv.formatCache - {epoch});
      var nextValid := epoch + 1;
      if nextValid > keys.currentMinValidEpoch { keys := keys.(currentMinValidEpoch := nextValid); }
    }

    method Teardown()
      modifies this`keys, this`recv, this`drain, this`encryptStarve
      ensures Abs() == W.Teardown(old(Abs()))
    {
      keys := keys.(wipeTimers := {}, epochs := map[], ctr := 0, currentEpoch := -1, currentMinValidEpoch := 0);
      recv := W.Receiver(map[], map[], map[]);
      drain := drain.(preEpochQueue := []);
      encryptStarve := IDLE;
    }

    method SetReplayWindow(size: int)
      modifies this`conf, this`recv
      ensures Abs() == W.SetReplayWindow(old(Abs()), size)
    {
      conf := conf.(replayWindowSize := if size < 0 then 0 else size);
      recv := recv.(replayWindows := map[]);
    }

    method SetFailureTolerance(tolerance: int)
      modifies this`conf, this`recv
      ensures Abs() == W.SetFailureTolerance(old(Abs()), tolerance)
    {
      conf := conf.(failureTolerance := if tolerance < -1 then -1 else tolerance);
      recv := recv.(failureCounts := map[]);
    }

    // ------------------------------------------------------------ starvation

    method NoteEncryptDrop(reason: W.EncodeReason, now: real)
      modifies this`encryptStarve, this`log
      ensures Abs() == F.NoteEncryptDrop(old(Abs()), reason, now)
    {
      if !encryptStarve.active {
        encryptStarve := Starve(true, now, 1, now);
        Emit(W.EncryptFailure(reason));
        return;
      }
      encryptStarve := encryptStarve.(framesDropped := encryptStarve.framesDropped + 1);
      if now - encryptStarve.lastEmitMs >= STARVE_COALESCE_MS {
        encryptStarve := encryptStarve.(lastEmitMs := now);
        Emit(W.EncryptFailure(reason));
      }
    }

    method ClearEncryptStarve()
      modifies this`encryptStarve
      ensures Abs() == F.EndEncode(old(Abs()))
    {
      if !encryptStarve.active { return; }
      encryptStarve := Starve(false, 0.0, 0, 0.0);
    }

    method NoteStarveDrop(peer: int, now: real)
      modifies this`starve, this`starvePeerIndex, this`log
      ensures Abs() == F.NoteStarveDrop(old(Abs()), peer, now)
    {
      if !starve.active {
        starve := Starve(true, now, 1, now);
        starvePeerIndex := Some(peer);
        Emit(W.DecryptStarved(Some(peer), 1, 0.0));
        return;
      }
      starve := starve.(framesDropped := starve.framesDropped + 1);
      starvePeerIndex := Some(peer);
      if now - starve.lastEmitMs >= STARVE_COALESCE_MS {
        starve := starve.(lastEmitMs := now);
        Emit(W.DecryptStarved(starvePeerIndex, starve.framesDropped, now - starve.sinceMs));
      }
    }

    method ClearStarve()
      modifies this`starve, this`starvePeerIndex
      ensures Abs() == F.ClearStarve(old(Abs()))
    {
      if !starve.active { return; }
      starve := Starve(false, 0.0, 0, 0.0);
      starvePeerIndex := None;
    }

    method PushToQueue(frame: W.Frame, peer: int, now: real)
      modifies this`drain, this`starve, this`starvePeerIndex, this`log
      ensures Abs() == F.PushToQueue(old(Abs()), frame, peer, now)
    {
      if |drain.preEpochQueue| >= conf.preEpochQueueCap {
        if drain.preEpochQueue != [] {
          drain := drain.(preEpochQueue := drain.preEpochQueue[..|drain.preEpochQueue| - 1]);
        }
        Emit(W.DecryptFailure(W.QueueOverflow));
        NoteStarveDrop(peer, now);
      }
      drain := drain.(preEpochQueue := drain.preEpochQueue + [frame]);
    }

    // -------------------------------------------------------------- encoding

    // The part of encodeFrame before its first suspension.
    method BeginEncode(frame: W.Frame) returns (r: Result<F.Job, F.EncodeError>)
      modifies this`keys
      ensures (Abs(), r) == F.BeginEncode(old(Abs()), frame)
    {
      if keys.currentEpoch !in keys.epochs { return Err(F.NoActiveEpoch); }
      var entry := keys.epochs[keys.currentEpoch];
      if entry.selfPeerIndex !in entry.keys { return Err(F.NoSelfKey); }
      var key := entry.keys[entry.selfPeerIndex];
      var ctr := keys.ctr;
      keys := keys.(ctr := ctr + 1);
      var n := F.Min(UnencryptedBytes(conf.codec, frame.kind), |frame.data|);
      var header := SerializeHeader(key.kid, ctr);
      if header.Err? { return Err(F.Header(header.error)); }
      if |key.salt| != IV_BYTES { return Err(F.Salt); }
      var trailer := if conf.sifTrailer.Some? then conf.sifTrailer.value else [];
      return Ok(F.Job(keys.currentEpoch, entry.selfPeerIndex, key, ctr, frame.data[..n], frame.data[n..], trailer));
    }

    // The rest: the whole frame in one buffer.
    method SealJob(job: F.Job) returns (wire: seq<byte>)
      requires env.aead.Lawful() && F.Sealable(job.key, job.ctr)
      modifies this`encryptStarve
      ensures wire == F.Wire(env, job)
      ensures Abs() == F.EndEncode(old(Abs()))
    {
      hide Serialized, Iv, Aad, MinWidth;
      var header := SerializeHeader(job.key.kid, job.ctr);
      assert header.Ok? && header.value == Serialized(job.key.kid, job.ctr);
      ghost var inner := Sealed(env.aead, job.key, job.ctr, job.body, [], HeaderForm);
      assert |inner| == |header.value| + |job.body| + AEAD_TAG_BYTES;
      wire := FillWire(job, header.value, inner);
      ClearEncryptStarve();
    }

    method FillWire(job: F.Job, header: seq<byte>, ghost inner: seq<byte>) returns (wire: seq<byte>)
      requires env.aead.Lawful() && |job.key.salt| == IV_BYTES && |inner| == |header| + |job.body| + AEAD_TAG_BYTES
      requires inner == header + env.aead.seal(job.key.raw, Iv(job.key.salt, job.ctr), Aad([], header, HeaderForm), job.body)
      ensures wire == job.prefix + inner + job.trailer
    {
      hide Iv, Aad;
      var n := |job.prefix|;
      var buffer := new byte[n + |header| + |job.body| + AEAD_TAG_BYTES + |job.trailer|](_ => 0);
      ghost var blank := buffer[..];
      WriteAt(buffer, 0, job.prefix);
      ghost var begun := buffer[..];
      var written := SframeEncryptInto(env.aead, buffer, n, header, job.body, job.key, job.ctr, [], HeaderForm);
      ghost var sealed := buffer[..];
      assert written == Ok(|inner|) && sealed == begun[..n] + inner + begun[n + |inner|..];
      WriteAt(buffer, n + written.value, job.trailer);
      wire := buffer[..];
      Layers(blank, begun, sealed, wire, job.prefix, inner, job.trailer);
    }

    static method WriteAt(buffer: array<byte>, at: nat, bytes: seq<byte>)
      requires at + |bytes| <= buffer.Length
      modifies buffer
      ensures buffer[..] == old(buffer[..at]) + bytes + old(buffer[at + |bytes|..])
    {
      forall k | 0 <= k < |bytes| { buffer[at + k] := bytes[k]; }
    }

    // Three writes side by side fill the buffer.
    static lemma Layers(blank: seq<byte>, begun: seq<byte>, sealed: seq<byte>, wire: seq<byte>,
                        prefix: seq<byte>, inner: seq<byte>, trailer: seq<byte>)
      requires |blank| == |prefix| + |inner| + |trailer|
      requires begun == blank[..0] + prefix + blank[|prefix|..]
      requires sealed == begun[..|prefix|] + inner + begun[|prefix| + |inner|..]
      requires wire == sealed[..|prefix| + |inner|] + trailer + sealed[|prefix| + |inner| + |trailer|..]
      ensures wire == prefix + inner + trailer
    {
      assert begun[..|prefix|] == prefix;
      assert sealed[..|prefix| + |inner|] == prefix + inner;
    }

    // ------------------------------------------------------ format resolution

    method HeaderOf(buf: seq<byte>) returns (r: Result<F.FrameHeader, HeaderError>)
      ensures r == F.HeaderOf(conf.kidCodec, buf)
    {
      hide Parse, KidCodec.Decode;
      var parsed := ParseHeader(buf);
      if parsed.Err? { return Err(parsed.error); }
      ParseBounds(buf);
      var (epoch, peer) := conf.kidCodec.Decode(parsed.value.kid);
      DecodeIsNat(conf.kidCodec, parsed.value.kid);
      return Ok(F.FrameHeader(epoch, peer, parsed.value.ctr, parsed.value.bodyOffset));
    }

    method TryCandidate(payload: seq<byte>, c: F.Candidate) returns (plain: Option<seq<byte>>)
      ensures plain == F.TryCandidate(env, Abs(), payload, c)
    {
      hide F.HeaderOf, Decrypt;
      var buf := DropUpTo(payload, c.prefixLen);
      if |buf| < 1 { return None; }
      var header := HeaderOf(buf);
      if header.Err? || |buf| < header.value.bodyOffset + AEAD_TAG_BYTES { return None; }
      var key := W.KeyFor(keys, header.value.epoch, header.value.peer);
      if key.None? { return None; }
      var result := SframeDecrypt(env.aead, buf, key, TakeUpTo(payload, c.prefixLen), c.aadForm);
      return if result.Ok? then Some(result.value) else None;
    }

    method ProbeFormat(payload: seq<byte>, kind: Option<FrameKind>) returns (layout: Option<F.Layout>)
      ensures layout == F.ProbeFormat(env, Abs(), payload, F.FormatCandidates(conf.codec, kind))
    {
      hide F.TryCandidate, F.FormatCandidates;
      var candidates := F.FormatCandidates(conf.codec, kind);
      for i := 0 to |candidates|
        invariant F.ProbeFormat(env, Abs(), payload, candidates) == F.ProbeFormat(env, Abs(), payload, candidates[i..])
      {
        var plain := TryCandidate(payload, candidates[i]);
        assert candidates[i..][1..] == candidates[i + 1..];
        if plain.Some? { return Some(F.Layout(candidates[i].prefixLen, candidates[i].aadForm, plain)); }
      }
      return None;
    }

    method Resolve(kind: Option<FrameKind>, payload: seq<byte>) returns (layout: F.Layout)
      ensures layout == F.Resolve(env, Abs(), kind, payload)
    {
      hide F.HeaderOf, F.ProbeFormat, F.FormatCandidates;
      var n := F.Min(UnencryptedBytes(conf.codec, kind), |payload|);
      if n < |payload| {
        var header := HeaderOf(DropUpTo(payload, n));
        if header.Ok? {
          var cached := W.Lookup(recv.formatCache, header.value.epoch, header.value.peer);
          if cached.Some? { return F.Layout(cached.value.prefixLen, cached.value.aadForm, None); }
        }
      }
      var probed := ProbeFormat(payload, kind);
      if probed.Some? { return probed.value; }
      return F.Layout(n, HeaderForm, None);
    }

    // ------------------------------------------------------------ the ratchet

    method TryDecryptWithRatchet(buf: seq<byte>, epoch: int, peer: int, prefix: seq<byte>, form: AadForm)
        returns (r: Result<F.Plain, SframeError>)
      modifies this`keys
      ensures r == F.TryDecryptWithRatchet(env, old(Abs()), buf, epoch, peer, prefix, form)
      ensures keys == if r.Ok? then F.Advance(env, old(keys), epoch, peer, r.value.steps) else old(keys)
    {
      hide Decrypt, F.RatchetSearch;
      var key := W.KeyFor(keys, epoch, peer);
      if key.None? { return Err(KeyNotFound); }
      var first := SframeDecrypt(env.aead, buf, key, prefix, form);
      if first.Ok? { return Ok(F.Plain(first.value, 0)); }
      if conf.ratchetWindowSize == 0 { return Err(first.error); }
      var found, next := RetryLoop(buf, key.value, peer, prefix, form);
      if found.Err? { return found; }
      var entry := keys.epochs[epoch];
      keys := keys.(epochs := keys.epochs[epoch := entry.(
        keys := entry.keys[peer := next],
        ratchetSteps := entry.ratchetSteps[peer := W.StepsOf(keys, epoch, peer) + found.value.steps])]);
      return found;
    }

    // deriveNextSenderKey, as far as it can fail.
    method DeriveNextSenderKey(key: SenderKey, peer: int) returns (next: Result<SenderKey, SframeError>)
      ensures next.Ok? <==> F.Derivable(peer)
      ensures next == if next.Ok? then Ok(key.(raw := env.ratchet(key.raw, peer))) else Err(PeerIndexRange)
    {
      if peer < 0 || peer > 0xffff { return Err(PeerIndexRange); }
      return Ok(key.(raw := env.ratchet(key.raw, peer)));
    }

    method RetryLoop(buf: seq<byte>, key: SenderKey, peer: int, prefix: seq<byte>, form: AadForm)
        returns (found: Result<F.Plain, SframeError>, next: SenderKey)
      ensures found == F.RatchetSearch(env, buf, key, peer, prefix, form, 1, conf.ratchetWindowSize)
      ensures found.Ok? ==> 1 <= found.value.steps && next == F.Ratcheted(env, key, peer, found.value.steps)
    {
      hide Decrypt;
      var step := 1;
      next := key;
      while step <= conf.ratchetWindowSize
        invariant 1 <= step <= conf.ratchetWindowSize + 1
        invariant next == F.Ratcheted(env, key, peer, step - 1)
        invariant F.RatchetSearch(env, buf, key, peer, prefix, form, 1, conf.ratchetWindowSize)
               == F.RatchetSearch(env, buf, key, peer, prefix, form, step, conf.ratchetWindowSize)
      {
        var derived := DeriveNextSenderKey(next, peer);
        if derived.Err? { return Err(derived.error), next; }
        next := derived.value;
        var result := SframeDecrypt(env.aead, buf, Some(next), prefix, form);
        if result.Ok? { return Ok(F.Plain(result.value, step)), next; }
        step := step + 1;
      }
      return Err(RatchetExhausted), next;
    }

    // ---------------------------------------------------- decoding, draining

    method Admit(payload: seq<byte>, layout: F.Layout, h: F.FrameHeader, durableFresh: bool)
        returns (plain: Result<F.Plain, SframeError>)
      modifies this`keys, this`recv, this`log, this`starve, this`starvePeerIndex
      ensures (Abs(), plain) == F.Admit(env, old(Abs()), payload, layout, h, durableFresh)
    {
      hide F.Open, F.Accepted, F.Advance, W.Put, F.Window, Fresh;
      var window := F.Window(Abs(), h.epoch, h.peer);
      recv := recv.(replayWindows := W.Put(recv.replayWindows, h.epoch, h.peer, window));
      if !Fresh(conf.replayWindowSize, window, h.ctr) {
        Emit(W.DecryptFailure(W.ReplayDrop));
        return Err(Replay);
      }
      if !durableFresh {
        Emit(W.DecryptFailure(W.ReplayDrop));
        return Err(Replay);
      }
      var invalid := IsKeyInvalid(h.epoch, h.peer);
      if invalid {
        Emit(W.DecryptFailure(W.KeyInvalidDrop));
        return Err(KeyInvalid);
      }
      plain := Open(payload, layout, h);
      if plain.Ok? { Accept(layout, h); }
    }

    method Accept(layout: F.Layout, h: F.FrameHeader)
      modifies this`recv, this`starve, this`starvePeerIndex
      ensures Abs() == F.Accepted(old(Abs()), layout, h)
    {
      hide W.Put, Slide, F.Window, W.RecordSuccess, F.ClearStarve;
      var window := F.Window(Abs(), h.epoch, h.peer);
      recv := recv.(formatCache := W.Put(recv.formatCache, h.epoch, h.peer, W.FormatGuess(layout.prefixLen, layout.aadForm)));
      recv := recv.(replayWindows := W.Put(recv.replayWindows, h.epoch, h.peer, Slide(conf.replayWindowSize, window, h.ctr)));
      RecordSuccess(h.epoch, h.peer);
      ClearStarve();
    }

    method Open(payload: seq<byte>, layout: F.Layout, h: F.FrameHeader) returns (plain: Result<F.Plain, SframeError>)
      modifies this`keys
      ensures plain == F.Open(env, old(Abs()), payload, layout, h)
      ensures keys == if plain.Ok? then F.Advance(env, old(keys), h.epoch, h.peer, plain.value.steps) else old(keys)
    {
      hide F.TryDecryptWithRatchet;
      if layout.probed.Some? { return Ok(F.Plain(layout.probed.value, 0)); }
      plain := TryDecryptWithRatchet(DropUpTo(payload, layout.prefixLen), h.epoch, h.peer,
                                     TakeUpTo(payload, layout.prefixLen), layout.aadForm);
    }

    method Fail(error: SframeError, h: F.FrameHeader, counted: bool, reason: W.Reason) returns (report: F.Report)
      modifies this`recv, this`log
      ensures (Abs(), report) == F.Failed(old(Abs()), error, h, counted, reason)
    {
      hide W.RecordFailure;
      if counted { RecordFailure(h.epoch, h.peer); }
      if !error.StaleEpoch? && !error.Replay? && !error.KeyInvalid? { Emit(W.DecryptFailure(reason)); }
      return F.Refused(error, Some(h), counted);
    }

    method Payload(data: seq<byte>) returns (payload: Option<seq<byte>>)
      ensures payload == F.Payload(Abs(), data)
    {
      if conf.sifTrailer.None? { return Some(data); }
      var trailer := conf.sifTrailer.value;
      var ends := CtEndsWith(data, trailer);
      if !ends { return None; }
      return Some(data[..|data| - |trailer|]);
    }

    method DecodeFrame(frame: W.Frame, durableFresh: bool, now: real) returns (report: F.Report)
      modifies this
      ensures (Abs(), report) == F.DecodeFrame(env, old(Abs()), frame, durableFresh, now)
    {
      hide F.Payload, F.Resolve, F.HeaderOf, F.Admit, F.Failed, F.PushToQueue, W.Emit;
      var payload := Payload(frame.data);
      if payload.None? { return F.PassedThrough; }
      var layout := Resolve(frame.kind, payload.value);
      var header := HeaderOf(DropUpTo(payload.value, layout.prefixLen));
      if header.Err? {
        Emit(W.DecryptFailure(W.DecryptFailed));
        return F.Refused(HeaderParse(header.error), None, false);
      }
      var h := header.value;
      if h.epoch < keys.currentMinValidEpoch {
        Emit(W.DecryptFailure(W.StaleEpochDrop));
        report := Fail(StaleEpoch, h, false, W.DecryptFailed);
        return;
      }
      if keys.currentEpoch == -1 {
        PushToQueue(frame, h.peer, now);
        return F.Queued(h.peer);
      }
      var plain := Admit(payload.value, layout, h, durableFresh);
      if plain.Err? {
        report := Fail(plain.error, h, plain.error.AeadAuth? || plain.error.RatchetExhausted?, W.DecryptFailed);
        return;
      }
      return F.Delivered(h, TakeUpTo(payload.value, layout.prefixLen) + plain.value.text, plain.value.steps);
    }

    // The synchronous start of drainPreEpochQueue.
    method RequestDrain()
      modifies this`drain
      ensures Abs() == F.RequestDrain(old(Abs()))
    {
      if drain.draining {
        drain := drain.(pendingDrain := true);
        return;
      }
      StartPass();
    }

    method StartPass()
      modifies this`drain
      ensures drain == F.Snapshot(old(drain))
    {
      drain := drain.(draining := true);
      drain := drain.(pass := drain.preEpochQueue, preEpochQueue := []);
    }

    // Its finally block.
    method EndDrain()
      modifies this`drain
      ensures drain == F.EndDrain(old(drain))
    {
      drain := drain.(draining := false);
      if drain.pendingDrain {
        drain := drain.(pendingDrain := false);
        StartPass();
      }
    }

    method DrainFrame(frame: W.Frame, durableFresh: bool, now: real) returns (report: F.Report)
      modifies this
      ensures (Abs(), report) == F.DrainFrame(env, old(Abs()), frame, durableFresh, now)
    {
      hide F.Resolve, F.HeaderOf, F.Admit, F.Failed, F.PushToQueue, F.Attributed, W.Emit;
      var layout := Resolve(frame.kind, frame.data);
      var buf := DropUpTo(frame.data, layout.prefixLen);
      var header := HeaderOf(buf);
      if header.Err? {
        Emit(W.DecryptFailure(W.DecryptFailedAfterEpoch));
        return F.Refused(HeaderParse(header.error), None, false);
      }
      var h := header.value;
      if h.epoch < keys.currentMinValidEpoch { return F.Refused(StaleEpoch, Some(h), false); }
      if W.KeyFor(keys, h.epoch, h.peer).None? {
        PushToQueue(frame, h.peer, now);
        return F.Queued(h.peer);
      }
      var plain := Admit(frame.data, layout, h, durableFresh);
      if plain.Err? {
        report := Fail(plain.error, h, F.Attributed(plain.error, buf, h), W.DecryptFailedAfterEpoch);
        return;
      }
      return F.Delivered(h, TakeUpTo(frame.data, layout.prefixLen) + plain.value.text, plain.value.steps);
    }

    // One iteration of the pass under way.
    method DrainNext(durableFresh: bool, now: real) returns (report: F.Report)
      modifies this
      ensures (Abs(), report) == F.DrainNext(env, old(Abs()), durableFresh, now)
    {
      hide F.DrainFrame;
      if !drain.draining || drain.pass == [] { return F.Nothing; }
      var frame := drain.pass[0];
      drain := drain.(pass := drain.pass[1..]);
      report := DrainFrame(frame, durableFresh, now);
    }

    // The loop of a drain with nothing in between.
    method DrainPass(frames: seq<W.Frame>, answers: seq<Q.Answer>) returns (reports: seq<F.Report>)
      requires |answers| == |frames|
      modifies this
      ensures (Abs(), reports) == Q.DrainAll(env, old(Abs()), frames, answers)
    {
      hide F.DrainFrame;
      reports := [];
      ghost var all := Q.DrainAll(env, Abs(), frames, answers);
      assert frames[0..] == frames && answers[0..] == answers;
      for i := 0 to |frames|
        invariant all.0 == Q.DrainAll(env, Abs(), frames[i..], answers[i..]).0
        invariant all.1 == reports + Q.DrainAll(env, Abs(), frames[i..], answers[i..]).1
      {
        assert frames[i..][1..] == frames[i + 1..] && answers[i..][1..] == answers[i + 1..];
        var report := DrainFrame(frames[i], answers[i].durableFresh, answers[i].now);
        reports := reports + [report];
      }
      assert frames[|frames|..] == [] && reports + [] == reports;
      assert all == (Abs(), reports);
    }

    // ------------------------------------------------------------ one event

    method EncodeOrDrop(frame: W.Frame, now: real) returns (report: F.Report)
      modifies this
      ensures (Abs(), report) == R.EncodeOrDrop(old(Abs()), frame, now)
    {
      hide F.BeginEncode, F.NoteEncryptDrop;
      var job := BeginEncode(frame);
      if job.Ok? { return F.Began(job.value); }
      NoteEncryptDrop(if job.error.NoActiveEpoch? then W.NoEpoch else W.EncodeFailed, now);
      return F.Nothing;
    }

    // handleMessage, the wipe timers and the two frame paths: the steps that
    // runs are made of.
    method Handle(ev: R.Event) returns (report: F.Report)
      modifies this
      ensures (Abs(), report) == R.Step(env, old(Abs()), ev)
    {
      hide W.InstallEpoch, W.WipeEpoch, W.Teardown, F.DecodeFrame, F.DrainNext, R.EncodeOrDrop, F.EndEncode,
           W.SetReplayWindow, W.SetFailureTolerance;
      report := F.Nothing;
      match ev {
        case Install(epoch, selfPeer, bundles) =>
          var ok := InstallEpoch(epoch, selfPeer, bundles);
          if ok { RequestDrain(); }
        case WipeTimer(epoch) =>
          if epoch in keys.wipeTimers { WipeEpoch(epoch); }
        case TeardownMsg => Teardown();
        case Decode(frame, durableFresh, now) => report := DecodeFrame(frame, durableFresh, now);
        case DrainStep(durableFresh, now) => report := DrainNext(durableFresh, now);
        case DrainDone =>
          if drain.draining && drain.pass == [] { EndDrain(); }
        case Encode(frame, now) => report := EncodeOrDrop(frame, now);
        case EncodeDone => ClearEncryptStarve();
        case SetRatchetWindow(size) => conf := conf.(ratchetWindowSize := if size < 0 then 0 else size);
        case SetReplaySize(size) => SetReplayWindow(size);
        case SetTolerance(tolerance) => SetFailureTolerance(tolerance);
        case SetMetricsEnabled(enabled) => conf := conf.(metricsEnabled := enabled);
        case SetSifTrailer(trailer) => conf := conf.(sifTrailer := trailer);
        case SetCodec(codec) => conf := conf.(codec := Some(codec));
      }
    }
  }
}

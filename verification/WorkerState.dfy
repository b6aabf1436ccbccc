// src/worker-types.ts and src/worker-state.ts: the worker's state and the
// bookkeeping of epochs, wipe timers and failure counts, as functions on
// values. Class WorkerObject performs them in place.
module WorkerState {
  import opened Bytes
  import opened JsNumber
  import opened KidFormat
  import opened PreEpochQueue
  import opened RatchetIds
  import opened ReplayWindow
  import opened Sframe
  import opened Starvation

  // ------------------------------------------------------------------ types

  type WireCodec = c: KidCodec | c.Valid() witness Fixed

  datatype Bundle = Bundle(rawKey: RawKey, salt: seq<byte>)

  datatype EpochEntry = EpochEntry(selfPeerIndex: int, keys: map<int, SenderKey>, ratchetSteps: map<int, nat>)

  datatype FormatGuess = FormatGuess(prefixLen: nat, aadForm: AadForm)

  datatype Frame = Frame(data: seq<byte>, kind: Option<FrameKind>)

  datatype Reason = StaleEpochDrop | DecryptFailed | QueueOverflow | DecryptFailedAfterEpoch | ReplayDrop | KeyInvalidDrop

  datatype EncodeReason = EncodeFailed | NoEpoch

  datatype OutMsg =
    | EpochApplied(epoch: int)
    | DecryptFailure(reason: Reason)
    | EncryptFailure(encodeReason: EncodeReason)
    | DecryptStarved(peerIndex: Option<int>, framesDropped: nat, sinceMs: real)
    | KeyInvalidated(epochOf: int, peerOf: int, failures: nat)

  // Two-level maps keyed by epoch and peer index.
  type Nested<V> = map<int, map<int, V>>

  function Lookup<V>(m: Nested<V>, epoch: int, peer: int): Option<V> {
    if epoch in m && peer in m[epoch] then Some(m[epoch][peer]) else None
  }

  function Put<V>(m: Nested<V>, epoch: int, peer: int, v: V): Nested<V> {
    m[epoch := (if epoch in m then m[epoch] else map[])[peer := v]]
  }

  lemma LookupPut<V>(m: Nested<V>, epoch: int, peer: int, v: V, epoch': int, peer': int)
    ensures Lookup(Put(m, epoch, peer, v), epoch', peer')
         == if (epoch, peer) == (epoch', peer') then Some(v) else Lookup(m, epoch', peer')
  {
  }

  datatype Config = Config(kidCodec: WireCodec, codec: Option<Codec>, sifTrailer: Option<seq<byte>>,
                           ratchetWindowSize: nat, replayWindowSize: nat, preEpochQueueCap: nat,
                           metricsEnabled: bool, failureTolerance: int)

  datatype KeyTable = KeyTable(epochs: map<int, EpochEntry>, currentEpoch: int, currentMinValidEpoch: int,
                               ctr: nat, wipeTimers: set<int>)

  datatype Receiver = Receiver(replayWindows: Nested<seq<Ctr>>, formatCache: Nested<FormatGuess>,
                               failureCounts: map<(int, int), nat>)

  // `pass` holds the snapshot a running drain has not processed yet.
  datatype Drain = Drain(preEpochQueue: seq<Frame>, draining: bool, pendingDrain: bool, pass: seq<Frame>)

  datatype State = State(conf: Config, keys: KeyTable, recv: Receiver, drain: Drain,
                         starve: Starve, starvePeerIndex: Option<int>, encryptStarve: Starve, log: seq<OutMsg>)

  function Initial(kidCodec: WireCodec, cap: nat): State {
    State(Config(kidCodec, None, None, 8, 64, cap, false, -1), KeyTable(map[], -1, 0, 0, {}),
          Receiver(map[], map[], map[]), Drain([], false, false, []), IDLE, None, IDLE, [])
  }

  function Emit(s: State, msg: OutMsg): State { s.(log := s.log + [msg]) }

  // ------------------------------------------------------------ key tables

  function KeyFor(k: KeyTable, epoch: int, peer: int): Option<SenderKey> {
    if epoch in k.epochs && peer in k.epochs[epoch].keys then Some(k.epochs[epoch].keys[peer]) else None
  }

  function StepsOf(k: KeyTable, epoch: int, peer: int): nat {
    if epoch in k.epochs && peer in k.epochs[epoch].ratchetSteps then k.epochs[epoch].ratchetSteps[peer] else 0
  }

  // Every peer of a bundle can be given a key identifier.
  predicate Encodable(codec: KidCodec, epoch: int, peers: set<int>) {
    forall p | p in peers :: codec.Encode(epoch, p).Ok?
  }

  function KeyOf(codec: KidCodec, epoch: int, peer: int, b: Bundle): SenderKey
    requires codec.Encode(epoch, peer).Ok?
  {
    SenderKey(codec.Encode(epoch, peer).value, b.rawKey, b.salt)
  }

  function Keys(codec: KidCodec, epoch: int, bundles: map<int, Bundle>): map<int, SenderKey>
    requires Encodable(codec, epoch, bundles.Keys)
  {
    map p | p in bundles :: KeyOf(codec, epoch, p, bundles[p])
  }

  function Older(epochs: set<int>, epoch: int): set<int> { set e | e in epochs && e < epoch }

  // The key table after an install whose keys are built. A table that does not
  // advance keeps its counter.
  function InstallKeys(k: KeyTable, epoch: int, entry: EpochEntry): KeyTable {
    var epochs := k.epochs[epoch := entry];
    if epoch > k.currentEpoch
    then KeyTable(epochs, epoch, k.currentMinValidEpoch, 0, k.wipeTimers + Older(epochs.Keys, epoch))
    else k.(epochs := epochs)
  }

  function ResetCounts(counts: map<(int, int), nat>, epoch: int, peers: set<int>): map<(int, int), nat> {
    map c | c in counts && !(c.0 == epoch && c.1 in peers) :: counts[c]
  }

  // None when some key identifier is out of range: nothing has changed then.
  function InstallEpoch(s: State, epoch: int, selfPeer: int, bundles: map<int, Bundle>): Option<State> {
    if !Encodable(s.conf.kidCodec, epoch, bundles.Keys) then None
    else
      var entry := EpochEntry(selfPeer, Keys(s.conf.kidCodec, epoch, bundles), map[]);
      var s' := s.(keys := InstallKeys(s.keys, epoch, entry),
                   recv := s.recv.(failureCounts := ResetCounts(s.recv.failureCounts, epoch, bundles.Keys)));
      Some(if epoch > s.keys.currentEpoch then Emit(s', EpochApplied(epoch)) else s')
  }

  function WipeKeys(k: KeyTable, epoch: int): KeyTable {
    KeyTable(k.epochs - {epoch}, k.currentEpoch,
             if epoch + 1 > k.currentMinValidEpoch then epoch + 1 else k.currentMinValidEpoch,
             k.ctr, k.wipeTimers - {epoch})
  }

  function WipeReceiver(r: Receiver, epoch: int): Receiver {
    r.(replayWindows := r.replayWindows - {epoch}, formatCache := r.formatCache - {epoch})
  }

  function WipeEpoch(s: State, epoch: int): State {
    s.(keys := WipeKeys(s.keys, epoch), recv := WipeReceiver(s.recv, epoch))
  }

  // Everything is forgotten but the decode-side starvation episode and a drain
  // pass under way.
  function Teardown(s: State): State {
    s.(keys := KeyTable(map[], -1, 0, 0, {}), recv := Receiver(map[], map[], map[]),
       drain := s.drain.(preEpochQueue := []), encryptStarve := IDLE)
  }

  // --------------------------------------------------------- failure counts

  function Count(s: State, epoch: int, peer: int): nat {
    if (epoch, peer) in s.recv.failureCounts then s.recv.failureCounts[(epoch, peer)] else 0
  }

  predicate IsKeyInvalid(s: State, epoch: int, peer: int) {
    s.conf.failureTolerance >= 0 && Count(s, epoch, peer) > s.conf.failureTolerance
  }

  function SetCount(s: State, epoch: int, peer: int, n: nat): State {
    s.(recv := s.recv.(failureCounts := s.recv.failureCounts[(epoch, peer) := n]))
  }

  function RecordFailure(s: State, epoch: int, peer: int): State {
    if s.conf.failureTolerance < 0 then s
    else
      var next := Count(s, epoch, peer) + 1;
      var s' := SetCount(s, epoch, peer, next);
      if next - 1 <= s.conf.failureTolerance < next && s.conf.metricsEnabled
      then Emit(s', KeyInvalidated(epoch, peer, next)) else s'
  }

  function RecordSuccess(s: State, epoch: int, peer: int): State {
    if s.conf.failureTolerance < 0 then s else SetCount(s, epoch, peer, 0)
  }

  // ---------------------------------------------------------- control messages

  function SetReplayWindow(s: State, size: int): State {
    s.(conf := s.conf.(replayWindowSize := if size < 0 then 0 else size),
       recv := s.recv.(replayWindows := map[]))
  }

  function SetFailureTolerance(s: State, tolerance: int): State {
    s.(conf := s.conf.(failureTolerance := if tolerance < -1 then -1 else tolerance),
       recv := s.recv.(failureCounts := map[]))
  }

  // -------------------------------------------------- the epoch state machine

  // The active epoch is installed, only older installed epochs are due for a
  // wipe, and the stale gate never passes the active epoch.
  ghost predicate EpochsSound(k: KeyTable) {
    && (k.currentEpoch == -1 || k.currentEpoch in k.epochs)
    && (forall e | e in k.wipeTimers :: e < k.currentEpoch && e in k.epochs)
    && k.currentMinValidEpoch <= (if k.currentEpoch > 0 then k.currentEpoch else 0)
    && k.currentEpoch >= -1 && k.currentMinValidEpoch >= 0
  }

  // An advance arms exactly the older epochs; any other install changes one
  // entry and nothing else.
  lemma InstallSound(k: KeyTable, epoch: int, entry: EpochEntry)
    requires EpochsSound(k)
    ensures var k' := InstallKeys(k, epoch, entry);
      && EpochsSound(k') && k'.currentMinValidEpoch == k.currentMinValidEpoch
      && epoch in k'.epochs && k'.epochs[epoch] == entry
      && (forall e | e != epoch :: (e in k'.epochs <==> e in k.epochs) && (e in k.epochs ==> k'.epochs[e] == k.epochs[e]))
      && (if epoch > k.currentEpoch
          then k'.currentEpoch == epoch && k'.ctr == 0
            && forall e :: e in k'.wipeTimers <==> e in k.epochs && e < epoch
          else k'.currentEpoch == k.currentEpoch && k'.ctr == k.ctr && k'.wipeTimers == k.wipeTimers)
  {
  }

  predicate Stale(k: KeyTable, epoch: int) { epoch < k.currentMinValidEpoch }

  // A fired timer closes its epoch and those before it, and no later one; it
  // never takes the active epoch.
  lemma WipeSound(k: KeyTable, epoch: int)
    requires EpochsSound(k) && epoch in k.wipeTimers
    ensures var k' := WipeKeys(k, epoch);
      && EpochsSound(k') && k'.currentEpoch == k.currentEpoch && k'.ctr == k.ctr
      && (forall e :: Stale(k', e) <==> Stale(k, e) || e <= epoch)
      && epoch !in k'.epochs && epoch !in k'.wipeTimers
      && (forall e | e != epoch :: (e in k'.epochs <==> e in k.epochs) && (e in k'.wipeTimers <==> e in k.wipeTimers))
      && (forall e | e in k'.epochs :: k'.epochs[e] == k.epochs[e])
      && (k.currentEpoch in k.epochs ==> k.currentEpoch in k'.epochs)
  {
  }

  // What a wipe takes from the receiver: windows and layouts of the epoch, and
  // nothing of any other; the failure counts stay.
  lemma WipeForgets(s: State, epoch: int, e: int, p: int)
    ensures var s' := WipeEpoch(s, epoch);
      && Lookup(s'.recv.replayWindows, e, p) == (if e == epoch then None else Lookup(s.recv.replayWindows, e, p))
      && Lookup(s'.recv.formatCache, e, p) == (if e == epoch then None else Lookup(s.recv.formatCache, e, p))
      && KeyFor(s'.keys, e, p) == (if e == epoch then None else KeyFor(s.keys, e, p))
      && Count(s', e, p) == Count(s, e, p)
      && s'.log == s.log && s'.drain == s.drain && s'.conf == s.conf
  {
  }

  // A teardown goes back to the initial state but for the settings, the drain
  // pass under way and its flags, the decode-side episode and the log.
  lemma TeardownStartsOver(s: State)
    ensures var start, t := Initial(s.conf.kidCodec, s.conf.preEpochQueueCap), Teardown(s);
      && t.keys == start.keys && t.recv == start.recv && t.drain.preEpochQueue == [] && t.encryptStarve == IDLE
      && t.conf == s.conf && t.starve == s.starve && t.starvePeerIndex == s.starvePeerIndex && t.log == s.log
      && t.drain == Drain([], s.drain.draining, s.drain.pendingDrain, s.drain.pass)
  {
  }

  // How a worker starts.
  lemma InitialDefaults(kidCodec: WireCodec, cap: nat)
    ensures var s := Initial(kidCodec, cap);
      && s.conf == Config(kidCodec, None, None, 8, 64, cap, false, -1)
      && s.keys.currentEpoch == -1 && s.keys.currentMinValidEpoch == 0 && s.keys.ctr == 0
      && s.keys.epochs == map[] && s.keys.wipeTimers == {}
      && (forall e, p :: Lookup(s.recv.replayWindows, e, p).None? && Lookup(s.recv.formatCache, e, p).None? && Count(s, e, p) == 0)
      && s.drain == Drain([], false, false, []) && !s.starve.active && !s.encryptStarve.active && s.log == []
  {
  }
}

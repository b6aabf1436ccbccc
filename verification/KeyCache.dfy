// src/chat/derive.ts: the cache of derived keys. Storage is a two-level map;
// recency is a second map keyed by the joined string of room and user.
module KeyCache {
  import opened Bytes
  import opened Lists

  const CACHE_MAX: nat := 256

  datatype DerivedKeys = DerivedKeys(aesKey: seq<byte>, salt: seq<byte>)

  type Rooms = map<string, map<string, DerivedKeys>>

  // The two maps of a cache; `order` lists the keys of the order map in
  // insertion order.
  datatype Cache = Cache(order: seq<string>, rooms: Rooms)

  // ------------------------------------------------------------ joined keys

  function Join(room: string, uid: string): string { room + ['\0'] + uid }

  function IndexOfNul(s: string): int {
    if s == "" then -1
    else if s[0] == '\0' then 0
    else var i := IndexOfNul(s[1..]); if i < 0 then -1 else i + 1
  }

  lemma {:induction false} IndexOfNulBounds(s: string)
    ensures -1 <= IndexOfNul(s) < |s|
  {
    if s != "" { IndexOfNulBounds(s[1..]); }
  }

  // Two slices around the first NUL; a slice to -1 drops the last character.
  function SplitKey(key: string): (string, string) {
    IndexOfNulBounds(key);
    var i := IndexOfNul(key);
    (if i >= 0 then key[..i] else if key == "" then "" else key[..|key| - 1], key[i + 1..])
  }

  predicate NulFree(s: string) { '\0' !in s }

  lemma {:induction false} IndexOfJoin(room: string, uid: string)
    ensures NulFree(room) ==> IndexOfNul(Join(room, uid)) == |room|
    ensures !NulFree(room) ==> 0 <= IndexOfNul(Join(room, uid)) < |room|
  {
    var key := Join(room, uid);
    if room != "" {
      assert key[1..] == Join(room[1..], uid);
      assert room == [room[0]] + room[1..];
      IndexOfJoin(room[1..], uid);
    }
  }

  lemma {:induction false} NulAtIndex(s: string)
    requires IndexOfNul(s) >= 0
    ensures IndexOfNul(s) < |s| && s[IndexOfNul(s)] == '\0'
  {
    IndexOfNulBounds(s);
    if s[0] != '\0' { NulAtIndex(s[1..]); }
  }

  // Splitting undoes joining exactly for rooms without a NUL.
  lemma SplitUndoesJoin(room: string, uid: string)
    ensures SplitKey(Join(room, uid)) == (room, uid) <==> NulFree(room)
  {
    IndexOfJoin(room, uid);
    IndexOfNulBounds(Join(room, uid));
    if NulFree(room) {
      assert Join(room, uid)[..|room|] == room && Join(room, uid)[|room| + 1..] == uid;
    } else {
      assert |SplitKey(Join(room, uid)).0| < |room|;
    }
  }

  // In every case the two parts join to the same key again.
  lemma JoinUndoesSplit(room: string, uid: string)
    ensures var q := SplitKey(Join(room, uid)); Join(q.0, q.1) == Join(room, uid)
  {
    var key := Join(room, uid);
    IndexOfJoin(room, uid);
    NulAtIndex(key);
    var i := IndexOfNul(key);
    assert key == key[..i] + [key[i]] + key[i + 1..];
  }

  // ---------------------------------------------------------- operations

  function Inner(rooms: Rooms, room: string): map<string, DerivedKeys> {
    if room in rooms then rooms[room] else map[]
  }

  function CacheGet(c: Cache, room: string, uid: string): Option<DerivedKeys> {
    if uid in Inner(c.rooms, room) then Some(Inner(c.rooms, room)[uid]) else None
  }

  function Without<T(==)>(s: seq<T>, gone: set<T>): seq<T> {
    if s == [] then [] else (if s[0] in gone then [] else [s[0]]) + Without(s[1..], gone)
  }

  function DropPair(rooms: Rooms, room: string, uid: string): Rooms {
    if room !in rooms then rooms
    else
      var inner := rooms[room] - {uid};
      if inner == map[] then rooms - {room} else rooms[room := inner]
  }

  function CacheSet(c: Cache, room: string, uid: string, value: DerivedKeys): Cache {
    var k := Join(room, uid);
    var full := k !in c.order && |c.order| >= CACHE_MAX;
    var (oldRoom, oldUid) := if full then SplitKey(c.order[0]) else ("", "");
    var kept := if full then Cache(c.order[1..], DropPair(c.rooms, oldRoom, oldUid)) else c;
    Cache(Without(kept.order, {k}) + [k], kept.rooms[room := Inner(kept.rooms, room)[uid := value]])
  }

  function CacheEvictRoom(c: Cache, room: string): Cache {
    Cache(Without(c.order, set uid | uid in Inner(c.rooms, room) :: Join(room, uid)), c.rooms - {room})
  }

  class KeyDerivationCache {
    var lruOrder: seq<string>
    var cache: Rooms

    function Abs(): Cache
      reads this
    {
      Cache(lruOrder, cache)
    }

    constructor ()
      ensures Abs() == Cache([], map[])
    {
      lruOrder := [];
      cache := map[];
    }

    method Get(roomId: string, senderUid: string) returns (r: Option<DerivedKeys>)
      ensures r == CacheGet(Abs(), roomId, senderUid)
    {
      if roomId in cache && senderUid in cache[roomId] { return Some(cache[roomId][senderUid]); }
      return None;
    }

    method Set(roomId: string, senderUid: string, value: DerivedKeys)
      modifies this
      ensures Abs() == CacheSet(old(Abs()), roomId, senderUid, value)
    {
      var k := Join(roomId, senderUid);
      if k !in lruOrder && |lruOrder| >= CACHE_MAX {
        var oldestKey := lruOrder[0];
        lruOrder := lruOrder[1..];
        var (oldRoom, oldUid) := SplitKey(oldestKey);
        if oldRoom in cache {
          var roomMap := cache[oldRoom] - {oldUid};
          cache := if |roomMap| == 0 then cache - {oldRoom} else cache[oldRoom := roomMap];
        }
      }
      Delete(k);
      lruOrder := lruOrder + [k];
      var roomMap := if roomId in cache then cache[roomId] else map[];
      cache := cache[roomId := roomMap[senderUid := value]];
    }

    method Delete(k: string)
      modifies this`lruOrder
      ensures lruOrder == Without(old(lruOrder), {k})
    {
      lruOrder := Without(lruOrder, {k});
    }

    method EvictRoom(roomId: string)
      modifies this
      ensures Abs() == CacheEvictRoom(old(Abs()), roomId)
    {
      if roomId !in cache {
        WithoutNothing(lruOrder, set uid | uid in Inner(cache, roomId) :: Join(roomId, uid));
        assert cache - {roomId} == cache;
        return;
      }
      var users := cache[roomId].Keys;
      var rest := users;
      ghost var gone: set<string> := {};
      WithoutNothing(lruOrder, gone);
      while rest != {}
        invariant rest <= users && cache == old(cache)
        invariant gone == set uid | uid in users - rest :: Join(roomId, uid)
        invariant lruOrder == Without(old(lruOrder), gone)
        decreases rest
      {
        var uid :| uid in rest;
        WithoutTwice(old(lruOrder), gone, {Join(roomId, uid)});
        Delete(Join(roomId, uid));
        gone := gone + {Join(roomId, uid)};
        rest := rest - {uid};
      }
      assert gone == set uid | uid in Inner(cache, roomId) :: Join(roomId, uid);
      cache := cache - {roomId};
    }
  }

  lemma {:induction false} WithoutNothing<T>(s: seq<T>, gone: set<T>)
    requires gone == {}
    ensures Without(s, gone) == s
  {
    if s != [] { WithoutNothing(s[1..], gone); }
  }

  lemma WithoutCons<T>(x: T, rest: seq<T>, gone: set<T>)
    ensures Without([x] + rest, gone) == if x in gone then Without(rest, gone) else [x] + Without(rest, gone)
  {
    assert ([x] + rest)[1..] == rest;
  }

  lemma {:induction false} WithoutTwice<T>(s: seq<T>, a: set<T>, b: set<T>)
    ensures Without(Without(s, a), b) == Without(s, a + b)
  {
    if s != [] {
      WithoutTwice(s[1..], a, b);
      WithoutCons(s[0], s[1..], a);
      WithoutCons(s[0], s[1..], a + b);
      assert s == [s[0]] + s[1..];
      if s[0] !in a { WithoutCons(s[0], Without(s[1..], a), b); }
    }
  }

  // ------------------------------------------------- the simple recency list

  type Pair = (string, string)

  // Pairs from least to most recently set, and their values.
  datatype Lru = Lru(recent: seq<Pair>, value: map<Pair, DerivedKeys>)

  predicate Full(l: Lru, p: Pair) { p !in l.recent && |l.recent| >= CACHE_MAX }

  function Evicted(l: Lru): Lru
    requires l.recent != []
  {
    Lru(l.recent[1..], l.value - {l.recent[0]})
  }

  function LruSet(l: Lru, p: Pair, v: DerivedKeys): Lru {
    var kept := if Full(l, p) then Evicted(l) else l;
    Lru(Without(kept.recent, {p}) + [p], kept.value[p := v])
  }

  ghost function OfRoom(l: Lru, room: string): set<Pair> { set p | p in l.recent && p.0 == room }

  ghost function LruEvictRoom(l: Lru, room: string): Lru {
    Lru(Without(l.recent, OfRoom(l, room)), l.value - OfRoom(l, room))
  }

  ghost predicate GoodLru(l: Lru) {
    && NoDup(l.recent) && |l.recent| <= CACHE_MAX && Elems(l.recent) == l.value.Keys
    && forall p | p in l.value :: NulFree(p.0)
  }

  function Joined(ps: seq<Pair>): seq<string> {
    if ps == [] then [] else [Join(ps[0].0, ps[0].1)] + Joined(ps[1..])
  }

  // The cache represents the list: the order map holds exactly the joined keys
  // of the stored pairs, and no inner map is empty.
  ghost predicate Represents(c: Cache, l: Lru) {
    && GoodLru(l)
    && c.order == Joined(l.recent)
    && SamePairs(c.rooms, l.value)
  }

  ghost predicate SamePairs(rooms: Rooms, value: map<Pair, DerivedKeys>) {
    && (forall r | r in rooms :: rooms[r] != map[])
    && (forall r, u :: u in Inner(rooms, r) <==> (r, u) in value)
    && (forall r, u | u in Inner(rooms, r) :: Inner(rooms, r)[u] == value[(r, u)])
  }

  lemma JoinInjective(p: Pair, q: Pair)
    requires NulFree(p.0) && NulFree(q.0) && Join(p.0, p.1) == Join(q.0, q.1)
    ensures p == q
  {
    SplitUndoesJoin(p.0, p.1);
    SplitUndoesJoin(q.0, q.1);
  }

  ghost predicate AllNulFree(ps: seq<Pair>) { forall p | p in ps :: NulFree(p.0) }

  lemma {:induction false} JoinedMembers(ps: seq<Pair>, p: Pair)
    requires AllNulFree(ps) && NulFree(p.0)
    ensures Join(p.0, p.1) in Joined(ps) <==> p in ps
  {
    if ps != [] {
      assert ps == [ps[0]] + ps[1..];
      JoinedMembers(ps[1..], p);
      if Join(p.0, p.1) == Join(ps[0].0, ps[0].1) { JoinInjective(p, ps[0]); }
    }
  }

  lemma {:induction false} JoinedSize(ps: seq<Pair>)
    ensures |Joined(ps)| == |ps|
  {
    if ps != [] { JoinedSize(ps[1..]); }
  }

  lemma {:induction false} JoinedWithout(ps: seq<Pair>, gone: set<Pair>, keys: set<string>)
    requires AllNulFree(ps)
    requires forall p | p in ps :: p in gone <==> Join(p.0, p.1) in keys
    ensures Without(Joined(ps), keys) == Joined(Without(ps, gone))
  {
    if ps != [] {
      var p, rest := ps[0], ps[1..];
      assert ps == [p] + rest;
      JoinedWithout(rest, gone, keys);
      WithoutCons(p, rest, gone);
      WithoutCons(Join(p.0, p.1), Joined(rest), keys);
      JoinedCons(p, Without(rest, gone));
    }
  }

  lemma JoinedCons(p: Pair, rest: seq<Pair>)
    ensures Joined([p] + rest) == [Join(p.0, p.1)] + Joined(rest)
  {
    assert ([p] + rest)[1..] == rest;
  }

  lemma {:induction false} JoinedSnoc(ps: seq<Pair>, p: Pair)
    ensures Joined(ps + [p]) == Joined(ps) + [Join(p.0, p.1)]
  {
    if ps == [] {
      assert ps + [p] == [p];
      assert Joined([p]) == [Join(p.0, p.1)] + Joined([]);
    } else {
      assert (ps + [p])[1..] == ps[1..] + [p];
      JoinedSnoc(ps[1..], p);
    }
  }

  lemma {:induction false} WithoutFacts<T>(s: seq<T>, gone: set<T>)
    requires NoDup(s)
    ensures NoDup(Without(s, gone)) && Elems(Without(s, gone)) == Elems(s) - gone
    ensures |Without(s, gone)| <= |s|
  {
    if s != [] {
      assert s == [s[0]] + s[1..];
      ElemsConcat([s[0]], s[1..]);
      WithoutFacts(s[1..], gone);
      ElemsConcat([s[0]], Without(s[1..], gone));
      assert s[0] !in Elems(s[1..]);
    }
  }

  // --------------------------------------------------------- steps agree

  lemma EvictedGood(l: Lru)
    requires GoodLru(l) && l.recent != []
    ensures GoodLru(Evicted(l)) && l.recent[0] in l.value
  {
    var p := l.recent[0];
    assert p in Elems(l.recent);
    assert l.recent == [p] + l.recent[1..];
    ElemsConcat([p], l.recent[1..]);
    assert Elems([p]) == {p};
    assert p !in Elems(l.recent[1..]);
  }

  lemma EvictOldest(c: Cache, l: Lru)
    requires Represents(c, l) && l.recent != []
    ensures c.order == [Join(l.recent[0].0, l.recent[0].1)] + c.order[1..]
    ensures SplitKey(c.order[0]) == l.recent[0]
    ensures Represents(Cache(c.order[1..], DropPair(c.rooms, l.recent[0].0, l.recent[0].1)), Evicted(l))
  {
    hide GoodLru, SamePairs, SplitKey, DropPair, Join;
    var p := l.recent[0];
    EvictedGood(l);
    assert NulFree(p.0) by { GoodIsNulFree(l, p); }
    SplitUndoesJoin(p.0, p.1);
    DropPairAgrees(c.rooms, l.value, p);
  }

  lemma GoodIsNulFree(l: Lru, p: Pair)
    requires GoodLru(l) && (p in l.value || p in l.recent)
    ensures NulFree(p.0) && p in l.value
  {
    if p in l.recent { assert p in Elems(l.recent); }
  }

  lemma DropPairAgrees(rooms: Rooms, value: map<Pair, DerivedKeys>, p: Pair)
    requires SamePairs(rooms, value) && p in value
    ensures SamePairs(DropPair(rooms, p.0, p.1), value - {p})
  {
    var dropped := DropPair(rooms, p.0, p.1);
    assert p.1 in Inner(rooms, p.0);
    assert forall r, u :: u in Inner(dropped, r) <==> u in Inner(rooms, r) && (r, u) != p;
  }

  lemma PutPairAgrees(rooms: Rooms, value: map<Pair, DerivedKeys>, p: Pair, v: DerivedKeys)
    requires SamePairs(rooms, value)
    ensures SamePairs(rooms[p.0 := Inner(rooms, p.0)[p.1 := v]], value[p := v])
  {
    var put := rooms[p.0 := Inner(rooms, p.0)[p.1 := v]];
    assert p.1 in put[p.0];
    assert forall r, u :: u in Inner(put, r) <==> u in Inner(rooms, r) || (r, u) == p;
  }

  lemma SetAgrees(c: Cache, l: Lru, p: Pair, v: DerivedKeys)
    requires Represents(c, l) && NulFree(p.0)
    ensures Represents(CacheSet(c, p.0, p.1, v), LruSet(l, p, v))
  {
    hide GoodLru, SamePairs, SplitKey, DropPair, Join, Without, Joined;
    assert AllNulFree(l.recent) by { GoodNulFree(l); }
    JoinedMembers(l.recent, p);
    JoinedSize(l.recent);
    var full := Full(l, p);
    var kept := if full then Evicted(l) else l;
    if full { EvictOldest(c, l); }
    var keptCache := if full then Cache(c.order[1..], DropPair(c.rooms, l.recent[0].0, l.recent[0].1)) else c;
    assert Represents(keptCache, kept);
    assert p in kept.recent || |kept.recent| < CACHE_MAX by { GoodSize(l); }
    SetKept(keptCache, kept, p, v);
  }

  lemma GoodNulFree(l: Lru)
    requires GoodLru(l)
    ensures AllNulFree(l.recent)
  {
    forall p | p in l.recent ensures NulFree(p.0) { GoodIsNulFree(l, p); }
  }

  lemma GoodSize(l: Lru)
    requires GoodLru(l)
    ensures |l.recent| <= CACHE_MAX
  {
  }

  // Moving an element to the end.
  lemma MovedToEnd<T>(s: seq<T>, x: T)
    requires NoDup(s)
    ensures var moved := Without(s, {x}) + [x];
      && NoDup(moved) && Elems(moved) == Elems(s) + {x} && |moved| == if x in s then |s| else |s| + 1
  {
    hide Without;
    var rest := Without(s, {x});
    WithoutFacts(s, {x});
    assert x !in rest by { assert x !in Elems(rest); }
    NoDupSnoc(rest, x);
    ElemsConcat(rest, [x]);
    assert Elems([x]) == {x};
    NoDupSize(rest);
    NoDupSize(s);
    assert x in Elems(s) <==> x in s;
  }

  lemma PutGood(l: Lru, p: Pair, v: DerivedKeys)
    requires GoodLru(l) && NulFree(p.0) && (p in l.recent || |l.recent| < CACHE_MAX)
    ensures GoodLru(Lru(Without(l.recent, {p}) + [p], l.value[p := v]))
  {
    hide Without, NulFree, NoDup, Elems;
    MovedToEnd(l.recent, p);
  }

  lemma SetKept(c: Cache, l: Lru, p: Pair, v: DerivedKeys)
    requires Represents(c, l) && NulFree(p.0) && (p in l.recent || |l.recent| < CACHE_MAX)
    ensures var order := Without(c.order, {Join(p.0, p.1)}) + [Join(p.0, p.1)];
      Represents(Cache(order, c.rooms[p.0 := Inner(c.rooms, p.0)[p.1 := v]]),
                 Lru(Without(l.recent, {p}) + [p], l.value[p := v]))
  {
    hide GoodLru, SamePairs, Join, Without, Joined, NulFree;
    var k := Join(p.0, p.1);
    GoodNulFree(l);
    forall q | q in l.recent ensures q in {p} <==> Join(q.0, q.1) in {k} {
      if Join(q.0, q.1) == k { JoinInjective(q, p); }
    }
    JoinedWithout(l.recent, {p}, {k});
    JoinedSnoc(Without(l.recent, {p}), p);
    PutGood(l, p, v);
    PutPairAgrees(c.rooms, l.value, p, v);
  }

  lemma DropRoomAgrees(rooms: Rooms, value: map<Pair, DerivedKeys>, room: string, gone: set<Pair>)
    requires SamePairs(rooms, value)
    requires forall p | p in value :: p in gone <==> p.0 == room
    ensures SamePairs(rooms - {room}, value - gone)
  {
    assert forall r, u :: u in Inner(rooms - {room}, r) <==> u in Inner(rooms, r) && r != room;
  }

  lemma RoomGood(l: Lru, room: string)
    requires GoodLru(l)
    ensures GoodLru(LruEvictRoom(l, room))
  {
    hide Without, NulFree;
    WithoutFacts(l.recent, OfRoom(l, room));
  }

  // A stored pair belongs to the room exactly when its joined key is evicted.
  lemma RoomKeys(c: Cache, l: Lru, room: string, q: Pair)
    requires Represents(c, l) && q in l.recent
    ensures q in OfRoom(l, room) <==> Join(q.0, q.1) in set uid | uid in Inner(c.rooms, room) :: Join(room, uid)
  {
    hide Join;
    var keys := set uid | uid in Inner(c.rooms, room) :: Join(room, uid);
    GoodIsNulFree(l, q);
    assert (q.0, q.1) == q;
    if Join(q.0, q.1) in keys {
      var uid :| uid in Inner(c.rooms, room) && Join(q.0, q.1) == Join(room, uid);
      assert (room, uid) in l.value;
      JoinInjective(q, (room, uid));
    }
  }

  lemma EvictRoomAgrees(c: Cache, l: Lru, room: string)
    requires Represents(c, l)
    ensures Represents(CacheEvictRoom(c, room), LruEvictRoom(l, room))
  {
    hide GoodLru, SamePairs, Join, Without, Joined, NulFree, Inner;
    var keys := set uid | uid in Inner(c.rooms, room) :: Join(room, uid);
    var gone := OfRoom(l, room);
    GoodNulFree(l);
    forall q | q in l.recent ensures q in gone <==> Join(q.0, q.1) in keys { RoomKeys(c, l, room, q); }
    JoinedWithout(l.recent, gone, keys);
    RoomGood(l, room);
    forall p | p in l.value ensures p in gone <==> p.0 == room { GoodIsListed(l, p); }
    DropRoomAgrees(c.rooms, l.value, room, gone);
  }

  lemma GoodIsListed(l: Lru, p: Pair)
    requires GoodLru(l) && p in l.value
    ensures p in l.recent
  {
    assert p in Elems(l.recent);
  }

  // ------------------------------------------------------------ whole runs

  datatype Op = SetOp(pair: Pair, value: DerivedKeys) | EvictOp(room: string)

  function Run(ops: seq<Op>): Cache
    decreases |ops|
  {
    if ops == [] then Cache([], map[])
    else
      var c := Run(ops[..|ops| - 1]);
      match ops[|ops| - 1]
      case SetOp(p, v) => CacheSet(c, p.0, p.1, v)
      case EvictOp(room) => CacheEvictRoom(c, room)
  }

  ghost function RunLru(ops: seq<Op>): Lru
    decreases |ops|
  {
    if ops == [] then Lru([], map[])
    else
      var l := RunLru(ops[..|ops| - 1]);
      match ops[|ops| - 1]
      case SetOp(p, v) => LruSet(l, p, v)
      case EvictOp(room) => LruEvictRoom(l, room)
  }

  ghost predicate NulFreeOps(ops: seq<Op>) {
    forall i | 0 <= i < |ops| && ops[i].SetOp? :: NulFree(ops[i].pair.0)
  }

  // The two maps stay in step over every run.
  lemma {:induction false} RunAgrees(ops: seq<Op>)
    requires NulFreeOps(ops)
    ensures Represents(Run(ops), RunLru(ops))
    decreases |ops|
  {
    if ops != [] {
      var init, last := ops[..|ops| - 1], ops[|ops| - 1];
      RunAgrees(init);
      match last
      case SetOp(p, v) => SetAgrees(Run(init), RunLru(init), p, v);
      case EvictOp(room) => EvictRoomAgrees(Run(init), RunLru(init), room);
    }
  }

  // When the pair was last set, counting from 1; 0 for never.
  function LastSet(ops: seq<Op>, p: Pair): nat
    decreases |ops|
  {
    if ops == [] then 0
    else if ops[|ops| - 1].SetOp? && ops[|ops| - 1].pair == p then |ops|
    else LastSet(ops[..|ops| - 1], p)
  }

  ghost predicate Ascending(ps: seq<Pair>, ops: seq<Op>) {
    forall i, j | 0 <= i < j < |ps| :: LastSet(ops, ps[i]) < LastSet(ops, ps[j])
  }

  lemma {:induction false} LastSetBounded(ops: seq<Op>, p: Pair)
    ensures LastSet(ops, p) <= |ops|
    decreases |ops|
  {
    if ops != [] { LastSetBounded(ops[..|ops| - 1], p); }
  }

  // The list is in order of the last set.
  lemma {:induction false} RecencyIsLastSet(ops: seq<Op>)
    ensures Ascending(RunLru(ops).recent, ops)
    decreases |ops|
  {
    hide Ascending, Without, LastSet;
    if ops == [] {
      NothingAscends(ops);
    } else {
      var init, last := ops[..|ops| - 1], ops[|ops| - 1];
      RecencyIsLastSet(init);
      var l := RunLru(init);
      match last
      case SetOp(p, v) =>
        var kept := if Full(l, p) then l.recent[1..] else l.recent;
        if Full(l, p) { AscendingTail(l.recent, init); }
        AscendingWithout(kept, {p}, init);
        AscendingSnoc(Without(kept, {p}), init, last);
        assert ops == init + [last];
      case EvictOp(room) =>
        AscendingWithout(l.recent, OfRoom(l, room), init);
        AscendingUnset(Without(l.recent, OfRoom(l, room)), ops);
    }
  }

  lemma NothingAscends(ops: seq<Op>)
    ensures Ascending([], ops)
  {
  }

  lemma AscendingTail(ps: seq<Pair>, ops: seq<Op>)
    requires Ascending(ps, ops) && ps != []
    ensures Ascending(ps[1..], ops)
  {
    hide LastSet;
  }

  lemma AscendingSnoc(rest: seq<Pair>, init: seq<Op>, last: Op)
    requires last.SetOp? && last.pair !in rest
    requires Ascending(rest, init)
    ensures Ascending(rest + [last.pair], init + [last])
  {
    forall p ensures LastSet(init, p) <= |init| { LastSetBounded(init, p); }
    assert (init + [last])[..|init|] == init;
  }

  lemma AscendingUnset(ps: seq<Pair>, ops: seq<Op>)
    requires ops != [] && ops[|ops| - 1].EvictOp? && Ascending(ps, ops[..|ops| - 1])
    ensures Ascending(ps, ops)
  {
  }

  lemma {:induction false} WithoutMembers<T>(s: seq<T>, gone: set<T>, x: T)
    ensures x in Without(s, gone) <==> x in s && x !in gone
  {
    if s != [] { WithoutMembers(s[1..], gone, x); }
  }

  lemma {:induction false} AscendingWithout(ps: seq<Pair>, gone: set<Pair>, ops: seq<Op>)
    requires Ascending(ps, ops)
    ensures Ascending(Without(ps, gone), ops)
    ensures forall p | p in Without(ps, gone) :: p !in gone
  {
    hide LastSet;
    if ps != [] {
      var rest := Without(ps[1..], gone);
      AscendingWithout(ps[1..], gone, ops);
      forall p | p in rest ensures LastSet(ops, ps[0]) < LastSet(ops, p) {
        WithoutMembers(ps[1..], gone, p);
        var k :| 1 <= k < |ps| && ps[k] == p;
      }
    }
  }

  // What a lookup must return, from the history alone: the last value set,
  // unless its room was evicted since, or a later set found the cache full and
  // this pair the least recently set.
  ghost function Expected(ops: seq<Op>, p: Pair): Option<DerivedKeys>
    decreases |ops|
  {
    if ops == [] then None
    else
      var init := ops[..|ops| - 1];
      match ops[|ops| - 1]
      case SetOp(q, v) =>
        if q == p then Some(v)
        else if Full(RunLru(init), q) && RunLru(init).recent[0] == p then None
        else Expected(init, p)
      case EvictOp(room) => if p.0 == room then None else Expected(init, p)
  }

  lemma {:induction false} GetIsExpected(ops: seq<Op>, p: Pair)
    requires NulFreeOps(ops)
    ensures CacheGet(Run(ops), p.0, p.1) == Expected(ops, p)
    decreases |ops|
  {
    RunAgrees(ops);
    assert (p.0, p.1) == p;
    if ops != [] {
      var init, last := ops[..|ops| - 1], ops[|ops| - 1];
      RunAgrees(init);
      GetIsExpected(init, p);
      var l := RunLru(init);
      assert p in l.value <==> p in Elems(l.recent);
    }
  }

  // Without the restriction on rooms the join is ambiguous: every pair whose
  // room has a NUL shares its entry of the order map with another pair, and
  // both are stored.
  lemma NulRoomsCollide(room: string, uid: string, v: DerivedKeys, v': DerivedKeys)
    requires !NulFree(room)
    ensures var q := SplitKey(Join(room, uid));
      var c := Run([SetOp((room, uid), v), SetOp(q, v')]);
      && q != (room, uid) && c.order == [Join(room, uid)]
      && CacheGet(c, room, uid) == Some(v) && CacheGet(c, q.0, q.1) == Some(v')
  {
    hide Join, SplitKey, NulFree;
    SplitUndoesJoin(room, uid);
    JoinUndoesSplit(room, uid);
    var q, k := SplitKey(Join(room, uid)), Join(room, uid);
    var first, second := SetOp((room, uid), v), SetOp(q, v');
    assert [first, second][..1] == [first] && [first][..0] == [];
    WithoutNothing<string>([], {});
    assert Without<string>([], {k}) == [];
    assert Run([first]) == Cache([k], map[room := map[uid := v]]);
    WithoutCons(k, [], {k});
    assert [k] + [] == [k];
  }

  // And eviction forgets the wrong pair: a set that finds the cache full
  // forgets the stored pair at the head of the order exactly when the room of
  // that pair has no NUL.
  lemma HeadIsForgottenIff(c: Cache, room: string, uid: string, p: Pair, v: DerivedKeys)
    requires |c.order| >= CACHE_MAX && c.order[0] == Join(room, uid) && Join(p.0, p.1) !in c.order
    requires CacheGet(c, room, uid).Some?
    ensures CacheGet(CacheSet(c, p.0, p.1, v), room, uid).None? <==> NulFree(room)
  {
    hide Join, SplitKey, NulFree, Without;
    SplitUndoesJoin(room, uid);
    var q := SplitKey(c.order[0]);
    assert p != (room, uid) by { assert c.order[0] in c.order; }
    var kept := DropPair(c.rooms, q.0, q.1);
    assert uid in Inner(kept, room) <==> q != (room, uid);
  }
}

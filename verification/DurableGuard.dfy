// src/chat/durable-replay.ts: the guard as the object it is, with cached
// windows shared between the cache and the queued persists.
module DurableGuard {
  import opened Bytes
  import opened Lists
  import opened ReplayWindow
  import opened DurableReplay

  // One cached window: a set for the checks, a list for the order.
  class MemWindow {
    var members: set<Ctr>
    var order: seq<Ctr>

    ghost predicate Valid()
      reads this
    {
      members == Elems(order)
    }

    constructor (order: seq<Ctr>)
      ensures Valid() && this.order == order
    {
      this.members := set c | c in order;
      this.order := order;
    }
  }

  // The persistent store that outlives a guard.
  class ReplayStore {
    var windows: map<Key, seq<Ctr>>

    constructor ()
      ensures windows == map[]
    {
      windows := map[];
    }
  }

  datatype Job = Job(key: Key, win: MemWindow)

  ghost predicate Shrunk(now: map<Key, MemWindow>, before: map<Key, MemWindow>) {
    now.Keys <= before.Keys && forall k | k in now :: now[k] == before[k]
  }

  ghost function JobKeys(tail: seq<Job>): (keys: seq<Key>)
    ensures |keys| == |tail|
  {
    seq(|tail|, i requires 0 <= i < |tail| => tail[i].key)
  }

  // Every window belongs to one key, and a queued persist writes the window
  // that is cached under its key: no job outlives its cache entry.
  ghost predicate Links(mem: map<Key, MemWindow>, tail: seq<Job>) {
    && (forall k, k' | k in mem && k' in mem && k != k' :: mem[k] != mem[k'])
    && (forall i | 0 <= i < |tail| :: tail[i].key in mem && mem[tail[i].key] == tail[i].win)
  }

  // The in-flight counters count the queued persists.
  ghost predicate Counts(persisting: map<Key, nat>, jobs: seq<Key>) {
    && (forall k | k in persisting :: persisting[k] > 0)
    && (forall k :: multiset(jobs)[k] == if k in persisting then persisting[k] else 0)
  }

  lemma LinksInsert(mem: map<Key, MemWindow>, tail: seq<Job>, key: Key, win: MemWindow)
    requires Links(mem, tail) && key !in mem && forall k | k in mem :: mem[k] != win
    ensures Links(mem[key := win], tail)
  {
  }

  lemma LinksDrop(mem: map<Key, MemWindow>, tail: seq<Job>, key: Key)
    requires Links(mem, tail) && key !in JobKeys(tail)
    ensures Links(mem - {key}, tail)
  {
    forall i | 0 <= i < |tail| ensures tail[i].key != key {
      assert JobKeys(tail)[i] == tail[i].key;
    }
  }

  lemma QueueJob(mem: map<Key, MemWindow>, tail: seq<Job>, persisting: map<Key, nat>, key: Key)
    requires Links(mem, tail) && Counts(persisting, JobKeys(tail)) && key in mem
    ensures var tail' := tail + [Job(key, mem[key])];
      && JobKeys(tail') == JobKeys(tail) + [key]
      && Links(mem, tail')
      && Counts(persisting[key := (if key in persisting then persisting[key] else 0) + 1], JobKeys(tail'))
  {
    var tail' := tail + [Job(key, mem[key])];
    assert JobKeys(tail') == JobKeys(tail) + [key];
  }

  function Released(persisting: map<Key, nat>, key: Key): map<Key, nat> {
    var n := if key in persisting then persisting[key] else 0;
    if n <= 1 then persisting - {key} else persisting[key := n - 1]
  }

  lemma UnqueueJob(mem: map<Key, MemWindow>, tail: seq<Job>, persisting: map<Key, nat>)
    requires Links(mem, tail) && Counts(persisting, JobKeys(tail)) && tail != []
    ensures tail[0].key in mem && mem[tail[0].key] == tail[0].win
    ensures JobKeys(tail)[0] == tail[0].key && JobKeys(tail[1..]) == JobKeys(tail)[1..]
    ensures Links(mem, tail[1..]) && Counts(Released(persisting, tail[0].key), JobKeys(tail[1..]))
  {
    var jobs := JobKeys(tail[1..]);
    assert JobKeys(tail) == [tail[0].key] + jobs;
    assert multiset(JobKeys(tail)) == multiset{tail[0].key} + multiset(jobs);
  }

  class DurableReplayGuard {
    const available: bool
    const window: nat
    const store: ReplayStore
    var mem: map<Key, MemWindow>
    var memKeys: seq<Key>
    var hydrating: set<Key>
    var persisting: map<Key, nat>
    var persistTail: seq<Job>

    predicate Enabled() { available && window != 0 }

    ghost function Jobs(): seq<Key>
      reads `persistTail
    {
      JobKeys(persistTail)
    }

    ghost function Orders(): (orders: map<Key, seq<Ctr>>)
      reads `mem, mem.Values
      ensures orders.Keys == mem.Keys && forall k | k in mem :: orders[k] == mem[k].order
    {
      map k | k in mem :: mem[k].order
    }

    lemma OrdersAre(expected: map<Key, seq<Ctr>>)
      requires expected.Keys == mem.Keys && forall k | k in mem :: expected[k] == mem[k].order
      ensures Orders() == expected
    {
    }

    ghost function Abs(): Guard
      reads this, store, mem.Values
    {
      Guard(if available then window else 0, Orders(), memKeys, hydrating, Jobs(), store.windows)
    }

    // The cached windows are well formed, not shared, and written by the
    // persists queued for their keys.
    ghost predicate Linked()
      reads `mem, `persistTail, mem.Values
    {
      Links(mem, persistTail) && forall k | k in mem :: mem[k].Valid()
    }

    ghost predicate Counted()
      reads `persistTail, `persisting
    {
      Counts(persisting, Jobs())
    }

    ghost predicate Valid()
      reads this, store, mem.Values
    {
      if Enabled() then
        Inv(Abs()) && Linked() && Counted()
      else
        mem == map[] && memKeys == [] && hydrating == {} && persisting == map[] && persistTail == []
    }

    constructor (window: Option<int>, available: bool, store: ReplayStore)
      requires forall k | k in store.windows :: NoDup(store.windows[k])
      ensures Valid() && this.store == store && this.available == available
      ensures this.window == ResolveWindow(window)
      ensures Abs() == Guard(if available then ResolveWindow(window) else 0, map[], [], {}, [], store.windows)
    {
      this.available := available;
      this.window := ResolveWindow(window);
      this.store := store;
      this.mem := map[];
      this.memKeys := [];
      this.hydrating := {};
      this.persisting := map[];
      this.persistTail := [];
    }

    // First half of hydrate: remember that a read of this key is in flight.
    method StartHydrate(key: Key)
      requires Valid() && Enabled()
      modifies this`hydrating
      ensures Valid()
      ensures Abs() == DurableReplay.StartHydrate(old(Abs()), key)
    {
      hide Inv, Linked, Counted, Orders, JobKeys;
      StartHydrateKeeps(Abs(), key);
      if key in mem { return; }
      if key in hydrating {
        assert hydrating + {key} == hydrating;
        return;
      }
      hydrating := hydrating + {key};
    }

    // Position of the oldest cache entry that may be dropped, or past the end.
    method FirstEvictable(justHydrated: Key) returns (i: nat)
      requires Counted()
      ensures i <= |memKeys|
      ensures var keep := {justHydrated} + hydrating + Elems(Jobs());
        && (forall j | 0 <= j < i :: memKeys[j] in keep)
        && (i < |memKeys| ==> memKeys[i] !in keep && memKeys[i] !in Jobs())
    {
      i := 0;
      while i < |memKeys|
        invariant 0 <= i <= |memKeys|
        invariant forall j | 0 <= j < i :: memKeys[j] in {justHydrated} + hydrating + Elems(Jobs())
      {
        var key := memKeys[i];
        JobKey(key);
        if key != justHydrated && key !in hydrating && key !in persisting { return; }
        i := i + 1;
      }
    }

    lemma JobKey(key: Key)
      requires Counted()
      ensures key in persisting <==> key in Elems(Jobs())
    {
      assert multiset(Jobs())[key] > 0 <==> key in Jobs();
    }

    ghost predicate Indexed()
      reads `mem, `memKeys
    {
      NoDup(memKeys) && Elems(memKeys) == mem.Keys
    }

    lemma SizeOfKeys()
      requires Indexed()
      ensures |mem| == |memKeys|
    {
      NoDupSize(memKeys);
      assert |mem| == |mem.Keys|;
    }

    // trimMemCache: repeatedly drop the oldest unprotected entry.
    method TrimMemCache(justHydrated: Key)
      requires Indexed() && Counted() && Linked()
      modifies this`mem, this`memKeys
      ensures Indexed() && Linked() && Shrunk(mem, old(mem))
      ensures memKeys == TrimKeys(old(memKeys), Excess(|old(memKeys)|), {justHydrated} + hydrating + Elems(old(Jobs())))
    {
      ghost var keep := {justHydrated} + hydrating + Elems(Jobs());
      ghost var target := TrimKeys(memKeys, Excess(|memKeys|), keep);
      hide TrimKeys, Counted, Linked, JobKeys, NoDup, Elems;
      while |mem| > REPLAY_MEM_CACHE_CAP
        invariant Indexed() && Counted() && Linked() && Shrunk(mem, old(mem))
        invariant TrimKeys(memKeys, Excess(|memKeys|), keep) == target
        decreases |memKeys|
      {
        SizeOfKeys();
        var i := FirstEvictable(justHydrated);
        if i == |memKeys| {
          AllKept(memKeys, Excess(|memKeys|), keep);
          return;
        }
        DropFirst(memKeys, i, keep);
        DropKey(i);
      }
      SizeOfKeys();
      AllKeptZero(memKeys, keep);
    }

    method DropKey(i: nat)
      requires Indexed() && Linked() && i < |memKeys| && memKeys[i] !in Jobs()
      modifies this`mem, this`memKeys
      ensures Indexed() && Linked()
      ensures Shrunk(mem, old(mem)) && memKeys == old(memKeys)[..i] + old(memKeys)[i + 1..]
    {
      RemoveAt(memKeys, i);
      LinksDrop(mem, persistTail, memKeys[i]);
      hide NoDup, Elems, Links, JobKeys;
      mem := mem - {memKeys[i]};
      memKeys := memKeys[..i] + memKeys[i + 1..];
    }

    // hydrate: the cached window, read from the store when it is not cached.
    method Hydrate(key: Key) returns (win: MemWindow)
      requires Valid() && Enabled()
      modifies this`mem, this`memKeys, this`hydrating
      ensures Valid() && key in mem && win == mem[key]
      ensures fresh(mem.Values - old(mem.Values))
      ensures Abs() == DurableReplay.Hydrate(old(Abs()), key)
    {
      HydrateKeeps(Abs(), key);
      assert Indexed();
      hide Inv, Linked, Counted, Orders, JobKeys, NoDup, Elems, TrimKeys, Restrict, Excess, LastN;
      if key in mem { return mem[key]; }
      HydrateMiss(Abs(), key);
      hide DurableReplay.Hydrate;
      win := HydrateFromStore(key);
    }

    method HydrateFromStore(key: Key) returns (win: MemWindow)
      requires Indexed() && Linked() && Counted() && key !in mem
      modifies this`mem, this`memKeys, this`hydrating
      ensures Linked() && key in mem && win == mem[key]
      ensures fresh(mem.Values - old(mem.Values))
      ensures hydrating == old(hydrating) - {key}
      ensures memKeys == TrimKeys(old(memKeys) + [key], Excess(|old(memKeys) + [key]|), {key} + hydrating + Elems(Jobs()))
      ensures Orders() == Restrict(old(Orders())[key := LastN(Lookup(store.windows, key), window)], memKeys)
    {
      hide Linked, Counted, JobKeys, NoDup, TrimKeys, Restrict, Excess, LastN, Orders;
      win := Load(key);
      ghost var loaded := Orders();
      assert loaded.Keys == mem.Keys && forall k | k in mem :: loaded[k] == mem[k].order;
      ghost var keys := memKeys;
      NewestIsKept(keys, {key} + hydrating + Elems(Jobs()), key);
      TrimMemCache(key);
      assert key in Elems(memKeys);
      OrdersAre(Restrict(loaded, memKeys));
    }

    // The read, and its window entering the cache.
    method Load(key: Key) returns (win: MemWindow)
      requires Indexed() && Linked() && key !in mem
      modifies this`mem, this`memKeys, this`hydrating
      ensures Indexed() && Linked() && fresh(win) && mem == old(mem)[key := win]
      ensures memKeys == old(memKeys) + [key] && hydrating == old(hydrating) - {key}
      ensures Orders() == old(Orders())[key := LastN(Lookup(store.windows, key), window)]
    {
      var order: seq<Ctr> := [];
      if key in store.windows { order := store.windows[key]; }
      order := LastN(order, window);
      hide NoDup, Elems, Links, LastN, Orders;
      win := new MemWindow(order);
      Insert(key, win);
    }

    method Insert(key: Key, win: MemWindow)
      requires Indexed() && Linked() && key !in mem && win.Valid() && forall k | k in mem :: mem[k] != win
      modifies this`mem, this`memKeys, this`hydrating
      ensures Indexed() && Linked() && mem == old(mem)[key := win]
      ensures memKeys == old(memKeys) + [key] && hydrating == old(hydrating) - {key}
      ensures Orders() == old(Orders())[key := win.order]
    {
      NoDupSnoc(memKeys, key);
      ElemsConcat(memKeys, [key]);
      assert Elems([key]) == {key};
      LinksInsert(mem, persistTail, key, win);
      hide NoDup, Elems, Links, Orders;
      ghost var orders := Orders();
      mem := mem[key := win];
      memKeys := memKeys + [key];
      hydrating := hydrating - {key};
      OrdersAre(orders[key := win.order]);
    }

    method Check(key: Key, ctr: Ctr) returns (ok: bool)
      requires Valid()
      modifies this`mem, this`memKeys, this`hydrating
      ensures Valid() && fresh(mem.Values - old(mem.Values))
      ensures Abs() == if Enabled() then DurableReplay.Hydrate(old(Abs()), key) else old(Abs())
      ensures ok == (Enabled() ==> ctr !in View(old(Abs()), key))
    {
      if !available || window == 0 { return true; }
      HydrateKeeps(Abs(), key);
      hide Inv, DurableReplay.Hydrate;
      var win := Hydrate(key);
      assert View(Abs(), key) == win.order;
      return ctr !in win.members;
    }

    // Mark the key as having a persist in flight, then extend the window, then
    // queue the persist.
    method Accept(key: Key, ctr: Ctr)
      requires Valid()
      modifies this, mem.Values
      ensures Valid() && fresh(mem.Values - old(mem.Values))
      ensures !Enabled() ==> Abs() == old(Abs())
      ensures Enabled() ==> Inv(old(Abs())) && Abs() == DurableReplay.Accept(old(Abs()), key, ctr)
    {
      if !available || window == 0 { return; }
      AcceptKeeps(Abs(), key, ctr);
      HydrateKeeps(Abs(), key);
      hide DurableReplay.Hydrate;
      var win := Hydrate(key);
      assert NoDup(win.order) && (ctr in win.members <==> ctr in win.order) by {
        assert Coherent(Abs(), key) && Abs().mem[key] == win.order;
      }
      hide Inv, Linked, Counted, Orders, JobKeys, Coherent, NoDup, Elems, LastN;
      if ctr in win.members { return; }
      Record(key, win, ctr);
    }

    method Record(key: Key, win: MemWindow, ctr: Ctr)
      requires Linked() && Counted() && key in mem && mem[key] == win
      requires NoDup(win.order) && ctr !in win.order
      modifies win, this`persisting, this`persistTail
      ensures Linked() && Counted()
      ensures Abs() == old(Abs()).(mem := old(Orders())[key := LastN(old(win.order) + [ctr], window)],
                                   jobs := old(Jobs()) + [key])
    {
      Enqueue(key);
      assert forall k | k in mem && k != key :: mem[k] != win;
      hide NoDup, LastN, JobKeys, Links, Counts, Orders, Elems;
      ghost var orders := Orders();
      Extend(win, ctr);
      OrdersAre(orders[key := win.order]);
    }

    method Enqueue(key: Key)
      requires Linked() && Counted() && key in mem
      modifies this`persisting, this`persistTail
      ensures Linked() && Counted() && Jobs() == old(Jobs()) + [key]
    {
      QueueJob(mem, persistTail, persisting, key);
      hide JobKeys, Links, Counts;
      persisting := persisting[key := (if key in persisting then persisting[key] else 0) + 1];
      persistTail := persistTail + [Job(key, mem[key])];
    }

    method Extend(win: MemWindow, ctr: Ctr)
      requires win.Valid() && NoDup(win.order) && ctr !in win.order
      modifies win
      ensures win.Valid() && win.order == LastN(old(win.order) + [ctr], window)
    {
      win.members := win.members + {ctr};
      ElemsConcat(win.order, [ctr]);
      NoDupSnoc(win.order, ctr);
      win.order := win.order + [ctr];
      Trim(win);
    }

    // trim: shift the oldest entries out of the order and the set.
    method Trim(win: MemWindow)
      requires win.Valid() && NoDup(win.order)
      modifies win
      ensures win.Valid() && win.order == LastN(old(win.order), window)
    {
      while |win.order| > window
        invariant win.Valid() && NoDup(win.order)
        invariant LastN(win.order, window) == LastN(old(win.order), window)
        decreases |win.order|
      {
        var evicted := win.order[0];
        assert win.order == [evicted] + win.order[1..];
        ElemsConcat([evicted], win.order[1..]);
        win.order := win.order[1..];
        win.members := win.members - {evicted};
      }
    }

    // One link of the persist chain: the locked read-merge-write, then the
    // release of the in-flight count.
    method RunPersist()
      requires Valid()
      modifies this`persistTail, this`persisting, mem.Values, store
      ensures Valid()
      ensures old(persistTail) == [] ==> Abs() == old(Abs())
      ensures old(persistTail) != [] ==> Inv(old(Abs())) && Abs() == Persist(old(Abs()))
    {
      if persistTail == [] { return; }
      PersistKeeps(Abs());
      assert Tracked(Abs());
      hide Inv, Linked, Counted, Orders, Tracked, Merge;
      RunFirst();
      assert Abs() == Persist(old(Abs()));
    }

    method RunFirst()
      requires window >= 1 && Linked() && Counted() && persistTail != [] && Jobs()[0] in mem
      modifies this`persistTail, this`persisting, mem.Values, store
      ensures Linked() && Counted() && Jobs() == old(Jobs())[1..]
      ensures var key := old(Jobs())[0];
        var merged := Merge(Lookup(old(store.windows), key), old(Orders())[key], window);
        && Orders() == old(Orders())[key := merged] && store.windows == old(store.windows)[key := merged]
    {
      var job := persistTail[0];
      UnqueueJob(mem, persistTail, persisting);
      assert forall k | k in mem && k != job.key :: mem[k] != job.win;
      hide JobKeys, Merge, Links, Counts, Released, Orders, Elems, Lookup;
      ghost var orders := Orders();
      PersistMerged(job.key, job.win);
      OrdersAre(orders[job.key := job.win.order]);
      Dequeue();
    }

    method Dequeue()
      requires Linked() && Counted() && persistTail != []
      modifies this`persistTail, this`persisting
      ensures Linked() && Counted() && Jobs() == old(Jobs())[1..]
    {
      UnqueueJob(mem, persistTail, persisting);
      hide JobKeys, Links, Counts, Released;
      ReleasePersisting(persistTail[0].key);
      persistTail := persistTail[1..];
    }

    method PersistMerged(key: Key, win: MemWindow)
      requires window >= 1 && win.Valid()
      modifies win, store
      ensures win.order == Merge(Lookup(old(store.windows), key), old(win.order), window) && win.Valid()
      ensures store.windows == old(store.windows)[key := win.order]
    {
      var persistedSeen: seq<Ctr> := [];
      if key in store.windows { persistedSeen := store.windows[key]; }
      var deduped := DedupKeepLast(persistedSeen + win.order);
      var merged := LastN(deduped, window);
      win.order := merged;
      win.members := set c | c in merged;
      store.windows := store.windows[key := merged];
    }

    method ReleasePersisting(key: Key)
      modifies this`persisting
      ensures persisting == Released(old(persisting), key)
    {
      var next: int := if key in persisting then persisting[key] else 0;
      next := next - 1;
      if next <= 0 { persisting := persisting - {key}; } else { persisting := persisting[key := next]; }
    }
  }

  // Removing the first unprotected key is one step of TrimKeys.
  lemma NewestIsKept(keys: seq<Key>, keep: set<Key>, key: Key)
    requires NoDup(keys) && key in keys && key in keep
    ensures key in Elems(TrimKeys(keys, Excess(|keys|), keep))
  {
    hide TrimKeys;
    TrimSubsequence(keys, Excess(|keys|), keep);
    assert key in Elems(keys) * keep;
  }

  lemma DropFirst(keys: seq<Key>, i: nat, keep: set<Key>)
    requires i < |keys| && |keys| > REPLAY_MEM_CACHE_CAP && keys[i] !in keep
    requires forall j | 0 <= j < i :: keys[j] in keep
    ensures var rest := keys[..i] + keys[i + 1..];
      TrimKeys(rest, Excess(|rest|), keep) == TrimKeys(keys, Excess(|keys|), keep)
  {
    DropOne(keys, i, Excess(|keys|), keep);
  }

  lemma {:induction false} DropOne(keys: seq<Key>, i: nat, excess: nat, keep: set<Key>)
    requires i < |keys| && excess >= 1 && keys[i] !in keep
    requires forall j | 0 <= j < i :: keys[j] in keep
    ensures TrimKeys(keys[..i] + keys[i + 1..], excess - 1, keep) == TrimKeys(keys, excess, keep)
  {
    var rest := keys[..i] + keys[i + 1..];
    if i == 0 {
      assert rest == keys[1..];
    } else {
      DropOne(keys[1..], i - 1, excess, keep);
      assert keys[1..][..i - 1] + keys[1..][i..] == rest[1..];
      assert rest == [keys[0]] + rest[1..];
    }
  }

  lemma AllKeptZero(keys: seq<Key>, keep: set<Key>)
    ensures TrimKeys(keys, 0, keep) == keys
  {
  }

  lemma {:induction false} AllKept(keys: seq<Key>, excess: nat, keep: set<Key>)
    requires forall j | 0 <= j < |keys| :: keys[j] in keep
    ensures TrimKeys(keys, excess, keep) == keys
  {
    if keys != [] && excess > 0 {
      AllKept(keys[1..], excess, keep);
      assert keys == [keys[0]] + keys[1..];
    }
  }

  lemma RemoveAt(keys: seq<Key>, i: nat)
    requires NoDup(keys) && i < |keys|
    ensures var rest := keys[..i] + keys[i + 1..];
      NoDup(rest) && Elems(rest) == Elems(keys) - {keys[i]}
  {
    assert keys == keys[..i] + [keys[i]] + keys[i + 1..];
    ElemsConcat(keys[..i], keys[i + 1..]);
    ElemsConcat(keys[..i] + [keys[i]], keys[i + 1..]);
    ElemsConcat(keys[..i], [keys[i]]);
  }
}

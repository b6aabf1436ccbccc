// src/chat/durable-replay.ts, one guard: its merge, and the guard as a state
// machine over values. A step is one call run to completion, except that the
// persist an accept queues runs as a later step of its own, under the lock.
module DurableReplay {
  import opened Bytes
  import opened Lists
  import opened ReplayWindow

  const DEFAULT_WINDOW: nat := 1024
  const REPLAY_MEM_CACHE_CAP: nat := 256

  type Key = string

  function ResolveWindow(window: Option<int>): (w: nat)
    ensures w == 0 <==> window == Some(0)
    ensures window.Some? && window.value >= 0 ==> w == window.value
    ensures window.None? || window.value < 0 ==> w == 1024
  {
    if window.None? || window.value < 0 then DEFAULT_WINDOW else window.value
  }

  // ------------------------------------------------------------------ merge

  // An element stays exactly where no later element equals it.
  function KeepLast(arr: seq<Ctr>): seq<Ctr> {
    if arr == [] then []
    else if arr[0] in arr[1..] then KeepLast(arr[1..])
    else [arr[0]] + KeepLast(arr[1..])
  }

  method DedupKeepLast(arr: seq<Ctr>) returns (out: seq<Ctr>)
    ensures out == KeepLast(arr)
  {
    var seen: set<Ctr> := {};
    out := [];
    var i := |arr|;
    while i > 0
      invariant 0 <= i <= |arr|
      invariant seen == Elems(arr[i..])
      invariant Reverse(out) == KeepLast(arr[i..])
    {
      i := i - 1;
      var v := arr[i];
      assert arr[i..] == [v] + arr[i + 1..];
      ElemsConcat([v], arr[i + 1..]);
      if v !in seen {
        ReverseSnoc(out, v);
        seen := seen + {v};
        out := out + [v];
      }
    }
    assert arr[0..] == arr;
    out := Reverse(out);
  }

  lemma {:induction false} KeepLastElems(arr: seq<Ctr>)
    ensures NoDup(KeepLast(arr)) && Elems(KeepLast(arr)) == Elems(arr)
  {
    if arr != [] {
      KeepLastElems(arr[1..]);
      assert arr == [arr[0]] + arr[1..];
      ElemsConcat([arr[0]], arr[1..]);
      ElemsConcat([arr[0]], KeepLast(arr[1..]));
      assert arr[0] in arr[1..] <==> arr[0] in Elems(KeepLast(arr[1..]));
    }
  }

  ghost predicate IsSuffix(s: seq<Ctr>, of_: seq<Ctr>) {
    |s| <= |of_| && of_[|of_| - |s|..] == s
  }

  lemma {:induction false} KeepLastSuffix(persisted: seq<Ctr>, own: seq<Ctr>)
    requires NoDup(own)
    ensures IsSuffix(own, KeepLast(persisted + own))
    ensures Elems(persisted) <= Elems(own) ==> KeepLast(persisted + own) == own
  {
    if persisted == [] {
      assert persisted + own == own;
      KeepLastIdentity(own);
    } else {
      KeepLastSuffix(persisted[1..], own);
      var rest := persisted[1..] + own;
      assert (persisted + own)[1..] == rest;
      if Elems(persisted) <= Elems(own) {
        assert persisted[0] in Elems(persisted);
        assert persisted[0] in rest;
        assert Elems(persisted[1..]) <= Elems(own);
      }
    }
  }

  lemma {:induction false} KeepLastIdentity(own: seq<Ctr>)
    requires NoDup(own)
    ensures KeepLast(own) == own
  {
    if own != [] {
      KeepLastIdentity(own[1..]);
      assert own == [own[0]] + own[1..];
    }
  }

  // The list a persist writes back: persisted then own, last occurrences, the
  // newest `window` of them.
  function Merge(persisted: seq<Ctr>, own: seq<Ctr>, window: nat): seq<Ctr>
    requires window >= 1
  {
    LastN(KeepLast(persisted + own), window)
  }

  // For a duplicate-free own window within bounds. The last clause says when a
  // merge forgets nothing: exactly when the union fits.
  lemma MergeCorrect(persisted: seq<Ctr>, own: seq<Ctr>, window: nat)
    requires window >= 1 && NoDup(own) && |own| <= window
    ensures var merged := Merge(persisted, own, window);
      && NoDup(merged) && |merged| <= window
      && Elems(merged) <= Elems(persisted) + Elems(own)
      && IsSuffix(own, merged)
      && (Elems(merged) == Elems(persisted) + Elems(own)
          <==> |Elems(persisted) + Elems(own)| <= window)
  {
    var all := KeepLast(persisted + own);
    KeepLastElems(persisted + own);
    ElemsConcat(persisted, own);
    KeepLastSuffix(persisted, own);
    hide KeepLast;
    LastNOf(all, own, window);
  }

  lemma LastNOf(all: seq<Ctr>, own: seq<Ctr>, n: nat)
    requires NoDup(all) && IsSuffix(own, all) && |own| <= n
    ensures var kept := LastN(all, n);
      && NoDup(kept) && |kept| <= n && Elems(kept) <= Elems(all) && IsSuffix(own, kept)
      && (Elems(kept) == Elems(all) <==> |Elems(all)| <= n)
  {
    var kept := LastN(all, n);
    NoDupLastN(all, n);
    NoDupSize(all);
    NoDupSize(kept);
    assert own == kept[|kept| - |own|..];
  }

  function LastIndex(arr: seq<Ctr>, x: Ctr): nat
    requires x in arr
  {
    if arr[|arr| - 1] == x then |arr| - 1 else LastIndex(arr[..|arr| - 1], x)
  }

  lemma {:induction false} LastIndexCons(a: Ctr, rest: seq<Ctr>, x: Ctr)
    requires x == a || x in rest
    ensures LastIndex([a] + rest, x) == if x in rest then LastIndex(rest, x) + 1 else 0
  {
    var arr := [a] + rest;
    if rest != [] {
      var init, last := rest[..|rest| - 1], rest[|rest| - 1];
      assert rest == init + [last] && arr[..|arr| - 1] == [a] + init;
      if last != x { LastIndexCons(a, init, x); }
    }
  }

  // Deduplication keeps the order of last occurrences, so with its elements it
  // is determined.
  lemma {:induction false} KeepLastOrder(arr: seq<Ctr>, i: nat, j: nat)
    requires i < j < |KeepLast(arr)|
    ensures KeepLast(arr)[i] in arr && KeepLast(arr)[j] in arr
    ensures LastIndex(arr, KeepLast(arr)[i]) < LastIndex(arr, KeepLast(arr)[j])
  {
    var a, rest := arr[0], arr[1..];
    assert arr == [a] + rest;
    var kept := KeepLast(rest);
    KeepLastElems(rest);
    var x, y := KeepLast(arr)[i], KeepLast(arr)[j];
    assert y in Elems(kept) && (a in rest || i > 0 ==> x in Elems(kept));
    LastIndexCons(a, rest, x);
    LastIndexCons(a, rest, y);
    if a in rest { KeepLastOrder(rest, i, j); }
    else if i > 0 { KeepLastOrder(rest, i - 1, j - 1); }
  }

  // A merge that has to forget forgets the oldest: what it drops was last
  // listed before everything it keeps.
  lemma MergeForgetsOldest(persisted: seq<Ctr>, own: seq<Ctr>, window: nat, x: Ctr, y: Ctr)
    requires window >= 1 && x in persisted + own && x !in Merge(persisted, own, window) && y in Merge(persisted, own, window)
    ensures y in persisted + own && LastIndex(persisted + own, x) < LastIndex(persisted + own, y)
    ensures |Merge(persisted, own, window)| == window
  {
    var arr, all := persisted + own, KeepLast(persisted + own);
    KeepLastElems(arr);
    assert x in Elems(all);
    var merged := LastN(all, window);
    var i :| 0 <= i < |all| && all[i] == x;
    var k :| 0 <= k < |merged| && merged[k] == y;
    hide KeepLast;
    var j := |all| - |merged| + k;
    assert all[j] == y;
    KeepLastOrder(arr, i, j);
  }

  // Nothing to add: the persisted list is already part of the own window, or
  // the own window is full.
  lemma MergeOwn(persisted: seq<Ctr>, own: seq<Ctr>, window: nat)
    requires window >= 1 && NoDup(own) && |own| <= window
    requires |own| == window || Elems(persisted) <= Elems(own)
    ensures Merge(persisted, own, window) == own
  {
    KeepLastSuffix(persisted, own);
    KeepLastElems(persisted + own);
  }

  // ---------------------------------------------------------- state machine

  // `mem` is the cache, `memKeys` its insertion order, `jobs` the keys of the
  // queued persists, oldest first.
  datatype Guard = Guard(window: nat, mem: map<Key, seq<Ctr>>, memKeys: seq<Key>, hydrating: set<Key>,
                         jobs: seq<Key>, store: map<Key, seq<Ctr>>)

  function Lookup(windows: map<Key, seq<Ctr>>, key: Key): seq<Ctr> {
    if key in windows then windows[key] else []
  }

  function Stored(g: Guard, key: Key): seq<Ctr> { Lookup(g.store, key) }

  // The keys left when up to `excess` unprotected ones go, oldest first.
  function TrimKeys(keys: seq<Key>, excess: nat, keep: set<Key>): seq<Key> {
    if keys == [] || excess == 0 then keys
    else if keys[0] in keep then [keys[0]] + TrimKeys(keys[1..], excess, keep)
    else TrimKeys(keys[1..], excess - 1, keep)
  }

  function Excess(n: nat): nat { if n > REPLAY_MEM_CACHE_CAP then n - REPLAY_MEM_CACHE_CAP else 0 }

  ghost function Protected(g: Guard, justHydrated: Key): set<Key> {
    {justHydrated} + g.hydrating + Elems(g.jobs)
  }

  ghost function Restrict(mem: map<Key, seq<Ctr>>, keys: seq<Key>): (r: map<Key, seq<Ctr>>)
    ensures r.Keys == mem.Keys * Elems(keys) && forall k | k in r :: r[k] == mem[k]
  {
    map k | k in mem && k in keys :: mem[k]
  }

  ghost function TrimMemCache(g: Guard, justHydrated: Key): Guard {
    var keys := TrimKeys(g.memKeys, Excess(|g.memKeys|), Protected(g, justHydrated));
    g.(memKeys := keys, mem := Restrict(g.mem, keys))
  }

  ghost function StartHydrate(g: Guard, key: Key): Guard {
    if key in g.mem then g else g.(hydrating := g.hydrating + {key})
  }

  ghost function Hydrate(g: Guard, key: Key): Guard {
    if key in g.mem then g
    else TrimMemCache(g.(mem := g.mem[key := LastN(Stored(g, key), g.window)],
                         memKeys := g.memKeys + [key],
                         hydrating := g.hydrating - {key}), key)
  }

  lemma HydrateMiss(g: Guard, key: Key)
    requires key !in g.mem
    ensures var hydrating := g.hydrating - {key};
      var keys := TrimKeys(g.memKeys + [key], Excess(|g.memKeys + [key]|), {key} + hydrating + Elems(g.jobs));
      var loaded := g.mem[key := LastN(Stored(g, key), g.window)];
      Hydrate(g, key) == Guard(g.window, Restrict(loaded, keys), keys, hydrating, g.jobs, g.store)
  {
  }

  ghost predicate Tracked(g: Guard) { forall k | k in g.jobs :: k in g.mem }

  ghost function Accept(g: Guard, key: Key, ctr: Ctr): Guard
    requires Inv(g)
  {
    HydrateKeeps(g, key);
    var h := Hydrate(g, key);
    if ctr in h.mem[key] then h
    else h.(mem := h.mem[key := LastN(h.mem[key] + [ctr], g.window)], jobs := h.jobs + [key])
  }

  ghost function Persist(g: Guard): Guard
    requires g.jobs != [] && g.window >= 1 && Tracked(g)
  {
    var key := g.jobs[0];
    var merged := Merge(Stored(g, key), g.mem[key], g.window);
    g.(mem := g.mem[key := merged], store := g.store[key := merged], jobs := g.jobs[1..])
  }

  ghost predicate GoodWindow(w: nat, q: seq<Ctr>) { NoDup(q) && |q| <= w }

  // The part of the stored window that a load takes. A store written under a
  // larger window may hold more.
  function Loaded(g: Guard, key: Key): seq<Ctr> { LastN(Stored(g, key), g.window) }

  // Why dropping a cached window is safe: with no persist in flight a load
  // gives the same window, and a window that is not full extends the stored one.
  ghost predicate Coherent(g: Guard, key: Key) {
    key in g.mem ==>
      && GoodWindow(g.window, g.mem[key])
      && (key !in g.jobs ==> Loaded(g, key) == g.mem[key])
      && (|g.mem[key]| < g.window ==> Stored(g, key) <= g.mem[key])
  }

  ghost predicate Inv(g: Guard) {
    && g.window >= 1
    && NoDup(g.memKeys) && Elems(g.memKeys) == g.mem.Keys
    && g.hydrating !! g.mem.Keys
    && Tracked(g)
    && (forall k | k in g.store :: NoDup(g.store[k]))
    && (forall k :: Coherent(g, k))
  }

  // The window the guard stands for at a key, cached or not.
  ghost function View(g: Guard, key: Key): seq<Ctr> {
    if key in g.mem then g.mem[key] else Loaded(g, key)
  }

  // ------------------------------------------------------------ trimming

  lemma {:induction false} TrimSubsequence(keys: seq<Key>, excess: nat, keep: set<Key>)
    requires NoDup(keys)
    ensures var left := TrimKeys(keys, excess, keep);
      && NoDup(left) && Elems(left) <= Elems(keys) && Elems(keys) * keep <= Elems(left)
      && |keys| <= |left| + excess
      && (|left| + excess == |keys| || Elems(left) <= keep)
      && (excess <= |keys| ==> |keys| - excess <= |left|)
  {
    if keys != [] && excess > 0 {
      var rest := keys[1..];
      assert keys == [keys[0]] + rest;
      ElemsConcat([keys[0]], rest);
      if keys[0] in keep {
        TrimSubsequence(rest, excess, keep);
        var left := TrimKeys(rest, excess, keep);
        ElemsConcat([keys[0]], left);
        assert keys[0] !in Elems(left);
      } else {
        TrimSubsequence(rest, excess - 1, keep);
      }
    }
  }

  // The oldest go first: an unprotected key goes only after every unprotected
  // key before it.
  lemma {:induction false} TrimDropsOldest(keys: seq<Key>, excess: nat, keep: set<Key>, i: nat, j: nat)
    requires NoDup(keys) && i < j < |keys| && keys[i] !in keep && keys[j] !in keep
    requires keys[j] !in TrimKeys(keys, excess, keep)
    ensures keys[i] !in TrimKeys(keys, excess, keep)
  {
    if excess > 0 {
      var rest := keys[1..];
      if keys[0] in keep {
        TrimDropsOldest(rest, excess, keep, i - 1, j - 1);
      } else if i > 0 {
        TrimDropsOldest(rest, excess - 1, keep, i - 1, j - 1);
      } else {
        TrimSubsequence(rest, excess - 1, keep);
        assert keys[0] !in Elems(rest);
        assert keys[0] !in Elems(TrimKeys(rest, excess - 1, keep));
      }
    }
  }

  // trimMemCache stops within the cap or with every other entry protected, and
  // never drops a protected one.
  lemma TrimBounds(g: Guard, key: Key)
    requires NoDup(g.memKeys) && Elems(g.memKeys) == g.mem.Keys
    ensures var t := TrimMemCache(g, key);
      && NoDup(t.memKeys) && Elems(t.memKeys) == t.mem.Keys
      && t.mem.Keys <= g.mem.Keys && g.mem.Keys * Protected(g, key) <= t.mem.Keys
      && (|t.mem| <= 256 || t.mem.Keys <= Protected(g, key))
      && (forall k | k in t.mem :: t.mem[k] == g.mem[k])
  {
    TrimSubsequence(g.memKeys, Excess(|g.memKeys|), Protected(g, key));
    var t := TrimMemCache(g, key);
    forall k ensures k in t.mem <==> k in t.memKeys {
      assert k in Elems(t.memKeys) ==> k in Elems(g.memKeys);
    }
    assert Elems(t.memKeys) == t.mem.Keys;
    NoDupSize(t.memKeys);
    assert |t.mem| == |t.mem.Keys|;
  }

  // What may never go, and what alone is left above the cap.
  lemma TrimSpares(g: Guard, key: Key, k: Key)
    requires NoDup(g.memKeys) && Elems(g.memKeys) == g.mem.Keys
    ensures var t, spared := TrimMemCache(g, key), k == key || k in g.hydrating || k in g.jobs;
      && (k in g.mem && spared ==> k in t.mem)
      && (|t.mem| > 256 && k in t.mem ==> spared)
  {
    hide TrimMemCache, NoDup;
    TrimBounds(g, key);
    assert k in Elems(g.jobs) <==> k in g.jobs;
  }

  // A loaded key stands last in the order of eviction, behind all others.
  lemma LoadedIsNewest(g: Guard, key: Key)
    requires key !in g.mem
    ensures var h := Hydrate(g, key); h.memKeys != [] && h.memKeys[|h.memKeys| - 1] == key
  {
    HydrateMiss(g, key);
    var keys := g.memKeys + [key];
    TrimKeepsLast(keys, Excess(|keys|), {key} + (g.hydrating - {key}) + Elems(g.jobs));
  }

  lemma {:induction false} TrimKeepsLast(keys: seq<Key>, excess: nat, keep: set<Key>)
    requires keys != [] && keys[|keys| - 1] in keep
    ensures var left := TrimKeys(keys, excess, keep); left != [] && left[|left| - 1] == keys[|keys| - 1]
  {
    if |keys| > 1 && excess > 0 {
      TrimKeepsLast(keys[1..], if keys[0] in keep then excess else excess - 1, keep);
    }
  }

  // It drops nothing below the cap.
  lemma TrimStopsAtCap(g: Guard, key: Key)
    requires NoDup(g.memKeys) && Elems(g.memKeys) == g.mem.Keys
    ensures var t := TrimMemCache(g, key); |t.mem| >= 256 || t.mem == g.mem
  {
    TrimSubsequence(g.memKeys, Excess(|g.memKeys|), Protected(g, key));
    TrimBounds(g, key);
    hide NoDup;
    var t := TrimMemCache(g, key);
    NoDupSize(g.memKeys);
    NoDupSize(t.memKeys);
    assert |g.mem| == |g.mem.Keys| && |t.mem| == |t.mem.Keys|;
  }

  // -------------------------------------------------------- each step refines

  lemma HydrateKeeps(g: Guard, key: Key)
    requires Inv(g)
    ensures var h := Hydrate(g, key);
      && Inv(h) && key in h.mem && h.window == g.window && h.store == g.store && h.jobs == g.jobs
      && (forall k :: View(h, k) == View(g, k))
  {
    if key !in g.mem {
      var g' := g.(mem := g.mem[key := LastN(Stored(g, key), g.window)],
                   memKeys := g.memKeys + [key], hydrating := g.hydrating - {key});
      assert g'.mem[key] == Loaded(g, key);
      NoDupLastN(Stored(g, key), g.window);
      NoDupSnoc(g.memKeys, key);
      ElemsConcat(g.memKeys, [key]);
      TrimBounds(g', key);
      var h := Hydrate(g, key);
      forall k ensures View(h, k) == View(g, k) && Coherent(h, k) {
        assert Coherent(g, k);
        if k in g.mem && k !in h.mem {
          assert k !in Protected(g', key);
          assert k !in Elems(g.jobs);
        }
      }
      forall k | k in h.jobs ensures k in h.mem {
        assert k in Elems(g.jobs);
      }
    }
  }

  lemma StartHydrateKeeps(g: Guard, key: Key)
    requires Inv(g)
    ensures Inv(StartHydrate(g, key)) && forall k :: View(StartHydrate(g, key), k) == View(g, k)
  {
    assert forall k :: Coherent(g, k) ==> Coherent(StartHydrate(g, key), k);
  }

  lemma SlideIsTrim(w: nat, q: seq<Ctr>, c: Ctr)
    requires w >= 1 && GoodWindow(w, q) && c !in q
    ensures Slide(w, q, c) == LastN(q + [c], w) && GoodWindow(w, LastN(q + [c], w))
    ensures |LastN(q + [c], w)| < w ==> q <= LastN(q + [c], w)
  {
    NoDupSnoc(q, c);
    NoDupLastN(q + [c], w);
  }

  // A window that slid, and its key with one more persist queued.
  ghost predicate Recorded(h: Guard, a: Guard, key: Key, ctr: Ctr) {
    && key in h.mem && ctr !in h.mem[key]
    && a == h.(mem := h.mem[key := LastN(h.mem[key] + [ctr], h.window)], jobs := h.jobs + [key])
  }

  lemma RecordedCoherent(h: Guard, a: Guard, key: Key, ctr: Ctr, k: Key)
    requires Recorded(h, a, key, ctr) && h.window >= 1 && Coherent(h, key) && Coherent(h, k)
    ensures Coherent(a, k)
  {
    hide NoDup, LastN;
    SlideIsTrim(h.window, h.mem[key], ctr);
    assert key in a.jobs by { assert a.jobs[|h.jobs|] == key; }
  }

  lemma RecordedKeeps(h: Guard, a: Guard, key: Key, ctr: Ctr)
    requires Inv(h) && Recorded(h, a, key, ctr)
    ensures Inv(a) && View(a, key) == Slide(h.window, View(h, key), ctr)
    ensures forall k | k != key :: View(a, k) == View(h, k)
  {
    hide NoDup, Elems, LastN, Coherent, Slide;
    assert Coherent(h, key);
    assert GoodWindow(h.window, h.mem[key]) by { CoherentGood(h, key); }
    SlideIsTrim(h.window, h.mem[key], ctr);
    assert a.mem.Keys == h.mem.Keys;
    forall k ensures Coherent(a, k) { RecordedCoherent(h, a, key, ctr, k); }
  }

  lemma CoherentGood(g: Guard, key: Key)
    requires Coherent(g, key) && key in g.mem
    ensures GoodWindow(g.window, g.mem[key])
  {
  }

  lemma AcceptKeeps(g: Guard, key: Key, ctr: Ctr)
    requires Inv(g)
    ensures var h := Accept(g, key, ctr);
      && Inv(h) && h.window == g.window && h.store == g.store
      && View(h, key) == Slide(g.window, View(g, key), ctr)
      && (forall k | k != key :: View(h, k) == View(g, k))
  {
    hide Inv, Hydrate, LastN;
    HydrateKeeps(g, key);
    var h := Hydrate(g, key);
    if ctr !in h.mem[key] { RecordedKeeps(h, Accept(g, key, ctr), key, ctr); }
  }

  lemma PersistKeeps(g: Guard)
    requires Inv(g) && g.jobs != []
    ensures var h := Persist(g);
      && Inv(h) && h.window == g.window && h.mem == g.mem && h.jobs == g.jobs[1..]
      && (forall k :: View(h, k) == View(g, k))
      && Stored(h, g.jobs[0]) == g.mem[g.jobs[0]]
  {
    var key := g.jobs[0];
    assert Coherent(g, key);
    MergeOwn(Stored(g, key), g.mem[key], g.window);
    var h := Persist(g);
    assert h.mem == g.mem;
    assert g.jobs == [key] + h.jobs;
    forall k ensures Coherent(h, k) {
      assert Coherent(g, k);
    }
  }

  // Whatever the store holds by then, written by whichever guard: a persist
  // stores nothing else than that and the own window, loses none of it while
  // both fit, and touches no other key.
  lemma PersistForgetsNothing(g: Guard)
    requires g.jobs != [] && g.window >= 1 && Tracked(g) && GoodWindow(g.window, g.mem[g.jobs[0]])
    ensures var key, h := g.jobs[0], Persist(g);
      var both := Elems(Stored(g, key)) + Elems(g.mem[key]);
      && NoDup(Stored(h, key)) && Elems(Stored(h, key)) <= both
      && (|both| <= g.window ==> Elems(Stored(h, key)) == both)
      && h.mem[key] == Stored(h, key)
      && forall k | k != key :: Stored(h, k) == Stored(g, k) && (k in g.mem ==> h.mem[k] == g.mem[k])
  {
    hide NoDup, Elems, Merge;
    MergeCorrect(Stored(g, g.jobs[0]), g.mem[g.jobs[0]], g.window);
  }

  // ------------------------------------------------------------- whole runs

  ghost function Settle(g: Guard): Guard
    requires Inv(g)
    decreases |g.jobs|
  {
    if g.jobs == [] then g else PersistKeeps(g); Settle(Persist(g))
  }

  lemma {:induction false} SettleKeeps(g: Guard)
    requires Inv(g)
    ensures var h := Settle(g);
      && Inv(h) && h.window == g.window && h.jobs == []
      && (forall k :: View(h, k) == View(g, k))
    decreases |g.jobs|
  {
    if g.jobs != [] {
      PersistKeeps(g);
      SettleKeeps(Persist(g));
    }
  }

  // A reload, once the queued persists have settled: only the store survives.
  ghost function Reload(g: Guard): Guard
    requires Inv(g)
  {
    Settle(g).(mem := map[], memKeys := [], hydrating := {})
  }

  lemma ReloadKeeps(g: Guard)
    requires Inv(g)
    ensures var h := Reload(g);
      && Inv(h) && h.window == g.window && (forall k :: View(h, k) == View(g, k))
  {
    SettleKeeps(g);
    var s := Settle(g);
    forall k ensures View(Reload(g), k) == View(s, k) {
      assert Coherent(s, k);
    }
  }

  datatype Event = HydrateStarts(key: Key) | Checked(key: Key, ctr: Ctr) | Accepted(key: Key, ctr: Ctr)
                 | PersistRuns | Reloaded

  ghost function Step(g: Guard, ev: Event): Guard
    requires g.window >= 1 ==> Inv(g)
  {
    if g.window == 0 then g
    else match ev
      case HydrateStarts(key) => StartHydrate(g, key)
      case Checked(key, _) => Hydrate(g, key)
      case Accepted(key, ctr) => Accept(g, key, ctr)
      case PersistRuns => if g.jobs == [] then g else Persist(g)
      case Reloaded => Reload(g)
  }

  // What check answers, None for the other events.
  ghost function Answer(g: Guard, ev: Event): Option<bool>
    requires g.window >= 1 ==> Inv(g)
  {
    if !ev.Checked? then None
    else if g.window == 0 then Some(true)
    else HydrateKeeps(g, ev.key); Some(ev.ctr !in Hydrate(g, ev.key).mem[ev.key])
  }

  lemma StepKeeps(g: Guard, ev: Event)
    requires Inv(g)
    ensures Inv(Step(g, ev)) && Step(g, ev).window == g.window
    ensures forall k :: View(Step(g, ev), k)
              == if ev.Accepted? && k == ev.key then Slide(g.window, View(g, k), ev.ctr) else View(g, k)
  {
    match ev
    case HydrateStarts(key) => StartHydrateKeeps(g, key);
    case Checked(key, _) => HydrateKeeps(g, key);
    case Accepted(key, ctr) => AcceptKeeps(g, key, ctr);
    case PersistRuns => if g.jobs != [] { PersistKeeps(g); }
    case Reloaded => ReloadKeeps(g);
  }

  ghost function Answers(g: Guard, evs: seq<Event>): seq<Option<bool>>
    requires g.window >= 1 ==> Inv(g)
    decreases |evs|
  {
    if evs == [] then []
    else
      var next := Step(g, evs[0]);
      assert next.window >= 1 ==> Inv(next) by { if g.window >= 1 { StepKeeps(g, evs[0]); } }
      [Answer(g, evs[0])] + Answers(next, evs[1..])
  }

  // The reference: one SlidingReplayWindow per key, nothing else.
  type Windows = map<Key, seq<Ctr>>

  function ReferenceStep(w: nat, ref: Windows, ev: Event): Windows {
    if ev.Accepted? then ref[ev.key := Slide(w, Lookup(ref, ev.key), ev.ctr)] else ref
  }

  function ReferenceAnswers(w: nat, ref: Windows, evs: seq<Event>): seq<Option<bool>>
    decreases |evs|
  {
    if evs == [] then []
    else [if evs[0].Checked? then Some(Fresh(w, Lookup(ref, evs[0].key), evs[0].ctr)) else None]
         + ReferenceAnswers(w, ReferenceStep(w, ref, evs[0]), evs[1..])
  }

  // Over every run of hydrates, checks, accepts, persists, evictions and
  // settled reloads the guard answers as the plain windows do.
  lemma {:induction false} GuardRefinesWindow(g: Guard, ref: Windows, evs: seq<Event>)
    requires g.window >= 1 ==> Inv(g) && forall k :: View(g, k) == Lookup(ref, k)
    ensures Answers(g, evs) == ReferenceAnswers(g.window, ref, evs)
    decreases |evs|
  {
    if evs != [] {
      var ev := evs[0];
      if g.window >= 1 {
        StepKeeps(g, ev);
        if ev.Checked? { HydrateKeeps(g, ev.key); }
      }
      GuardRefinesWindow(Step(g, ev), ReferenceStep(g.window, ref, ev), evs[1..]);
    }
  }

  // A new guard is such a starting point over any store that guards wrote,
  // under whatever window: it stands for the newest `window` of each list.
  lemma FreshGuard(window: nat, store: map<Key, seq<Ctr>>, ref: Windows)
    requires window >= 1 && forall k | k in store :: NoDup(store[k])
    requires ref.Keys == store.Keys && forall k | k in store :: ref[k] == LastN(store[k], window)
    ensures var g := Guard(window, map[], [], {}, [], store);
      Inv(g) && forall k :: View(g, k) == Lookup(ref, k)
  {
  }
}

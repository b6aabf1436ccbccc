// src/chat/durable-replay.ts across tabs: any number of guards on one store,
// seen through one key. The read of a load, the record of an accept, and the
// lock, read, merge and write of a persist are separate steps of a tab, the lock
// is exclusive, and a tab may vanish at any step. An accept finds its window
// cached: no eviction falls between its load and its record.
module DurableTabs {
  import opened Bytes
  import opened Lists
  import opened ReplayWindow
  import opened DurableReplay

  // Where a tab is inside its locked read-merge-write.
  datatype Phase = Idle | Locked | HasRead(seen: seq<Ctr>) | Merged(payload: seq<Ctr>)

  // `jobs` are the counters whose persists are queued; `readAt` records which
  // accepts had completed anywhere when this tab read its window.
  datatype Tab = Tab(win: Option<seq<Ctr>>, reading: Option<seq<Ctr>>, readAt: set<Ctr>,
                     jobs: seq<Ctr>, phase: Phase)

  // `accepted` and `done` are history: counters ever recorded, and those whose
  // recording accept has returned.
  datatype World = World(window: nat, tabs: map<nat, Tab>, store: seq<Ctr>, lock: Option<nat>,
                         accepted: set<Ctr>, done: set<Ctr>)

  datatype Action =
    | Open(id: nat)
    | Vanish(id: nat)
    | StartRead(id: nat)
    | FinishRead(id: nat)
    | Record(id: nat, ctr: Ctr)
    | TakeLock(id: nat)
    | ReadLocked(id: nat)
    | MergeLocked(id: nat)
    | WriteLocked(id: nat)
    | Evict(id: nat)

  predicate Enabled(w: World, a: Action) {
    if a.Open? then a.id !in w.tabs
    else if a.id !in w.tabs then false
    else
      var t := w.tabs[a.id];
      match a
      case Open(_) => false
      case Vanish(_) => true
      case StartRead(_) => t.win.None? && t.reading.None?
      case FinishRead(_) => t.reading.Some?
      case Record(_, ctr) => t.win.Some? && ctr !in t.win.value
      case TakeLock(_) => t.jobs != [] && t.phase.Idle? && w.lock.None?
      case ReadLocked(_) => t.phase.Locked?
      case MergeLocked(_) => t.phase.HasRead? && t.win.Some? && w.window >= 1
      case WriteLocked(_) => t.phase.Merged? && t.jobs != []
      case Evict(_) => t.win.Some? && t.jobs == []
  }

  function Apply(w: World, a: Action): World
    requires Enabled(w, a)
  {
    if a.Open? then w.(tabs := w.tabs[a.id := Tab(None, None, {}, [], Idle)])
    else if a.Vanish? then
      w.(tabs := w.tabs - {a.id}, lock := if w.lock == Some(a.id) then None else w.lock)
    else
      var t := w.tabs[a.id];
      match a
      case StartRead(id) =>
        w.(tabs := w.tabs[id := t.(reading := Some(LastN(w.store, w.window)), readAt := w.done)])
      case FinishRead(id) =>
        w.(tabs := w.tabs[id := t.(win := t.reading, reading := None)])
      case Record(id, ctr) =>
        w.(tabs := w.tabs[id := t.(win := Some(LastN(t.win.value + [ctr], w.window)), jobs := t.jobs + [ctr])],
           accepted := w.accepted + {ctr})
      case TakeLock(id) =>
        w.(tabs := w.tabs[id := t.(phase := Locked)], lock := Some(id))
      case ReadLocked(id) =>
        w.(tabs := w.tabs[id := t.(phase := HasRead(w.store))])
      case MergeLocked(id) =>
        var merged := Merge(t.phase.seen, t.win.value, w.window);
        w.(tabs := w.tabs[id := t.(win := Some(merged), phase := Merged(merged))])
      case WriteLocked(id) =>
        w.(tabs := w.tabs[id := t.(jobs := t.jobs[1..], phase := Idle)], lock := None,
           store := t.phase.payload, done := w.done + {t.jobs[0]})
      case Evict(id) =>
        w.(tabs := w.tabs[id := t.(win := None)])
  }

  // A world that a run of enabled actions leads to.
  ghost predicate Leads(w: World, run: seq<Action>, w': World)
    decreases |run|
  {
    if run == [] then w == w'
    else Enabled(w, run[0]) && Leads(Apply(w, run[0]), run[1..], w')
  }

  // ------------------------------------------------------------- invariant

  ghost predicate From(q: seq<Ctr>, accepted: set<Ctr>) { NoDup(q) && Elems(q) <= accepted }

  ghost predicate TabInv(t: Tab, id: nat, store: seq<Ctr>, lock: Option<nat>, accepted: set<Ctr>) {
    && (t.win.Some? ==>
          && From(t.win.value, accepted)
          && Elems(t.jobs) <= Elems(t.win.value) <= Elems(store) + Elems(t.jobs)
          && t.readAt <= Elems(t.win.value))
    && (t.win.None? ==> t.jobs == [] && t.phase.Idle?)
    && (t.reading.Some? ==>
          t.win.None? && From(t.reading.value, accepted)
          && t.readAt <= Elems(t.reading.value) <= Elems(store))
    && (t.phase.Idle? <==> lock != Some(id))
    && (!t.phase.Idle? ==> t.jobs != [])
    && (t.phase.HasRead? ==> t.phase.seen == store)
    && (t.phase.Merged? ==>
          From(t.phase.payload, accepted) && Elems(store) <= Elems(t.phase.payload)
          && t.jobs[0] in t.phase.payload)
  }

  ghost predicate Inv(w: World) {
    && From(w.store, w.accepted)
    && w.done <= Elems(w.store)
    && (w.lock.Some? ==> w.lock.value in w.tabs)
    && forall id | id in w.tabs :: TabInv(w.tabs[id], id, w.store, w.lock, w.accepted)
  }

  // The premise of the durability claim.
  ghost predicate Fits(w: World) { w.window >= 1 && |w.accepted| <= w.window }

  lemma FromFits(q: seq<Ctr>, w: World)
    requires From(q, w.accepted) && Fits(w)
    ensures |q| <= w.window && LastN(q, w.window) == q
  {
    NoDupSize(q);
    SubsetSize(Elems(q), w.accepted);
  }

  // What another tab's step may change around a tab leaves its invariant.
  lemma TabUntouched(t: Tab, id: nat, w: World, w': World)
    requires TabInv(t, id, w.store, w.lock, w.accepted)
    requires w.accepted <= w'.accepted && Elems(w.store) <= Elems(w'.store)
    requires w.lock == Some(id) <==> w'.lock == Some(id)
    requires w.lock == Some(id) ==> w'.store == w.store
    ensures TabInv(t, id, w'.store, w'.lock, w'.accepted)
  {
  }

  lemma OthersUntouched(w: World, a: Action)
    requires Inv(w) && Enabled(w, a) && !a.Open? && !a.Vanish? && !a.WriteLocked?
    ensures var w' := Apply(w, a);
      forall id | id in w'.tabs && id != a.id :: TabInv(w'.tabs[id], id, w'.store, w'.lock, w'.accepted)
  {
    var w' := Apply(w, a);
    forall id | id in w'.tabs && id != a.id ensures TabInv(w'.tabs[id], id, w'.store, w'.lock, w'.accepted) {
      TabUntouched(w.tabs[id], id, w, w');
    }
  }

  lemma ReadKeeps(w: World, a: Action)
    requires Inv(w) && Enabled(w, a) && (a.StartRead? || a.FinishRead?) && Fits(w)
    ensures Inv(Apply(w, a))
  {
    FromFits(w.store, w);
    OthersUntouched(w, a);
  }

  lemma RecordKeeps(w: World, a: Action)
    requires Inv(w) && Enabled(w, a) && a.Record? && Fits(Apply(w, a))
    ensures Inv(Apply(w, a))
  {
    OthersUntouched(w, a);
    var t, q := w.tabs[a.id], w.tabs[a.id].win.value;
    NoDupSnoc(q, a.ctr);
    Snoc(q, a.ctr);
    FromFits(q + [a.ctr], Apply(w, a));
    RecordTab(t, a.id, w.store, w.lock, w.accepted, a.ctr);
    assert From(w.store, w.accepted + {a.ctr});
  }

  lemma Snoc(q: seq<Ctr>, ctr: Ctr)
    ensures Elems(q + [ctr]) == Elems(q) + {ctr}
  {
    ElemsConcat(q, [ctr]);
  }

  lemma RecordTab(t: Tab, id: nat, store: seq<Ctr>, lock: Option<nat>, accepted: set<Ctr>, ctr: Ctr)
    requires TabInv(t, id, store, lock, accepted) && t.win.Some? && ctr !in t.win.value
    ensures TabInv(t.(win := Some(t.win.value + [ctr]), jobs := t.jobs + [ctr]), id, store, lock, accepted + {ctr})
  {
    NoDupSnoc(t.win.value, ctr);
    Snoc(t.win.value, ctr);
    Snoc(t.jobs, ctr);
    assert t.jobs != [] ==> (t.jobs + [ctr])[0] == t.jobs[0];
    hide NoDup, Elems;
  }

  lemma LockKeeps(w: World, a: Action)
    requires Inv(w) && Enabled(w, a) && (a.TakeLock? || a.ReadLocked? || a.Evict?)
    ensures Inv(Apply(w, a))
  {
    OthersUntouched(w, a);
  }

  lemma MergeKeeps(w: World, a: Action)
    requires Inv(w) && Enabled(w, a) && a.MergeLocked? && Fits(w)
    ensures Inv(Apply(w, a))
  {
    var t := w.tabs[a.id];
    var own := t.win.value;
    FromFits(own, w);
    SubsetSize(Elems(w.store) + Elems(own), w.accepted);
    MergeCorrect(w.store, own, w.window);
    OthersUntouched(w, a);
    MergeTab(t, a.id, w.store, w.lock, w.accepted, Merge(w.store, own, w.window));
  }

  lemma MergeTab(t: Tab, id: nat, store: seq<Ctr>, lock: Option<nat>, accepted: set<Ctr>, merged: seq<Ctr>)
    requires TabInv(t, id, store, lock, accepted) && From(store, accepted)
    requires t.phase == HasRead(store) && t.win.Some?
    requires NoDup(merged) && Elems(merged) == Elems(store) + Elems(t.win.value)
    ensures TabInv(t.(win := Some(merged), phase := Merged(merged)), id, store, lock, accepted)
  {
    assert t.jobs[0] in Elems(t.jobs);
    assert t.jobs[0] in Elems(merged);
    hide NoDup;
  }

  lemma WriteKeeps(w: World, a: Action)
    requires Inv(w) && Enabled(w, a) && a.WriteLocked?
    ensures Inv(Apply(w, a))
  {
    var t, w' := w.tabs[a.id], Apply(w, a);
    assert t.jobs == [t.jobs[0]] + t.jobs[1..];
    ElemsConcat([t.jobs[0]], t.jobs[1..]);
    assert Elems([t.jobs[0]]) == {t.jobs[0]};
    forall id | id in w'.tabs && id != a.id ensures TabInv(w'.tabs[id], id, w'.store, w'.lock, w'.accepted) {
      TabUntouched(w.tabs[id], id, w, w');
    }
  }

  lemma ComeAndGoKeeps(w: World, a: Action)
    requires Inv(w) && Enabled(w, a) && (a.Open? || a.Vanish?)
    ensures Inv(Apply(w, a))
  {
    var w' := Apply(w, a);
    forall id | id in w'.tabs && id != a.id ensures TabInv(w'.tabs[id], id, w'.store, w'.lock, w'.accepted) {
      TabUntouched(w.tabs[id], id, w, w');
    }
  }

  lemma StepKeeps(w: World, a: Action)
    requires Inv(w) && Enabled(w, a) && Fits(Apply(w, a))
    ensures Inv(Apply(w, a))
  {
    SubsetSize(w.accepted, Apply(w, a).accepted);
    match a
    case Open(_) => ComeAndGoKeeps(w, a);
    case Vanish(_) => ComeAndGoKeeps(w, a);
    case StartRead(_) => ReadKeeps(w, a);
    case FinishRead(_) => ReadKeeps(w, a);
    case Record(_, _) => RecordKeeps(w, a);
    case MergeLocked(_) => MergeKeeps(w, a);
    case WriteLocked(_) => WriteKeeps(w, a);
    case _ => LockKeeps(w, a);
  }

  // History only grows, so a bound at the end held all along.
  lemma {:induction false} HistoryGrows(w: World, run: seq<Action>, w': World)
    requires Leads(w, run, w')
    ensures w.accepted <= w'.accepted && w.done <= w'.done && w.window == w'.window
    ensures Fits(w') ==> Fits(w)
    decreases |run|
  {
    if run != [] {
      HistoryGrows(Apply(w, run[0]), run[1..], w');
    }
    SubsetSize(w.accepted, w'.accepted);
  }

  lemma {:induction false} RunKeeps(w: World, run: seq<Action>, w': World)
    requires Inv(w) && Leads(w, run, w') && Fits(w')
    ensures Inv(w')
    decreases |run|
  {
    if run != [] {
      HistoryGrows(Apply(w, run[0]), run[1..], w');
      StepKeeps(w, run[0]);
      RunKeeps(Apply(w, run[0]), run[1..], w');
    }
  }

  // ------------------------------------------------------------- main claims

  ghost predicate Initial(w: World) {
    w.tabs == map[] && w.lock == None && NoDup(w.store) && w.accepted == Elems(w.store) == w.done
  }

  // If at most `window` distinct counters were ever accepted for the key, a
  // counter whose accept returned by time w is in the store at every later
  // time w', and a window read after its accept returned refuses it.
  lemma CompletedIsDurable(w0: World, run: seq<Action>, w: World, later: seq<Action>, w': World)
    requires Initial(w0) && Leads(w0, run, w) && Leads(w, later, w') && Fits(w')
    ensures w.done <= Elems(w'.store)
    ensures forall id | id in w'.tabs && w'.tabs[id].win.Some? ::
              w'.tabs[id].readAt <= Elems(w'.tabs[id].win.value)
  {
    HistoryGrows(w, later, w');
    RunKeeps(w0, run, w);
    RunKeeps(w, later, w');
    forall id | id in w'.tabs && w'.tabs[id].win.Some?
      ensures w'.tabs[id].readAt <= Elems(w'.tabs[id].win.value)
    {
      assert TabInv(w'.tabs[id], id, w'.store, w'.lock, w'.accepted);
    }
  }

  // A read that starts now sees every accept that has returned.
  lemma ReadSeesCompleted(w: World, id: nat)
    requires Inv(w) && Fits(w) && Enabled(w, StartRead(id))
    ensures var t := Apply(w, StartRead(id)).tabs[id];
      t.readAt == w.done && w.done <= Elems(t.reading.value)
  {
    FromFits(w.store, w);
  }

  // accept also returns, at once, when its counter is already in the cached
  // window. Such a counter is durable unless its own tab still has it queued.
  lemma EarlyReturnDurableUnlessQueued(w0: World, run: seq<Action>, w: World, id: nat, ctr: Ctr)
    requires Initial(w0) && Leads(w0, run, w) && Fits(w)
    requires id in w.tabs && w.tabs[id].win.Some? && ctr in w.tabs[id].win.value
    ensures ctr in w.store || ctr in w.tabs[id].jobs
  {
    RunKeeps(w0, run, w);
    assert TabInv(w.tabs[id], id, w.store, w.lock, w.accepted);
    assert ctr in Elems(w.store) + Elems(w.tabs[id].jobs);
  }

  // And it can return early with nothing stored, for every counter and window:
  // a second accept of a counter whose first persist has not run.
  lemma EarlyReturnBeforeDurable(window: nat, ctr: Ctr) returns (w0: World, run: seq<Action>, w: World)
    requires window >= 1
    ensures w0.window == window && Initial(w0) && Leads(w0, run, w) && Fits(w)
    ensures 0 in w.tabs && w.tabs[0].win == Some([ctr]) && w.store == []
  {
    w0 := World(window, map[], [], None, {}, {});
    var open_, start, finish, record := Open(0), StartRead(0), FinishRead(0), Record(0, ctr);
    var w1 := Apply(w0, open_);
    var w2 := Apply(w1, start);
    var w3 := Apply(w2, finish);
    w := Apply(w3, record);
    run := [open_, start, finish, record];
    var empty: seq<Ctr> := [];
    assert w3.tabs[0].win == Some(empty) && empty + [ctr] == [ctr];
    assert w.tabs[0].win == Some(LastN(empty + [ctr], window));
    assert w.accepted == {ctr};
    assert Leads(w, [], w);
    assert Leads(w3, [record], w);
    assert Leads(w2, [finish, record], w) by { assert [finish, record][1..] == [record]; }
    assert Leads(w1, [start, finish, record], w) by { assert [start, finish, record][1..] == [finish, record]; }
    assert run[1..] == [start, finish, record];
  }
}

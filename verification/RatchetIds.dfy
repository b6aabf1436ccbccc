// src/ratchet-ids.ts (KID packing, peer-index maps) and the author rule of
// src/ratchet.ts.
module RatchetIds {
  import opened Bits
  import opened Bytes

  // ---------------------------------------------------- 32-bit KID packing

  const TWO32: nat := 0x1_0000_0000

  function ToUint32(n: int): nat { n % TWO32 }

  function ToInt32(n: int): int {
    if n % TWO32 >= 0x8000_0000 then n % TWO32 - TWO32 else n % TWO32
  }

  // The operators of the language work on signed 32-bit values; only the
  // unsigned shift returns a natural.
  function Or32(a: int, b: int): int { ToInt32(Or(ToUint32(a), ToUint32(b))) }
  function And32(a: int, b: int): int { ToInt32(And(ToUint32(a), ToUint32(b))) }
  function Shl32(a: int, n: nat): int { ToInt32(Shl(ToUint32(a), n)) }
  function Ushr32(a: int, n: nat): nat { Shr(ToUint32(a), n) }

  datatype KidError = EpochRange | PeerRange | IndexRange | ContextRange | KidRange
                    | EpochBits | IndexBits | EpochBitsTooWide | IndexBitsTooWide | SumTooWide | WireWidth

  function MakeKid(epoch: int, peerIndex: int): Result<nat, KidError> {
    if epoch < 0 || epoch > 0xffff then Err(EpochRange)
    else if peerIndex < 0 || peerIndex > 0xffff then Err(PeerRange)
    else Ok(Ushr32(Or32(Shl32(And32(epoch, 0xffff), 16), And32(peerIndex, 0xffff)), 0))
  }

  function SplitKid(kid: nat): (nat, int) {
    (Ushr32(Ushr32(kid, 16), 0), And32(kid, 0xffff))
  }

  lemma Mod32Mod16(n: nat)
    ensures (n % TWO32) % 0x1_0000 == n % 0x1_0000
  {
    var q, r := n / TWO32, n % TWO32;
    assert n == (q * 0x1_0000 + r / 0x1_0000) * 0x1_0000 + r % 0x1_0000;
  }

  lemma Mask16(n: nat, mask: nat)
    requires mask == 0xffff
    ensures And32(n, mask) == n % 0x1_0000
  {
    var low := n % TWO32;
    assert And(low, mask) == low % 0x1_0000 by {
      Pow2Constants();
      AndMask(low, 16);
    }
    Mod32Mod16(n);
    assert mask % TWO32 == mask;
  }

  lemma ShiftLeft16(high: nat)
    ensures Shl(high, 16) == high * 0x1_0000
  {
    Pow2Constants();
  }

  lemma ShiftRight(n: nat)
    ensures Shr(n, 16) == n / 0x1_0000 && Shr(n, 0) == n
  {
    hide Pow2;
    Pow2Constants();
    ShrIsDiv(n, 16);
  }

  lemma OrLow16(high: nat, low: nat)
    requires low < 0x1_0000
    ensures Or(high * 0x1_0000, low) == high * 0x1_0000 + low
  {
    Pow2Constants();
    OrDisjoint(high, low, 16);
  }

  lemma SignedRoundTrip(n: nat)
    requires n < TWO32
    ensures ToUint32(ToInt32(n)) == n && ToUint32(n) == n
  {
  }

  lemma Pack32(high: nat, low: nat, high32: int, packed: int)
    requires high < 0x1_0000 && low < 0x1_0000
    requires high32 == Shl32(high, 16) && packed == Or32(high32, low)
    ensures Ushr32(packed, 0) == high * 0x1_0000 + low
  {
    hide Or, Pow2, Shl, Shr, ToUint32, ToInt32;
    ShiftLeft16(high);
    SignedRoundTrip(high);
    SignedRoundTrip(high * 0x1_0000);
    SignedRoundTrip(low);
    OrLow16(high, low);
    SignedRoundTrip(high * 0x1_0000 + low);
    ShiftRight(high * 0x1_0000 + low);
  }

  lemma MakeKidIsSum(epoch: int, peerIndex: int)
    requires 0 <= epoch <= 0xffff && 0 <= peerIndex <= 0xffff
    ensures MakeKid(epoch, peerIndex) == Ok(epoch * 0x1_0000 + peerIndex)
  {
    hide And, Or, Pow2, Shl, Shr, ToUint32, ToInt32;
    Mask16(epoch, 0xffff);
    Mask16(peerIndex, 0xffff);
    var high32 := Shl32(epoch, 16);
    Pack32(epoch, peerIndex, high32, Or32(high32, peerIndex));
  }

  // A parsed KID may be as large as 2^53; only its low 32 bits are read.
  lemma SplitKidLow32(kid: nat)
    ensures SplitKid(kid) == ((kid % TWO32) / 0x1_0000, kid % 0x1_0000)
  {
    Mask16(kid, 0xffff);
    ShiftRight(kid % TWO32);
    var high := Ushr32(kid, 16);
    ShiftRight(high);
    SignedRoundTrip(high);
  }

  lemma SplitUndoesMake(epoch: int, peerIndex: int)
    ensures MakeKid(epoch, peerIndex).Ok? <==> 0 <= epoch <= 0xffff && 0 <= peerIndex <= 0xffff
    ensures MakeKid(epoch, peerIndex).Ok? ==>
      var kid := MakeKid(epoch, peerIndex).value;
      kid < TWO32 && SplitKid(kid) == (epoch, peerIndex)
  {
    hide SplitKid, Ushr32, Or32, Shl32, And32;
    if 0 <= epoch <= 0xffff && 0 <= peerIndex <= 0xffff {
      MakeKidIsSum(epoch, peerIndex);
      var kid := epoch * 0x1_0000 + peerIndex;
      SplitKidLow32(kid);
      assert kid % TWO32 == kid;
    }
  }

  // The inverse direction holds on exactly the 32-bit identifiers.
  lemma MakeUndoesSplit(kid: nat)
    ensures MakeKid(SplitKid(kid).0, SplitKid(kid).1) == Ok(kid) <==> kid < TWO32
  {
    hide MakeKid, SplitKid;
    SplitKidLow32(kid);
    Mod32Mod16(kid);
    MakeKidIsSum((kid % TWO32) / 0x1_0000, kid % 0x1_0000);
  }

  // ------------------------------------------------------- peer index maps

  // A number on the wire: only integers can be indices.
  datatype JsValue = Int(n: int) | NotInteger

  datatype MapValidation = Valid | Empty | BadValue | DuplicateIndex | GapOrOutOfRange

  type Entries = seq<(string, JsValue)>

  ghost predicate DistinctKeys(map_: Entries) {
    forall i, j | 0 <= i < j < |map_| :: map_[i].0 != map_[j].0
  }

  // Entry i is usable: an integer in range that no earlier entry uses.
  ghost predicate EntryOk(map_: Entries, i: nat)
    requires i < |map_|
  {
    map_[i].1.Int? && 0 <= map_[i].1.n < |map_| && forall j | 0 <= j < i :: map_[j].1 != map_[i].1
  }

  // The values are exactly 0 .. N-1, each used once.
  ghost predicate Bijection(map_: Entries) {
    && (forall i | 0 <= i < |map_| :: map_[i].1.Int? && 0 <= map_[i].1.n < |map_|)
    && (forall i, j | 0 <= i < j < |map_| :: map_[i].1 != map_[j].1)
    && (forall v: nat | v < |map_| :: exists i :: 0 <= i < |map_| && map_[i].1 == Int(v))
  }

  ghost function Range(n: nat): (s: set<int>)
    ensures |s| == n
    ensures forall v :: v in s <==> 0 <= v < n
  {
    if n == 0 then {} else Range(n - 1) + {n - 1}
  }

  lemma SubsetOfSameSize(a: set<int>, b: set<int>)
    requires a <= b && |a| == |b|
    ensures a == b
  {
    assert |b - a| == |b| - |a|;
    assert b - a == {};
  }

  // The entries up to i are usable, and `seen` collects their values.
  ghost predicate Scanned(map_: Entries, i: nat, seen: set<int>)
    requires i <= |map_|
  {
    && (forall j | 0 <= j < i :: EntryOk(map_, j) && map_[j].1.n in seen)
    && (forall v | v in seen :: 0 <= v < |map_| && exists j :: 0 <= j < i && map_[j].1 == Int(v))
    && |seen| == i
  }

  lemma ScannedAll(map_: Entries, seen: set<int>)
    requires Scanned(map_, |map_|, seen)
    ensures Bijection(map_)
  {
    assert seen <= Range(|map_|);
    SubsetOfSameSize(seen, Range(|map_|));
    forall v: nat | v < |map_| ensures exists i :: 0 <= i < |map_| && map_[i].1 == Int(v) {
      assert v in seen;
    }
  }

  lemma OffendingEntry(map_: Entries, i: nat)
    requires i < |map_| && !EntryOk(map_, i)
    ensures !Bijection(map_)
  {
  }

  // The answer is Valid exactly for a non-empty bijection, the other answers
  // name the first offending entry, and the final gap test never fires.
  method ValidatePeerIndexMap(map_: Entries) returns (r: MapValidation)
    requires DistinctKeys(map_)
    ensures r == Valid <==> map_ != [] && Bijection(map_)
    ensures r == Empty <==> map_ == []
    ensures r == BadValue || r == DuplicateIndex ==>
      exists i :: 0 <= i < |map_| && !EntryOk(map_, i) && (forall j | 0 <= j < i :: EntryOk(map_, j))
               && (r == BadValue <==> !(map_[i].1.Int? && 0 <= map_[i].1.n < |map_|))
    ensures r != GapOrOutOfRange
  {
    if |map_| == 0 { return Empty; }
    var n := |map_|;
    var seen: set<int> := {};
    for i := 0 to n
      invariant Scanned(map_, i, seen)
    {
      var v := map_[i].1;
      if v.NotInteger? || v.n < 0 || v.n >= n {
        OffendingEntry(map_, i);
        return BadValue;
      }
      if v.n in seen {
        assert !EntryOk(map_, i);
        OffendingEntry(map_, i);
        return DuplicateIndex;
      }
      assert EntryOk(map_, i);
      seen := seen + {v.n};
    }
    if |seen| != n { return GapOrOutOfRange; }
    ScannedAll(map_, seen);
    return Valid;
  }

  // ------------------------------------------------------------ sorted ids

  // Order of strings by code unit.
  predicate Less(a: string, b: string) {
    if b == "" then false
    else if a == "" then true
    else a[0] < b[0] || (a[0] == b[0] && Less(a[1..], b[1..]))
  }

  // Strings that agree up to here, where the first has ended or is smaller.
  predicate SmallerAt(a: string, b: string, i: nat) {
    i <= |a| && i < |b| && a[..i] == b[..i] && (i < |a| ==> a[i] < b[i])
  }

  // The first difference decides, and a proper prefix comes first.
  lemma {:induction false} LessAtFirstDifference(a: string, b: string)
    ensures Less(a, b) <==> exists i: nat :: SmallerAt(a, b, i)
  {
    if a != "" && b != "" && a[0] == b[0] {
      LessAtFirstDifference(a[1..], b[1..]);
      if i: nat :| SmallerAt(a[1..], b[1..], i) {
        assert a[..i + 1] == [a[0]] + a[1..][..i] && b[..i + 1] == [b[0]] + b[1..][..i];
        assert SmallerAt(a, b, i + 1);
      }
      if i: nat :| SmallerAt(a, b, i) {
        assert i > 0 && a[1..][..i - 1] == a[..i][1..] && b[1..][..i - 1] == b[..i][1..];
        assert SmallerAt(a[1..], b[1..], i - 1);
      }
    } else if b != "" && Less(a, b) {
      assert SmallerAt(a, b, 0);
    } else if i: nat :| SmallerAt(a, b, i) {
      SameHead(a, b, i);
    }
  }

  lemma SameHead(a: string, b: string, i: nat)
    requires SmallerAt(a, b, i)
    ensures i == 0 || (a != "" && a[0] == b[0])
  {
    if i > 0 { assert a[0] == a[..i][0] && b[0] == b[..i][0]; }
  }

  lemma {:induction false} LessTotal(a: string, b: string)
    ensures Less(a, b) || Less(b, a) || a == b
    ensures !(Less(a, b) && Less(b, a))
    ensures Less(a, b) ==> a != b
  {
    if a != "" && b != "" {
      assert a == [a[0]] + a[1..] && b == [b[0]] + b[1..];
      LessTotal(a[1..], b[1..]);
    }
  }

  lemma {:induction false} LessTransitive(a: string, b: string, c: string)
    requires Less(a, b) && Less(b, c)
    ensures Less(a, c)
  {
    if a != "" && a[0] == b[0] == c[0] { LessTransitive(a[1..], b[1..], c[1..]); }
  }

  predicate AtMost(a: string, b: string) { a == b || Less(a, b) }

  ghost predicate Sorted(s: seq<string>) {
    forall i, j | 0 <= i < j < |s| :: AtMost(s[i], s[j])
  }

  function Insert(x: string, s: seq<string>): (r: seq<string>)
    ensures multiset(r) == multiset{x} + multiset(s)
  {
    if s == [] then [x]
    else
      assert s == [s[0]] + s[1..];
      if AtMost(x, s[0]) then [x] + s else [s[0]] + Insert(x, s[1..])
  }

  // The built-in sort, by any algorithm: SortUnique shows the result is the
  // only sorted arrangement.
  function Sort(s: seq<string>): (r: seq<string>)
    ensures multiset(r) == multiset(s)
    ensures |r| == |s|
  {
    if s == [] then []
    else
      assert s == [s[0]] + s[1..];
      var r := Insert(s[0], Sort(s[1..]));
      assert |r| == |multiset(r)| == |multiset(s)|;
      r
  }

  lemma {:induction false} InsertSorted(x: string, s: seq<string>)
    requires Sorted(s)
    ensures Sorted(Insert(x, s))
  {
    if s != [] {
      LessTotal(x, s[0]);
      if AtMost(x, s[0]) {
        forall i | 0 <= i < |s| ensures AtMost(x, s[i]) {
          if i > 0 && x != s[0] && s[0] != s[i] { LessTransitive(x, s[0], s[i]); }
        }
      } else {
        InsertSorted(x, s[1..]);
        var rest := Insert(x, s[1..]);
        forall i | 0 <= i < |rest| ensures AtMost(s[0], rest[i]) {
          assert rest[i] in multiset(rest);
          assert rest[i] == x || rest[i] in s[1..];
        }
      }
    }
  }

  lemma {:induction false} SortSorted(s: seq<string>)
    ensures Sorted(Sort(s))
  {
    if s != [] {
      SortSorted(s[1..]);
      InsertSorted(s[0], Sort(s[1..]));
    }
  }

  lemma SortedHeadIsLeast(s: seq<string>, x: string)
    requires Sorted(s) && x in multiset(s)
    ensures |s| > 0 && AtMost(s[0], x)
  {
  }

  lemma MultisetTail(s: seq<string>)
    requires s != []
    ensures multiset(s[1..]) == multiset(s) - multiset{s[0]}
  {
    assert s == [s[0]] + s[1..];
  }

  lemma {:induction false} SortUnique(a: seq<string>, b: seq<string>)
    requires Sorted(a) && Sorted(b) && multiset(a) == multiset(b)
    ensures a == b
  {
    hide Less;
    assert |a| == |multiset(a)| == |b|;
    if a != [] {
      assert a[0] == b[0] by {
        assert a[0] in multiset(b) && b[0] in multiset(a);
        SortedHeadIsLeast(a, b[0]);
        SortedHeadIsLeast(b, a[0]);
        LessTotal(a[0], b[0]);
      }
      MultisetTail(a);
      MultisetTail(b);
      SortUnique(a[1..], b[1..]);
    }
  }

  // ----------------------------------------------------- buildPeerIndexMap

  ghost predicate Distinct(ids: seq<string>) {
    forall i, j | 0 <= i < j < |ids| :: ids[i] != ids[j]
  }

  // Every id is mapped to the position of its last occurrence in sorted order.
  method BuildPeerIndexMap(peerIds: seq<string>) returns (out: map<string, nat>)
    ensures out.Keys == IdSet(peerIds)
    ensures forall i | 0 <= i < |peerIds| :: Sort(peerIds)[i] in out && i <= out[Sort(peerIds)[i]] < |peerIds|
    ensures forall id | id in out :: out[id] < |peerIds| && Sort(peerIds)[out[id]] == id
  {
    hide Less;
    var sorted := Sort(peerIds);
    out := map[];
    for i := 0 to |sorted|
      invariant forall k | 0 <= k < i :: sorted[k] in out && k <= out[sorted[k]] < i
      invariant forall id | id in out :: out[id] < i && sorted[out[id]] == id
    {
      out := out[sorted[i] := i];
    }
    forall id ensures id in out <==> id in peerIds {
      assert id in multiset(sorted) <==> id in multiset(peerIds);
    }
  }

  // What BuildPeerIndexMap promises about its result.
  ghost predicate IsIndexMapOf(out: map<string, nat>, ids: seq<string>) {
    && out.Keys == IdSet(ids)
    && (forall i | 0 <= i < |ids| :: Sort(ids)[i] in out && i <= out[Sort(ids)[i]] < |ids|)
    && (forall id | id in out :: out[id] < |ids| && Sort(ids)[out[id]] == id)
  }

  // The assignment is a bijection onto 0 .. N-1 for the N keys of the record
  // exactly when the member list had no repetition.
  lemma BuiltMapIsBijection(out: map<string, nat>, ids: seq<string>)
    requires IsIndexMapOf(out, ids)
    ensures out.Values == Range(|out|) <==> Distinct(ids)
  {
    var sorted := Sort(ids);
    IdSetSize(ids);
    assert |out| == |out.Keys|;
    if Distinct(ids) {
      DistinctSort(ids);
      forall v | 0 <= v < |ids| ensures v in out.Values {
        var id := sorted[v];
        assert sorted[out[id]] == sorted[v];
        assert out[id] == v;
      }
      assert out.Values == Range(|ids|);
    } else {
      assert |out| < |ids|;
      var last := sorted[|ids| - 1];
      assert out[last] == |ids| - 1;
      assert |ids| - 1 in out.Values;
      assert |ids| - 1 !in Range(|out|);
    }
  }

  ghost function IdSet(ids: seq<string>): set<string> { set id | id in ids }

  lemma IdSetCons(id: string, rest: seq<string>)
    ensures IdSet([id] + rest) == {id} + IdSet(rest)
    ensures Distinct([id] + rest) <==> Distinct(rest) && id !in rest
  {
    var all := [id] + rest;
    assert forall i | 0 < i < |all| :: all[i] == rest[i - 1];
    if Distinct(all) {
      forall i, j | 0 <= i < j < |rest| ensures rest[i] != rest[j] {
        assert all[i + 1] != all[j + 1];
      }
      forall j | 0 <= j < |rest| ensures id != rest[j] {
        assert all[0] != all[j + 1];
      }
    }
  }

  // A list covers as many ids as it is long exactly when it has no repetition.
  lemma {:induction false} IdSetSize(ids: seq<string>)
    ensures |IdSet(ids)| <= |ids|
    ensures |IdSet(ids)| == |ids| <==> Distinct(ids)
  {
    if ids != [] {
      var id, rest := ids[0], ids[1..];
      IdSetSize(rest);
      assert ids == [id] + rest;
      IdSetCons(id, rest);
      assert id in IdSet(rest) <==> id in rest;
      if id in rest { assert IdSet(ids) == IdSet(rest); }
    }
  }

  lemma DistinctSort(ids: seq<string>)
    requires Distinct(ids)
    ensures Distinct(Sort(ids))
  {
    var sorted := Sort(ids);
    IdSetSize(ids);
    IdSetSize(sorted);
    forall id ensures id in sorted <==> id in ids {
      assert id in multiset(sorted) <==> id in multiset(ids);
    }
    assert IdSet(sorted) == IdSet(ids);
  }

  // Members that list the same ids in different orders agree on every index.
  lemma IndexMapOrderIndependent(out: map<string, nat>, ids: seq<string>, out': map<string, nat>, ids': seq<string>)
    requires IsIndexMapOf(out, ids) && IsIndexMapOf(out', ids')
    requires Distinct(ids) && multiset(ids) == multiset(ids')
    ensures out == out'
  {
    hide Less, Sort, Sorted, AtMost;
    SortSorted(ids);
    SortSorted(ids');
    SortUnique(Sort(ids), Sort(ids'));
    DistinctSort(ids);
    forall id | id in out ensures id in out' && out'[id] == out[id] {
      assert id in multiset(ids');
      assert Sort(ids)[out[id]] == Sort(ids)[out'[id]];
    }
    forall id | id in out' ensures id in out {
      assert id in multiset(ids);
    }
  }

  // The entries of a record, in whatever order its keys are listed.
  ghost predicate EntriesOf(entries: Entries, out: map<string, nat>) {
    && DistinctKeys(entries) && |entries| == |out|
    && (forall i | 0 <= i < |entries| :: entries[i].0 in out && entries[i].1 == Int(out[entries[i].0]))
    && (forall id | id in out :: exists i :: 0 <= i < |entries| && entries[i].0 == id)
  }

  lemma EntryOf(entries: Entries, out: map<string, nat>, v: int) returns (i: nat)
    requires EntriesOf(entries, out) && v in out.Values
    ensures i < |entries| && entries[i].1 == Int(v)
  {
    var id :| id in out && out[id] == v;
    i :| 0 <= i < |entries| && entries[i].0 == id;
  }

  lemma ValueOfIndex(entries: Entries, out: map<string, nat>, v: nat)
    requires EntriesOf(entries, out) && Bijection(entries) && v < |out|
    ensures v in out.Values
  {
    var i :| 0 <= i < |entries| && entries[i].1 == Int(v);
    assert out[entries[i].0] == v;
  }

  lemma BijectiveFillsRange(entries: Entries, out: map<string, nat>)
    requires EntriesOf(entries, out) && Bijection(entries)
    ensures out.Values == Range(|out|)
  {
    forall v | v in out.Values ensures v in Range(|out|) {
      var i := EntryOf(entries, out, v);
    }
    hide EntriesOf, Bijection;
    forall v | v in Range(|out|) ensures v in out.Values { ValueOfIndex(entries, out, v); }
  }

  lemma FullRangeIsBijective(entries: Entries, out: map<string, nat>)
    requires EntriesOf(entries, out) && out.Values == Range(|out|)
    requires forall id, id' | id in out && id' in out && out[id] == out[id'] :: id == id'
    ensures Bijection(entries)
  {
    forall i | 0 <= i < |entries| ensures entries[i].1.Int? && 0 <= entries[i].1.n < |entries| {
      assert out[entries[i].0] in out.Values;
    }
    forall i, j | 0 <= i < j < |entries| ensures entries[i].1 != entries[j].1 {
      assert entries[i].0 != entries[j].0;
    }
    forall v: nat | v < |entries| ensures exists i :: 0 <= i < |entries| && entries[i].1 == Int(v) {
      var i := EntryOf(entries, out, v);
    }
  }

  // A receiver finds a bijection in a built map exactly when the member list
  // had no repetition.
  lemma BuiltEntriesBijective(entries: Entries, out: map<string, nat>, ids: seq<string>)
    requires EntriesOf(entries, out) && IsIndexMapOf(out, ids)
    ensures Bijection(entries) <==> Distinct(ids)
  {
    hide Sort, Distinct, EntriesOf, Bijection, Range;
    BuiltMapIsBijection(out, ids);
    if Bijection(entries) { BijectiveFillsRange(entries, out); }
    if Distinct(ids) { FullRangeIsBijective(entries, out); }
  }

  // Object.keys of a built map, with the values.
  method ListEntries(out: map<string, nat>) returns (entries: Entries)
    ensures EntriesOf(entries, out)
  {
    entries := [];
    var rest := out.Keys;
    while rest != {}
      invariant rest <= out.Keys && |entries| == |out| - |rest|
      invariant forall i | 0 <= i < |entries| ::
        entries[i].0 in out && entries[i].0 !in rest && entries[i].1 == Int(out[entries[i].0])
      invariant DistinctKeys(entries)
      invariant forall id | id in out && id !in rest :: exists i :: 0 <= i < |entries| && entries[i].0 == id
      decreases rest
    {
      var id :| id in rest;
      ghost var before := entries;
      entries := entries + [(id, Int(out[id]))];
      rest := rest - {id};
      forall k | k in out && k !in rest ensures exists i :: 0 <= i < |entries| && entries[i].0 == k {
        if k == id {
          assert entries[|before|].0 == k;
        } else {
          var i :| 0 <= i < |before| && before[i].0 == k;
          assert entries[i].0 == k;
        }
      }
    }
  }

  // What a receiver answers to the map that startNewEpoch of src/ratchet.ts
  // builds from its own id and its members: a member list that repeats an id,
  // or holds the author itself, is rejected.
  method ValidateNewEpochMap(self: string, members: seq<string>) returns (r: MapValidation)
    ensures r == Valid <==> Distinct(members) && self !in members
  {
    var allIds := [self] + members;
    var out := BuildPeerIndexMap(allIds);
    var entries := ListEntries(out);
    hide Sort, Bijection, Distinct;
    r := ValidatePeerIndexMap(entries);
    BuiltEntriesBijective(entries, out, allIds);
    IdSetCons(self, members);
    assert self in out;
  }

  // --------------------------------------------------- authoritative author

  // isAuthoritativeAuthor of src/ratchet.ts: own id first in sorted order of
  // self and the peer ids.
  predicate IsAuthoritativeAuthor(self: string, peers: seq<string>) {
    Sort([self] + peers)[0] == self
  }

  // A member's view agrees with the group when its own id and its peers are
  // together the group.
  ghost predicate View(group: set<string>, self: string, peers: seq<string>) {
    self in group && group == {self} + set p | p in peers
  }

  lemma AuthorIsLeast(group: set<string>, self: string, peers: seq<string>)
    requires View(group, self, peers)
    ensures IsAuthoritativeAuthor(self, peers) <==> forall id | id in group :: AtMost(self, id)
  {
    var all := [self] + peers;
    var sorted := Sort(all);
    SortSorted(all);
    assert sorted[0] in multiset(all);
    LessTotal(self, sorted[0]);
    forall id | id in group ensures id in multiset(sorted) {
      assert id in all;
    }
    assert sorted[0] in group;
  }

  lemma LeastMember(group: set<string>) returns (least: string)
    requires group != {}
    ensures least in group && forall id | id in group :: AtMost(least, id)
  {
    var x :| x in group;
    if group == {x} {
      least := x;
    } else {
      var y := LeastMember(group - {x});
      LessTotal(x, y);
      least := if AtMost(x, y) then x else y;
      forall id | id in group ensures AtMost(least, id) {
        if id != x {
          assert AtMost(y, id);
          if id != y && x != y && AtMost(x, y) { LessTransitive(x, y, id); }
        }
      }
    }
  }

  // With an agreed membership view, exactly one member is the author.
  lemma ExactlyOneAuthor(group: set<string>, peers: map<string, seq<string>>)
    requires group != {} && peers.Keys == group
    requires forall id | id in group :: View(group, id, peers[id])
    ensures exists author :: author in group && IsAuthoritativeAuthor(author, peers[author])
              && forall id | id in group && IsAuthoritativeAuthor(id, peers[id]) :: id == author
  {
    var least := LeastMember(group);
    forall id | id in group ensures IsAuthoritativeAuthor(id, peers[id]) <==> id == least {
      AuthorIsLeast(group, id, peers[id]);
      LessTotal(id, least);
    }
  }
}

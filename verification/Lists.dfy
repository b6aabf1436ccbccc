// Facts about duplicate-free sequences shared by the window and cache models.
module Lists {

  ghost function Elems<T>(s: seq<T>): set<T> { set x | x in s }

  ghost predicate NoDup<T>(s: seq<T>) {
    forall i, j | 0 <= i < j < |s| :: s[i] != s[j]
  }

  function LastN<T>(s: seq<T>, n: nat): (r: seq<T>)
    ensures |r| == if |s| <= n then |s| else n
  {
    if |s| <= n then s else s[|s| - n..]
  }

  lemma ElemsConcat<T>(a: seq<T>, b: seq<T>)
    ensures Elems(a + b) == Elems(a) + Elems(b)
  {
  }

  lemma {:induction false} NoDupSize<T>(s: seq<T>)
    requires NoDup(s)
    ensures |Elems(s)| == |s|
  {
    if s != [] {
      var init, last := s[..|s| - 1], s[|s| - 1];
      NoDupSize(init);
      assert s == init + [last];
      ElemsConcat(init, [last]);
      assert Elems(s) == Elems(init) + {last};
    }
  }

  lemma SubsetSize<T>(a: set<T>, b: set<T>)
    requires a <= b
    ensures |a| <= |b|
    ensures |a| == |b| ==> a == b
  {
    assert |b - a| == |b| - |a|;
  }

  lemma NoDupLastN<T>(s: seq<T>, n: nat)
    requires NoDup(s)
    ensures NoDup(LastN(s, n)) && Elems(LastN(s, n)) <= Elems(s)
  {
  }

  lemma NoDupSnoc<T>(s: seq<T>, x: T)
    requires NoDup(s) && x !in s
    ensures NoDup(s + [x])
  {
  }

  lemma Inhabited(s: set<int>)
    ensures s != {} <==> exists x :: x in s
  {
    if forall x :: x !in s { assert s == {}; }
  }
}

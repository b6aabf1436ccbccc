// Byte strings and their big-endian value.
module Bytes {
  import opened Bits

  type byte = n: nat | n < 256

  datatype Result<+T, +E> = Ok(value: T) | Err(error: E)

  datatype Option<+T> = None | Some(value: T)

  function Pow256(n: nat): (p: nat)
    ensures p >= 1
  {
    if n == 0 then 1 else 256 * Pow256(n - 1)
  }

  // The low `width` base-256 digits of v, most significant first.
  function ToBE(v: nat, width: nat): (bs: seq<byte>)
    ensures |bs| == width
  {
    if width == 0 then [] else ToBE(v / 256, width - 1) + [v % 256]
  }

  function FromBE(bs: seq<byte>): nat {
    if bs == [] then 0 else FromBE(bs[..|bs| - 1]) * 256 + bs[|bs| - 1]
  }

  // Least positive number of bytes that holds v.
  function MinWidth(v: nat): (w: nat)
    ensures w >= 1
  {
    if v < 256 then 1 else 1 + MinWidth(v / 256)
  }

  function Reverse<T>(s: seq<T>): (r: seq<T>)
    ensures |r| == |s|
  {
    if s == [] then [] else Reverse(s[1..]) + [s[0]]
  }

  lemma {:induction false} ReverseSnoc<T>(s: seq<T>, x: T)
    ensures Reverse(s + [x]) == [x] + Reverse(s)
  {
    if s == [] {
      assert s + [x] == [x];
    } else {
      assert (s + [x])[1..] == s[1..] + [x];
      ReverseSnoc(s[1..], x);
    }
  }

  lemma {:induction false} ReverseAt<T>(s: seq<T>, k: nat)
    requires k < |s|
    ensures Reverse(s)[k] == s[|s| - 1 - k]
  {
    if k < |s| - 1 { ReverseAt(s[1..], k); }
  }

  lemma {:induction false} FromBEBelow(bs: seq<byte>)
    ensures FromBE(bs) < Pow256(|bs|)
  {
    if bs != [] { FromBEBelow(bs[..|bs| - 1]); }
  }

  lemma {:induction false} FromToBE(v: nat, width: nat)
    requires v < Pow256(width)
    ensures FromBE(ToBE(v, width)) == v
  {
    if width > 0 {
      FromToBE(v / 256, width - 1);
      assert ToBE(v, width)[..width - 1] == ToBE(v / 256, width - 1);
    }
  }

  lemma {:induction false} ToFromBE(bs: seq<byte>)
    ensures ToBE(FromBE(bs), |bs|) == bs
  {
    if bs != [] {
      var init := bs[..|bs| - 1];
      ToFromBE(init);
      assert bs == init + [bs[|bs| - 1]];
    }
  }

  lemma {:induction false} MinWidthFits(v: nat)
    ensures v < Pow256(MinWidth(v))
  {
    if v >= 256 { MinWidthFits(v / 256); }
  }

  lemma {:induction false} MinWidthLeast(v: nat, width: nat)
    requires width >= 1 && v < Pow256(width)
    ensures MinWidth(v) <= width
  {
    if v >= 256 { MinWidthLeast(v / 256, width - 1); }
  }

  lemma Pow256Constants()
    ensures Pow256(1) == 0x100 && Pow256(4) == 0x1_0000_0000
    ensures Pow256(8) == 0x1_0000_0000_0000_0000
    ensures Pow256(12) == 0x1_0000_0000_0000_0000_0000_0000
  {
    assert Pow256(2) == 0x1_0000;
    assert Pow256(4) == 0x1_0000 * Pow256(2);
    assert Pow256(6) == 0x1_0000 * Pow256(4);
    assert Pow256(8) == 0x1_0000 * Pow256(6);
    assert Pow256(10) == 0x1_0000 * Pow256(8);
    assert Pow256(12) == 0x1_0000 * Pow256(10);
  }

  lemma {:induction false} Pow256Monotone(m: nat, n: nat)
    requires m <= n
    ensures Pow256(m) <= Pow256(n)
  {
    if m < n { Pow256Monotone(m, n - 1); }
  }
}

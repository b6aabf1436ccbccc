// src/internal/constant-time.ts: comparisons by an xor-or fold. Only their
// functional result is modelled, not their timing.
module ConstantTime {
  import opened Bits
  import opened Bytes

  const TWO64: nat := 0x1_0000_0000_0000_0000

  method CtEqual(a: seq<byte>, b: seq<byte>) returns (r: bool)
    ensures r <==> a == b
  {
    if |a| != |b| { return false; }
    var acc: nat := 0;
    for i := 0 to |a|
      invariant acc == 0 <==> a[..i] == b[..i]
    {
      XorIsZero(a[i], b[i]);
      OrIsZero(acc, Xor(a[i], b[i]));
      acc := Or(acc, Xor(a[i], b[i]));
      assert a[..i + 1] == a[..i] + [a[i]] && b[..i + 1] == b[..i] + [b[i]];
    }
    assert a[..|a|] == a && b[..|b|] == b;
    return acc == 0;
  }

  predicate EndsWith(frame: seq<byte>, trailer: seq<byte>) {
    |frame| >= |trailer| && frame[|frame| - |trailer|..] == trailer
  }

  method CtEndsWith(frame: seq<byte>, trailer: seq<byte>) returns (r: bool)
    ensures r <==> EndsWith(frame, trailer)
  {
    if |frame| < |trailer| { return false; }
    r := CtEqual(frame[|frame| - |trailer|..], trailer);
  }

  lemma {:induction false} FromBEPrepend(x: byte, bs: seq<byte>)
    ensures FromBE([x] + bs) == x * Pow256(|bs|) + FromBE(bs)
  {
    if bs == [] {
      assert [x] + bs == [x];
      assert FromBE([x]) == FromBE([]) * 256 + x;
    } else {
      var init := bs[..|bs| - 1];
      assert ([x] + bs)[..|bs|] == [x] + init;
      FromBEPrepend(x, init);
      assert x * Pow256(|bs|) == 256 * (x * Pow256(|init|));
    }
  }

  lemma DigitStep(x: int, p: nat)
    ensures x * p == (x / 256) * (256 * p) + (x % 256) * p
  {
    var q, r := x / 256, x % 256;
    assert x == q * 256 + r;
    assert (q * 256 + r) * p == (q * 256) * p + r * p;
    assert (q * 256) * p == q * (256 * p);
  }

  // Appending a little-endian digit.
  lemma AppendDigit(x: int, before: seq<byte>, low: byte)
    requires low == x % 256
    ensures x * Pow256(|before|) + FromBE(Reverse(before))
         == (x / 256) * Pow256(|before| + 1) + FromBE(Reverse(before + [low]))
  {
    hide FromBE, Reverse;
    ReverseSnoc(before, low);
    FromBEPrepend(low, Reverse(before));
    DigitStep(x, Pow256(|before|));
  }

  // A bigint mask with 0xff is the floor remainder by 256, and a right shift by
  // 8 the floor quotient, on negative values as well.
  method BigintToBytes64(v: int) returns (bs: seq<byte>)
    ensures |bs| == 8 && FromBE(Reverse(bs)) == v % TWO64
  {
    hide FromBE, Reverse, Pow256;
    var out := new byte[8](_ => 0);
    var x := v;
    assert v == x * Pow256(0) + FromBE(Reverse(out[..0])) by { AppendNothing(v); }
    for i := 0 to 8
      invariant v == x * Pow256(i) + FromBE(Reverse(out[..i]))
    {
      var low: byte := x % 256;
      ghost var before := out[..i];
      AppendDigit(x, before, low);
      out[i] := low;
      assert out[..i + 1] == before + [low];
      x := x / 256;
    }
    assert out[..8] == out[..];
    bs := out[..];
    FromBEBelow(Reverse(bs));
    Pow256Constants();
  }

  lemma AppendNothing(v: int)
    ensures v == v * Pow256(0) + FromBE(Reverse([]))
  {
  }

  // Byte-wise equality of the low 64 bits, hence congruence modulo 2^64.
  method CtBigintEqual(a: int, b: int) returns (r: bool)
    ensures r <==> a % TWO64 == b % TWO64
    ensures 0 <= a < TWO64 && 0 <= b < TWO64 ==> (r <==> a == b)
  {
    var aBytes := BigintToBytes64(a);
    var bBytes := BigintToBytes64(b);
    r := CtEqual(aBytes, bBytes);
    if a % TWO64 == b % TWO64 {
      LittleEndianInjective(aBytes, bBytes);
    }
  }

  lemma LittleEndianInjective(a: seq<byte>, b: seq<byte>)
    requires |a| == |b| && FromBE(Reverse(a)) == FromBE(Reverse(b))
    ensures a == b
  {
    ToFromBE(Reverse(a));
    ToFromBE(Reverse(b));
    forall k | 0 <= k < |a| ensures a[k] == b[k] {
      ReverseAt(a, |a| - 1 - k);
      ReverseAt(b, |a| - 1 - k);
    }
  }
}

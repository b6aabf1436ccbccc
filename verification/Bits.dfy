// Bitwise operators of arbitrary-precision integers, restricted to naturals.
// They are defined one bit at a time; the lemmas turn the masks, shifts and
// disjoint ors of the wire codecs into powers of two.
module Bits {

  function Pow2(n: nat): (p: nat)
    ensures p >= 1
  {
    if n == 0 then 1 else 2 * Pow2(n - 1)
  }

  function And(a: nat, b: nat): nat {
    if a == 0 || b == 0 then 0
    else 2 * And(a / 2, b / 2) + (if a % 2 == 1 && b % 2 == 1 then 1 else 0)
  }

  function Or(a: nat, b: nat): nat
    decreases a + b
  {
    if a == 0 && b == 0 then 0
    else 2 * Or(a / 2, b / 2) + (if a % 2 == 1 || b % 2 == 1 then 1 else 0)
  }

  function Xor(a: nat, b: nat): nat
    decreases a + b
  {
    if a == 0 && b == 0 then 0
    else 2 * Xor(a / 2, b / 2) + (if a % 2 != b % 2 then 1 else 0)
  }

  function Shl(a: nat, n: nat): nat { a * Pow2(n) }

  function Shr(a: nat, n: nat): nat { if n == 0 then a else Shr(a / 2, n - 1) }

  lemma {:induction false} Pow2Add(m: nat, n: nat)
    ensures Pow2(m + n) == Pow2(m) * Pow2(n)
  {
    if m > 0 {
      Pow2Add(m - 1, n);
      assert Pow2(m + n) == 2 * Pow2((m - 1) + n);
    }
  }

  lemma {:induction false} Pow2Monotone(m: nat, n: nat)
    requires m <= n
    ensures Pow2(m) <= Pow2(n)
  {
    if m < n { Pow2Monotone(m, n - 1); }
  }

  lemma Pow2Double(n: nat, p: nat)
    requires p == Pow2(n)
    ensures Pow2(n + n) == p * p
  {
    Pow2Add(n, n);
  }

  lemma Pow2Constants()
    ensures Pow2(3) == 8 && Pow2(4) == 16 && Pow2(7) == 128 && Pow2(8) == 256
    ensures Pow2(16) == 0x1_0000 && Pow2(32) == 0x1_0000_0000
    ensures Pow2(64) == 0x1_0000_0000_0000_0000
  {
    assert Pow2(8) == 256;
    hide Pow2;
    Pow2Double(8, 256);
    Pow2Double(16, 0x1_0000);
    Pow2Double(32, 0x1_0000_0000);
  }

  lemma {:induction false} ShrIsDiv(a: nat, n: nat)
    ensures Shr(a, n) == a / Pow2(n)
  {
    if n > 0 {
      calc {
        Shr(a, n);
      ==
        Shr(a / 2, n - 1);
      == { ShrIsDiv(a / 2, n - 1); }
        (a / 2) / Pow2(n - 1);
      == { ModSplit(a, Pow2(n - 1)); }
        a / Pow2(n);
      }
    }
  }

  // Masking with n low ones is the remainder modulo 2^n.
  lemma {:induction false} AndMask(a: nat, n: nat)
    ensures And(a, Pow2(n) - 1) == a % Pow2(n)
  {
    if n > 0 {
      var p := Pow2(n - 1);
      calc {
        And(a, Pow2(n) - 1);
      == { AndOnes(a, p); }
        2 * And(a / 2, p - 1) + a % 2;
      == { AndMask(a / 2, n - 1); }
        2 * ((a / 2) % p) + a % 2;
      == { ModSplit(a, p); }
        a % Pow2(n);
      }
    }
  }

  // A shift and a mask cut a value in two.
  lemma {:induction false} Cut(a: nat, n: nat)
    ensures a == Shr(a, n) * Pow2(n) + And(a, Pow2(n) - 1)
    ensures And(a, Pow2(n) - 1) < Pow2(n)
  {
    hide And;
    if n == 0 {
      AndZero(a);
    } else {
      var p, high := Pow2(n - 1), Shr(a / 2, n - 1);
      Cut(a / 2, n - 1);
      AndOnes(a, p);
      Doubled(a, high, p, And(a / 2, p - 1));
    }
  }

  lemma Doubled(a: nat, high: nat, p: nat, low: nat)
    requires a / 2 == high * p + low
    ensures a == high * (2 * p) + (2 * low + a % 2)
  {
    assert high * (2 * p) == 2 * (high * p);
  }

  lemma AndZero(a: nat)
    ensures And(a, 0) == 0
  {
  }

  lemma AndOnes(a: nat, p: nat)
    requires p >= 1
    ensures And(a, 2 * p - 1) == 2 * And(a / 2, p - 1) + a % 2
  {
    assert (2 * p - 1) % 2 == 1 && (2 * p - 1) / 2 == p - 1;
  }

  lemma ModSplit(a: nat, p: nat)
    requires p >= 1
    ensures a % (2 * p) == 2 * ((a / 2) % p) + a % 2
    ensures a / (2 * p) == (a / 2) / p
  {
    var h := a / 2;
    var q, r := h / p, h % p;
    assert h == q * p + r;
    assert a == q * (2 * p) + (2 * r + a % 2);
    DivModUnique(a, 2 * p, q, 2 * r + a % 2);
  }

  lemma DivModUnique(a: nat, d: nat, q: nat, r: nat)
    requires d >= 1 && r < d && a == q * d + r
    ensures a / d == q && a % d == r
  {
    var q', r' := a / d, a % d;
    var k := q - q';
    assert k * d == q * d - q' * d == r' - r;
    MulBounds(k, d);
  }

  lemma MulBounds(k: int, d: nat)
    requires d >= 1
    ensures k >= 1 ==> k * d >= d
    ensures k <= -1 ==> k * d + d <= 0
  {
    if k >= 1 {
      assert (k - 1) * d >= 0;
    } else if k <= -1 {
      assert (-1 - k) * d >= 0;
    }
  }

  // A single-bit mask picks out exactly that bit.
  lemma {:induction false} AndBit(a: nat, n: nat)
    ensures And(a, Pow2(n)) == Shr(a, n) % 2 * Pow2(n)
  {
    if n == 0 {
      assert And(a, 1) == 2 * And(a / 2, 0) + a % 2;
    } else {
      var p, bit := Pow2(n - 1), Shr(a, n) % 2;
      calc {
        And(a, Pow2(n));
      ==
        And(a, 2 * p);
      == { AndEven(a, p); }
        2 * And(a / 2, p);
      == { AndBit(a / 2, n - 1); }
        2 * (bit * p);
      ==
        bit * (2 * p);
      }
    }
  }

  lemma AndEven(a: nat, p: nat)
    requires p >= 1
    ensures And(a, 2 * p) == 2 * And(a / 2, p)
  {
    assert (2 * p) / 2 == p && (2 * p) % 2 == 0;
  }

  // Or-ing a value below 2^n into a multiple of 2^n adds the two.
  lemma {:induction false} OrDisjoint(a: nat, b: nat, n: nat)
    requires b < Pow2(n)
    ensures Or(a * Pow2(n), b) == a * Pow2(n) + b
  {
    if n == 0 {
      OrZero(a);
    } else {
      var p := Pow2(n - 1);
      var x := a * Pow2(n);
      assert x == 2 * (a * p);
      OrDisjoint(a, b / 2, n - 1);
    }
  }

  lemma {:induction false} OrZero(a: nat)
    ensures Or(a, 0) == a
  {
    if a > 0 { OrZero(a / 2); }
  }

  lemma {:induction false} OrIsZero(a: nat, b: nat)
    ensures Or(a, b) == 0 <==> a == 0 && b == 0
    decreases a + b
  {
    if a > 0 || b > 0 { OrIsZero(a / 2, b / 2); }
  }

  lemma {:induction false} XorIsZero(a: nat, b: nat)
    ensures Xor(a, b) == 0 <==> a == b
    decreases a + b
  {
    if a > 0 || b > 0 { XorIsZero(a / 2, b / 2); }
  }

  lemma {:induction false} XorCancels(a: nat, b: nat, s: nat)
    requires Xor(a, s) == Xor(b, s)
    ensures a == b
    decreases a + b + s
  {
    if a > 0 || b > 0 || s > 0 {
      XorHalves(a, s);
      XorHalves(b, s);
      XorCancels(a / 2, b / 2, s / 2);
    }
  }

  lemma {:induction false} XorTwice(a: nat, s: nat)
    ensures Xor(Xor(a, s), s) == a
    decreases a + s
  {
    if a > 0 || s > 0 {
      XorHalves(a, s);
      XorHalves(Xor(a, s), s);
      XorTwice(a / 2, s / 2);
    }
  }

  lemma XorHalves(a: nat, b: nat)
    ensures Xor(a, b) / 2 == Xor(a / 2, b / 2)
    ensures Xor(a, b) % 2 == (if a % 2 != b % 2 then 1 else 0)
  {
  }

  lemma {:induction false} XorBelow(a: nat, b: nat, n: nat)
    requires a < Pow2(n) && b < Pow2(n)
    ensures Xor(a, b) < Pow2(n)
    decreases n
  {
    if n > 0 { XorBelow(a / 2, b / 2, n - 1); }
  }

  lemma {:induction false} OrBelow(a: nat, b: nat, n: nat)
    requires a < Pow2(n) && b < Pow2(n)
    ensures Or(a, b) < Pow2(n)
    decreases n
  {
    if n > 0 { OrBelow(a / 2, b / 2, n - 1); }
  }
}

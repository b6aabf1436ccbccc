// IEEE double arithmetic on the natural numbers, as far as the codecs use it:
// a value below 2^53 is exact, a larger one is rounded to 53 significant bits,
// ties to even. Exponents never come near the overflow threshold.
module JsNumber {
  import opened Bits

  const SAFE_LIMIT: nat := 0x20_0000_0000_0000

  function Exponent(n: nat): nat {
    if n < SAFE_LIMIT then 0 else 1 + Exponent(n / 2)
  }

  function ToNumber(n: nat): nat {
    var unit := Pow2(Exponent(n));
    var q, r := n / unit, n % unit;
    var up := 2 * r > unit || (2 * r == unit && q % 2 == 1);
    (if up then q + 1 else q) * unit
  }

  // Exactly the naturals a double holds.
  predicate Representable(n: nat) { n % Pow2(Exponent(n)) == 0 }

  lemma {:induction false} SignificandLow(n: nat)
    requires n >= SAFE_LIMIT
    ensures n / Pow2(Exponent(n)) >= SAFE_LIMIT / 2
  {
    ModSplit(n, Pow2(Exponent(n / 2)));
    if n / 2 >= SAFE_LIMIT { SignificandLow(n / 2); }
  }

  // Number() is the identity on exactly the representable naturals.
  lemma ToNumberExact(n: nat)
    ensures ToNumber(n) == n <==> Representable(n)
    ensures n < SAFE_LIMIT ==> Representable(n)
  {
    var unit := Pow2(Exponent(n));
    var q, r := n / unit, n % unit;
    assert n == q * unit + r;
    assert (q + 1) * unit == q * unit + unit;
  }

  // It rounds to a nearest multiple of the unit, and a tie to an even one.
  lemma ToNumberNearest(n: nat)
    ensures var unit := Pow2(Exponent(n));
      && ToNumber(n) % unit == 0
      && 2 * (ToNumber(n) - n) <= unit && 2 * (n - ToNumber(n)) <= unit
      && (2 * (ToNumber(n) - n) == unit || 2 * (n - ToNumber(n)) == unit ==> (ToNumber(n) / unit) % 2 == 0)
  {
    hide Pow2, Exponent;
    var unit := Pow2(Exponent(n));
    RoundedToUnit(n, unit, n / unit, n % unit);
  }

  lemma RoundedToUnit(n: nat, unit: nat, q: nat, r: nat)
    requires unit >= 1 && q == n / unit && r == n % unit
    ensures var up := 2 * r > unit || (2 * r == unit && q % 2 == 1);
      var t := (if up then q + 1 else q) * unit;
      && t % unit == 0 && t / unit == (if up then q + 1 else q)
      && t + r == n + if up then unit else 0
  {
    var up := 2 * r > unit || (2 * r == unit && q % 2 == 1);
    var rounded := if up then q + 1 else q;
    DivModUnique(rounded * unit, unit, rounded, 0);
    assert n == q * unit + r;
    assert (q + 1) * unit == q * unit + unit;
  }

  // Rounding never brings an unsafe value back below 2^53, so the safe-integer
  // test on a rounded accumulator is the test on the exact value.
  lemma ToNumberUnsafe(n: nat)
    requires n >= SAFE_LIMIT
    ensures ToNumber(n) >= SAFE_LIMIT
  {
    var unit := Pow2(Exponent(n));
    var q := n / unit;
    SignificandLow(n);
    assert unit >= 2 by { assert unit == 2 * Pow2(Exponent(n / 2)); }
    MulAtLeast(q, SAFE_LIMIT / 2, unit, 2);
    MulAtLeast(q + 1, SAFE_LIMIT / 2, unit, 2);
  }

  lemma MulAtLeast(a: nat, b: nat, c: nat, d: nat)
    requires a >= b && c >= d
    ensures a * c >= b * d
  {
    assert a * c - b * d == (a - b) * c + b * (c - d);
    assert (a - b) * c >= 0 && b * (c - d) >= 0;
  }
}

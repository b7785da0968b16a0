/** Short Weierstrass curves over the integers modulo p: modular inverse and power, Jacobian doubling
    and addition, and double-and-add. */
module EllipticCurve {
  import opened Words
  import opened ModArith

  // ----- modular inverse -----

  /** Extended Euclid. Reverts on 0, on the modulus itself and on a zero modulus; otherwise the result
      times the argument is the greatest common divisor, hence the inverse of a coprime argument.
      Every subtraction of the unsigned original stays non-negative. */
  method InvMod(x0: Word, pp: Word) returns (r: Option<nat>)
    ensures r.None? <==> x0 == 0 || x0 == pp || pp == 0
    ensures r.Some? ==> Cong(r.value * x0, Gcd(x0, pp), pp) && r.value <= pp
    ensures r.Some? && Gcd(x0, pp) == 1 ==> Inverse(x0, r.value, pp)
  {
    hide Euclid, MulMod, AddMod, Gcd, Cong, Inverse;
    if x0 == 0 || x0 == pp || pp == 0 {
      return None;
    }
    var x: nat, rem: nat := x0, pp;
    var q: nat, newT: nat := 0, 1;
    EuclidStart(x0, pp);
    while x != 0
      invariant Euclid(q, newT, rem, x, x0, pp)
      decreases x
    {
      var t := rem / x;
      EuclidNext(q, newT, rem, x, t, x0, pp);
      q, newT := newT, AddMod(q, pp - MulMod(t, newT, pp), pp);
      rem, x := x, rem - t * x;
    }
    EuclidEnd(q, newT, rem, x0, pp);
    return Some(q);
  }

  /** What the loop keeps: the cofactors q and newT of x0, and the divisor it is looking for. */
  ghost predicate Euclid(q: nat, newT: nat, rem: nat, x: nat, x0: nat, pp: nat)
    requires pp > 0
  {
    && Cong(q * x0, rem, pp)
    && Cong(newT * x0, x, pp)
    && Gcd(x, rem) == Gcd(x0, pp)
    && q <= pp
    && newT <= pp
  }

  lemma EuclidStart(x0: nat, pp: nat)
    requires pp > 0
    ensures Euclid(0, 1, pp, x0, x0, pp)
  {
    CongFrom(0, pp, -1, pp);
  }

  lemma EuclidNext(q: nat, newT: nat, rem: nat, x: nat, t: nat, x0: nat, pp: nat)
    requires pp > 0 && x > 0 && t == rem / x && Euclid(q, newT, rem, x, x0, pp)
    ensures 0 <= rem - t * x < x
    ensures Euclid(newT, AddMod(q, pp - MulMod(t, newT, pp), pp), x, rem - t * x, x0, pp)
  {
    assert rem - t * x == rem % x;
    assert Gcd(x, rem) == Gcd(rem % x, x);
    Cofactor(q, newT, rem, x, t, x0, pp);
  }

  lemma Cofactor(q: int, newT: int, rem: int, x: int, t: int, x0: int, pp: int)
    requires pp > 0 && Cong(q * x0, rem, pp) && Cong(newT * x0, x, pp)
    ensures Cong(AddMod(q, pp - MulMod(t, newT, pp), pp) * x0, rem - t * x, pp)
  {
    hide Cong, AddMod;
    ModCong(t * newT, pp);
    CongRefl(q, pp);
    SubModCong(q, q, MulMod(t, newT, pp), t * newT, pp);
    var next := AddMod(q, pp - MulMod(t, newT, pp), pp);
    CongScale(x0, next, q - t * newT, pp);
    CongScale(t, newT * x0, x, pp);
    CongSub(q * x0, rem, t * (newT * x0), t * x, pp);
    CofactorSpread(q, t, newT, x0);
    CongTrans(next * x0, (q - t * newT) * x0, rem - t * x, pp);
  }

  lemma CofactorSpread(q: int, t: int, newT: int, x0: int)
    ensures (q - t * newT) * x0 == q * x0 - t * (newT * x0)
  {
  }

  lemma EuclidEnd(q: nat, newT: nat, rem: nat, x0: nat, pp: nat)
    requires pp > 0 && Euclid(q, newT, rem, 0, x0, pp)
    ensures Cong(q * x0, Gcd(x0, pp), pp) && q <= pp
    ensures Gcd(x0, pp) == 1 ==> Inverse(x0, q, pp)
  {
    assert q * x0 == x0 * q;
  }

  // ----- modular power -----

  const TWO_TO_255: nat :=
    57896044618658097711785492504343953926634992332820282019728792003956564819968

  function Quotient(a: nat, b: nat): (q: nat)
    requires b > 0
  {
    QuotientNat(a, b);
    a / b
  }

  lemma QuotientNat(a: nat, b: nat)
    requires b > 0
    ensures a / b >= 0
  {
    var q := a / b;
    assert a == q * b + a % b;
    if q < 0 {
      MulMonotone(q, -1, b);
    }
  }

  /** Square, and multiply by the base when the exponent has this bit. */
  function PowerStep(r: nat, base: nat, exp: nat, bit: nat, pp: nat): nat
    requires pp > 0 && bit > 0
  {
    MulMod(MulMod(r, r, pp), if (Quotient(exp, bit)) % 2 == 1 then base else 1, pp)
  }

  lemma PowerStepExtends(r: nat, base: nat, exp: nat, bit: nat, pp: nat)
    requires pp > 0 && bit > 0 && Cong(r, Pow(base, Quotient(exp, 2 * bit)), pp)
    ensures Cong(PowerStep(r, base, exp, bit, pp), Pow(base, Quotient(exp, bit)), pp)
    ensures PowerStep(r, base, exp, bit, pp) < pp
  {
    var k, b := Quotient(exp, 2 * bit), (Quotient(exp, bit)) % 2;
    HalfQuotient(exp, bit);
    assert Quotient(exp, bit) == k + k + b;
    MulModCong(r, Pow(base, k), r, Pow(base, k), pp);
    var f := if b == 1 then base else 1;
    MulModCong(MulMod(r, r, pp), Pow(base, k) * Pow(base, k), f, f, pp);
    PowAdd(base, k, k);
    PowAdd(base, k + k, b);
    assert Pow(base, 1) == base * Pow(base, 0);
    assert Pow(base, b) == f;
  }

  lemma HalfQuotient(exp: nat, bit: nat)
    requires bit > 0
    ensures Quotient(exp, bit) == 2 * (Quotient(exp, 2 * bit)) + (Quotient(exp, bit)) % 2
  {
    var q, s := Quotient(exp, bit), exp % bit;
    var k, b := q / 2, q % 2;
    assert exp == q * bit + s && q == 2 * k + b;
    var low := b * bit + s;
    assert exp == k * (2 * bit) + low by {
      assert (2 * k + b) * bit == k * (2 * bit) + b * bit;
    }
    assert 0 <= low < 2 * bit by {
      MulMonotone(0, b, bit);
      MulMonotone(b, 1, bit);
    }
    ModUnique(exp, 2 * bit, k, low);
  }

  function PowMod(base: nat, exp: nat, pp: nat): nat
    requires pp > 0
  {
    Pow(base, exp) % pp
  }

  /** Four bits of the exponent per turn, from bit 255 down. The early returns make the result wrong
      in two corners only: 0^0 for a modulus above 1, and a positive base to the power 0 modulo 1. */
  method ExpMod(base: Word, exp: Word, pp: Word) returns (r: Option<nat>)
    ensures r.None? <==> pp == 0
    ensures r.Some? ==>
      (r.value == PowMod(base, exp, pp) <==> exp > 0 || (base == 0 && pp == 1) || (base > 0 && pp > 1))
    ensures r.Some? && exp == 0 ==> r.value == if base == 0 then 0 else 1
  {
    if pp == 0 {
      return None;
    }
    if base == 0 {
      ZeroPower(exp, pp);
      return Some(0);
    }
    if exp == 0 {
      OnePower(base, pp);
      return Some(1);
    }
    hide Progress, PowerStep, PowMod;
    var acc: nat := 1;
    var bit: nat := TWO_TO_255;
    ghost var left: nat := 64;
    FirstBits(base, exp, pp);
    while bit > 0
      invariant Progress(acc, bit, left, base, exp, pp)
      decreases left
    {
      ghost var acc0 := acc;
      BitsLeft(acc, bit, left, base, exp, pp);
      acc := PowerStep(acc, base, exp, bit, pp);
      acc := PowerStep(acc, base, exp, bit / 2, pp);
      acc := PowerStep(acc, base, exp, bit / 4, pp);
      acc := PowerStep(acc, base, exp, bit / 8, pp);
      FourSteps(acc0, acc, bit, left, base, exp, pp);
      bit := bit / 16;
      left := left - 1;
    }
    NoBits(acc, left, base, exp, pp);
    return Some(acc);
  }

  /** The accumulator is the base to the power of the exponent bits above 2 * bit, and `left` groups of
      four bits are still to come. */
  ghost predicate Progress(acc: nat, bit: nat, left: nat, base: nat, exp: nat, pp: nat)
    requires pp > 0
  {
    if left == 0 then bit == 0 && Cong(acc, Pow(base, exp), pp) && acc < pp
    else 2 * bit == Pow(16, left) && bit > 0 && Cong(acc, Pow(base, Quotient(exp, 2 * bit)), pp)
  }

  lemma FirstBits(base: nat, exp: Word, pp: nat)
    requires pp > 0
    ensures Progress(1, TWO_TO_255, 64, base, exp, pp)
  {
    hide Cong;
    BitRoom(exp);
    CongRefl(1, pp);
    assert Pow(base, 0) == 1;
  }

  lemma BitsLeft(acc: nat, bit: nat, left: nat, base: nat, exp: nat, pp: nat)
    requires pp > 0 && bit > 0 && Progress(acc, bit, left, base, exp, pp)
    ensures left > 0 && bit / 8 > 0 && bit / 4 > 0 && bit / 2 > 0
  {
    hide Pow, Cong;
    NextBits(bit, left);
  }

  lemma FourSteps(acc: nat, acc4: nat, bit: nat, left: nat, base: nat, exp: nat, pp: nat)
    requires pp > 0 && left > 0 && Progress(acc, bit, left, base, exp, pp)
    requires bit > 0 && bit / 2 > 0 && bit / 4 > 0 && bit / 8 > 0
    requires
      var a1 := PowerStep(acc, base, exp, bit, pp);
      var a2 := PowerStep(a1, base, exp, bit / 2, pp);
      var a3 := PowerStep(a2, base, exp, bit / 4, pp);
      acc4 == PowerStep(a3, base, exp, bit / 8, pp)
    ensures Progress(acc4, bit / 16, left - 1, base, exp, pp)
  {
    hide Pow, Cong, PowerStep, Quotient;
    NextBits(bit, left);
    var a1 := PowerStep(acc, base, exp, bit, pp);
    var a2 := PowerStep(a1, base, exp, bit / 2, pp);
    var a3 := PowerStep(a2, base, exp, bit / 4, pp);
    PowerStepExtends(acc, base, exp, bit, pp);
    PowerStepExtends(a1, base, exp, bit / 2, pp);
    PowerStepExtends(a2, base, exp, bit / 4, pp);
    PowerStepExtends(a3, base, exp, bit / 8, pp);
    QuotientByOne(exp);
  }

  lemma QuotientByOne(a: nat)
    ensures Quotient(a, 1) == a
  {
  }

  lemma NoBits(acc: nat, left: nat, base: nat, exp: nat, pp: nat)
    requires pp > 0 && Progress(acc, 0, left, base, exp, pp)
    ensures acc == PowMod(base, exp, pp)
  {
    ModUnique(acc, pp, 0, acc);
  }

  lemma NextBits(bit: nat, left: nat)
    requires left > 0 && 2 * bit == Pow(16, left)
    ensures bit == 2 * (bit / 2) && bit / 2 == 2 * (bit / 4) && bit / 4 == 2 * (bit / 8) && bit / 8 > 0
    ensures left == 1 ==> bit / 16 == 0
    ensures left > 1 ==> 2 * (bit / 16) == Pow(16, left - 1) && bit / 16 > 0
    ensures left == 1 ==> bit / 8 == 1
    ensures left > 1 ==> bit / 8 == 2 * (bit / 16)
  {
    hide Pow;
    var p := Pow(16, left - 1);
    PowStep(16, left);
    PowPositive(16, left - 1);
    Eighths(bit, p);
    if left > 1 {
      PowStep(16, left - 1);
      PowPositive(16, left - 2);
      Halves(p, Pow(16, left - 2));
    } else {
      PowStep(16, 0);
    }
  }

  lemma Eighths(bit: nat, p: nat)
    requires bit == 8 * p
    ensures bit / 2 == 4 * p && bit / 4 == 2 * p && bit / 8 == p && bit / 16 == p / 2
  {
  }

  lemma Halves(p: nat, q: nat)
    requires p == 16 * q
    ensures p / 2 == 8 * q
  {
  }

  lemma PowStep(b: nat, e: nat)
    ensures Pow(b, e) == if e == 0 then 1 else b * Pow(b, e - 1)
  {
  }

  lemma BitRoom(exp: Word)
    ensures 2 * TWO_TO_255 == Pow(16, 64) && Quotient(exp, 2 * TWO_TO_255) == 0
  {
    assert Pow(16, 8) == 0x1_0000_0000;
    PowAdd(16, 8, 8);
    PowAdd(16, 16, 16);
    PowAdd(16, 32, 32);
    ModUnique(exp, TWO_TO_256, 0, exp);
  }

  lemma ZeroPower(exp: nat, pp: nat)
    requires pp > 0
    ensures PowMod(0, exp, pp) == if exp > 0 || pp == 1 then 0 else 1
  {
    if exp > 0 {
      assert Pow(0, exp) == 0 * Pow(0, exp - 1) == 0;
    }
    ModUnique(0, pp, 0, 0);
    if pp > 1 {
      ModUnique(1, pp, 0, 1);
    }
  }

  lemma OnePower(base: nat, pp: nat)
    requires pp > 0
    ensures PowMod(base, 0, pp) == if pp == 1 then 0 else 1
  {
    if pp > 1 {
      ModUnique(1, pp, 0, 1);
    }
  }
}

/** Congruence modulo m over the integers: enough algebra to calculate with `addmod` and `mulmod`. */
module ModArith {
  import opened Words

  predicate Cong(a: int, b: int, m: int)
    requires m > 0
  {
    a % m == b % m
  }

  function AddMod(a: int, b: int, m: int): (r: nat)
    requires m > 0
    ensures r < m
  {
    (a + b) % m
  }

  function MulMod(a: int, b: int, m: int): (r: nat)
    requires m > 0
    ensures r < m
  {
    (a * b) % m
  }

  lemma ModShift(x: int, k: int, m: int)
    requires m > 0
    ensures (x + k * m) % m == x % m
  {
    assert x + k * m == (x / m + k) * m + x % m;
    ModUnique(x + k * m, m, x / m + k, x % m);
  }

  /** Congruent numbers differ by a multiple, and the other way round. */
  lemma CongWitness(a: int, b: int, m: int) returns (k: int)
    requires m > 0 && Cong(a, b, m)
    ensures a == b + k * m
  {
    k := a / m - b / m;
    assert a == (a / m) * m + a % m && b == (b / m) * m + b % m;
  }

  lemma CongFrom(a: int, b: int, k: int, m: int)
    requires m > 0 && a == b + k * m
    ensures Cong(a, b, m)
  {
    ModShift(b, k, m);
  }

  lemma ModCong(a: int, m: int)
    requires m > 0
    ensures Cong(a % m, a, m)
  {
    assert a == (a / m) * m + a % m;
    CongFrom(a, a % m, a / m, m);
  }

  lemma CongAdd(a: int, a': int, b: int, b': int, m: int)
    requires m > 0 && Cong(a, a', m) && Cong(b, b', m)
    ensures Cong(a + b, a' + b', m)
  {
    var i := CongWitness(a, a', m);
    var j := CongWitness(b, b', m);
    assert a + b == a' + b' + (i + j) * m;
    CongFrom(a + b, a' + b', i + j, m);
  }

  lemma CongSub(a: int, a': int, b: int, b': int, m: int)
    requires m > 0 && Cong(a, a', m) && Cong(b, b', m)
    ensures Cong(a - b, a' - b', m)
  {
    var i := CongWitness(a, a', m);
    var j := CongWitness(b, b', m);
    assert a - b == a' - b' + (i - j) * m;
    CongFrom(a - b, a' - b', i - j, m);
  }

  lemma CongMul(a: int, a': int, b: int, b': int, m: int)
    requires m > 0 && Cong(a, a', m) && Cong(b, b', m)
    ensures Cong(a * b, a' * b', m)
  {
    var i := CongWitness(a, a', m);
    var j := CongWitness(b, b', m);
    MulSpread(a', i * m, b', j * m);
    assert a' * (j * m) + i * m * b' + i * m * (j * m) == (a' * j + i * b' + i * (j * m)) * m;
    CongFrom(a * b, a' * b', a' * j + i * b' + i * (j * m), m);
  }

  lemma MulSpread(a: int, x: int, b: int, y: int)
    ensures (a + x) * (b + y) == a * b + (a * y + x * b + x * y)
  {
  }

  lemma CongRefl(a: int, m: int)
    requires m > 0
    ensures Cong(a, a, m)
  {
  }

  lemma MulAssoc(a: int, b: int, c: int)
    ensures a * (b * c) == (a * b) * c
  {
  }

  lemma CongTrans(a: int, b: int, c: int, m: int)
    requires m > 0 && Cong(a, b, m) && Cong(b, c, m)
    ensures Cong(a, c, m)
  {
  }

  lemma CongScale(c: int, a: int, b: int, m: int)
    requires m > 0 && Cong(a, b, m)
    ensures Cong(c * a, c * b, m) && Cong(a * c, b * c, m)
  {
    CongMul(c, c, a, b, m);
    CongMul(a, b, c, c, m);
  }

  lemma CongSquare(a: int, b: int, m: int)
    requires m > 0 && Cong(a, b, m)
    ensures Cong(a * a, b * b, m)
  {
    CongMul(a, b, a, b, m);
  }

  /** `mulmod` and `addmod` compute up to congruence of their arguments. */
  lemma MulModCong(a: int, a': int, b: int, b': int, m: int)
    requires m > 0 && Cong(a, a', m) && Cong(b, b', m)
    ensures Cong(MulMod(a, b, m), a' * b', m)
  {
    CongMul(a, a', b, b', m);
    ModCong(a * b, m);
  }

  lemma AddModCong(a: int, a': int, b: int, b': int, m: int)
    requires m > 0 && Cong(a, a', m) && Cong(b, b', m)
    ensures Cong(AddMod(a, b, m), a' + b', m)
  {
    CongAdd(a, a', b, b', m);
    ModCong(a + b, m);
  }

  /** The idiom `addmod(a, m - b, m)`. */
  lemma SubModCong(a: int, a': int, b: int, b': int, m: int)
    requires m > 0 && Cong(a, a', m) && Cong(b, b', m)
    ensures Cong(AddMod(a, m - b, m), a' - b', m)
  {
    CongSub(a, a', b, b', m);
    CongFrom(a + (m - b), a - b, 1, m);
    ModCong(a + (m - b), m);
  }

  lemma CanonicalCong(a: int, b: int, m: int)
    requires m > 0 && Cong(a, b, m) && 0 <= a < m && 0 <= b < m
    ensures a == b
  {
    ModUnique(a, m, 0, a);
    ModUnique(b, m, 0, b);
  }

  // ----- invertibility -----

  ghost predicate Inverse(a: int, w: int, m: int)
    requires m > 0
  {
    Cong(a * w, 1, m)
  }

  ghost predicate Unit(a: int, m: int)
    requires m > 0
  {
    exists w :: Inverse(a, w, m)
  }

  lemma UnitMul(a: int, b: int, m: int)
    requires m > 0 && Unit(a, m) && Unit(b, m)
    ensures Unit(a * b, m)
  {
    var v :| Inverse(a, v, m);
    var w :| Inverse(b, w, m);
    CongMul(a * v, 1, b * w, 1, m);
    assert (a * v) * (b * w) == (a * b) * (v * w);
    assert Inverse(a * b, v * w, m);
  }

  lemma UnitCong(a: int, b: int, m: int)
    requires m > 0 && Unit(a, m) && Cong(a, b, m)
    ensures Unit(b, m)
  {
    var w :| Inverse(a, w, m);
    CongScale(w, a, b, m);
    assert Inverse(b, w, m);
  }

  /** A unit can be cancelled. */
  lemma CancelUnit(c: int, a: int, b: int, m: int)
    requires m > 0 && Unit(c, m) && Cong(c * a, c * b, m)
    ensures Cong(a, b, m)
  {
    var w :| Inverse(c, w, m);
    CongScale(w, c * a, c * b, m);
    assert w * (c * a) == (c * w) * a && w * (c * b) == (c * w) * b;
    CongScale(a, c * w, 1, m);
    CongScale(b, c * w, 1, m);
  }

  // ----- powers -----

  function Pow(b: nat, e: nat): nat {
    if e == 0 then 1 else b * Pow(b, e - 1)
  }

  lemma {:induction false} PowAdd(b: nat, i: nat, j: nat)
    ensures Pow(b, i + j) == Pow(b, i) * Pow(b, j)
  {
    if i > 0 {
      PowAdd(b, i - 1, j);
      assert Pow(b, i + j) == b * Pow(b, i - 1 + j);
      MulAssoc(b, Pow(b, i - 1), Pow(b, j));
    }
  }

  lemma {:induction false} PowPositive(b: nat, e: nat)
    requires b > 0
    ensures Pow(b, e) > 0
  {
    if e > 0 {
      PowPositive(b, e - 1);
    }
  }

  lemma {:induction false} PowMul(b: nat, i: nat, j: nat)
    ensures Pow(Pow(b, i), j) == Pow(b, i * j)
  {
    if j > 0 {
      PowMul(b, i, j - 1);
      PowAdd(b, i, i * (j - 1));
      assert i + i * (j - 1) == i * j;
    }
  }

  lemma {:induction false} PowCong(a: nat, b: nat, e: nat, m: nat)
    requires m > 0 && Cong(a, b, m)
    ensures Cong(Pow(a, e), Pow(b, e), m)
  {
    if e > 0 {
      PowCong(a, b, e - 1, m);
      CongMul(a, b, Pow(a, e - 1), Pow(b, e - 1), m);
    }
  }

  // ----- greatest common divisors -----

  function Gcd(a: nat, b: nat): nat
    decreases a
  {
    if a == 0 then b else Gcd(b % a, a)
  }

  predicate Divides(d: nat, a: int) {
    d > 0 && a % d == 0
  }

  lemma DividesCombination(d: nat, a: int, b: int, s: int, t: int)
    requires Divides(d, a) && Divides(d, b)
    ensures Divides(d, s * a + t * b)
  {
    var i, j := a / d, b / d;
    assert a == i * d && b == j * d;
    assert s * a + t * b == (s * i + t * j) * d;
    ModShift(0, s * i + t * j, d);
  }

  /** Euclid's algorithm finds the common divisor that every common divisor divides. */
  lemma {:induction false} GcdIsGreatest(a: nat, b: nat, d: nat)
    requires a > 0 || b > 0
    ensures Divides(Gcd(a, b), a) && Divides(Gcd(a, b), b)
    ensures Divides(d, a) && Divides(d, b) ==> Divides(d, Gcd(a, b))
    decreases a
  {
    if a > 0 {
      var q, r := b / a, b % a;
      assert b == q * a + r;
      GcdIsGreatest(r, a, d);
      var g := Gcd(a, b);
      DividesCombination(g, a, r, q, 1);
      if Divides(d, a) && Divides(d, b) {
        DividesCombination(d, b, a, 1, -q);
        assert 1 * b + -q * a == r;
      }
    }
  }

  /** Having an inverse modulo m and being coprime to m are the same thing; one half here, the
      other is the contract of `InvMod`. */
  lemma UnitIsCoprime(a: nat, m: nat)
    requires m > 0 && Unit(a, m)
    ensures Gcd(a, m) == 1
  {
    var w :| Inverse(a, w, m);
    var k := CongWitness(a * w, 1, m);
    var g := Gcd(a, m);
    GcdIsGreatest(a, m, 1);
    DividesCombination(g, a, m, w, -k);
    assert w * a + -k * m == 1;
    if g > 1 {
      ModUnique(1, g, 0, 1);
    }
  }
}

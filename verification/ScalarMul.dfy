/** Back to affine coordinates, affine addition, and double-and-add over a cyclic group of odd order. */
module ScalarMul {
  import opened Words
  import opened ModArith
  import opened EllipticCurve
  import opened Jacobian

  function Reduced(A: Affine, pp: nat): Affine
    requires pp > 0
  {
    Affine(A.x % pp, A.y % pp)
  }

  // ----- back to affine -----

  /** What `toAffine` promises: a point with canonical coordinates, and the one represented. */
  ghost predicate AffineOf(P: Jac, pp: nat, r: Option<Affine>) {
    && (r.None? <==> P.z == 0 || P.z == pp || pp == 0)
    && (r.Some? ==>
      && 0 <= r.value.x < pp && 0 <= r.value.y < pp
      && (Gcd(P.z, pp) == 1 ==> Represents(P, r.value, pp)))
  }

  method ToAffine(P: Jac, pp: Word) returns (r: Option<Affine>)
    requires P.z < TWO_TO_256
    ensures AffineOf(P, pp, r)
  {
    hide Represents, Gcd, MulMod, Cong, Inverse;
    var inv := InvMod(P.z, pp);
    if inv.None? {
      return None;
    }
    var zInv := inv.value;
    var zInv2 := MulMod(zInv, zInv, pp);
    var x2 := MulMod(P.x, zInv2, pp);
    var y2 := MulMod(P.y, MulMod(zInv, zInv2, pp), pp);
    if Gcd(P.z, pp) == 1 {
      InverseScales(P, zInv, pp);
    }
    return Some(Affine(x2, y2));
  }

  lemma InverseScales(P: Jac, i: nat, pp: nat)
    requires pp > 0 && Inverse(P.z, i, pp)
    ensures
      var i2 := MulMod(i, i, pp);
      Represents(P, Affine(MulMod(P.x, i2, pp), MulMod(P.y, MulMod(i, i2, pp), pp)), pp)
  {
    hide Cong, MulMod;
    var z, i2 := P.z, MulMod(i, i, pp);
    CongRefl(i, pp);
    CongRefl(P.x, pp);
    CongRefl(P.y, pp);
    MulModCong(i, i, i, i, pp);
    MulModCong(i, i, i2, i * i, pp);
    CongMul(z * i, 1, z * i, 1, pp);
    CongMul(z * i, 1, (z * i) * (z * i), 1 * 1, pp);
    assert (i * i) * (z * z) == (z * i) * (z * i);
    assert (i * (i * i)) * (z * (z * z)) == (z * i) * ((z * i) * (z * i));
    Unscale(P.x, i2, i * i, z * z, pp);
    Unscale(P.y, MulMod(i, i2, pp), i * (i * i), z * (z * z), pp);
  }

  lemma Unscale(x: nat, j: nat, k: int, c: int, pp: nat)
    requires pp > 0 && Cong(j, k, pp) && Cong(k * c, 1, pp)
    ensures Cong(x, MulMod(x, j, pp) * c, pp)
  {
    hide Cong, MulMod;
    CongRefl(x, pp);
    MulModCong(x, x, j, k, pp);
    CongScale(c, MulMod(x, j, pp), x * k, pp);
    CongScale(x, k * c, 1, pp);
    assert (x * k) * c == x * (k * c);
    CongTrans(MulMod(x, j, pp) * c, (x * k) * c, x, pp);
    CongSym(MulMod(x, j, pp) * c, x, pp);
  }

  /** A triple represents at most one point. */
  lemma RepresentsOne(P: Jac, A: Affine, B: Affine, pp: nat)
    requires pp > 0 && Represents(P, A, pp) && Represents(P, B, pp)
    ensures SamePoint(A, B, pp)
  {
    hide Cong, Unit;
    var zz := P.z * P.z;
    UnitMul(P.z, P.z, pp);
    UnitMul(P.z, zz, pp);
    EqualUnscaled(P.x, A.x, B.x, zz, pp);
    EqualUnscaled(P.y, A.y, B.y, P.z * zz, pp);
  }

  lemma EqualUnscaled(u: int, a: int, b: int, c: int, pp: nat)
    requires pp > 0 && Unit(c, pp) && Cong(u, a * c, pp) && Cong(u, b * c, pp)
    ensures Cong(a, b, pp)
  {
    hide Unit;
    assert a * c == c * a && b * c == c * b;
    CancelUnit(c, a, b, pp);
  }

  /** Leaving Jacobian coordinates yields the canonical coordinates of the point represented. */
  lemma AffineOfRepresented(P: Jac, A: Affine, pp: nat, r: Option<Affine>)
    requires pp > 1 && Represents(P, A, pp) && AffineOf(P, pp, r)
    ensures r == Some(Reduced(A, pp))
  {
    hide Cong;
    UnitIsCoprime(P.z, pp);
    ZeroIsNoUnit(P.z, pp);
    CongRefl(0, pp);
    CongFrom(pp, 0, 1, pp);
    RepresentsOne(P, r.value, A, pp);
    ReducedSame(r.value, A, pp);
  }

  lemma ReducedSame(B: Affine, A: Affine, pp: nat)
    requires pp > 0 && SamePoint(B, A, pp) && 0 <= B.x < pp && 0 <= B.y < pp
    ensures B == Reduced(A, pp)
  {
    ModCong(A.x, pp);
    ModCong(A.y, pp);
    CanonicalCong(B.x, A.x % pp, pp);
    CanonicalCong(B.y, A.y % pp, pp);
  }

  // ----- the group law, as a hypothesis on the multiples of one point -----

  ghost predicate TangentSum(A: Affine, B: Affine, aa: nat, pp: nat)
    requires pp > 0
  {
    Unit(2 * A.y, pp) && exists l :: Tangent(A, l, B, aa, pp)
  }

  ghost predicate ChordSum(A: Affine, B: Affine, C: Affine, pp: nat)
    requires pp > 0
  {
    Unit(B.x - A.x, pp) && exists l :: Chord(A, B, l, C, pp)
  }

  ghost predicate Opposite(A: Affine, B: Affine, pp: nat)
    requires pp > 0
  {
    Cong(A.x, B.x, pp) && Cong(A.y + B.y, 0, pp)
  }

  /** The i-th and j-th multiples add up to the (i + j)-th, by the rule that applies to them. */
  ghost predicate AddsUp(pt: nat -> Affine, i: nat, j: nat, n: nat, aa: nat, pp: nat)
    requires pp > 0 && n > 0
  {
    if i + j == n then Opposite(pt(i), pt(j), pp)
    else if i == j then TangentSum(pt(i), pt((i + j) % n), aa, pp)
    else ChordSum(pt(i), pt(j), pt((i + j) % n), pp)
  }

  /** pt(1), ..., pt(n-1) are the multiples of pt(1), whose order n is odd: the law of the group of
      odd order n that the tangent and chord rules define. Associativity is in the index i + j. */
  ghost predicate Orbit(pt: nat -> Affine, n: nat, aa: nat, pp: nat) {
    && pp > 1 && n > 1 && n % 2 == 1
    && (forall i :: 0 < i < n ==> !AtOrigin(pt(i), pp))
    && (forall i, j :: 0 < i < n && 0 < j < n ==> AddsUp(pt, i, j, n, aa, pp))
  }

  lemma OrbitDouble(pt: nat -> Affine, n: nat, aa: nat, pp: nat, P: Jac, i: nat)
    requires Orbit(pt, n, aa, pp) && 0 < i < n && Represents(P, pt(i), pp)
    ensures 0 < 2 * i % n < n && Represents(JacDouble(P, aa, pp), pt(2 * i % n), pp)
  {
    hide Represents, Unit, Tangent, JacDouble, AtOrigin;
    ModUnique(2 * i, n, if 2 * i < n then 0 else 1, if 2 * i < n then 2 * i else 2 * i - n);
    assert AddsUp(pt, i, i, n, aa, pp);
    var l :| Tangent(pt(i), l, pt(2 * i % n), aa, pp);
    DoubleIsTangent(P, pt(i), l, pt(2 * i % n), aa, pp);
  }

  lemma OrbitAdd(pt: nat -> Affine, n: nat, aa: nat, pp: nat, P: Jac, Q: Jac, i: nat, j: nat)
    requires Orbit(pt, n, aa, pp) && 0 < i < n && 0 < j < n && i != j && i + j != n
    requires Represents(P, pt(i), pp) && Represents(Q, pt(j), pp)
    ensures JacAdd(P, Q, pp).Some? && Represents(JacAdd(P, Q, pp).value, pt((i + j) % n), pp)
  {
    hide Represents, Unit, Chord, JacAdd, AtOrigin;
    assert AddsUp(pt, i, j, n, aa, pp);
    var l :| Chord(pt(i), pt(j), l, pt((i + j) % n), pp);
    AddIsChord(P, Q, pt(i), pt(j), l, pt((i + j) % n), pp);
  }

  // ----- double-and-add -----

  const INFINITY: Jac := Jac(0, 0, 1)

  /** Doubling and adding as the loop calls them: with modulus 0 whatever reaches `mulmod` reverts. */
  function DoubleStep(P: Jac, aa: nat, pp: nat): Option<Jac> {
    if P.z == 0 then Some(P) else if pp == 0 then None else Some(JacDouble(P, aa, pp))
  }

  function AddStep(P: Jac, Q: Jac, pp: nat): Option<Jac> {
    if P.x == 0 && P.y == 0 then Some(Q)
    else if Q.x == 0 && Q.y == 0 then Some(P)
    else if pp == 0 then None
    else JacAdd(P, Q, pp)
  }

  lemma StepsAre(P: Jac, Q: Jac, aa: nat, pp: nat)
    requires pp > 0
    ensures DoubleStep(P, aa, pp) == Some(JacDouble(P, aa, pp)) && AddStep(P, Q, pp) == JacAdd(P, Q, pp)
  {
  }

  /** The loop of `jacMul` from a given state; None when a step reverts. */
  function MulLoop(remaining: nat, acc: Jac, cur: Jac, aa: nat, pp: nat): Option<Jac>
    decreases remaining, acc
  {
    if remaining == 0 then Some(acc)
    else
      var sum := if remaining % 2 == 0 then Some(acc) else AddStep(acc, cur, pp);
      var next := DoubleStep(cur, aa, pp);
      if sum.None? || next.None? then None else MulLoop(remaining / 2, sum.value, next.value, aa, pp)
  }

  function JacMulOf(d: nat, P: Jac, aa: nat, pp: nat): Option<Jac> {
    if d == 0 then Some(P) else MulLoop(d, INFINITY, P, aa, pp)
  }

  method JacMul(d: nat, P: Jac, aa: nat, pp: nat) returns (r: Option<Jac>)
    ensures r == JacMulOf(d, P, aa, pp)
  {
    hide AddStep, DoubleStep;
    if d == 0 {
      return Some(P);
    }
    var remaining := d;
    var q, cur := INFINITY, P;
    while remaining != 0
      invariant JacMulOf(d, P, aa, pp) == MulLoop(remaining, q, cur, aa, pp)
    {
      if remaining % 2 != 0 {
        var sum := AddStep(q, cur, pp);
        if sum.None? {
          return None;
        }
        q := sum.value;
      }
      remaining := remaining / 2;
      var next := DoubleStep(cur, aa, pp);
      if next.None? {
        return None;
      }
      cur := next.value;
    }
    return Some(q);
  }

  // ----- what the loop does to multiples -----

  /** What the accumulator can stand for: nothing yet, a multiple of the point, what opposite points add up
      to, what that and a further point add up to, or a revert. */
  datatype Sum = Start | Multiple(i: nat) | Opposites | Lost | Refused

  /** Equal points are refused. After opposite ones the next summand is lost, and the sum starts afresh. */
  function Plus(s: Sum, j: nat, n: nat): Sum
    requires n > 0
  {
    match s
    case Start => Multiple(j)
    case Lost => Multiple(j)
    case Multiple(i) => if i == j then Refused else if i + j == n then Opposites else Multiple((i + j) % n)
    case Opposites => Lost
    case Refused => Refused
  }

  /** Double-and-add on the numbers modulo the order. */
  function Walk(remaining: nat, s: Sum, bit: nat, n: nat): Sum
    requires n > 0
    decreases remaining, s
  {
    if remaining == 0 then s
    else Walk(remaining / 2, if remaining % 2 == 0 then s else Plus(s, bit % n, n), 2 * bit, n)
  }

  function Outcome(k: nat, n: nat): Sum
    requires n > 0
  {
    Walk(k, Start, 1, n)
  }

  ghost predicate Stands(acc: Jac, s: Sum, pt: nat -> Affine, n: nat, pp: nat)
    requires pp > 0
  {
    match s
    case Start => acc == INFINITY
    case Multiple(i) => 0 < i < n && Represents(acc, pt(i), pp)
    case Opposites => Cusp(acc, pp)
    case Lost => acc == Jac(0, 0, 0)
    case Refused => false
  }

  lemma NotSelfOpposite(pt: nat -> Affine, n: nat, aa: nat, pp: nat, i: nat, j: nat)
    requires Orbit(pt, n, aa, pp) && 0 < i < n && 0 < j < n && i + j == n
    ensures Cong(pt(i).x, pt(j).x, pp) && !Cong(pt(i).y, pt(j).y, pp)
  {
    hide Unit, Tangent, Chord, AtOrigin;
    assert AddsUp(pt, i, j, n, aa, pp) && AddsUp(pt, i, i, n, aa, pp);
    if Cong(pt(i).y, pt(j).y, pp) {
      CongAdd(pt(i).y, pt(j).y, pt(i).y, pt(i).y, pp);
      CongTrans(2 * pt(i).y, pt(i).y + pt(j).y, 0, pp);
      ZeroIsNoUnit(2 * pt(i).y, pp);
    }
  }

  lemma AddToMultiple(pt: nat -> Affine, n: nat, aa: nat, pp: nat, acc: Jac, cur: Jac, i: nat, j: nat)
    requires Orbit(pt, n, aa, pp) && 0 < i < n && 0 < j < n
    requires Represents(acc, pt(i), pp) && Represents(cur, pt(j), pp)
    ensures
      var sum := Plus(Multiple(i), j, n);
      if sum.Refused? then JacAdd(acc, cur, pp) == None
      else JacAdd(acc, cur, pp).Some? && Stands(JacAdd(acc, cur, pp).value, sum, pt, n, pp)
  {
    hide Represents, JacAdd, Unit, Tangent, Chord, AtOrigin, Cusp;
    OrbitNotOrigin(pt, n, aa, pp, i);
    OrbitNotOrigin(pt, n, aa, pp, j);
    assert AddsUp(pt, i, j, n, aa, pp) && AddsUp(pt, i, i, n, aa, pp);
    if i == j {
      AddRevertsIff(acc, cur, pt(i), pt(i), pp);
    } else if i + j == n {
      OppositeIsCusp(acc, cur, pt(i), pt(j), pp);
    } else {
      SumInRange(i, j, n);
      OrbitAdd(pt, n, aa, pp, acc, cur, i, j);
    }
  }

  lemma SumInRange(i: nat, j: nat, n: nat)
    requires 0 < i < n && 0 < j < n && i + j != n
    ensures 0 < (i + j) % n < n
  {
    ModUnique(i + j, n, if i + j < n then 0 else 1, if i + j < n then i + j else i + j - n);
  }

  /** One addition of the loop, in every case there is. */
  lemma AddStands(pt: nat -> Affine, n: nat, aa: nat, pp: nat, acc: Jac, cur: Jac, s: Sum, j: nat)
    requires Orbit(pt, n, aa, pp) && 0 < j < n && Stands(acc, s, pt, n, pp) && Represents(cur, pt(j), pp)
    ensures
      var sum := Plus(s, j, n);
      if sum.Refused? then AddStep(acc, cur, pp) == None
      else AddStep(acc, cur, pp).Some? && Stands(AddStep(acc, cur, pp).value, sum, pt, n, pp)
  {
    OrbitPositive(pt, n, aa, pp);
    OrbitNotOrigin(pt, n, aa, pp, j);
    NotOrigin(cur, pt(j), pp);
    hide Orbit, JacAdd;
    StepsAre(acc, cur, aa, pp);
    match s
    case Start =>
    case Lost =>
    case Multiple(i) => AddToMultiple(pt, n, aa, pp, acc, cur, i, j);
    case Opposites => CuspAdd(acc, cur, pp);
  }

  lemma NotOrigin(P: Jac, A: Affine, pp: nat)
    requires pp > 0 && Represents(P, A, pp) && !AtOrigin(A, pp)
    ensures !(P.x == 0 && P.y == 0) && Unit(P.z, pp)
  {
    hide AtOrigin;
    if P.x == 0 && P.y == 0 { OriginOnly(P, A, pp); }
  }

  lemma RefusedStays(remaining: nat, bit: nat, n: nat)
    requires n > 0
    ensures Walk(remaining, Refused, bit, n) == Refused
    decreases remaining
  {
  }

  lemma DoubleBit(bit: nat, n: nat)
    requires n > 0
    ensures 2 * bit % n == 2 * (bit % n) % n
  {
    assert bit == (bit / n) * n + bit % n;
    assert 2 * bit == 2 * (bit % n) + 2 * (bit / n) * n;
    ModShift(2 * (bit % n), 2 * (bit / n), n);
  }

  /** The loop is the walk: the accumulator stands for what the numbers say, for every scalar. */
  lemma {:induction false} MulLoopHolds(pt: nat -> Affine, n: nat, aa: nat, pp: nat,
                                        remaining: nat, acc: Jac, cur: Jac, s: Sum, bit: nat)
    requires Orbit(pt, n, aa, pp) && Stands(acc, s, pt, n, pp)
    requires 0 < bit % n && Represents(cur, pt(bit % n), pp)
    ensures
      var r, out := MulLoop(remaining, acc, cur, aa, pp), Walk(remaining, s, bit, n);
      if out.Refused? then r == None else r.Some? && Stands(r.value, out, pt, n, pp)
    decreases remaining
  {
    hide Represents, JacAdd, JacDouble, AddStep, DoubleStep, Orbit, Plus, Stands, MulLoop, Walk;
    OrbitPositive(pt, n, aa, pp);
    MulLoopRound(remaining, acc, cur, aa, pp);
    WalkHalf(remaining, s, bit, n);
    if remaining > 0 {
      OrbitDouble(pt, n, aa, pp, cur, bit % n);
      DoubleBit(bit, n);
      var next := JacDouble(cur, aa, pp);
      if remaining % 2 == 0 {
        MulLoopHolds(pt, n, aa, pp, remaining / 2, acc, next, s, 2 * bit);
      } else {
        AddStands(pt, n, aa, pp, acc, cur, s, bit % n);
        var sum := Plus(s, bit % n, n);
        if sum.Refused? {
          RefusedStays(remaining / 2, 2 * bit, n);
        } else {
          MulLoopHolds(pt, n, aa, pp, remaining / 2, AddStep(acc, cur, pp).value, next, sum, 2 * bit);
        }
      }
    } else {
      StandsNotRefused(acc, s, pt, n, pp);
    }
  }

  lemma StandsNotRefused(acc: Jac, s: Sum, pt: nat -> Affine, n: nat, pp: nat)
    requires pp > 0 && Stands(acc, s, pt, n, pp)
    ensures !s.Refused?
  {
  }

  /** One round of the loop when the modulus is not 0. */
  lemma MulLoopRound(remaining: nat, acc: Jac, cur: Jac, aa: nat, pp: nat)
    requires pp > 0
    ensures
      var sum := if remaining % 2 == 0 then Some(acc) else AddStep(acc, cur, pp);
      MulLoop(remaining, acc, cur, aa, pp) ==
        if remaining == 0 then Some(acc) else if sum.None? then None
        else MulLoop(remaining / 2, sum.value, JacDouble(cur, aa, pp), aa, pp)
  {
    hide AddStep, DoubleStep, JacDouble, JacAdd;
    StepsAre(cur, acc, aa, pp);
  }

  /** `jacMul` on every scalar. */
  lemma JacMulIsOutcome(pt: nat -> Affine, n: nat, aa: nat, pp: nat, d: nat, P: Jac)
    requires Orbit(pt, n, aa, pp) && d > 0 && Represents(P, pt(1), pp)
    ensures
      var r, out := JacMulOf(d, P, aa, pp), Outcome(d, n);
      if out.Refused? then r == None else r.Some? && Stands(r.value, out, pt, n, pp)
  {
    hide Represents, Orbit, Stands;
    OrbitPositive(pt, n, aa, pp);
    ModUnique(1, n, 0, 1);
    StartStands(pt, n, pp);
    MulLoopHolds(pt, n, aa, pp, d, INFINITY, P, Start, 1);
  }

  lemma StartStands(pt: nat -> Affine, n: nat, pp: nat)
    requires pp > 0
    ensures Stands(INFINITY, Start, pt, n, pp)
  {
  }

  lemma OrbitNotOrigin(pt: nat -> Affine, n: nat, aa: nat, pp: nat, i: nat)
    requires Orbit(pt, n, aa, pp) && 0 < i < n
    ensures !AtOrigin(pt(i), pp) && Reduced(pt(i), pp) != Affine(0, 0)
  {
    ModUnique(0, pp, 0, 0);
  }

  /** The greatest power of two in a positive number. */
  function TopBit(k: nat): (t: nat)
    ensures k > 0 ==> 0 < t <= k < 2 * t
  {
    if k <= 1 then k else 2 * TopBit(k / 2)
  }

  /** The top bit is added last. */
  lemma {:induction false} WalkByTop(k: nat, s: Sum, bit: nat, n: nat)
    requires n > 0 && k > 0
    ensures Walk(k, s, bit, n) == Plus(Walk(k - TopBit(k), s, bit, n), TopBit(k) * bit % n, n)
    decreases k
  {
    hide Plus;
    if k == 1 {
      assert Walk(0, Plus(s, bit % n, n), 2 * bit, n) == Plus(s, bit % n, n);
    } else {
      var t := TopBit(k / 2);
      MulAssoc(t, 2, bit);
      assert t * 2 == TopBit(k);
      assert (k - TopBit(k)) / 2 == k / 2 - t && (k - TopBit(k)) % 2 == k % 2;
      WalkByTop(k / 2, if k % 2 == 0 then s else Plus(s, bit % n, n), 2 * bit, n);
      WalkHalf(k - TopBit(k), s, bit, n);
    }
  }

  lemma WalkHalf(k: nat, s: Sum, bit: nat, n: nat)
    requires n > 0
    ensures Walk(k, s, bit, n)
         == if k == 0 then s else Walk(k / 2, if k % 2 == 0 then s else Plus(s, bit % n, n), 2 * bit, n)
  {
  }

  /** Each bit of the scalar, from the second set one on, is congruent neither to what is set below it nor,
      unless it is the last, to the negative of that. */
  predicate Clear(k: nat, n: nat)
    requires n > 0
    decreases k
  {
    k == 0 ||
    var low := k - TopBit(k);
    low == 0 || (Clear(low, n) && low % n != 0 && low % n != TopBit(k) % n)
  }

  lemma {:induction false} OddKeepsTop(k: nat, n: nat)
    requires k > 0 && n > 1 && n % 2 == 1
    ensures TopBit(k) % n != 0
    decreases k
  {
    if k == 1 {
      ModUnique(1, n, 0, 1);
    } else {
      OddKeepsTop(k / 2, n);
      OddDouble(TopBit(k / 2), n);
    }
  }

  lemma OddDouble(x: nat, n: nat)
    requires n > 1 && n % 2 == 1 && x % n != 0
    ensures 2 * x % n != 0
  {
    DoubleBit(x, n);
    var y := x % n;
    ModUnique(2 * y, n, if 2 * y < n then 0 else 1, if 2 * y < n then 2 * y else 2 * y - n);
  }

  lemma SumMod(a: nat, b: nat, n: nat)
    requires n > 0
    ensures (a + b) % n == (a % n + b % n) % n
  {
    assert a == (a / n) * n + a % n && b == (b / n) * n + b % n;
    assert a + b == a % n + b % n + (a / n + b / n) * n;
    ModShift(a % n + b % n, a / n + b / n, n);
  }

  /** On such scalars the outcome is the multiple asked for; a multiple of the order ends in opposites. */
  lemma {:induction false} ClearOutcome(k: nat, n: nat)
    requires k > 0 && n > 1 && n % 2 == 1 && Clear(k, n)
    ensures Outcome(k, n) == if k % n == 0 then Opposites else Multiple(k % n)
    decreases k
  {
    hide Walk;
    var t, low := TopBit(k), k - TopBit(k);
    WalkByTop(k, Start, 1, n);
    OddKeepsTop(k, n);
    assert t * 1 == t;
    if low == 0 {
      WalkHalf(0, Start, 1, n);
    } else {
      ClearOutcome(low, n);
      SumMod(low, t, n);
      var i, j := low % n, t % n;
      ModUnique(i + j, n, if i + j < n then 0 else 1, if i + j < n then i + j else i + j - n);
    }
  }

  /** Below the order there is nothing to meet: scalars whose top bit is less than the order are clear. */
  lemma SmallIsClear(k: nat, n: nat)
    requires n > 0 && TopBit(k) < n
    ensures Clear(k, n)
  {
    var t := TopBit(k);
    if k > 0 {
      var low := k - t;
      ModUnique(t, n, 0, t);
      ModUnique(low, n, 0, low);
      BelowIsClear(low, n);
    }
  }

  lemma {:induction false} BelowIsClear(k: nat, n: nat)
    requires k < n
    ensures Clear(k, n)
    decreases k
  {
    if k > 0 {
      var t := TopBit(k);
      ModUnique(t, n, 0, t);
      ModUnique(k - t, n, 0, k - t);
      BelowIsClear(k - t, n);
    }
  }

  lemma OrbitPositive(pt: nat -> Affine, n: nat, aa: nat, pp: nat)
    requires Orbit(pt, n, aa, pp)
    ensures n > 1 && pp > 1
  {
  }

  /** `jacMul` on a clear scalar: d times the point, with denominator 0 where that is the point at infinity,
      and "use jacDouble" is unreachable. */
  lemma JacMulIsMultiple(pt: nat -> Affine, n: nat, aa: nat, pp: nat, d: nat, P: Jac)
    requires Orbit(pt, n, aa, pp) && d > 0 && Clear(d, n) && Represents(P, pt(1), pp)
    ensures
      var r := JacMulOf(d, P, aa, pp);
      r.Some? && if d % n == 0 then r.value.z == 0 else Represents(r.value, pt(d % n), pp)
  {
    hide Represents, Walk, Clear;
    OrderIsOdd(pt, n, aa, pp);
    hide Orbit;
    JacMulIsOutcome(pt, n, aa, pp, d, P);
    ClearOutcome(d, n);
  }

  /** With an order of 256 bits every 256-bit scalar is clear. */
  lemma WordIsClear(k: Word, n: nat)
    requires n > TWO_TO_255
    ensures TopBit(k) < n && Clear(k, n)
  {
    hide Pow, Clear;
    BitRoom(k);
    TopBitBelow(k, 64);
    SmallIsClear(k, n);
  }

  lemma {:induction false} TopBitBelow(k: nat, e: nat)
    requires k < Pow(16, e)
    ensures k > 0 ==> 2 * TopBit(k) <= Pow(16, e)
    decreases e
  {
    PowStep(16, e);
    if k >= 16 {
      hide Pow;
      TopBitBelow(k / 16, e - 1);
      assert k / 2 / 2 / 2 / 2 == k / 16;
      assert TopBit(k) == 2 * TopBit(k / 2) == 4 * TopBit(k / 2 / 2) == 8 * TopBit(k / 2 / 2 / 2);
    } else if e > 0 {
      PowPositive(16, e - 1);
    }
  }

  // ----- affine interface -----

  lemma AffineRepresents(A: Affine, x: nat, y: nat, pp: nat)
    requires pp > 0 && Affine(x, y) == Reduced(A, pp)
    ensures Represents(Jac(x, y, 1), A, pp)
  {
    assert Inverse(1, 1, pp);
    ModCong(A.x, pp);
    ModCong(A.y, pp);
  }

  /** What `ecMul` computes: scalar multiplication, then back to affine coordinates. */
  ghost predicate EcMulOf(k: nat, x: nat, y: nat, aa: nat, pp: nat, r: Option<Affine>) {
    var q := JacMulOf(k, Jac(x, y, 1), aa, pp);
    if q.None? then r.None? else AffineOf(q.value, pp, r)
  }

  lemma DoubleBelow(P: Jac, aa: nat, pp: nat)
    requires pp > 0
    ensures JacDouble(P, aa, pp).z < pp || JacDouble(P, aa, pp) == P
  {
  }

  lemma AddBelow(P: Jac, Q: Jac, pp: nat)
    requires pp > 0 && JacAdd(P, Q, pp).Some?
    ensures JacAdd(P, Q, pp).value.z < pp || JacAdd(P, Q, pp).value in {P, Q}
  {
  }

  lemma {:induction false} MulLoopBelow(remaining: nat, acc: Jac, cur: Jac, aa: nat, pp: Word)
    requires acc.z < TWO_TO_256 && cur.z < TWO_TO_256
    ensures MulLoop(remaining, acc, cur, aa, pp).Some? ==> MulLoop(remaining, acc, cur, aa, pp).value.z < TWO_TO_256
    decreases remaining
  {
    hide AddStep, DoubleStep;
    if remaining > 0 {
      StepsBelow(acc, cur, aa, pp);
      var sum := if remaining % 2 == 0 then Some(acc) else AddStep(acc, cur, pp);
      var next := DoubleStep(cur, aa, pp);
      if sum.Some? && next.Some? {
        MulLoopBelow(remaining / 2, sum.value, next.value, aa, pp);
      }
    }
  }

  lemma StepsBelow(P: Jac, Q: Jac, aa: nat, pp: Word)
    requires P.z < TWO_TO_256 && Q.z < TWO_TO_256
    ensures AddStep(P, Q, pp).Some? ==> AddStep(P, Q, pp).value.z < TWO_TO_256
    ensures DoubleStep(Q, aa, pp).Some? ==> DoubleStep(Q, aa, pp).value.z < TWO_TO_256
  {
    hide JacAdd, JacDouble;
    if pp > 0 {
      DoubleBelow(Q, aa, pp);
      if JacAdd(P, Q, pp).Some? {
        AddBelow(P, Q, pp);
      }
    }
  }

  method EcMul(k: Word, x: Word, y: Word, aa: Word, pp: Word) returns (r: Option<Affine>)
    ensures EcMulOf(k, x, y, aa, pp, r)
    ensures pp == 0 ==> r == None
  {
    hide MulLoop, Gcd, Represents;
    MulLoopBelow(k, INFINITY, Jac(x, y, 1), aa, pp);
    var q := JacMul(k, Jac(x, y, 1), aa, pp);
    if q.None? {
      return None;
    }
    r := ToAffine(q.value, pp);
  }

  /** What `ecMul` returns for each outcome. */
  function Reading(s: Sum, pt: nat -> Affine, pp: nat): Option<Affine>
    requires pp > 0
  {
    match s
    case Start => Some(Reduced(pt(1), pp))
    case Multiple(i) => Some(Reduced(pt(i), pp))
    case Opposites => None
    case Lost => None
    case Refused => None
  }

  /** `ecMul` on every scalar is double-and-add on the numbers modulo the order. */
  lemma EcMulIsOutcome(pt: nat -> Affine, n: nat, aa: nat, pp: nat, k: nat, x: nat, y: nat, r: Option<Affine>)
    requires Orbit(pt, n, aa, pp) && Affine(x, y) == Reduced(pt(1), pp) && EcMulOf(k, x, y, aa, pp, r)
    ensures r == Reading(Outcome(k, n), pt, pp)
  {
    hide Represents, Orbit, MulLoop, AffineOf, Reduced, Unit;
    OrbitPositive(pt, n, aa, pp);
    AffineRepresents(pt(1), x, y, pp);
    var P := Jac(x, y, 1);
    if k == 0 {
      AffineOfRepresented(P, pt(1), pp, r);
    } else {
      JacMulIsOutcome(pt, n, aa, pp, k, P);
      var out := Outcome(k, n);
      if !out.Refused? {
        NeverStart(k, Start, 1, n);
        var q := JacMulOf(k, P, aa, pp).value;
        if out.Multiple? {
          AffineOfRepresented(q, pt(out.i), pp, r);
        } else {
          NoAffineOfZero(q, pp, r);
        }
      }
    }
  }

  lemma {:induction false} NeverStart(k: nat, s: Sum, bit: nat, n: nat)
    requires n > 0 && k > 0
    ensures Walk(k, s, bit, n) != Start
    decreases k
  {
    WalkByTop(k, s, bit, n);
  }

  /** For a clear scalar it is the multiple asked for, in canonical coordinates; for k = 0 the point itself; and
      a revert where the multiple is the point at infinity, which it has no way to return. */
  lemma EcMulIsMultiple(pt: nat -> Affine, n: nat, aa: nat, pp: nat, k: nat, x: nat, y: nat, r: Option<Affine>)
    requires Orbit(pt, n, aa, pp) && Clear(k, n)
    requires Affine(x, y) == Reduced(pt(1), pp) && EcMulOf(k, x, y, aa, pp, r)
    ensures r == if k == 0 then Some(Reduced(pt(1), pp)) else if k % n == 0 then None
                 else Some(Reduced(pt(k % n), pp))
  {
    hide EcMulOf, Reduced, Walk, Clear;
    OrderIsOdd(pt, n, aa, pp);
    hide Orbit;
    EcMulIsOutcome(pt, n, aa, pp, k, x, y, r);
    if k > 0 {
      ClearOutcome(k, n);
    } else {
      WalkHalf(0, Start, 1, n);
    }
  }

  lemma OrderIsOdd(pt: nat -> Affine, n: nat, aa: nat, pp: nat)
    requires Orbit(pt, n, aa, pp)
    ensures n > 1 && n % 2 == 1 && pp > 1
  {
  }

  /** Other scalars can go wrong, both ways. Over an order of five, eleven times the point is the point, but
      3 and 8 meet as equals and `ecMul` reverts; and 29 times the point is four times it, but 1 and 4
      cancel, 8 is lost, and 16 times the point, which is the point, is all that is left. */
  lemma EcMulBeyondOrder(pt: nat -> Affine, aa: nat, pp: nat, x: nat, y: nat,
                         eleven: Option<Affine>, twentyNine: Option<Affine>)
    requires Orbit(pt, 5, aa, pp) && Affine(x, y) == Reduced(pt(1), pp)
    requires EcMulOf(11, x, y, aa, pp, eleven) && EcMulOf(29, x, y, aa, pp, twentyNine)
    ensures eleven == None && 11 % 5 == 1
    ensures twentyNine == Some(Reduced(pt(1), pp)) && 29 % 5 == 4 && Reduced(pt(1), pp) != Reduced(pt(4), pp)
  {
    hide EcMulOf, Unit, Tangent, Chord, AtOrigin;
    OrbitPositive(pt, 5, aa, pp);
    EcMulIsOutcome(pt, 5, aa, pp, 11, x, y, eleven);
    EcMulIsOutcome(pt, 5, aa, pp, 29, x, y, twentyNine);
    OppositeDiffers(pt, 5, aa, pp, 1, 4);
  }

  /** Opposite points are two. */
  lemma OppositeDiffers(pt: nat -> Affine, n: nat, aa: nat, pp: nat, i: nat, j: nat)
    requires Orbit(pt, n, aa, pp) && 0 < i < n && 0 < j < n && i + j == n
    ensures Reduced(pt(i), pp) != Reduced(pt(j), pp)
  {
    NotSelfOpposite(pt, n, aa, pp, i, j);
    ModCong(pt(i).y, pp);
    ModCong(pt(j).y, pp);
  }

  /** What `ecAdd` computes; the point at infinity is the pair 0, 0. */
  ghost predicate EcAddOf(x1: nat, y1: nat, x2: nat, y2: nat, aa: nat, pp: nat, r: Option<Affine>)
    requires pp > 0
  {
    if x1 == x2 then
      if AddMod(y1, y2, pp) == 0 then r == Some(Affine(0, 0))
      else AffineOf(JacDouble(Jac(x1, y1, 1), aa, pp), pp, r)
    else
      var q := JacAdd(Jac(x1, y1, 1), Jac(x2, y2, 1), pp);
      if q.None? then r.None? else AffineOf(q.value, pp, r)
  }

  /** Modulus 0 is refused on every path here too. */
  method EcAdd(x1: Word, y1: Word, x2: Word, y2: Word, aa: Word, pp: Word) returns (r: Option<Affine>)
    ensures if pp == 0 then r.None? else EcAddOf(x1, y1, x2, y2, aa, pp, r)
  {
    if pp == 0 {
      return None;
    }
    hide AffineOf, JacDouble, JacAdd, AddMod;
    var P, Q := Jac(x1, y1, 1), Jac(x2, y2, 1);
    if x1 == x2 {
      if AddMod(y1, y2, pp) == 0 {
        return Some(Affine(0, 0));
      }
      DoubleBelow(P, aa, pp);
      r := ToAffine(JacDouble(P, aa, pp), pp);
    } else {
      var q := JacAdd(P, Q, pp);
      if q.None? {
        return None;
      }
      AddBelow(P, Q, pp);
      r := ToAffine(q.value, pp);
    }
  }

  lemma SameXMeansSameOrOpposite(pt: nat -> Affine, n: nat, aa: nat, pp: nat, i: nat, j: nat)
    requires Orbit(pt, n, aa, pp) && 0 < i < n && 0 < j < n
    ensures Reduced(pt(i), pp).x == Reduced(pt(j), pp).x <==> i == j || i + j == n
  {
    hide Unit, AtOrigin;
    assert AddsUp(pt, i, j, n, aa, pp);
    if i != j && i + j != n {
      DifferentX(pt(i), pt(j), pp);
    }
  }

  lemma OppositeY(A: Affine, B: Affine, pp: nat)
    requires pp > 0
    ensures AddMod(Reduced(A, pp).y, Reduced(B, pp).y, pp) == 0 <==> Cong(A.y + B.y, 0, pp)
  {
    ModCong(A.y, pp);
    ModCong(B.y, pp);
    AddModCong(A.y % pp, A.y, B.y % pp, B.y, pp);
    ModUnique(0, pp, 0, 0);
    var s := AddMod(A.y % pp, B.y % pp, pp);
    ModUnique(s, pp, 0, s);
  }

  /** `ecAdd` of the i-th and j-th multiples is the canonical (i + j)-th, doubling included, and the
      pair 0, 0 for opposite points. */
  lemma EcAddIsSum(pt: nat -> Affine, n: nat, aa: nat, pp: nat, i: nat, j: nat, r: Option<Affine>)
    requires Orbit(pt, n, aa, pp) && 0 < i < n && 0 < j < n
    requires
      var A, B := Reduced(pt(i), pp), Reduced(pt(j), pp);
      EcAddOf(A.x, A.y, B.x, B.y, aa, pp, r)
    ensures r == if i + j == n then Some(Affine(0, 0)) else Some(Reduced(pt((i + j) % n), pp))
  {
    hide Represents, JacAdd, JacDouble, AffineOf, AddMod, Unit, AtOrigin, Tangent, Chord;
    var A, B := Reduced(pt(i), pp), Reduced(pt(j), pp);
    var P, Q := Jac(A.x, A.y, 1), Jac(B.x, B.y, 1);
    AffineRepresents(pt(i), A.x, A.y, pp);
    AffineRepresents(pt(j), B.x, B.y, pp);
    SameXMeansSameOrOpposite(pt, n, aa, pp, i, j);
    OppositeY(pt(i), pt(j), pp);
    assert AddsUp(pt, i, j, n, aa, pp);
    if i == j {
      ZeroIsNoUnit(2 * pt(i).y, pp);
      OrbitDouble(pt, n, aa, pp, P, i);
      AffineOfRepresented(JacDouble(P, aa, pp), pt(2 * i % n), pp, r);
    } else if i + j != n {
      OrbitAdd(pt, n, aa, pp, P, Q, i, j);
      AffineOfRepresented(JacAdd(P, Q, pp).value, pt((i + j) % n), pp, r);
    }
  }

  /** The pair 0, 0 on the left is the identity, except before a point whose x is 0. */
  lemma InfinityOnLeft(x: nat, y: nat, aa: nat, pp: nat, r: Option<Affine>)
    requires pp > 1 && x < pp && y < pp && EcAddOf(0, 0, x, y, aa, pp, r)
    ensures r == if x == 0 && y != 0 then None else Some(Affine(x, y))
  {
    hide AffineOf, Represents, JacDouble;
    ModUnique(y, pp, 0, y);
    if x == 0 && y != 0 {
      OriginDoubles(aa, pp);
      NoAffineOfZero(JacDouble(Jac(0, 0, 1), aa, pp), pp, r);
    } else if x != 0 {
      BackToAffine(x, y, pp, r);
    }
  }

  /** The pair 0, 0 on the right is the identity where the x coordinates differ. */
  lemma InfinityOnRight(x: nat, y: nat, aa: nat, pp: nat, r: Option<Affine>)
    requires pp > 1 && x < pp && y < pp && EcAddOf(x, y, 0, 0, aa, pp, r)
    ensures x != 0 || y == 0 ==> r == Some(Affine(x, y))
  {
    hide AffineOf, Represents, JacDouble;
    ModUnique(y, pp, 0, y);
    if x != 0 {
      BackToAffine(x, y, pp, r);
    }
  }

  lemma OriginDoubles(aa: nat, pp: nat)
    requires pp > 0
    ensures JacDouble(Jac(0, 0, 1), aa, pp).z == 0
  {
    hide DoubleM, DoubleS, DoubleX, EightFourth, Finish;
    ModUnique(0, pp, 0, 0);
  }

  lemma NoAffineOfZero(P: Jac, pp: nat, r: Option<Affine>)
    requires P.z == 0 && AffineOf(P, pp, r)
    ensures r == None
  {
  }

  lemma BackToAffine(x: nat, y: nat, pp: nat, r: Option<Affine>)
    requires pp > 1 && x < pp && y < pp && AffineOf(Jac(x, y, 1), pp, r)
    ensures r == Some(Affine(x, y))
  {
    hide AffineOf, Represents;
    ModUnique(x, pp, 0, x);
    ModUnique(y, pp, 0, y);
    AffineRepresents(Affine(x, y), x, y, pp);
    AffineOfRepresented(Jac(x, y, 1), Affine(x, y), pp, r);
  }

  /** What `ecAdd` makes of its own point at infinity: the identity on either side of a point if and only
      if the point's x is not 0. Otherwise it reverts on the left, and on the right it doubles the point. */
  lemma EcAddInfinity(pt: nat -> Affine, n: nat, aa: nat, pp: nat, i: nat, left: Option<Affine>,
                      right: Option<Affine>)
    requires Orbit(pt, n, aa, pp) && 0 < i < n
    requires
      var A := Reduced(pt(i), pp);
      EcAddOf(0, 0, A.x, A.y, aa, pp, left) && EcAddOf(A.x, A.y, 0, 0, aa, pp, right)
    ensures var A := Reduced(pt(i), pp);
            && (left == Some(A) <==> A.x != 0) && (right == Some(A) <==> A.x != 0)
            && (A.x == 0 ==> left == None && right == Some(Reduced(pt(2 * i % n), pp)))
  {
    hide AffineOf, Represents, JacDouble, JacAdd, Unit, Tangent, Chord, Orbit;
    OrbitPositive(pt, n, aa, pp);
    var A := Reduced(pt(i), pp);
    OrbitNotOrigin(pt, n, aa, pp, i);
    InfinityOnLeft(A.x, A.y, aa, pp, left);
    InfinityOnRight(A.x, A.y, aa, pp, right);
    if A.x == 0 {
      AffineRepresents(pt(i), A.x, A.y, pp);
      OrbitDouble(pt, n, aa, pp, Jac(A.x, A.y, 1), i);
      ModUnique(A.y, pp, 0, A.y);
      AffineOfRepresented(JacDouble(Jac(A.x, A.y, 1), aa, pp), pt(2 * i % n), pp, right);
      DoubleDiffers(pt, n, aa, pp, i);
    }
  }

  /** Twice a point is another point. */
  lemma DoubleDiffers(pt: nat -> Affine, n: nat, aa: nat, pp: nat, i: nat)
    requires Orbit(pt, n, aa, pp) && 0 < i < n && 0 < 2 * i % n < n
    ensures Reduced(pt(2 * i % n), pp) != Reduced(pt(i), pp)
  {
    hide Unit, Tangent, Chord, AtOrigin;
    var j := 2 * i % n;
    if Reduced(pt(j), pp) == Reduced(pt(i), pp) {
      SameXMeansSameOrOpposite(pt, n, aa, pp, i, j);
      ModUnique(2 * i, n, if 2 * i < n then 0 else 1, if 2 * i < n then 2 * i else 2 * i - n);
      assert AddsUp(pt, i, j, n, aa, pp) && AddsUp(pt, i, i, n, aa, pp);
      CongAdd(pt(j).y, pt(i).y, pt(i).y, pt(i).y, pp);
      CongTrans(2 * pt(i).y, pt(i).y + pt(j).y, 0, pp);
      ZeroIsNoUnit(2 * pt(i).y, pp);
    }
  }

  // ----- the hypothesis can be met -----

  /** The multiples of (1, 1) on y^2 = x^3 + 3x + 2 over the field of five elements. */
  function SmallPoint(i: nat): Affine {
    if i == 1 then Affine(1, 1)
    else if i == 2 then Affine(2, 1)
    else if i == 3 then Affine(2, 4)
    else Affine(1, 4)
  }

  lemma SmallDoubles(i: nat)
    requires 0 < i < 5
    ensures TangentSum(SmallPoint(i), SmallPoint((i + i) % 5), 3, 5)
  {
    var A := SmallPoint(i);
    assert Inverse(2 * A.y, if A.y == 1 then 3 else 2, 5);
    assert Tangent(A, if i == 1 then 3 else if i == 4 then 2 else 0, SmallPoint((i + i) % 5), 3, 5);
  }

  lemma SmallAdds(i: nat, j: nat)
    requires 0 < i < 5 && 0 < j < 5 && i != j && i + j != 5
    ensures ChordSum(SmallPoint(i), SmallPoint(j), SmallPoint((i + j) % 5), 5)
  {
    var A, B := SmallPoint(i), SmallPoint(j);
    assert Inverse(B.x - A.x, B.x - A.x, 5);
    assert Chord(A, B, (B.y - A.y) * (B.x - A.x), SmallPoint((i + j) % 5), 5);
  }

  lemma SmallOrbit()
    ensures Orbit(SmallPoint, 5, 3, 5)
  {
    hide TangentSum, ChordSum;
    forall i: nat, j: nat | 0 < i < 5 && 0 < j < 5 ensures AddsUp(SmallPoint, i, j, 5, 3, 5) {
      if i == j {
        SmallDoubles(i);
      } else if i + j != 5 {
        SmallAdds(i, j);
      }
    }
  }
}

/** Points of a short Weierstrass curve y^2 = x^3 + aa*x + b in Jacobian coordinates: the formulas for
    doubling and adding agree with the tangent and chord rules of section 2.2.1 of SEC 1. */
module Jacobian {
  import opened Words
  import opened ModArith
  import opened EllipticCurve

  datatype Jac = Jac(x: nat, y: nat, z: nat)

  datatype Affine = Affine(x: int, y: int)

  /** The triple stands for the affine point x/z^2, y/z^3. */
  ghost predicate Represents(P: Jac, A: Affine, pp: nat)
    requires pp > 0
  {
    Unit(P.z, pp) && Scaled(P, A, P.z, pp)
  }

  ghost predicate Scaled(P: Jac, A: Affine, w: int, pp: nat)
    requires pp > 0
  {
    Cong(P.x, A.x * (w * w), pp) && Cong(P.y, A.y * (w * (w * w)), pp)
  }

  lemma RepresentsBy(P: Jac, A: Affine, w: int, pp: nat)
    requires pp > 0 && Unit(w, pp) && Cong(P.z, w, pp) && Scaled(P, A, w, pp)
    ensures Represents(P, A, pp)
  {
    UnitCong(w, P.z, pp);
    CongSquare(w, P.z, pp);
    CongMul(w, P.z, w * w, P.z * P.z, pp);
    CongScale(A.x, w * w, P.z * P.z, pp);
    CongScale(A.y, w * (w * w), P.z * (P.z * P.z), pp);
  }

  // ----- the last step both formulas share -----

  /** m * (u - qx) - v */
  function Finish(m: nat, u: nat, qx: nat, v: nat, pp: nat): nat
    requires pp > 0
  {
    AddMod(MulMod(m, AddMod(u, pp - qx, pp), pp), pp - v, pp)
  }

  lemma FinishScaled(m: nat, u: nat, qx: nat, v: nat, l: int, w: int, A: Affine, C: Affine, pp: nat)
    requires pp > 0
    requires Cong(m, l * w, pp) && Cong(u, A.x * (w * w), pp) && Cong(v, A.y * (w * (w * w)), pp)
    requires Cong(qx, C.x * (w * w), pp) && Cong(C.y, l * (A.x - C.x) - A.y, pp)
    ensures Cong(Finish(m, u, qx, v, pp), C.y * (w * (w * w)), pp)
  {
    hide Cong, AddMod, MulMod;
    var ww := w * w;
    SubModCong(u, A.x * ww, qx, C.x * ww, pp);
    MulModCong(m, l * w, AddMod(u, pp - qx, pp), A.x * ww - C.x * ww, pp);
    SubModCong(MulMod(m, AddMod(u, pp - qx, pp), pp), (l * w) * (A.x * ww - C.x * ww), v, A.y * (w * ww), pp);
    FinishSpread(l, w, ww, A.x, C.x, A.y);
    CongScale(w * ww, C.y, l * (A.x - C.x) - A.y, pp);
    CongJoin(Finish(m, u, qx, v, pp), C.y * (w * ww), (l * (A.x - C.x) - A.y) * (w * ww), pp);
  }

  lemma CongJoin(a: int, b: int, c: int, m: int)
    requires m > 0 && Cong(a, c, m) && Cong(b, c, m)
    ensures Cong(a, b, m)
  {
  }

  lemma FinishSpread(l: int, w: int, ww: int, x: int, c: int, y: int)
    ensures (l * w) * (x * ww - c * ww) - y * (w * ww) == (l * (x - c) - y) * (w * ww)
  {
    assert x * ww - c * ww == (x - c) * ww;
    assert (l * w) * ((x - c) * ww) == (l * (x - c)) * (w * ww);
  }

  // ----- doubling -----

  function DoubleS(P: Jac, pp: nat): nat
    requires pp > 0
  {
    MulMod(4, MulMod(P.x, MulMod(P.y, P.y, pp), pp), pp)
  }

  function DoubleM(P: Jac, aa: nat, pp: nat): nat
    requires pp > 0
  {
    var z := MulMod(P.z, P.z, pp);
    AddMod(MulMod(3, MulMod(P.x, P.x, pp), pp), MulMod(aa, MulMod(z, z, pp), pp), pp)
  }

  function DoubleX(m: nat, s: nat, pp: nat): nat
    requires pp > 0
  {
    AddMod(MulMod(m, m, pp), pp - AddMod(s, s, pp), pp)
  }

  function EightFourth(P: Jac, pp: nat): nat
    requires pp > 0
  {
    var y := MulMod(P.y, P.y, pp);
    MulMod(8, MulMod(y, y, pp), pp)
  }

  function JacDouble(P: Jac, aa: nat, pp: nat): Jac
    requires pp > 0
  {
    if P.z == 0 then P
    else
      var m, s := DoubleM(P, aa, pp), DoubleS(P, pp);
      var x := DoubleX(m, s, pp);
      Jac(x, Finish(m, s, x, EightFourth(P, pp), pp), MulMod(2, MulMod(P.y, P.z, pp), pp))
  }

  /** B is the second intersection, mirrored, of the tangent at A, of slope l. */
  ghost predicate Tangent(A: Affine, l: int, B: Affine, aa: int, pp: nat)
    requires pp > 0
  {
    && Cong(2 * A.y * l, 3 * (A.x * A.x) + aa, pp)
    && Cong(B.x, l * l - 2 * A.x, pp)
    && Cong(B.y, l * (A.x - B.x) - A.y, pp)
  }

  /** The new denominator: 2yz = 2 y0 z^4. */
  function DoubleScale(A: Affine, z: int): int {
    2 * A.y * ((z * z) * (z * z))
  }

  lemma DoubleZScaled(P: Jac, A: Affine, pp: nat)
    requires pp > 0 && Scaled(P, A, P.z, pp)
    ensures Cong(MulMod(2, MulMod(P.y, P.z, pp), pp), DoubleScale(A, P.z), pp)
  {
    hide Cong, MulMod;
    var z := P.z;
    CongRefl(z, pp);
    CongRefl(2, pp);
    MulModCong(P.y, A.y * (z * (z * z)), z, z, pp);
    MulModCong(2, 2, MulMod(P.y, z, pp), A.y * (z * (z * z)) * z, pp);
    assert 2 * (A.y * (z * (z * z)) * z) == DoubleScale(A, z);
  }

  lemma DoubleSScaled(P: Jac, A: Affine, w: int, pp: nat)
    requires pp > 0 && Scaled(P, A, P.z, pp) && w == DoubleScale(A, P.z)
    ensures Cong(DoubleS(P, pp), A.x * (w * w), pp)
  {
    hide Cong, MulMod;
    var z := P.z;
    var X, Y := A.x * (z * z), A.y * (z * (z * z));
    CongRefl(4, pp);
    MulModCong(P.y, Y, P.y, Y, pp);
    MulModCong(P.x, X, MulMod(P.y, P.y, pp), Y * Y, pp);
    MulModCong(4, 4, MulMod(P.x, MulMod(P.y, P.y, pp), pp), X * (Y * Y), pp);
    FourXYY(A.x, A.y, z);
  }

  lemma FourXYY(x: int, y: int, z: int)
    ensures 4 * ((x * (z * z)) * ((y * (z * (z * z))) * (y * (z * (z * z)))))
         == x * ((2 * y * ((z * z) * (z * z))) * (2 * y * ((z * z) * (z * z))))
  {
  }

  lemma EightFourthScaled(P: Jac, A: Affine, w: int, pp: nat)
    requires pp > 0 && Scaled(P, A, P.z, pp) && w == DoubleScale(A, P.z)
    ensures Cong(EightFourth(P, pp), A.y * (w * (w * w)), pp)
  {
    hide Cong, MulMod;
    var z := P.z;
    var Y := A.y * (z * (z * z));
    var y := MulMod(P.y, P.y, pp);
    CongRefl(8, pp);
    MulModCong(P.y, Y, P.y, Y, pp);
    MulModCong(y, Y * Y, y, Y * Y, pp);
    MulModCong(8, 8, MulMod(y, y, pp), (Y * Y) * (Y * Y), pp);
    EightYYYY(A.y, z);
  }

  lemma EightYYYY(y: int, z: int)
    ensures
      var Y, w := y * (z * (z * z)), 2 * y * ((z * z) * (z * z));
      8 * ((Y * Y) * (Y * Y)) == y * (w * (w * w))
  {
  }

  lemma DoubleMScaled(P: Jac, A: Affine, l: int, aa: nat, w: int, pp: nat)
    requires pp > 0 && Scaled(P, A, P.z, pp) && w == DoubleScale(A, P.z)
    requires Cong(2 * A.y * l, 3 * (A.x * A.x) + aa, pp)
    ensures Cong(DoubleM(P, aa, pp), l * w, pp)
  {
    hide Cong, MulMod, AddMod;
    var X, Z := A.x * (P.z * P.z), P.z * P.z;
    var z, xx := MulMod(P.z, P.z, pp), MulMod(P.x, P.x, pp);
    CongRefl(P.z, pp);
    CongRefl(3, pp);
    CongRefl(aa, pp);
    MulModCong(P.x, X, P.x, X, pp);
    MulModCong(3, 3, xx, X * X, pp);
    MulModCong(P.z, P.z, P.z, P.z, pp);
    MulModCong(z, Z, z, Z, pp);
    MulModCong(aa, aa, MulMod(z, z, pp), Z * Z, pp);
    AddModCong(MulMod(3, xx, pp), 3 * (X * X), MulMod(aa, MulMod(z, z, pp), pp), aa * (Z * Z), pp);
    CongScale(Z * Z, 2 * A.y * l, 3 * (A.x * A.x) + aa, pp);
    SlopeSpread(A.x, A.y, Z, l, aa);
    CongJoin(DoubleM(P, aa, pp), l * w, (3 * (A.x * A.x) + aa) * (Z * Z), pp);
  }

  lemma SlopeSpread(x: int, y: int, Z: int, l: int, aa: int)
    ensures 3 * ((x * Z) * (x * Z)) + aa * (Z * Z) == (3 * (x * x) + aa) * (Z * Z)
    ensures (2 * y * l) * (Z * Z) == l * (2 * y * (Z * Z))
  {
  }

  lemma DoubleXScaled(m: nat, s: nat, l: int, w: int, A: Affine, C: Affine, pp: nat)
    requires pp > 0 && Cong(m, l * w, pp) && Cong(s, A.x * (w * w), pp)
    requires Cong(C.x, l * l - 2 * A.x, pp)
    ensures Cong(DoubleX(m, s, pp), C.x * (w * w), pp)
  {
    hide Cong, MulMod, AddMod;
    var S := A.x * (w * w);
    MulModCong(m, l * w, m, l * w, pp);
    AddModCong(s, S, s, S, pp);
    SubModCong(MulMod(m, m, pp), (l * w) * (l * w), AddMod(s, s, pp), S + S, pp);
    CongScale(w * w, C.x, l * l - 2 * A.x, pp);
    assert (l * w) * (l * w) - (S + S) == (l * l - 2 * A.x) * (w * w);
    CongJoin(DoubleX(m, s, pp), C.x * (w * w), (l * l - 2 * A.x) * (w * w), pp);
  }

  lemma ZeroIsNoUnit(z: int, pp: nat)
    requires pp > 1 && Unit(z, pp)
    ensures !Cong(z, 0, pp)
  {
    var w :| Inverse(z, w, pp);
    if Cong(z, 0, pp) {
      CongScale(w, z, 0, pp);
      CanonicalCong(0, 1, pp);
    }
  }

  /** Doubling refines the tangent rule, whatever denominators stand in for the point. */
  lemma DoubleIsTangent(P: Jac, A: Affine, l: int, B: Affine, aa: nat, pp: nat)
    requires pp > 1 && Represents(P, A, pp) && Unit(2 * A.y, pp) && Tangent(A, l, B, aa, pp)
    ensures Represents(JacDouble(P, aa, pp), B, pp)
  {
    hide Cong, MulMod, AddMod, Finish, DoubleM, DoubleS, DoubleX, EightFourth, Unit;
    var z := P.z;
    ZeroIsNoUnit(z, pp);
    CongRefl(0, pp);
    var w := DoubleScale(A, z);
    var m, s := DoubleM(P, aa, pp), DoubleS(P, pp);
    DoubleZScaled(P, A, pp);
    DoubleSScaled(P, A, w, pp);
    DoubleMScaled(P, A, l, aa, w, pp);
    EightFourthScaled(P, A, w, pp);
    DoubleXScaled(m, s, l, w, A, B, pp);
    FinishScaled(m, s, DoubleX(m, s, pp), EightFourth(P, pp), l, w, A, B, pp);
    UnitMul(z, z, pp);
    UnitMul(z * z, z * z, pp);
    UnitMul(2 * A.y, (z * z) * (z * z), pp);
    RepresentsBy(JacDouble(P, aa, pp), B, w, pp);
  }

  // ----- addition -----

  /** First coordinates over the common denominator, u1 and u2 of the source. */
  function CrossX(P: Jac, Q: Jac, pp: nat): nat
    requires pp > 0
  {
    MulMod(P.x, MulMod(Q.z, Q.z, pp), pp)
  }

  /** Second coordinates over the common denominator, s1 and s2 of the source. */
  function CrossY(P: Jac, Q: Jac, pp: nat): nat
    requires pp > 0
  {
    MulMod(P.y, MulMod(Q.z, MulMod(Q.z, Q.z, pp), pp), pp)
  }

  function AddX(h: nat, r: nat, u1h2: nat, pp: nat): nat
    requires pp > 0
  {
    var h3 := MulMod(MulMod(h, h, pp), h, pp);
    AddMod(AddMod(MulMod(r, r, pp), pp - h3, pp), pp - MulMod(2, u1h2, pp), pp)
  }

  function AddDistinct(P: Jac, Q: Jac, u1: nat, s1: nat, h: nat, r: nat, pp: nat): Jac
    requires pp > 0
  {
    var h2 := MulMod(h, h, pp);
    var u1h2 := MulMod(u1, h2, pp);
    var x := AddX(h, r, u1h2, pp);
    Jac(x, Finish(r, u1h2, x, MulMod(s1, MulMod(h2, h, pp), pp), pp),
      MulMod(h, MulMod(P.z, Q.z, pp), pp))
  }

  /** The pair 0, 0 stands for the point at infinity; equal points revert. */
  function JacAdd(P: Jac, Q: Jac, pp: nat): Option<Jac>
    requires pp > 0
  {
    if P.x == 0 && P.y == 0 then Some(Q)
    else if Q.x == 0 && Q.y == 0 then Some(P)
    else
      var u1, s1, u2, s2 := CrossX(P, Q, pp), CrossY(P, Q, pp), CrossX(Q, P, pp), CrossY(Q, P, pp);
      if u1 == u2 && s1 == s2 then None
      else Some(AddDistinct(P, Q, u1, s1, AddMod(u2, pp - u1, pp), AddMod(s2, pp - s1, pp), pp))
  }

  /** C is the third intersection, mirrored, of the line through A and B, of slope l. */
  ghost predicate Chord(A: Affine, B: Affine, l: int, C: Affine, pp: nat)
    requires pp > 0
  {
    && Cong(l * (B.x - A.x), B.y - A.y, pp)
    && Cong(C.x, l * l - A.x - B.x, pp)
    && Cong(C.y, l * (A.x - C.x) - A.y, pp)
  }

  lemma CrossScaled(P: Jac, Q: Jac, A: Affine, W: int, pp: nat)
    requires pp > 0 && Scaled(P, A, P.z, pp) && W == P.z * Q.z
    ensures Cong(CrossX(P, Q, pp), A.x * (W * W), pp) && Cong(CrossY(P, Q, pp), A.y * (W * (W * W)), pp)
  {
    hide Cong, MulMod;
    var z, q := P.z, Q.z;
    CongRefl(q, pp);
    MulModCong(q, q, q, q, pp);
    MulModCong(P.x, A.x * (z * z), MulMod(q, q, pp), q * q, pp);
    MulModCong(q, q, MulMod(q, q, pp), q * q, pp);
    MulModCong(P.y, A.y * (z * (z * z)), MulMod(q, MulMod(q, q, pp), pp), q * (q * q), pp);
    CrossSpread(A.x, A.y, z, q);
  }

  lemma CrossSpread(x: int, y: int, z: int, q: int)
    ensures (x * (z * z)) * (q * q) == x * ((z * q) * (z * q))
    ensures (y * (z * (z * z))) * (q * (q * q)) == y * ((z * q) * ((z * q) * (z * q)))
  {
  }

  lemma AddXScaled(h: nat, r: nat, u1h2: nat, l: int, d: int, W: int, w: int, A: Affine, B: Affine, C: Affine, pp: nat)
    requires pp > 0 && d == B.x - A.x && w == d * (W * (W * W))
    requires Cong(h, d * (W * W), pp) && Cong(r, l * w, pp) && Cong(u1h2, A.x * (w * w), pp)
    requires Cong(C.x, l * l - A.x - B.x, pp)
    ensures Cong(AddX(h, r, u1h2, pp), C.x * (w * w), pp)
  {
    hide Cong, MulMod, AddMod;
    CubeScaled(h, d, W, w, pp);
    var h3 := MulMod(MulMod(h, h, pp), h, pp);
    CongRefl(2, pp);
    MulModCong(r, l * w, r, l * w, pp);
    SubModCong(MulMod(r, r, pp), (l * w) * (l * w), h3, d * (w * w), pp);
    MulModCong(2, 2, u1h2, A.x * (w * w), pp);
    SubModCong(AddMod(MulMod(r, r, pp), pp - h3, pp), (l * w) * (l * w) - d * (w * w),
      MulMod(2, u1h2, pp), 2 * (A.x * (w * w)), pp);
    AddXSpread(l, d, A.x, B.x, w, w * w);
    CongScale(w * w, C.x, l * l - A.x - B.x, pp);
    CongJoin(AddX(h, r, u1h2, pp), C.x * (w * w), (l * l - A.x - B.x) * (w * w), pp);
  }

  lemma AddXSpread(l: int, d: int, x1: int, x2: int, w: int, ww: int)
    requires d == x2 - x1 && ww == w * w
    ensures (l * w) * (l * w) - d * ww - 2 * (x1 * ww) == (l * l - x1 - x2) * ww
  {
    assert (l * w) * (l * w) == (l * l) * ww;
    assert (x2 - x1) * ww == x2 * ww - x1 * ww;
    assert (l * l - x1 - x2) * ww == (l * l) * ww - x1 * ww - x2 * ww;
  }

  /** h^2 and h^3 over the new denominator w = h W. */
  lemma CubeScaled(h: nat, d: int, W: int, w: int, pp: nat)
    requires pp > 0 && w == d * (W * (W * W)) && Cong(h, d * (W * W), pp)
    ensures Cong(MulMod(h, h, pp), (d * (W * W)) * (d * (W * W)), pp)
    ensures Cong(MulMod(MulMod(h, h, pp), h, pp), d * (w * w), pp)
  {
    hide Cong, MulMod;
    var H := d * (W * W);
    MulModCong(h, H, h, H, pp);
    MulModCong(MulMod(h, h, pp), H * H, h, H, pp);
    CubeSpread(d, W);
  }

  lemma CubeSpread(d: int, W: int)
    ensures
      var H, w := d * (W * W), d * (W * (W * W));
      (H * H) * H == d * (w * w)
  {
  }

  lemma AddDistinctScaled(P: Jac, Q: Jac, u1: nat, s1: nat, h: nat, r: nat, l: int, W: int, w: int,
                          A: Affine, B: Affine, C: Affine, pp: nat)
    requires pp > 0 && W == P.z * Q.z && w == (B.x - A.x) * (W * (W * W)) && Chord(A, B, l, C, pp)
    requires Cong(u1, A.x * (W * W), pp) && Cong(s1, A.y * (W * (W * W)), pp)
    requires Cong(h, (B.x - A.x) * (W * W), pp) && Cong(r, l * w, pp)
    ensures
      var R := AddDistinct(P, Q, u1, s1, h, r, pp);
      Cong(R.z, w, pp) && Scaled(R, C, w, pp)
  {
    hide Cong, MulMod, AddMod, Finish, AddX;
    var d := B.x - A.x;
    var H := d * (W * W);
    var h2 := MulMod(h, h, pp);
    var h3 := MulMod(h2, h, pp);
    var u1h2 := MulMod(u1, h2, pp);
    CubeScaled(h, d, W, w, pp);
    MulModCong(u1, A.x * (W * W), h2, H * H, pp);
    MulModCong(s1, A.y * (W * (W * W)), h3, d * (w * w), pp);
    CongRefl(P.z, pp);
    CongRefl(Q.z, pp);
    MulModCong(P.z, P.z, Q.z, Q.z, pp);
    MulModCong(h, H, MulMod(P.z, Q.z, pp), W, pp);
    AddSpread(A.x, A.y, d, W);
    AddXScaled(h, r, u1h2, l, d, W, w, A, B, C, pp);
    FinishScaled(r, u1h2, AddX(h, r, u1h2, pp), MulMod(s1, h3, pp), l, w, A, C, pp);
  }

  lemma AddSpread(x: int, y: int, d: int, W: int)
    ensures
      var H, w := d * (W * W), d * (W * (W * W));
      && (x * (W * W)) * (H * H) == x * (w * w)
      && (y * (W * (W * W))) * (d * (w * w)) == y * (w * (w * w))
      && H * W == w
  {
  }

  lemma SlopeScaled(r: nat, l: int, d: int, e: int, W: int, w: int, pp: nat)
    requires pp > 0 && Cong(l * d, e, pp) && Cong(r, e * (W * (W * W)), pp) && w == d * (W * (W * W))
    ensures Cong(r, l * w, pp)
  {
    hide Cong;
    var c := W * (W * W);
    CongScale(c, l * d, e, pp);
    assert (l * d) * c == l * (d * c);
    CongJoin(l * w, r, e * c, pp);
    CongSym(l * w, r, pp);
  }

  lemma CongSym(a: int, b: int, m: int)
    requires m > 0 && Cong(a, b, m)
    ensures Cong(b, a, m)
  {
  }

  /** The difference of the scaled coordinates is the scaled difference. */
  lemma DifferenceScaled(v: nat, u: nat, b: int, a: int, c: int, pp: nat)
    requires pp > 0 && Cong(v, b * c, pp) && Cong(u, a * c, pp)
    ensures Cong(AddMod(v, pp - u, pp), (b - a) * c, pp)
  {
    hide Cong, AddMod;
    SubModCong(v, b * c, u, a * c, pp);
    assert b * c - a * c == (b - a) * c;
  }

  /** The encoding of the point at infinity, up to the modulus. */
  ghost predicate AtOrigin(A: Affine, pp: nat)
    requires pp > 0
  {
    Cong(A.x, 0, pp) && Cong(A.y, 0, pp)
  }

  lemma OriginOnly(P: Jac, A: Affine, pp: nat)
    requires pp > 0 && Represents(P, A, pp) && P.x == 0 && P.y == 0
    ensures AtOrigin(A, pp)
  {
    hide Cong, Unit;
    var zz := P.z * P.z;
    UnitMul(P.z, P.z, pp);
    UnitMul(P.z, zz, pp);
    ScaledZero(A.x, zz, pp);
    ScaledZero(A.y, P.z * zz, pp);
  }

  lemma ScaledZero(a: int, c: int, pp: nat)
    requires pp > 0 && Unit(c, pp) && Cong(0, a * c, pp)
    ensures Cong(a, 0, pp)
  {
    assert c * a == a * c && c * 0 == 0;
    CancelUnit(c, 0, a, pp);
  }

  /** Addition refines the chord rule, whatever denominators stand in for the points. */
  lemma AddIsChord(P: Jac, Q: Jac, A: Affine, B: Affine, l: int, C: Affine, pp: nat)
    requires pp > 1 && Represents(P, A, pp) && Represents(Q, B, pp)
    requires !AtOrigin(A, pp) && !AtOrigin(B, pp)
    requires Unit(B.x - A.x, pp) && Chord(A, B, l, C, pp)
    ensures JacAdd(P, Q, pp).Some? && Represents(JacAdd(P, Q, pp).value, C, pp)
  {
    hide Cong, MulMod, AddMod, AddDistinct, CrossX, CrossY, Unit, AtOrigin;
    if P.x == 0 && P.y == 0 { OriginOnly(P, A, pp); }
    if Q.x == 0 && Q.y == 0 { OriginOnly(Q, B, pp); }
    AddRevertsIff(P, Q, A, B, pp);
    DifferentX(A, B, pp);
    var W := P.z * Q.z;
    var w := (B.x - A.x) * (W * (W * W));
    var u1, s1, u2, s2 := CrossX(P, Q, pp), CrossY(P, Q, pp), CrossX(Q, P, pp), CrossY(Q, P, pp);
    var h, r := AddMod(u2, pp - u1, pp), AddMod(s2, pp - s1, pp);
    CrossScaled(P, Q, A, W, pp);
    CrossScaled(Q, P, B, W, pp);
    DifferenceScaled(u2, u1, B.x, A.x, W * W, pp);
    DifferenceScaled(s2, s1, B.y, A.y, W * (W * W), pp);
    SlopeScaled(r, l, B.x - A.x, B.y - A.y, W, w, pp);
    AddDistinctScaled(P, Q, u1, s1, h, r, l, W, w, A, B, C, pp);
    UnitMul(P.z, Q.z, pp);
    UnitMul(W, W, pp);
    UnitMul(W, W * W, pp);
    UnitMul(B.x - A.x, W * (W * W), pp);
    RepresentsBy(AddDistinct(P, Q, u1, s1, h, r, pp), C, w, pp);
  }

  lemma DifferentX(A: Affine, B: Affine, pp: nat)
    requires pp > 1 && Unit(B.x - A.x, pp)
    ensures !Cong(A.x, B.x, pp)
  {
    if Cong(A.x, B.x, pp) {
      CongSub(B.x, A.x, A.x, A.x, pp);
      ZeroIsNoUnit(B.x - A.x, pp);
    }
  }

  ghost predicate SamePoint(A: Affine, B: Affine, pp: nat)
    requires pp > 0
  {
    Cong(A.x, B.x, pp) && Cong(A.y, B.y, pp)
  }

  /** The revert "use jacDouble" happens exactly for two triples of the same point. */
  lemma AddRevertsIff(P: Jac, Q: Jac, A: Affine, B: Affine, pp: nat)
    requires pp > 0 && Represents(P, A, pp) && Represents(Q, B, pp)
    requires !AtOrigin(A, pp) && !AtOrigin(B, pp)
    ensures JacAdd(P, Q, pp).None? <==> SamePoint(A, B, pp)
  {
    hide Cong, MulMod, AddMod, AddDistinct, CrossX, CrossY, Unit, AtOrigin;
    if P.x == 0 && P.y == 0 { OriginOnly(P, A, pp); }
    if Q.x == 0 && Q.y == 0 { OriginOnly(Q, B, pp); }
    var W := P.z * Q.z;
    CrossScaled(P, Q, A, W, pp);
    CrossScaled(Q, P, B, W, pp);
    UnitMul(P.z, Q.z, pp);
    UnitMul(W, W, pp);
    UnitMul(W, W * W, pp);
    CrossBelow(P, Q, pp);
    CrossBelow(Q, P, pp);
    EqualScaled(CrossX(P, Q, pp), CrossX(Q, P, pp), A.x, B.x, W * W, pp);
    EqualScaled(CrossY(P, Q, pp), CrossY(Q, P, pp), A.y, B.y, W * (W * W), pp);
  }

  lemma CrossBelow(P: Jac, Q: Jac, pp: nat)
    requires pp > 0
    ensures CrossX(P, Q, pp) < pp && CrossY(P, Q, pp) < pp
  {
  }

  lemma EqualScaled(u: nat, v: nat, a: int, b: int, c: int, pp: nat)
    requires pp > 0 && u < pp && v < pp && Unit(c, pp) && Cong(u, a * c, pp) && Cong(v, b * c, pp)
    ensures u == v <==> Cong(a, b, pp)
  {
    hide Unit;
    if u == v {
      assert a * c == c * a && b * c == c * b;
      CancelUnit(c, a, b, pp);
    }
    if Cong(a, b, pp) {
      CongScale(c, a, b, pp);
      CanonicalCong(u, v, pp);
    }
  }

  /** Two opposite points are not refused: their sum has denominator 0, which `toAffine` refuses. */
  lemma OppositeSum(P: Jac, Q: Jac, A: Affine, B: Affine, pp: nat)
    requires pp > 0 && Represents(P, A, pp) && Represents(Q, B, pp)
    requires !AtOrigin(A, pp) && !AtOrigin(B, pp)
    requires Cong(A.x, B.x, pp) && !Cong(A.y, B.y, pp)
    ensures JacAdd(P, Q, pp).Some? && JacAdd(P, Q, pp).value.z == 0
  {
    hide Cong, MulMod, AddMod, CrossX, CrossY, Unit, AtOrigin, Finish, AddX;
    if P.x == 0 && P.y == 0 { OriginOnly(P, A, pp); }
    if Q.x == 0 && Q.y == 0 { OriginOnly(Q, B, pp); }
    AddRevertsIff(P, Q, A, B, pp);
    var W := P.z * Q.z;
    CrossScaled(P, Q, A, W, pp);
    CrossScaled(Q, P, B, W, pp);
    UnitMul(P.z, Q.z, pp);
    UnitMul(W, W, pp);
    CrossBelow(P, Q, pp);
    CrossBelow(Q, P, pp);
    EqualScaled(CrossX(P, Q, pp), CrossX(Q, P, pp), A.x, B.x, W * W, pp);
    SelfDifference(CrossX(P, Q, pp), MulMod(P.z, Q.z, pp), pp);
  }

  lemma SelfDifference(u: nat, v: nat, pp: nat)
    requires pp > 0
    ensures MulMod(AddMod(u, pp - u, pp), v, pp) == 0
  {
    ModShift(0, 1, pp);
    assert AddMod(u, pp - u, pp) == 0;
  }

  // ----- past the point at infinity -----

  /** A triple of denominator 0 whose other coordinates lie on the cusp y^2 = x^3, away from 0, 0. */
  ghost predicate Cusp(P: Jac, pp: nat)
    requires pp > 0
  {
    P.z == 0 && Unit(P.x, pp) && Cong(P.y * P.y, P.x * (P.x * P.x), pp)
  }

  lemma ZeroTimes(a: nat, pp: nat)
    requires pp > 0
    ensures MulMod(0, a, pp) == 0 && MulMod(a, 0, pp) == 0
  {
    ModUnique(0, pp, 0, 0);
  }

  lemma ZeroPlus(a: nat, pp: nat)
    requires pp > 0 && a < pp
    ensures AddMod(a, pp - 0, pp) == a
  {
    ModUnique(a + pp, pp, 1, a);
  }

  /** With h = 0 the sum is r^2, -r^3 over 0. */
  lemma ZeroH(P: Jac, Q: Jac, u1: nat, s1: nat, r: nat, pp: nat)
    requires pp > 0
    ensures
      var R := AddDistinct(P, Q, u1, s1, 0, r, pp);
      R.z == 0 && R.x == MulMod(r, r, pp) && Cong(R.y, r * (0 - R.x), pp)
  {
    hide MulMod, AddMod, Cong;
    ZeroTimes(0, pp);
    ZeroTimes(u1, pp);
    ZeroTimes(s1, pp);
    ZeroTimes(2, pp);
    ZeroTimes(MulMod(P.z, Q.z, pp), pp);
    var x: int := MulMod(r, r, pp);
    ZeroPlus(x, pp);
    CongRefl(0, pp);
    CongRefl(x, pp);
    CongRefl(r, pp);
    SubModCong(0, 0, x, x, pp);
    MulModCong(r, r, AddMod(0, pp - x, pp), 0 - x, pp);
    ZeroPlus(MulMod(r, AddMod(0, pp - x, pp), pp), pp);
  }

  lemma OnCusp(r: int, x: int, y: int, pp: nat)
    requires pp > 0 && Cong(x, r * r, pp) && Cong(y, r * (0 - x), pp)
    ensures Cong(y * y, x * (x * x), pp)
  {
    hide Cong;
    CongMul(y, r * (0 - x), y, r * (0 - x), pp);
    CongScale(x * x, x, r * r, pp);
    CuspSpread(r, x);
    CongJoin(y * y, x * (x * x), (r * r) * (x * x), pp);
  }

  lemma CuspSpread(r: int, x: int)
    ensures (r * (0 - x)) * (r * (0 - x)) == (r * r) * (x * x)
  {
    assert r * (0 - x) == 0 - r * x;
    assert (r * x) * (r * x) == (r * r) * (x * x);
  }

  /** Opposite points add up to a cusp. */
  lemma OppositeIsCusp(P: Jac, Q: Jac, A: Affine, B: Affine, pp: nat)
    requires pp > 1 && Represents(P, A, pp) && Represents(Q, B, pp)
    requires !AtOrigin(A, pp) && !AtOrigin(B, pp)
    requires Cong(A.x, B.x, pp) && Cong(A.y + B.y, 0, pp) && Unit(2 * A.y, pp)
    ensures JacAdd(P, Q, pp).Some? && Cusp(JacAdd(P, Q, pp).value, pp)
  {
    hide Cong, MulMod, AddMod, CrossX, CrossY, Unit, AtOrigin, AddDistinct;
    if P.x == 0 && P.y == 0 { OriginOnly(P, A, pp); }
    if Q.x == 0 && Q.y == 0 { OriginOnly(Q, B, pp); }
    NotSameY(A, B, pp);
    AddRevertsIff(P, Q, A, B, pp);
    var W := P.z * Q.z;
    var c := W * (W * W);
    CrossScaled(P, Q, A, W, pp);
    CrossScaled(Q, P, B, W, pp);
    UnitMul(P.z, Q.z, pp);
    UnitMul(W, W, pp);
    UnitMul(W, W * W, pp);
    CrossBelow(P, Q, pp);
    CrossBelow(Q, P, pp);
    EqualScaled(CrossX(P, Q, pp), CrossX(Q, P, pp), A.x, B.x, W * W, pp);
    var u1, s1, s2 := CrossX(P, Q, pp), CrossY(P, Q, pp), CrossY(Q, P, pp);
    var r := AddMod(s2, pp - s1, pp);
    DifferenceScaled(s2, s1, B.y, A.y, c, pp);
    OppositeSlope(r, A.y, B.y, c, pp);
    SelfZero(u1, pp);
    ZeroH(P, Q, u1, s1, r, pp);
    var R := AddDistinct(P, Q, u1, s1, 0, r, pp);
    CongRefl(r, pp);
    MulModCong(r, r, r, r, pp);
    OnCusp(r, R.x, R.y, pp);
    UnitMul(r, r, pp);
    CongSym(R.x, r * r, pp);
    UnitCong(r * r, R.x, pp);
  }

  lemma SelfZero(u: nat, pp: nat)
    requires pp > 0
    ensures AddMod(u, pp - u, pp) == 0
  {
    ModShift(0, 1, pp);
  }

  lemma NotSameY(A: Affine, B: Affine, pp: nat)
    requires pp > 1 && Cong(A.y + B.y, 0, pp) && Unit(2 * A.y, pp)
    ensures !Cong(A.y, B.y, pp)
  {
    if Cong(A.y, B.y, pp) {
      CongAdd(A.y, B.y, A.y, A.y, pp);
      CongTrans(2 * A.y, A.y + B.y, 0, pp);
      ZeroIsNoUnit(2 * A.y, pp);
    }
  }

  /** r is minus 2y over the common denominator. */
  lemma OppositeSlope(r: int, a: int, b: int, c: int, pp: nat)
    requires pp > 0 && Cong(r, (b - a) * c, pp) && Cong(a + b, 0, pp) && Unit(2 * a, pp) && Unit(c, pp)
    ensures Unit(r, pp)
  {
    hide Cong, Unit;
    CongRefl(2 * a, pp);
    CongSub(a + b, 0, 2 * a, 2 * a, pp);
    NegUnit(2 * a, pp);
    CongSym(a + b - 2 * a, 0 - 2 * a, pp);
    assert a + b - 2 * a == b - a;
    UnitCong(0 - 2 * a, b - a, pp);
    UnitMul(b - a, c, pp);
    CongSym(r, (b - a) * c, pp);
    UnitCong((b - a) * c, r, pp);
  }

  lemma NegUnit(a: int, pp: nat)
    requires pp > 0 && Unit(a, pp)
    ensures Unit(0 - a, pp)
  {
    var w :| Inverse(a, w, pp);
    assert (0 - a) * (0 - w) == a * w;
    assert Inverse(0 - a, 0 - w, pp);
  }

  /** The sum after it is lost: a cusp and a point add up to 0, 0 over 0. */
  lemma CuspAdd(P: Jac, Q: Jac, pp: nat)
    requires pp > 1 && Cusp(P, pp) && Unit(Q.z, pp) && !(Q.x == 0 && Q.y == 0)
    ensures JacAdd(P, Q, pp) == Some(Jac(0, 0, 0))
  {
    hide Cong, MulMod, AddMod, Unit, Finish, AddX;
    var q := Q.z;
    var qq := MulMod(q, q, pp);
    UnitNotZero(P.x, pp);
    CongRefl(q, pp);
    CongRefl(P.x, pp);
    CongRefl(P.y, pp);
    MulModCong(q, q, q, q, pp);
    MulModCong(P.x, P.x, qq, q * q, pp);
    MulModCong(q, q, qq, q * q, pp);
    MulModCong(P.y, P.y, MulMod(q, qq, pp), q * (q * q), pp);
    var u1, s1 := CrossX(P, Q, pp), CrossY(P, Q, pp);
    ZeroTimes(0, pp);
    ZeroTimes(Q.x, pp);
    ZeroTimes(Q.y, pp);
    UnitMul(q, q, pp);
    UnitMul(P.x, q * q, pp);
    CongSym(u1, P.x * (q * q), pp);
    UnitCong(P.x * (q * q), u1, pp);
    UnitNotZero(u1, pp);
    ScaledCusp(P.x, P.y, u1, s1, q, pp);
    var h, r := AddMod(0, pp - u1, pp), AddMod(0, pp - s1, pp);
    CongRefl(0, pp);
    CongRefl(u1, pp);
    CongRefl(s1, pp);
    SubModCong(0, 0, u1, u1, pp);
    SubModCong(0, 0, s1, s1, pp);
    CuspSumX(u1, s1, h, r, pp);
    CuspSumY(u1, s1, h, r, pp);
    ZeroTimes(q, pp);
    ZeroTimes(h, pp);
  }

  lemma UnitNotZero(a: int, pp: nat)
    requires pp > 1 && Unit(a, pp)
    ensures a != 0
  {
    CongRefl(0, pp);
    if a == 0 {
      ZeroIsNoUnit(a, pp);
    }
  }

  lemma ScaledCusp(x: int, y: int, u: int, s: int, q: int, pp: nat)
    requires pp > 0 && Cong(y * y, x * (x * x), pp) && Cong(u, x * (q * q), pp) && Cong(s, y * (q * (q * q)), pp)
    ensures Cong(s * s, u * (u * u), pp)
  {
    hide Cong;
    var c := (q * (q * q)) * (q * (q * q));
    CongSquare(s, y * (q * (q * q)), pp);
    CongSquare(u, x * (q * q), pp);
    CongMul(u, x * (q * q), u * u, (x * (q * q)) * (x * (q * q)), pp);
    CongScale(c, y * y, x * (x * x), pp);
    ScaledSpread(x, y, q);
    CongTrans(s * s, (y * y) * c, (x * (x * x)) * c, pp);
    CongJoin(s * s, u * (u * u), (x * (x * x)) * c, pp);
  }

  lemma ScaledSpread(x: int, y: int, q: int)
    ensures
      var c := (q * (q * q)) * (q * (q * q));
      && (y * (q * (q * q))) * (y * (q * (q * q))) == (y * y) * c
      && (x * (q * q)) * ((x * (q * q)) * (x * (q * q))) == (x * (x * x)) * c
  {
  }

  /** h and r are minus u and minus s. */
  lemma CuspPowers(u: nat, h: nat, pp: nat)
    requires pp > 0 && Cong(h, 0 - u, pp)
    ensures Cong(MulMod(h, h, pp), u * u, pp) && Cong(MulMod(MulMod(h, h, pp), h, pp), 0 - u * (u * u), pp)
  {
    hide Cong, MulMod;
    MulModCong(h, 0 - u, h, 0 - u, pp);
    assert (0 - u) * (0 - u) == u * u;
    MulModCong(MulMod(h, h, pp), u * u, h, 0 - u, pp);
    assert (u * u) * (0 - u) == 0 - u * (u * u);
  }

  lemma CuspSumX(u: nat, s: nat, h: nat, r: nat, pp: nat)
    requires pp > 0 && Cong(s * s, u * (u * u), pp) && Cong(h, 0 - u, pp) && Cong(r, 0 - s, pp)
    ensures AddX(h, r, MulMod(u, MulMod(h, h, pp), pp), pp) == 0
  {
    hide Cong, MulMod, AddMod;
    var u3 := u * (u * u);
    var h2, r2 := MulMod(h, h, pp), MulMod(r, r, pp);
    var h3, uh := MulMod(h2, h, pp), MulMod(u, h2, pp);
    CuspPowers(u, h, pp);
    CongRefl(u, pp);
    CongRefl(2, pp);
    MulModCong(r, 0 - s, r, 0 - s, pp);
    assert (0 - s) * (0 - s) == s * s;
    CongTrans(r2, s * s, u3, pp);
    MulModCong(u, u, h2, u * u, pp);
    MulModCong(2, 2, uh, u3, pp);
    SubModCong(r2, u3, h3, 0 - u3, pp);
    SubModCong(AddMod(r2, pp - h3, pp), u3 - (0 - u3), MulMod(2, uh, pp), 2 * u3, pp);
    IsZero(AddX(h, r, uh, pp), pp);
  }

  lemma IsZero(a: nat, pp: nat)
    requires pp > 0 && Cong(a, 0, pp) && a < pp
    ensures a == 0
  {
    CanonicalCong(a, 0, pp);
  }

  lemma CuspSumY(u: nat, s: nat, h: nat, r: nat, pp: nat)
    requires pp > 0 && Cong(h, 0 - u, pp) && Cong(r, 0 - s, pp)
    ensures
      var h2 := MulMod(h, h, pp);
      Finish(r, MulMod(u, h2, pp), 0, MulMod(s, MulMod(h2, h, pp), pp), pp) == 0
  {
    hide Cong, MulMod, AddMod;
    var u3, h2 := u * (u * u), MulMod(h, h, pp);
    var h3, uh := MulMod(h2, h, pp), MulMod(u, h2, pp);
    CuspPowers(u, h, pp);
    CongRefl(u, pp);
    CongRefl(s, pp);
    CongRefl(0, pp);
    MulModCong(u, u, h2, u * u, pp);
    MulModCong(s, s, h3, 0 - u3, pp);
    SubModCong(uh, u3, 0, 0, pp);
    MulModCong(r, 0 - s, AddMod(uh, pp - 0, pp), u3 - 0, pp);
    assert (0 - s) * (u3 - 0) - s * (0 - u3) == 0;
    SubModCong(MulMod(r, AddMod(uh, pp - 0, pp), pp), (0 - s) * (u3 - 0), MulMod(s, h3, pp), s * (0 - u3), pp);
    IsZero(Finish(r, uh, 0, MulMod(s, h3, pp), pp), pp);
  }
}

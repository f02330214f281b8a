/** Quaternion matrices, angular increments and rotation-error metrics of the audits. The square root and
    the trigonometric functions enter as parameters with just the laws that are used. */
module Rotations {
  import opened Basics
  import opened Matrices

  // _matrix

  /** A quaternion divided by its norm n. */
  function Normalised(q: Quaternion, n: real): Quaternion
    requires n != 0.0
  {
    Quaternion(q.w / n, q.x / n, q.y / n, q.z / n)
  }

  predicate IsNorm(n: real, q: Quaternion) {
    n > 0.0 && n * n == QuaternionNormSquared(q)
  }

  /** The matrix entries `_matrix` computes from a normalised quaternion. */
  function UnitMatrix(u: Quaternion): Mat {
    var w, x, y, z := u.w, u.x, u.y, u.z;
    Mat(Vec(1.0 - 2.0 * (y * y + z * z), 2.0 * (x * y - z * w), 2.0 * (x * z + y * w)),
        Vec(2.0 * (x * y + z * w), 1.0 - 2.0 * (x * x + z * z), 2.0 * (y * z - x * w)),
        Vec(2.0 * (x * z - y * w), 2.0 * (y * z + x * w), 1.0 - 2.0 * (x * x + y * y)))
  }

  /** `_matrix` of one quaternion with norm n. */
  function QuaternionMatrix(q: Quaternion, n: real): Mat
    requires n != 0.0
  {
    UnitMatrix(Normalised(q, n))
  }

  lemma Quotient(a: real, n: real)
    requires n != 0.0
    ensures (a / n) * n == a
  {
  }

  lemma SquaresScale(a: real, b: real, c: real, d: real, w: real, x: real, y: real, z: real, n: real, k: real, s: real)
    requires a * n == w && b * n == x && c * n == y && d * n == z && k == n * n && s == a * a + b * b + c * c + d * d
    ensures s * k == w * w + x * x + y * y + z * z
  {
  }

  lemma UnitSum(a: real, b: real, c: real, d: real, w: real, x: real, y: real, z: real, n: real, k: real, s: real,
      t: real)
    requires a * n == w && b * n == x && c * n == y && d * n == z && s == a * a + b * b + c * c + d * d
    requires n > 0.0 && k == n * n && t == w * w + x * x + y * y + z * z && k == t
    ensures s == 1.0
  {
    SquaresScale(a, b, c, d, w, x, y, z, n, k, s);
    ProductPositive(n, n, k);
    CancelFactor(s, 1.0, k);
  }

  lemma ProductPositive(n: real, m: real, k: real)
    requires n > 0.0 && m > 0.0 && k == n * m
    ensures k > 0.0
  {
    assert n * m > 0.0;
  }

  lemma UnitFromScaled(u: Quaternion, q: Quaternion, n: real)
    requires IsNorm(n, q) && u.w * n == q.w && u.x * n == q.x && u.y * n == q.y && u.z * n == q.z
    ensures QuaternionNormSquared(u) == 1.0
  {
    UnitSum(u.w, u.x, u.y, u.z, q.w, q.x, q.y, q.z, n, n * n, QuaternionNormSquared(u), QuaternionNormSquared(q));
  }

  lemma NormalisedIsUnit(q: Quaternion, n: real)
    requires IsNorm(n, q)
    ensures QuaternionNormSquared(Normalised(q, n)) == 1.0
  {
    Quotient(q.w, n);
    Quotient(q.x, n);
    Quotient(q.y, n);
    Quotient(q.z, n);
    UnitFromScaled(Normalised(q, n), q, n);
  }

  lemma UnitDiagonalX(u: Quaternion)
    requires QuaternionNormSquared(u) == 1.0
    ensures UnitMatrix(u).x.x == Diagonal(u)
  {
  }

  lemma UnitDiagonalY(u: Quaternion)
    requires QuaternionNormSquared(u) == 1.0
    ensures UnitMatrix(u).y.y == Diagonal(Turn(u))
  {
  }

  lemma UnitDiagonalZ(u: Quaternion)
    requires QuaternionNormSquared(u) == 1.0
    ensures UnitMatrix(u).z.z == Diagonal(Turn(Turn(u)))
  {
  }

  lemma UnitOffDiagonalY(u: Quaternion)
    ensures UnitMatrix(u).x.y == Upper(u) && UnitMatrix(u).x.z == Lower(u)
    ensures UnitMatrix(u).y.x == Lower(Turn(u)) && UnitMatrix(u).y.z == Upper(Turn(u))
  {
  }

  lemma UnitOffDiagonalZ(u: Quaternion)
    ensures UnitMatrix(u).z.x == Upper(Turn(Turn(u))) && UnitMatrix(u).z.y == Lower(Turn(Turn(u)))
  {
  }

  lemma UnitMatrixIsHomogeneous(u: Quaternion)
    requires QuaternionNormSquared(u) == 1.0
    ensures UnitMatrix(u) == Homogeneous(u)
  {
    UnitDiagonalX(u);
    UnitDiagonalY(u);
    UnitDiagonalZ(u);
    UnitOffDiagonalY(u);
    UnitOffDiagonalZ(u);
  }

  lemma MatrixIsHomogeneous(q: Quaternion, n: real)
    requires IsNorm(n, q)
    ensures QuaternionMatrix(q, n) == Homogeneous(Normalised(q, n))
  {
    NormalisedIsUnit(q, n);
    UnitMatrixIsHomogeneous(Normalised(q, n));
  }

  lemma ConjugateTransposes(q: Quaternion)
    ensures Homogeneous(Conjugate(q)) == Transpose(Homogeneous(q))
  {
  }

  const ONE := Quaternion(1.0, 0.0, 0.0, 0.0)

  lemma UnitInverse(q: Quaternion)
    requires QuaternionNormSquared(q) == 1.0
    ensures Product(q, Conjugate(q)) == ONE && Product(Conjugate(q), q) == ONE
  {
  }

  lemma HomogeneousOne()
    ensures Homogeneous(ONE) == IDENTITY
  {
    assert Turn(ONE) == ONE;
    assert Diagonal(ONE) == 1.0 && Upper(ONE) == 0.0 && Lower(ONE) == 0.0;
  }

  // The cofactors of a quaternion's matrix are the matrix scaled by the squared norm: first row, by entry.

  lemma CofactorDiagonal(w: real, x: real, y: real, z: real, n: real, dt: real, du: real, ut: real, lu: real)
    requires n == w * w + x * x + y * y + z * z
    requires dt == w * w + y * y - z * z - x * x && du == w * w + z * z - x * x - y * y
    requires ut == 2.0 * (y * z - x * w) && lu == 2.0 * (z * y + x * w)
    ensures dt * du - ut * lu == n * (w * w + x * x - y * y - z * z)
  {
  }

  lemma CofactorUpper(w: real, x: real, y: real, z: real, n: real, ut: real, uu: real, lt: real, du: real)
    requires n == w * w + x * x + y * y + z * z
    requires ut == 2.0 * (y * z - x * w) && uu == 2.0 * (z * x - y * w)
    requires lt == 2.0 * (y * x + z * w) && du == w * w + z * z - x * x - y * y
    ensures ut * uu - lt * du == n * (2.0 * (x * y - z * w))
  {
  }

  lemma CofactorLower(w: real, x: real, y: real, z: real, n: real, lt: real, lu: real, dt: real, uu: real)
    requires n == w * w + x * x + y * y + z * z
    requires lt == 2.0 * (y * x + z * w) && lu == 2.0 * (z * y + x * w)
    requires dt == w * w + y * y - z * z - x * x && uu == 2.0 * (z * x - y * w)
    ensures lt * lu - dt * uu == n * (2.0 * (x * z + y * w))
  {
  }

  lemma FirstCofactorX(q: Quaternion)
    requires QuaternionNormSquared(q) == 1.0
    ensures Diagonal(Turn(q)) * Diagonal(Turn(Turn(q))) - Upper(Turn(q)) * Lower(Turn(Turn(q))) == Diagonal(q)
  {
    var t, u := Turn(q), Turn(Turn(q));
    CofactorDiagonal(q.w, q.x, q.y, q.z, 1.0, Diagonal(t), Diagonal(u), Upper(t), Lower(u));
  }

  lemma FirstCofactorY(q: Quaternion)
    requires QuaternionNormSquared(q) == 1.0
    ensures Upper(Turn(q)) * Upper(Turn(Turn(q))) - Lower(Turn(q)) * Diagonal(Turn(Turn(q))) == Upper(q)
  {
    var t, u := Turn(q), Turn(Turn(q));
    CofactorUpper(q.w, q.x, q.y, q.z, 1.0, Upper(t), Upper(u), Lower(t), Diagonal(u));
  }

  lemma FirstCofactorZ(q: Quaternion)
    requires QuaternionNormSquared(q) == 1.0
    ensures Lower(Turn(q)) * Lower(Turn(Turn(q))) - Diagonal(Turn(q)) * Upper(Turn(Turn(q))) == Lower(q)
  {
    var t, u := Turn(q), Turn(Turn(q));
    CofactorLower(q.w, q.x, q.y, q.z, 1.0, Lower(t), Lower(u), Diagonal(t), Upper(u));
  }

  lemma FirstCofactors(q: Quaternion)
    requires QuaternionNormSquared(q) == 1.0
    ensures Cofactors(Homogeneous(q)).x == Homogeneous(q).x
  {
    FirstCofactorX(q);
    FirstCofactorY(q);
    FirstCofactorZ(q);
  }

  lemma TurnCross(u: Vec, v: Vec)
    ensures Cross(TurnVec(u), TurnVec(v)) == TurnVec(Cross(u, v))
  {
  }

  lemma TurnCofactors(m: Mat)
    ensures Cofactors(TurnMat(m)) == TurnMat(Cofactors(m))
  {
    TurnCross(m.y, m.z);
    TurnCross(m.z, m.x);
    TurnCross(m.x, m.y);
  }

  lemma UnitCofactors(q: Quaternion)
    requires QuaternionNormSquared(q) == 1.0
    ensures Cofactors(Homogeneous(q)) == Homogeneous(q)
  {
    FirstCofactors(q);
    FirstCofactors(Turn(q));
    FirstCofactors(Turn(Turn(q)));
    TurnHomogeneous(q);
    TurnHomogeneous(Turn(q));
    TurnCofactors(Homogeneous(q));
    TurnCofactors(Homogeneous(Turn(q)));
  }

  /** Main fact: `_matrix` maps every non-zero quaternion to an orthogonal matrix of determinant one. */
  lemma MatrixIsRotation(q: Quaternion, n: real)
    requires IsNorm(n, q)
    ensures IsRotation(QuaternionMatrix(q, n))
  {
    var u := Normalised(q, n);
    NormalisedIsUnit(q, n);
    MatrixIsHomogeneous(q, n);
    UnitInverse(u);
    HomogeneousMultiplicative(u, Conjugate(u));
    HomogeneousMultiplicative(Conjugate(u), u);
    ConjugateTransposes(u);
    HomogeneousOne();
    UnitCofactors(u);
    OrthogonalWithOwnCofactors(Homogeneous(u));
  }

  lemma ScaledComponentW(s1: real, s2: real, s3: real, s4: real, t1: real, t2: real, t3: real, t4: real, a: real,
                         b: real, c: real, d: real, w: real, x: real, y: real, z: real, n: real, m: real, r: real)
    requires s1 == a * n && s2 == b * n && s3 == c * n && s4 == d * n
    requires t1 == w * m && t2 == x * m && t3 == y * m && t4 == z * m
    requires r == a * w - b * x - c * y - d * z
    ensures s1 * t1 - s2 * t2 - s3 * t3 - s4 * t4 == r * (n * m)
  {
  }

  lemma ScaledComponentX(s1: real, s2: real, s3: real, s4: real, t1: real, t2: real, t3: real, t4: real, a: real,
                         b: real, c: real, d: real, w: real, x: real, y: real, z: real, n: real, m: real, r: real)
    requires s1 == a * n && s2 == b * n && s3 == c * n && s4 == d * n
    requires t1 == w * m && t2 == x * m && t3 == y * m && t4 == z * m
    requires r == a * w + b * x + c * y - d * z
    ensures s1 * t1 + s2 * t2 + s3 * t3 - s4 * t4 == r * (n * m)
  {
  }

  function Scaled(q: Quaternion, k: real): Quaternion {
    Quaternion(q.w * k, q.x * k, q.y * k, q.z * k)
  }

  lemma ScaledProductW(p: Quaternion, q: Quaternion, n: real, m: real)
    ensures Product(Scaled(p, n), Scaled(q, m)).w == Product(p, q).w * (n * m)
  {
    var s, t := Scaled(p, n), Scaled(q, m);
    ScaledComponentW(s.w, s.x, s.y, s.z, t.w, t.x, t.y, t.z, p.w, p.x, p.y, p.z, q.w, q.x, q.y, q.z, n, m,
                     Product(p, q).w);
  }

  lemma ScaledProductX(p: Quaternion, q: Quaternion, n: real, m: real)
    ensures Product(Scaled(p, n), Scaled(q, m)).x == Product(p, q).x * (n * m)
  {
    var s, t := Scaled(p, n), Scaled(q, m);
    ScaledComponentX(s.w, s.x, s.y, s.z, t.x, t.w, t.z, t.y, p.w, p.x, p.y, p.z, q.x, q.w, q.z, q.y, n, m,
                     Product(p, q).x);
  }

  lemma ScaledProduct(p: Quaternion, q: Quaternion, n: real, m: real)
    ensures Product(Scaled(p, n), Scaled(q, m)) == Scaled(Product(p, q), n * m)
  {
    ScaledProductW(p, q, n, m);
    ScaledProductX(p, q, n, m);
    ScaledProductX(Turn(p), Turn(q), n, m);
    ScaledProductX(Turn(Turn(p)), Turn(Turn(q)), n, m);
    TurnProduct(p, q);
    TurnProduct(Turn(p), Turn(q));
    TurnProduct(Scaled(p, n), Scaled(q, m));
    TurnProduct(Turn(Scaled(p, n)), Turn(Scaled(q, m)));
  }

  lemma NormalisedScaled(q: Quaternion, k: real)
    requires k != 0.0
    ensures Scaled(Normalised(q, k), k) == q
  {
  }

  lemma ScaledNormalised(q: Quaternion, k: real)
    requires k != 0.0
    ensures Normalised(Scaled(q, k), k) == q
  {
    Quotient(q.w * k, k);
    Quotient(q.x * k, k);
    Quotient(q.y * k, k);
    Quotient(q.z * k, k);
  }

  /** Main fact: `_matrix` is multiplicative. */
  lemma MatrixMultiplicative(p: Quaternion, n: real, q: Quaternion, m: real)
    requires IsNorm(n, p) && IsNorm(m, q)
    ensures IsNorm(n * m, Product(p, q))
    ensures QuaternionMatrix(Product(p, q), n * m) == Mul(QuaternionMatrix(p, n), QuaternionMatrix(q, m))
  {
    NormsMultiply(n, m, QuaternionNormSquared(p), QuaternionNormSquared(q));
    ProductNorm(p, q);
    MatrixIsHomogeneous(p, n);
    MatrixIsHomogeneous(q, m);
    MatrixIsHomogeneous(Product(p, q), n * m);
    NormalisedScaled(p, n);
    NormalisedScaled(q, m);
    ScaledProduct(Normalised(p, n), Normalised(q, m), n, m);
    ScaledNormalised(Product(Normalised(p, n), Normalised(q, m)), n * m);
    HomogeneousMultiplicative(Normalised(p, n), Normalised(q, m));
  }

  lemma NormsMultiply(n: real, m: real, a: real, b: real)
    requires n > 0.0 && m > 0.0 && n * n == a && m * m == b
    ensures n * m > 0.0 && (n * m) * (n * m) == a * b
  {
  }

  // _rotation_vector

  function Clip(v: real, low: real, high: real): real {
    if v < low then low else if high < v then high else v
  }

  /** The nearest value inside the bounds. */
  lemma ClipIsNearest(v: real, low: real, high: real, x: real)
    requires low <= x <= high
    ensures low <= Clip(v, low, high) <= high && Abs(v - Clip(v, low, high)) <= Abs(v - x)
  {
  }

  /** The cosine both `_rotation_vector` and the error metrics take from the trace. */
  function TraceCosine(r: Mat): real {
    Clip((Trace(r) - 1.0) * 0.5, -1.0, 1.0)
  }

  /** It is a cosine for every matrix, and the trace formula itself wherever that is one. */
  lemma TraceCosineInRange(r: Mat)
    ensures -1.0 <= TraceCosine(r) <= 1.0
    ensures -1.0 <= (Trace(r) - 1.0) / 2.0 <= 1.0 ==> TraceCosine(r) == (Trace(r) - 1.0) / 2.0
    ensures (Trace(r) - 1.0) / 2.0 < -1.0 ==> TraceCosine(r) == -1.0
    ensures (Trace(r) - 1.0) / 2.0 > 1.0 ==> TraceCosine(r) == 1.0
  {
  }

  /** The axis part of r - r^T. */
  function Axial(r: Mat): Vec {
    Vec(r.z.y - r.y.z, r.x.z - r.z.x, r.y.x - r.x.y)
  }

  function Abs(v: real): real {
    if v < 0.0 then -v else v
  }

  function RotationVector(r: Mat, arccos: real -> real, sin: real -> real): Vec {
    var angle := arccos(TraceCosine(r));
    if Abs(sin(angle)) > 0.00000001 then Scale(angle / (2.0 * sin(angle)), Axial(r)) else ZERO
  }

  /** `_rotation_vector` on a batch: a zeroed output, filled where the sine is not too small. */
  method RotationVectors(rotations: seq<Mat>, arccos: real -> real, sin: real -> real) returns (output: array<Vec>)
    ensures fresh(output) && output.Length == |rotations|
    ensures forall k :: 0 <= k < |rotations| ==> output[k] == RotationVector(rotations[k], arccos, sin)
  {
    output := new Vec[|rotations|](_ => ZERO);
    for k := 0 to |rotations|
      invariant forall j :: 0 <= j < k ==> output[j] == RotationVector(rotations[j], arccos, sin)
      invariant forall j :: k <= j < |rotations| ==> output[j] == ZERO
    {
      var angle := arccos(TraceCosine(rotations[k]));
      if Abs(sin(angle)) > 0.00000001 {
        output[k] := Scale(angle / (2.0 * sin(angle)), Axial(rotations[k]));
      }
    }
  }

  // The rotation vector of a turn by a known angle about a known axis.

  /** The unit quaternion of a turn about n, by the cosine c and the sine s of half its angle. */
  function AxisTurn(n: Vec, c: real, s: real): Quaternion {
    Quaternion(c, s * n.x, s * n.y, s * n.z)
  }

  lemma TurnTrace(x: real, y: real, z: real, nx: real, ny: real, nz: real, s: real)
    requires x == s * nx && y == s * ny && z == s * nz && nx * nx + ny * ny + nz * nz == 1.0
    ensures x * x + y * y + z * z == s * s
  {
    assert x * x + y * y + z * z == s * s * (nx * nx + ny * ny + nz * nz);
  }

  /** The trace and the axis part of its matrix. */
  lemma TurnParts(n: Vec, c: real, s: real)
    requires NormSquared(n) == 1.0
    ensures var r := UnitMatrix(AxisTurn(n, c, s));
      (Trace(r) - 1.0) * 0.5 == 1.0 - 2.0 * (s * s) && Axial(r) == Scale(4.0 * (c * s), n)
  {
    var u := AxisTurn(n, c, s);
    TurnTrace(u.x, u.y, u.z, n.x, n.y, n.z, s);
    TurnAxial(u, n.x, c, s, u.x);
    TurnAxial(u, n.y, c, s, u.y);
    TurnAxial(u, n.z, c, s, u.z);
  }

  lemma TurnAxial(u: Quaternion, nx: real, c: real, s: real, x: real)
    requires u.w == c && x == s * nx
    ensures 4.0 * (x * u.w) == 4.0 * (c * s) * nx
  {
  }

  /** The laws of arccos and sin at twice the half angle h: the cosine is 1 - 2 s^2, the sine 2 s c. */
  predicate DoubleAngle(h: real, c: real, s: real, arccos: real -> real, sin: real -> real) {
    c * c + s * s == 1.0 && arccos(1.0 - 2.0 * (s * s)) == 2.0 * h && sin(2.0 * h) == 2.0 * (c * s)
  }

  lemma HalfOver(h: real, k: real, v: real)
    requires k != 0.0
    ensures 2.0 * h / (2.0 * (2.0 * k)) * (4.0 * k * v) == 2.0 * h * v
  {
    var q := 2.0 * h / (2.0 * (2.0 * k));
    assert q * (4.0 * k) == 2.0 * h by {
      Quotient(2.0 * h, 2.0 * (2.0 * k));
    }
    assert q * (4.0 * k * v) == q * (4.0 * k) * v;
  }

  lemma ScaleAxis(h: real, k: real, n: Vec)
    requires k != 0.0
    ensures Scale(2.0 * h / (2.0 * (2.0 * k)), Scale(4.0 * k, n)) == Scale(2.0 * h, n)
  {
    HalfOver(h, k, n.x);
    HalfOver(h, k, n.y);
    HalfOver(h, k, n.z);
  }

  lemma TurnCosine(n: Vec, c: real, s: real)
    requires NormSquared(n) == 1.0 && c * c + s * s == 1.0
    ensures TraceCosine(UnitMatrix(AxisTurn(n, c, s))) == 1.0 - 2.0 * (s * s)
  {
    TurnParts(n, c, s);
    assert 0.0 <= s * s <= 1.0;
  }

  /** Main fact, angle and axis: the matrix of a turn by 2h about the unit axis n, from a quaternion of any length m,
      has the rotation vector 2h n; it is zero where the sine is at most 1e-8. */
  lemma RotationVectorOfTurn(n: Vec, h: real, c: real, s: real, m: real, arccos: real -> real, sin: real -> real)
    requires NormSquared(n) == 1.0 && m != 0.0 && DoubleAngle(h, c, s, arccos, sin)
    ensures RotationVector(QuaternionMatrix(Scaled(AxisTurn(n, c, s), m), m), arccos, sin)
         == if -0.00000001 <= 2.0 * (c * s) <= 0.00000001 then ZERO else Scale(2.0 * h, n)
  {
    ScaledNormalised(AxisTurn(n, c, s), m);
    TurnParts(n, c, s);
    TurnCosine(n, c, s);
    if !(-0.00000001 <= 2.0 * (c * s) <= 0.00000001) {
      ScaleAxis(h, c * s, n);
    }
  }

  lemma ScaledNorm(k: real, v: Vec)
    ensures NormSquared(Scale(k, v)) == k * k * NormSquared(v)
  {
    var x, y, z := v.x, v.y, v.z;
    assert (k * x) * (k * x) == k * k * (x * x) && (k * y) * (k * y) == k * k * (y * y)
        && (k * z) * (k * z) == k * k * (z * z);
  }

  lemma SquareOfQuotient(angle: real, t: real, q: real, p: real)
    requires t != 0.0 && q == angle / (2.0 * t) && p == 4.0 * (t * t)
    ensures q * q * p == angle * angle
  {
    Quotient(angle, 2.0 * t);
    var a := q * (2.0 * t);
    assert a * a == q * q * p;
  }

  /** Main fact, length: the rotation vector of a rotation is as long as the angle, wherever it is not set to zero and
      the sine law holds at that angle. */
  lemma RotationVectorLength(r: Mat, arccos: real -> real, sin: real -> real)
    requires IsRotation(r)
    requires var angle := arccos(TraceCosine(r));
      sin(angle) * sin(angle) + TraceCosine(r) * TraceCosine(r) == 1.0 && Abs(sin(angle)) > 0.00000001
    ensures NormSquared(RotationVector(r, arccos, sin)) == arccos(TraceCosine(r)) * arccos(TraceCosine(r))
  {
    var angle := arccos(TraceCosine(r));
    SineAndCosine(r);
    ScaledLength(Axial(r), NormSquared(Axial(r)), angle, sin(angle), TraceCosine(r) * TraceCosine(r));
  }

  lemma ScaledLength(v: Vec, n: real, angle: real, t: real, cc: real)
    requires n == NormSquared(v) && n * 0.25 + cc == 1.0 && t * t + cc == 1.0 && t != 0.0
    ensures NormSquared(Scale(angle / (2.0 * t), v)) == angle * angle
  {
    ScaledNorm(angle / (2.0 * t), v);
    SquareOfQuotient(angle, t, angle / (2.0 * t), n);
  }

  lemma AxialLeft(p1: real, p2: real, p3: real, q1: real, q2: real, q3: real,
                  ux: real, uy: real, uz: real, vx: real, vy: real, vz: real,
                  a11: real, a12: real, a13: real, a21: real, a22: real, a23: real, a31: real, a32: real, a33: real)
    requires p1 == vx * a11 + vy * a21 + vz * a31 && p2 == vx * a12 + vy * a22 + vz * a32
        && p3 == vx * a13 + vy * a23 + vz * a33
    requires q1 == ux * a11 + uy * a21 + uz * a31 && q2 == ux * a12 + uy * a22 + uz * a32
        && q3 == ux * a13 + uy * a23 + uz * a33
    ensures (p1 * ux + p2 * uy + p3 * uz) - (q1 * vx + q2 * vy + q3 * vz)
         == (uy * vz - uz * vy) * (a32 - a23) + (uz * vx - ux * vz) * (a13 - a31) + (ux * vy - uy * vx) * (a21 - a12)
  {
  }

  lemma AxialRight(ux: real, uy: real, uz: real, vx: real, vy: real, vz: real,
                   a12: real, a13: real, a21: real, a23: real, a31: real, a32: real,
                   cx: real, cy: real, cz: real, xx: real, xy: real, xz: real)
    requires cx == uy * vz - uz * vy && cy == uz * vx - ux * vz && cz == ux * vy - uy * vx
    requires xx == a32 - a23 && xy == a13 - a31 && xz == a21 - a12
    ensures cx * xx + cy * xy + cz * xz
         == (uy * vz - uz * vy) * (a32 - a23) + (uz * vx - ux * vz) * (a13 - a31) + (ux * vy - uy * vx) * (a21 - a12)
  {
  }

  predicate RowProduct(p1: real, p2: real, p3: real, vx: real, vy: real, vz: real, a11: real, a12: real, a13: real,
                       a21: real, a22: real, a23: real, a31: real, a32: real, a33: real) {
    p1 == vx * a11 + vy * a21 + vz * a31 && p2 == vx * a12 + vy * a22 + vz * a32 && p3 == vx * a13 + vy * a23 + vz * a33
  }

  lemma RowTimesIsRowProduct(p: Vec, v: Vec, a: Mat)
    requires p == RowTimes(v, a)
    ensures RowProduct(p.x, p.y, p.z, v.x, v.y, v.z, a.x.x, a.x.y, a.x.z, a.y.x, a.y.y, a.y.z, a.z.x, a.z.y, a.z.z)
  {
  }

  lemma AxialScalars(p1: real, p2: real, p3: real, q1: real, q2: real, q3: real,
                     ux: real, uy: real, uz: real, vx: real, vy: real, vz: real,
                     a11: real, a12: real, a13: real, a21: real, a22: real, a23: real, a31: real, a32: real, a33: real,
                     cx: real, cy: real, cz: real, xx: real, xy: real, xz: real)
    requires RowProduct(p1, p2, p3, vx, vy, vz, a11, a12, a13, a21, a22, a23, a31, a32, a33)
    requires RowProduct(q1, q2, q3, ux, uy, uz, a11, a12, a13, a21, a22, a23, a31, a32, a33)
    requires CrossIs(cx, cy, cz, ux, uy, uz, vx, vy, vz)
    requires xx == a32 - a23 && xy == a13 - a31 && xz == a21 - a12
    ensures (p1 * ux + p2 * uy + p3 * uz) - (q1 * vx + q2 * vy + q3 * vz) == cx * xx + cy * xy + cz * xz
  {
    AxialLeft(p1, p2, p3, q1, q2, q3, ux, uy, uz, vx, vy, vz, a11, a12, a13, a21, a22, a23, a31, a32, a33);
    AxialRight(ux, uy, uz, vx, vy, vz, a12, a13, a21, a23, a31, a32, cx, cy, cz, xx, xy, xz);
  }

  /** v.(A u) - u.(A v) == (u x v).axial(A), with v.A and u.A given as row vectors. */
  lemma AxialEntry(va: Vec, ua: Vec, u: Vec, v: Vec, a: Mat)
    requires va == RowTimes(v, a) && ua == RowTimes(u, a)
    ensures Dot(va, u) - Dot(ua, v) == Dot(Cross(u, v), Axial(a))
  {
    RowTimesIsRowProduct(va, v, a);
    RowTimesIsRowProduct(ua, u, a);
    AxialOfRows(va, ua, u, v, a);
  }

  lemma AxialOfRows(va: Vec, ua: Vec, u: Vec, v: Vec, a: Mat)
    requires RowProduct(va.x, va.y, va.z, v.x, v.y, v.z, a.x.x, a.x.y, a.x.z, a.y.x, a.y.y, a.y.z, a.z.x, a.z.y, a.z.z)
    requires RowProduct(ua.x, ua.y, ua.z, u.x, u.y, u.z, a.x.x, a.x.y, a.x.z, a.y.x, a.y.y, a.y.z, a.z.x, a.z.y, a.z.z)
    ensures Dot(va, u) - Dot(ua, v) == Dot(Cross(u, v), Axial(a))
  {
    var c, x := Cross(u, v), Axial(a);
    CrossEntries(c, u, v);
    AxialEntries(x, a);
    DotEntries(Dot(va, u), va, u);
    DotEntries(Dot(ua, v), ua, v);
    DotEntries(Dot(c, x), c, x);
    AxialDots(va.x, va.y, va.z, ua.x, ua.y, ua.z, u.x, u.y, u.z, v.x, v.y, v.z,
              a.x.x, a.x.y, a.x.z, a.y.x, a.y.y, a.y.z, a.z.x, a.z.y, a.z.z, c.x, c.y, c.z, x.x, x.y, x.z,
              Dot(va, u), Dot(ua, v), Dot(c, x));
  }

  predicate AxialIs(xx: real, xy: real, xz: real, a12: real, a13: real, a21: real, a23: real, a31: real, a32: real) {
    xx == a32 - a23 && xy == a13 - a31 && xz == a21 - a12
  }

  lemma AxialEntries(x: Vec, a: Mat)
    requires x == Axial(a)
    ensures AxialIs(x.x, x.y, x.z, a.x.y, a.x.z, a.y.x, a.y.z, a.z.x, a.z.y)
  {
  }

  lemma DotEntries(d: real, u: Vec, v: Vec)
    requires d == Dot(u, v)
    ensures DotIs(d, u.x, u.y, u.z, v.x, v.y, v.z)
  {
  }

  lemma AxialDots(p1: real, p2: real, p3: real, q1: real, q2: real, q3: real,
                  ux: real, uy: real, uz: real, vx: real, vy: real, vz: real,
                  a11: real, a12: real, a13: real, a21: real, a22: real, a23: real, a31: real, a32: real, a33: real,
                  cx: real, cy: real, cz: real, xx: real, xy: real, xz: real, pu: real, qv: real, n: real)
    requires RowProduct(p1, p2, p3, vx, vy, vz, a11, a12, a13, a21, a22, a23, a31, a32, a33)
    requires RowProduct(q1, q2, q3, ux, uy, uz, a11, a12, a13, a21, a22, a23, a31, a32, a33)
    requires CrossIs(cx, cy, cz, ux, uy, uz, vx, vy, vz) && AxialIs(xx, xy, xz, a12, a13, a21, a23, a31, a32)
    requires DotIs(pu, p1, p2, p3, ux, uy, uz) && DotIs(qv, q1, q2, q3, vx, vy, vz) && DotIs(n, cx, cy, cz, xx, xy, xz)
    ensures pu - qv == n
  {
    AxialScalars(p1, p2, p3, q1, q2, q3, ux, uy, uz, vx, vy, vz, a11, a12, a13, a21, a22, a23, a31, a32, a33,
                 cx, cy, cz, xx, xy, xz);
  }

  /** axial(R^T A R) == cof(R)^T axial(A), for any matrices. */
  lemma AxialOfConjugate(r: Mat, a: Mat)
    ensures Axial(Mul(Mul(Transpose(r), a), r)) == Apply(Cofactors(Transpose(r)), Axial(a))
  {
    var t := Transpose(r);
    var m := Mul(t, a);
    AxialEntry(m.z, m.y, t.y, t.z, a);
    AxialEntry(m.x, m.z, t.z, t.x, a);
    AxialEntry(m.y, m.x, t.x, t.y, a);
  }

  lemma TraceOfConjugate(r: Mat, a: Mat)
    requires Mul(r, Transpose(r)) == IDENTITY
    ensures Trace(Mul(Mul(Transpose(r), a), r)) == Trace(a)
  {
    TraceCyclic(Mul(Transpose(r), a), r);
    MulAssociative(r, Transpose(r), a);
    MulIdentity(a);
  }

  lemma ApplyScale(a: Mat, k: real, v: Vec)
    ensures Apply(a, Scale(k, v)) == Scale(k, Apply(a, v))
  {
  }

  lemma ApplyZero(a: Mat)
    ensures Apply(a, ZERO) == ZERO
  {
  }

  /** Conjugating by a rotation turns the rotation vector with it. */
  lemma RotationVectorOfConjugate(r: Mat, a: Mat, arccos: real -> real, sin: real -> real)
    requires IsRotation(r)
    ensures RotationVector(Mul(Mul(Transpose(r), a), r), arccos, sin)
        == Apply(Transpose(r), RotationVector(a, arccos, sin))
  {
    RotationTranspose(r);
    RotationIsItsCofactors(Transpose(r));
    AxialOfConjugate(r, a);
    TraceOfConjugate(r, a);
    var angle := arccos(TraceCosine(a));
    if Abs(sin(angle)) > 0.00000001 {
      ApplyScale(Transpose(r), angle / (2.0 * sin(angle)), Axial(a));
    } else {
      ApplyZero(Transpose(r));
    }
  }

  lemma NormPolynomial(a1: real, a2: real, a3: real, b1: real, b2: real, b3: real, c1: real, c2: real, c3: real,
                       x: real, y: real, z: real, px: real, py: real, pz: real)
    requires px == a1 * x + a2 * y + a3 * z && py == b1 * x + b2 * y + b3 * z && pz == c1 * x + c2 * y + c3 * z
    ensures px * px + py * py + pz * pz
         == (a1 * a1 + b1 * b1 + c1 * c1) * (x * x) + (a2 * a2 + b2 * b2 + c2 * c2) * (y * y)
             + (a3 * a3 + b3 * b3 + c3 * c3) * (z * z)
          + 2.0 * ((a1 * a2 + b1 * b2 + c1 * c2) * (x * y) + (a1 * a3 + b1 * b3 + c1 * c3) * (x * z)
              + (a2 * a3 + b2 * b3 + c2 * c3) * (y * z))
  {
  }

  lemma NormPreserved(a1: real, a2: real, a3: real, b1: real, b2: real, b3: real, c1: real, c2: real, c3: real,
                      x: real, y: real, z: real, px: real, py: real, pz: real)
    requires px == a1 * x + a2 * y + a3 * z && py == b1 * x + b2 * y + b3 * z && pz == c1 * x + c2 * y + c3 * z
    requires a1 * a1 + b1 * b1 + c1 * c1 == 1.0 && a2 * a2 + b2 * b2 + c2 * c2 == 1.0
        && a3 * a3 + b3 * b3 + c3 * c3 == 1.0
    requires a1 * a2 + b1 * b2 + c1 * c2 == 0.0 && a1 * a3 + b1 * b3 + c1 * c3 == 0.0
        && a2 * a3 + b2 * b3 + c2 * c3 == 0.0
    ensures px * px + py * py + pz * pz == x * x + y * y + z * z
  {
    var s1, s2, s3 := a1 * a1 + b1 * b1 + c1 * c1, a2 * a2 + b2 * b2 + c2 * c2, a3 * a3 + b3 * b3 + c3 * c3;
    var d1, d2, d3 := a1 * a2 + b1 * b2 + c1 * c2, a1 * a3 + b1 * b3 + c1 * c3, a2 * a3 + b2 * b3 + c2 * c3;
    NormPolynomial(a1, a2, a3, b1, b2, b3, c1, c2, c3, x, y, z, px, py, pz);
    assert s1 * (x * x) == x * x && s2 * (y * y) == y * y && s3 * (z * z) == z * z;
    assert d1 * (x * y) == 0.0 && d2 * (x * z) == 0.0 && d3 * (y * z) == 0.0;
  }

  lemma RotationKeepsNorm(a: Mat, v: Vec)
    requires Mul(Transpose(a), a) == IDENTITY
    ensures NormSquared(Apply(a, v)) == NormSquared(v)
  {
    var p, i := Apply(a, v), Mul(Transpose(a), a);
    assert i.x == IDENTITY.x && i.y == IDENTITY.y && i.z == IDENTITY.z;
    NormPreserved(a.x.x, a.x.y, a.x.z, a.y.x, a.y.y, a.y.z, a.z.x, a.z.y, a.z.z, v.x, v.y, v.z, p.x, p.y, p.z);
  }

  // The finite differences of `_reference_audit`, before division by the time step.

  function WorldIncrement(r0: Mat, r1: Mat, arccos: real -> real, sin: real -> real): Vec {
    RotationVector(Mul(r1, Transpose(r0)), arccos, sin)
  }

  function LocalIncrement(r0: Mat, r1: Mat, arccos: real -> real, sin: real -> real): Vec {
    RotationVector(Mul(Transpose(r0), r1), arccos, sin)
  }

  /** Main fact: the local increment is the world increment seen from the earlier frame, so both finite
      differences have the same norm. Only the earlier matrix need be a rotation. */
  lemma {:induction false} IncrementsConjugate(r0: Mat, r1: Mat, arccos: real -> real, sin: real -> real)
    requires IsRotation(r0)
    ensures LocalIncrement(r0, r1, arccos, sin) == Apply(Transpose(r0), WorldIncrement(r0, r1, arccos, sin))
    ensures NormSquared(LocalIncrement(r0, r1, arccos, sin)) == NormSquared(WorldIncrement(r0, r1, arccos, sin))
  {
    var t := Transpose(r0);
    MulAssociative(t, Mul(r1, t), r0);
    MulAssociative(r1, t, r0);
    MulIdentity(r1);
    RotationVectorOfConjugate(r0, Mul(r1, t), arccos, sin);
    TransposeTwice(r0);
    RotationKeepsNorm(t, WorldIncrement(r0, r1, arccos, sin));
  }

  /** The same for the matrices the audit builds from neighbouring reference quaternions. */
  lemma {:induction false} ReferenceIncrementsConjugate(q0: Quaternion, n0: real, q1: Quaternion, n1: real,
      arccos: real -> real, sin: real -> real)
    requires IsNorm(n0, q0) && IsNorm(n1, q1)
    ensures var r0, r1 := QuaternionMatrix(q0, n0), QuaternionMatrix(q1, n1);
      && LocalIncrement(r0, r1, arccos, sin) == Apply(Transpose(r0), WorldIncrement(r0, r1, arccos, sin))
      && NormSquared(LocalIncrement(r0, r1, arccos, sin)) == NormSquared(WorldIncrement(r0, r1, arccos, sin))
  {
    MatrixIsRotation(q0, n0);
    IncrementsConjugate(QuaternionMatrix(q0, n0), QuaternionMatrix(q1, n1), arccos, sin);
  }

  /** Main fact, increments: a frame turned by m in the world has m's rotation vector as world increment, and one turned
      by m in its own axes has it as local increment. */
  lemma IncrementOfTurn(r0: Mat, m: Mat, arccos: real -> real, sin: real -> real)
    requires IsRotation(r0)
    ensures WorldIncrement(r0, Mul(m, r0), arccos, sin) == RotationVector(m, arccos, sin)
    ensures LocalIncrement(r0, Mul(r0, m), arccos, sin) == RotationVector(m, arccos, sin)
  {
    MulAssociative(m, r0, Transpose(r0));
    MulAssociative(Transpose(r0), r0, m);
    MulIdentity(m);
  }

  // The two rotation-error metrics.

  /** `_rotation_error`: the angle of L^T R from half the norm of its axial vector and from its trace. */
  function RotationError(left: Mat, right: Mat, sqrt: real -> real, arctan2: (real, real) -> real): real {
    var relative := Mul(Transpose(left), right);
    arctan2(0.5 * sqrt(NormSquared(Axial(relative))), TraceCosine(relative))
  }

  /** `rotation_deg`: the angle of L R^T from its trace alone, in degrees. */
  function RotationDegrees(left: Mat, right: Mat, arccos: real -> real, pi: real): real
    requires pi != 0.0
  {
    arccos(TraceCosine(Mul(left, Transpose(right)))) * 180.0 / pi
  }

  predicate UnitRows(xx: real, xy: real, xz: real, yx: real, yy: real, yz: real, zx: real, zy: real, zz: real) {
    xx * xx + xy * xy + xz * xz == 1.0 && yx * yx + yy * yy + yz * yz == 1.0 && zx * zx + zy * zy + zz * zz == 1.0
  }

  predicate OwnDiagonalCofactors(xx: real, xy: real, xz: real, yx: real, yy: real, yz: real, zx: real, zy: real,
      zz: real) {
    xx == yy * zz - yz * zy && yy == zz * xx - zx * xz && zz == xx * yy - xy * yx
  }

  lemma SineCosinePolynomial(xx: real, xy: real, xz: real, yx: real, yy: real, yz: real, zx: real, zy: real, zz: real,
                             vx: real, vy: real, vz: real, c: real)
    requires UnitRows(xx, xy, xz, yx, yy, yz, zx, zy, zz) && OwnDiagonalCofactors(xx, xy, xz, yx, yy, yz, zx, zy, zz)
    requires vx == zy - yz && vy == xz - zx && vz == yx - xy && c == (xx + yy + zz - 1.0) * 0.5
    ensures (vx * vx + vy * vy + vz * vz) * 0.25 + c * c == 1.0
  {
  }

  lemma RotationEntries(r: Mat)
    requires IsRotation(r)
    ensures UnitRows(r.x.x, r.x.y, r.x.z, r.y.x, r.y.y, r.y.z, r.z.x, r.z.y, r.z.z)
    ensures OwnDiagonalCofactors(r.x.x, r.x.y, r.x.z, r.y.x, r.y.y, r.y.z, r.z.x, r.z.y, r.z.z)
  {
    RotationIsItsCofactors(r);
    var i := Mul(r, Transpose(r));
    assert i.x.x == 1.0 && i.y.y == 1.0 && i.z.z == 1.0;
  }

  /** Main fact: half the axial norm and the trace cosine of a rotation are the sine and cosine of one angle,
      and the clip does nothing. */
  lemma SineAndCosine(r: Mat)
    requires IsRotation(r)
    ensures NormSquared(Axial(r)) * 0.25 + TraceCosine(r) * TraceCosine(r) == 1.0
    ensures TraceCosine(r) == (Trace(r) - 1.0) * 0.5
  {
    var v, c := Axial(r), (Trace(r) - 1.0) * 0.5;
    RotationEntries(r);
    SineCosinePolynomial(r.x.x, r.x.y, r.x.z, r.y.x, r.y.y, r.y.z, r.z.x, r.z.y, r.z.z, v.x, v.y, v.z, c);
    SineCosineClip(v, c);
  }

  lemma SineCosineClip(v: Vec, c: real)
    requires (v.x * v.x + v.y * v.y + v.z * v.z) * 0.25 + c * c == 1.0
    ensures NormSquared(v) * 0.25 + c * c == 1.0 && Clip(c, -1.0, 1.0) == c
  {
    NormNonNegative(v);
    UnitSquares(NormSquared(v) * 0.25, c);
  }

  lemma NormNonNegative(v: Vec)
    ensures 0.0 <= NormSquared(v)
  {
  }

  lemma UnitSquares(s: real, c: real)
    requires 0.0 <= s && s + c * c == 1.0
    ensures -1.0 <= c <= 1.0
  {
  }

  /** The laws of the square root and the inverse trigonometric functions that the metrics rely on. */
  ghost predicate AngleLaws(sqrt: real -> real, cos: real -> real, arccos: real -> real,
      arctan2: (real, real) -> real, pi: real) {
    && pi > 0.0
    && (forall v :: 0.0 <= v ==> 0.0 <= sqrt(v) && sqrt(v) * sqrt(v) == v)
    && (forall a, b :: 0.0 <= a <= pi && 0.0 <= b <= pi && cos(a) == cos(b) ==> a == b)
    && (forall c :: -1.0 <= c <= 1.0 ==> 0.0 <= arccos(c) <= pi && cos(arccos(c)) == c)
    && (forall s, c :: 0.0 <= s && s * s + c * c == 1.0 ==> 0.0 <= arctan2(s, c) <= pi && cos(arctan2(s, c)) == c)
  }

  /** arctan2 of half the root of n and c is the arccos of c when they are a sine and a cosine. */
  lemma SameAngle(n: real, c: real, sqrt: real -> real, cos: real -> real, arccos: real -> real,
                  arctan2: (real, real) -> real, pi: real)
    requires AngleLaws(sqrt, cos, arccos, arctan2, pi)
    requires 0.0 <= n && n * 0.25 + c * c == 1.0
    ensures arctan2(0.5 * sqrt(n), c) == arccos(c)
  {
    var root := sqrt(n);
    var s := 0.5 * root;
    assert s * s == 0.25 * (root * root);
    UnitSquares(s * s, c);
    assert cos(arctan2(s, c)) == c == cos(arccos(c));
  }

  lemma RelativeIsRotation(left: Mat, right: Mat)
    requires IsRotation(left) && IsRotation(right)
    ensures IsRotation(Mul(Transpose(left), right))
  {
    RotationTranspose(left);
    RotationMul(Transpose(left), right);
  }

  /** Main fact: on rotations the two metrics are one angle, in radians and in degrees. */
  lemma MetricsAgree(left: Mat, right: Mat, sqrt: real -> real, cos: real -> real, arccos: real -> real,
                     arctan2: (real, real) -> real, pi: real)
    requires IsRotation(left) && IsRotation(right) && AngleLaws(sqrt, cos, arccos, arctan2, pi)
    ensures RotationDegrees(left, right, arccos, pi) == RotationError(left, right, sqrt, arctan2) * 180.0 / pi
  {
    var relative := Mul(Transpose(left), right);
    RelativeIsRotation(left, right);
    SineAndCosine(relative);
    TraceOfRelative(left, right);
    NormNonNegative(Axial(relative));
    SameAngle(NormSquared(Axial(relative)), TraceCosine(relative), sqrt, cos, arccos, arctan2, pi);
  }

  lemma TurnNorm(n: Vec, c: real, s: real)
    requires NormSquared(n) == 1.0 && c * c + s * s == 1.0
    ensures IsNorm(1.0, AxisTurn(n, c, s))
  {
    var q := AxisTurn(n, c, s);
    TurnTrace(q.x, q.y, q.z, n.x, n.y, n.z, s);
  }

  lemma TurnIsRotation(n: Vec, c: real, s: real)
    requires NormSquared(n) == 1.0 && c * c + s * s == 1.0
    ensures var m := QuaternionMatrix(AxisTurn(n, c, s), 1.0); IsRotation(m) && TraceCosine(m) == 1.0 - 2.0 * (s * s)
  {
    TurnNorm(n, c, s);
    MatrixIsRotation(AxisTurn(n, c, s), 1.0);
    TurnCosine(n, c, s);
  }

  /** Turning a rotation further by m, in its own axes, is an error of m's angle by the one metric and the other. */
  lemma ErrorOfMatrix(left: Mat, m: Mat, angle: real, sqrt: real -> real, cos: real -> real, arccos: real -> real,
                      arctan2: (real, real) -> real, pi: real)
    requires IsRotation(left) && IsRotation(m) && AngleLaws(sqrt, cos, arccos, arctan2, pi)
    requires arccos(TraceCosine(m)) == angle
    ensures RotationError(left, Mul(left, m), sqrt, arctan2) == angle
    ensures RotationDegrees(left, Mul(left, m), arccos, pi) == angle * 180.0 / pi
  {
    MulAssociative(Transpose(left), left, m);
    MulIdentity(m);
    SineAndCosine(m);
    NormNonNegative(Axial(m));
    SameAngle(NormSquared(Axial(m)), TraceCosine(m), sqrt, cos, arccos, arctan2, pi);
    RotationMul(left, m);
    MetricsAgree(left, Mul(left, m), sqrt, cos, arccos, arctan2, pi);
  }

  /** Main fact, the metrics themselves: between a rotation and the same one turned further by 2h about any axis, the
      error is 2h, in radians and in degrees. */
  lemma ErrorOfTurn(left: Mat, n: Vec, h: real, c: real, s: real, sqrt: real -> real, cos: real -> real,
                    arccos: real -> real, sin: real -> real, arctan2: (real, real) -> real, pi: real)
    requires IsRotation(left) && NormSquared(n) == 1.0
    requires AngleLaws(sqrt, cos, arccos, arctan2, pi) && DoubleAngle(h, c, s, arccos, sin)
    ensures var right := Mul(left, QuaternionMatrix(AxisTurn(n, c, s), 1.0));
      && RotationError(left, right, sqrt, arctan2) == 2.0 * h
      && RotationDegrees(left, right, arccos, pi) == 2.0 * h * 180.0 / pi
  {
    TurnIsRotation(n, c, s);
    ErrorOfMatrix(left, QuaternionMatrix(AxisTurn(n, c, s), 1.0), 2.0 * h, sqrt, cos, arccos, arctan2, pi);
  }
}

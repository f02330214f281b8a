/** Three-by-three matrices over the reals, and the matrix of a quaternion. */
module Matrices {

  datatype Vec = Vec(x: real, y: real, z: real)

  const ZERO := Vec(0.0, 0.0, 0.0)

  /** A matrix by its rows. */
  datatype Mat = Mat(x: Vec, y: Vec, z: Vec)

  const IDENTITY := Mat(Vec(1.0, 0.0, 0.0), Vec(0.0, 1.0, 0.0), Vec(0.0, 0.0, 1.0))

  function Dot(u: Vec, v: Vec): real {
    u.x * v.x + u.y * v.y + u.z * v.z
  }

  function Cross(u: Vec, v: Vec): Vec {
    Vec(u.y * v.z - u.z * v.y, u.z * v.x - u.x * v.z, u.x * v.y - u.y * v.x)
  }

  function Scale(k: real, v: Vec): Vec {
    Vec(k * v.x, k * v.y, k * v.z)
  }

  function NormSquared(v: Vec): real {
    v.x * v.x + v.y * v.y + v.z * v.z
  }

  /** The row vector v times b. */
  function RowTimes(v: Vec, b: Mat): Vec {
    Vec(v.x * b.x.x + v.y * b.y.x + v.z * b.z.x, v.x * b.x.y + v.y * b.y.y + v.z * b.z.y,
        v.x * b.x.z + v.y * b.y.z + v.z * b.z.z)
  }

  function Mul(a: Mat, b: Mat): Mat {
    Mat(RowTimes(a.x, b), RowTimes(a.y, b), RowTimes(a.z, b))
  }

  function Transpose(a: Mat): Mat {
    Mat(Vec(a.x.x, a.y.x, a.z.x), Vec(a.x.y, a.y.y, a.z.y), Vec(a.x.z, a.y.z, a.z.z))
  }

  function Trace(a: Mat): real {
    a.x.x + a.y.y + a.z.z
  }

  function Apply(a: Mat, v: Vec): Vec {
    Vec(Dot(a.x, v), Dot(a.y, v), Dot(a.z, v))
  }

  function Cofactors(a: Mat): Mat {
    Mat(Cross(a.y, a.z), Cross(a.z, a.x), Cross(a.x, a.y))
  }

  function Det(a: Mat): real {
    Dot(Cross(a.y, a.z), a.x)
  }

  /** Orthogonal with determinant one. */
  predicate IsRotation(a: Mat) {
    Mul(a, Transpose(a)) == IDENTITY && Mul(Transpose(a), a) == IDENTITY && Det(a) == 1.0
  }

  // Products.

  lemma TripleProduct(w1: real, w2: real, w3: real, c1: real, c2: real, c3: real, v1: real, v2: real, v3: real,
                      d1: real, d2: real, d3: real, b11: real, b12: real, b13: real, b21: real, b22: real, b23: real,
                      b31: real, b32: real, b33: real)
    requires w1 == v1 * b11 + v2 * b21 + v3 * b31 && w2 == v1 * b12 + v2 * b22 + v3 * b32
        && w3 == v1 * b13 + v2 * b23 + v3 * b33
    requires d1 == b11 * c1 + b12 * c2 + b13 * c3 && d2 == b21 * c1 + b22 * c2 + b23 * c3
        && d3 == b31 * c1 + b32 * c2 + b33 * c3
    ensures w1 * c1 + w2 * c2 + w3 * c3 == v1 * d1 + v2 * d2 + v3 * d3
  {
  }

  lemma RowAssociativeX(v: Vec, b: Mat, c: Mat)
    ensures RowTimes(RowTimes(v, b), c).x == RowTimes(v, Mul(b, c)).x
  {
    var w, d := RowTimes(v, b), Mul(b, c);
    TripleProduct(w.x, w.y, w.z, c.x.x, c.y.x, c.z.x, v.x, v.y, v.z, d.x.x, d.y.x, d.z.x,
                  b.x.x, b.x.y, b.x.z, b.y.x, b.y.y, b.y.z, b.z.x, b.z.y, b.z.z);
  }

  lemma RowAssociativeY(v: Vec, b: Mat, c: Mat)
    ensures RowTimes(RowTimes(v, b), c).y == RowTimes(v, Mul(b, c)).y
  {
    var w, d := RowTimes(v, b), Mul(b, c);
    TripleProduct(w.x, w.y, w.z, c.x.y, c.y.y, c.z.y, v.x, v.y, v.z, d.x.y, d.y.y, d.z.y,
                  b.x.x, b.x.y, b.x.z, b.y.x, b.y.y, b.y.z, b.z.x, b.z.y, b.z.z);
  }

  lemma RowAssociativeZ(v: Vec, b: Mat, c: Mat)
    ensures RowTimes(RowTimes(v, b), c).z == RowTimes(v, Mul(b, c)).z
  {
    var w, d := RowTimes(v, b), Mul(b, c);
    TripleProduct(w.x, w.y, w.z, c.x.z, c.y.z, c.z.z, v.x, v.y, v.z, d.x.z, d.y.z, d.z.z,
                  b.x.x, b.x.y, b.x.z, b.y.x, b.y.y, b.y.z, b.z.x, b.z.y, b.z.z);
  }

  lemma DotOfRow(u: Vec, b: Mat, v: Vec)
    ensures Dot(RowTimes(u, b), v) == Dot(u, Apply(b, v))
  {
    var w, d := RowTimes(u, b), Apply(b, v);
    TripleProduct(w.x, w.y, w.z, v.x, v.y, v.z, u.x, u.y, u.z, d.x, d.y, d.z,
                  b.x.x, b.x.y, b.x.z, b.y.x, b.y.y, b.y.z, b.z.x, b.z.y, b.z.z);
  }

  /** The product of two matrices does what the second and then the first one does. */
  lemma ApplyMul(a: Mat, b: Mat, v: Vec)
    ensures Apply(Mul(a, b), v) == Apply(a, Apply(b, v))
  {
    DotOfRow(a.x, b, v);
    DotOfRow(a.y, b, v);
    DotOfRow(a.z, b, v);
  }

  lemma MulAssociative(a: Mat, b: Mat, c: Mat)
    ensures Mul(Mul(a, b), c) == Mul(a, Mul(b, c))
  {
    RowAssociative(a.x, b, c);
    RowAssociative(a.y, b, c);
    RowAssociative(a.z, b, c);
  }

  lemma RowAssociative(v: Vec, b: Mat, c: Mat)
    ensures RowTimes(RowTimes(v, b), c) == RowTimes(v, Mul(b, c))
  {
    RowAssociativeX(v, b, c);
    RowAssociativeY(v, b, c);
    RowAssociativeZ(v, b, c);
  }

  lemma TransposeMul(a: Mat, b: Mat)
    ensures Transpose(Mul(a, b)) == Mul(Transpose(b), Transpose(a))
  {
  }

  lemma TransposeTwice(a: Mat)
    ensures Transpose(Transpose(a)) == a
  {
  }

  lemma MulIdentity(a: Mat)
    ensures Mul(a, IDENTITY) == a && Mul(IDENTITY, a) == a
  {
  }

  /** (p.u)(q.v) - (p.v)(q.u) == (p x q).(u x v). */
  lemma BinetCauchy(pu: real, qv: real, pv: real, qu: real, px: real, py: real, pz: real, qx: real, qy: real, qz: real,
                    ux: real, uy: real, uz: real, vx: real, vy: real, vz: real,
                    nx: real, ny: real, nz: real, mx: real, my: real, mz: real)
    requires pu == px * ux + py * uy + pz * uz && qv == qx * vx + qy * vy + qz * vz
    requires pv == px * vx + py * vy + pz * vz && qu == qx * ux + qy * uy + qz * uz
    requires nx == py * qz - pz * qy && ny == pz * qx - px * qz && nz == px * qy - py * qx
    requires mx == uy * vz - uz * vy && my == uz * vx - ux * vz && mz == ux * vy - uy * vx
    ensures pu * qv - pv * qu == nx * mx + ny * my + nz * mz
  {
  }

  predicate DotIs(d: real, ux: real, uy: real, uz: real, vx: real, vy: real, vz: real) {
    d == ux * vx + uy * vy + uz * vz
  }

  predicate CrossIs(nx: real, ny: real, nz: real, ux: real, uy: real, uz: real, vx: real, vy: real, vz: real) {
    nx == uy * vz - uz * vy && ny == uz * vx - ux * vz && nz == ux * vy - uy * vx
  }

  lemma CrossOfDots(pu: real, qv: real, pv: real, qu: real, px: real, py: real, pz: real, qx: real, qy: real, qz: real,
                    ux: real, uy: real, uz: real, vx: real, vy: real, vz: real,
                    nx: real, ny: real, nz: real, mx: real, my: real, mz: real)
    requires DotIs(pu, px, py, pz, ux, uy, uz) && DotIs(qv, qx, qy, qz, vx, vy, vz)
    requires DotIs(pv, px, py, pz, vx, vy, vz) && DotIs(qu, qx, qy, qz, ux, uy, uz)
    requires CrossIs(nx, ny, nz, px, py, pz, qx, qy, qz) && CrossIs(mx, my, mz, ux, uy, uz, vx, vy, vz)
    ensures pu * qv - pv * qu == nx * mx + ny * my + nz * mz
  {
    BinetCauchy(pu, qv, pv, qu, px, py, pz, qx, qy, qz, ux, uy, uz, vx, vy, vz, nx, ny, nz, mx, my, mz);
  }

  lemma RowEntries(p: Vec, b: Mat)
    ensures DotIs(RowTimes(p, b).x, p.x, p.y, p.z, b.x.x, b.y.x, b.z.x)
    ensures DotIs(RowTimes(p, b).y, p.x, p.y, p.z, b.x.y, b.y.y, b.z.y)
    ensures DotIs(RowTimes(p, b).z, p.x, p.y, p.z, b.x.z, b.y.z, b.z.z)
  {
  }

  lemma CrossEntries(n: Vec, p: Vec, q: Vec)
    requires n == Cross(p, q)
    ensures CrossIs(n.x, n.y, n.z, p.x, p.y, p.z, q.x, q.y, q.z)
  {
  }

  // The columns of the cofactor matrix are cross products of columns.

  lemma CofactorRows(b: Mat, c: Mat)
    requires c == Cofactors(b)
    ensures CrossIs(c.x.x, c.x.y, c.x.z, b.y.x, b.y.y, b.y.z, b.z.x, b.z.y, b.z.z)
    ensures CrossIs(c.y.x, c.y.y, c.y.z, b.z.x, b.z.y, b.z.z, b.x.x, b.x.y, b.x.z)
    ensures CrossIs(c.z.x, c.z.y, c.z.z, b.x.x, b.x.y, b.x.z, b.y.x, b.y.y, b.y.z)
  {
    CrossEntries(c.x, b.y, b.z);
    CrossEntries(c.y, b.z, b.x);
    CrossEntries(c.z, b.x, b.y);
  }

  lemma ColumnsOfRows(c11: real, c12: real, c13: real, c21: real, c22: real, c23: real, c31: real, c32: real, c33: real,
                      b11: real, b12: real, b13: real, b21: real, b22: real, b23: real, b31: real, b32: real, b33: real)
    requires CrossIs(c11, c12, c13, b21, b22, b23, b31, b32, b33)
    requires CrossIs(c21, c22, c23, b31, b32, b33, b11, b12, b13)
    requires CrossIs(c31, c32, c33, b11, b12, b13, b21, b22, b23)
    ensures CrossIs(c11, c21, c31, b12, b22, b32, b13, b23, b33)
    ensures CrossIs(c12, c22, c32, b13, b23, b33, b11, b21, b31)
    ensures CrossIs(c13, c23, c33, b11, b21, b31, b12, b22, b32)
  {
  }

  lemma CofactorColumns(b: Mat, c: Mat)
    requires c == Cofactors(b)
    ensures CrossIs(c.x.x, c.y.x, c.z.x, b.x.y, b.y.y, b.z.y, b.x.z, b.y.z, b.z.z)
    ensures CrossIs(c.x.y, c.y.y, c.z.y, b.x.z, b.y.z, b.z.z, b.x.x, b.y.x, b.z.x)
    ensures CrossIs(c.x.z, c.y.z, c.z.z, b.x.x, b.y.x, b.z.x, b.x.y, b.y.y, b.z.y)
  {
    CofactorRows(b, c);
    ColumnsOfRows(c.x.x, c.x.y, c.x.z, c.y.x, c.y.y, c.y.z, c.z.x, c.z.y, c.z.z,
                  b.x.x, b.x.y, b.x.z, b.y.x, b.y.y, b.y.z, b.z.x, b.z.y, b.z.z);
  }

  lemma CrossOfProductsX(p: Vec, q: Vec, s: Vec, t: Vec, n: Vec, b: Mat, c: Mat)
    requires s == RowTimes(p, b) && t == RowTimes(q, b) && n == Cross(p, q) && c == Cofactors(b)
    ensures s.y * t.z - s.z * t.y == n.x * c.x.x + n.y * c.y.x + n.z * c.z.x
  {
    RowEntries(p, b);
    RowEntries(q, b);
    CrossEntries(n, p, q);
    CofactorColumns(b, c);
    CrossOfDots(s.y, t.z, s.z, t.y, p.x, p.y, p.z, q.x, q.y, q.z, b.x.y, b.y.y, b.z.y, b.x.z, b.y.z, b.z.z,
                n.x, n.y, n.z, c.x.x, c.y.x, c.z.x);
  }

  lemma CrossOfProductsY(p: Vec, q: Vec, s: Vec, t: Vec, n: Vec, b: Mat, c: Mat)
    requires s == RowTimes(p, b) && t == RowTimes(q, b) && n == Cross(p, q) && c == Cofactors(b)
    ensures s.z * t.x - s.x * t.z == n.x * c.x.y + n.y * c.y.y + n.z * c.z.y
  {
    RowEntries(p, b);
    RowEntries(q, b);
    CrossEntries(n, p, q);
    CofactorColumns(b, c);
    CrossOfDots(s.z, t.x, s.x, t.z, p.x, p.y, p.z, q.x, q.y, q.z, b.x.z, b.y.z, b.z.z, b.x.x, b.y.x, b.z.x,
                n.x, n.y, n.z, c.x.y, c.y.y, c.z.y);
  }

  lemma CrossOfProductsZ(p: Vec, q: Vec, s: Vec, t: Vec, n: Vec, b: Mat, c: Mat)
    requires s == RowTimes(p, b) && t == RowTimes(q, b) && n == Cross(p, q) && c == Cofactors(b)
    ensures s.x * t.y - s.y * t.x == n.x * c.x.z + n.y * c.y.z + n.z * c.z.z
  {
    RowEntries(p, b);
    RowEntries(q, b);
    CrossEntries(n, p, q);
    CofactorColumns(b, c);
    CrossOfDots(s.x, t.y, s.y, t.x, p.x, p.y, p.z, q.x, q.y, q.z, b.x.x, b.y.x, b.z.x, b.x.y, b.y.y, b.z.y,
                n.x, n.y, n.z, c.x.z, c.y.z, c.z.z);
  }

  lemma CrossOfProducts(p: Vec, q: Vec, b: Mat)
    ensures Cross(RowTimes(p, b), RowTimes(q, b)) == RowTimes(Cross(p, q), Cofactors(b))
  {
    var s, t, n, c := RowTimes(p, b), RowTimes(q, b), Cross(p, q), Cofactors(b);
    CrossOfProductsX(p, q, s, t, n, b, c);
    CrossOfProductsY(p, q, s, t, n, b, c);
    CrossOfProductsZ(p, q, s, t, n, b, c);
  }

  lemma CofactorsMul(a: Mat, b: Mat)
    ensures Cofactors(Mul(a, b)) == Mul(Cofactors(a), Cofactors(b))
  {
    CrossOfProducts(a.y, a.z, b);
    CrossOfProducts(a.z, a.x, b);
    CrossOfProducts(a.x, a.y, b);
  }

  lemma CrossFacts(nx: real, ny: real, nz: real, ux: real, uy: real, uz: real, vx: real, vy: real, vz: real)
    requires nx == uy * vz - uz * vy && ny == uz * vx - ux * vz && nz == ux * vy - uy * vx
    ensures nx * ux + ny * uy + nz * uz == 0.0 && nx * vx + ny * vy + nz * vz == 0.0
  {
  }

  lemma CrossOrthogonal(u: Vec, v: Vec)
    ensures Dot(Cross(u, v), u) == 0.0 && Dot(Cross(u, v), v) == 0.0
  {
    var n := Cross(u, v);
    CrossFacts(n.x, n.y, n.z, u.x, u.y, u.z, v.x, v.y, v.z);
  }

  lemma BoxFacts(nx: real, ny: real, nz: real, mx: real, my: real, mz: real,
                 ux: real, uy: real, uz: real, vx: real, vy: real, vz: real, wx: real, wy: real, wz: real)
    requires nx == uy * vz - uz * vy && ny == uz * vx - ux * vz && nz == ux * vy - uy * vx
    requires mx == vy * wz - vz * wy && my == vz * wx - vx * wz && mz == vx * wy - vy * wx
    ensures nx * wx + ny * wy + nz * wz == mx * ux + my * uy + mz * uz
  {
  }

  lemma BoxCyclic(u: Vec, v: Vec, w: Vec)
    ensures Dot(Cross(u, v), w) == Dot(Cross(v, w), u)
  {
    var n, m := Cross(u, v), Cross(v, w);
    BoxFacts(n.x, n.y, n.z, m.x, m.y, m.z, u.x, u.y, u.z, v.x, v.y, v.z, w.x, w.y, w.z);
  }

  lemma CofactorExpansion(a: Mat)
    ensures Mul(Cofactors(a), Transpose(a)) == Mat(Vec(Det(a), 0.0, 0.0), Vec(0.0, Det(a), 0.0), Vec(0.0, 0.0, Det(a)))
  {
    CrossOrthogonal(a.y, a.z);
    CrossOrthogonal(a.z, a.x);
    CrossOrthogonal(a.x, a.y);
    BoxCyclic(a.y, a.z, a.x);
    BoxCyclic(a.z, a.x, a.y);
    RowTimesTranspose(Cross(a.y, a.z), a);
    RowTimesTranspose(Cross(a.z, a.x), a);
    RowTimesTranspose(Cross(a.x, a.y), a);
  }

  lemma RowTimesTranspose(v: Vec, a: Mat)
    ensures RowTimes(v, Transpose(a)) == Vec(Dot(v, a.x), Dot(v, a.y), Dot(v, a.z))
  {
  }

  // Rotations.

  /** A rotation is its own cofactor matrix. */
  lemma RotationIsItsCofactors(a: Mat)
    requires IsRotation(a)
    ensures Cofactors(a) == a
  {
    var c := Cofactors(a);
    CofactorExpansion(a);
    assert Mul(c, Transpose(a)) == IDENTITY;
    MulAssociative(c, Transpose(a), a);
    MulIdentity(c);
    MulIdentity(a);
  }

  lemma OrthogonalWithOwnCofactors(a: Mat)
    requires Mul(a, Transpose(a)) == IDENTITY && Mul(Transpose(a), a) == IDENTITY && Cofactors(a) == a
    ensures IsRotation(a)
  {
    RowTimesTranspose(a.x, a);
    assert Mul(a, Transpose(a)).x.x == 1.0;
  }

  lemma SameCross(nx: real, ny: real, nz: real, mx: real, my: real, mz: real,
                  ux: real, uy: real, uz: real, vx: real, vy: real, vz: real)
    requires CrossIs(nx, ny, nz, ux, uy, uz, vx, vy, vz) && CrossIs(mx, my, mz, ux, uy, uz, vx, vy, vz)
    ensures nx == mx && ny == my && nz == mz
  {
  }

  lemma CofactorsTranspose(a: Mat)
    ensures Cofactors(Transpose(a)) == Transpose(Cofactors(a))
  {
    var c, t := Cofactors(a), Cofactors(Transpose(a));
    CofactorColumns(a, c);
    CofactorRows(Transpose(a), t);
    SameCross(t.x.x, t.x.y, t.x.z, c.x.x, c.y.x, c.z.x, a.x.y, a.y.y, a.z.y, a.x.z, a.y.z, a.z.z);
    SameCross(t.y.x, t.y.y, t.y.z, c.x.y, c.y.y, c.z.y, a.x.z, a.y.z, a.z.z, a.x.x, a.y.x, a.z.x);
    SameCross(t.z.x, t.z.y, t.z.z, c.x.z, c.y.z, c.z.z, a.x.x, a.y.x, a.z.x, a.x.y, a.y.y, a.z.y);
  }

  lemma RotationTranspose(a: Mat)
    requires IsRotation(a)
    ensures IsRotation(Transpose(a))
  {
    RotationIsItsCofactors(a);
    CofactorsTranspose(a);
    TransposeTwice(a);
    OrthogonalWithOwnCofactors(Transpose(a));
  }

  lemma OrthogonalProduct(a: Mat, b: Mat)
    requires Mul(a, Transpose(a)) == IDENTITY && Mul(b, Transpose(b)) == IDENTITY
    ensures Mul(Mul(a, b), Transpose(Mul(a, b))) == IDENTITY
  {
    TransposeMul(a, b);
    MulAssociative(Mul(a, b), Transpose(b), Transpose(a));
    MulAssociative(a, b, Transpose(b));
    MulIdentity(a);
  }

  lemma RotationMul(a: Mat, b: Mat)
    requires IsRotation(a) && IsRotation(b)
    ensures IsRotation(Mul(a, b))
  {
    OrthogonalProduct(a, b);
    TransposeTwice(a);
    TransposeTwice(b);
    OrthogonalProduct(Transpose(b), Transpose(a));
    TransposeMul(a, b);
    TransposeTwice(Mul(a, b));
    RotationIsItsCofactors(a);
    RotationIsItsCofactors(b);
    CofactorsMul(a, b);
    OrthogonalWithOwnCofactors(Mul(a, b));
  }

  lemma TraceCyclic(a: Mat, b: Mat)
    ensures Trace(Mul(a, b)) == Trace(Mul(b, a))
  {
  }

  /** trace(L R^T) == trace(L^T R), for any matrices. */
  lemma TraceOfRelative(l: Mat, r: Mat)
    ensures Trace(Mul(l, Transpose(r))) == Trace(Mul(Transpose(l), r))
  {
  }

  // Quaternions, in wxyz order.

  datatype Quaternion = Quaternion(w: real, x: real, y: real, z: real)

  function QuaternionNormSquared(q: Quaternion): real {
    q.w * q.w + q.x * q.x + q.y * q.y + q.z * q.z
  }

  function Product(p: Quaternion, q: Quaternion): Quaternion {
    Quaternion(p.w * q.w - p.x * q.x - p.y * q.y - p.z * q.z,
               p.w * q.x + p.x * q.w + p.y * q.z - p.z * q.y,
               p.w * q.y - p.x * q.z + p.y * q.w + p.z * q.x,
               p.w * q.z + p.x * q.y - p.y * q.x + p.z * q.w)
  }

  function Conjugate(q: Quaternion): Quaternion {
    Quaternion(q.w, -q.x, -q.y, -q.z)
  }

  // The diagonal, upper and lower entry of the first row of a quaternion's matrix before normalisation.

  function Diagonal(q: Quaternion): real {
    q.w * q.w + q.x * q.x - q.y * q.y - q.z * q.z
  }

  function Upper(q: Quaternion): real {
    2.0 * (q.x * q.y - q.z * q.w)
  }

  function Lower(q: Quaternion): real {
    2.0 * (q.x * q.z + q.y * q.w)
  }

  /** The axes x, y, z renamed to y, z, x. */
  function Turn(q: Quaternion): Quaternion {
    Quaternion(q.w, q.y, q.z, q.x)
  }

  function TurnVec(v: Vec): Vec {
    Vec(v.y, v.z, v.x)
  }

  function TurnMat(m: Mat): Mat {
    Mat(TurnVec(m.y), TurnVec(m.z), TurnVec(m.x))
  }

  /** The matrix of a quaternion without normalisation; on unit quaternions it is the rotation matrix. */
  function Homogeneous(q: Quaternion): Mat {
    var t, u := Turn(q), Turn(Turn(q));
    Mat(Vec(Diagonal(q), Upper(q), Lower(q)), Vec(Lower(t), Diagonal(t), Upper(t)),
        Vec(Upper(u), Lower(u), Diagonal(u)))
  }

  // The first row of a product of such matrices, entry by entry: both sides against one expansion.

  lemma DiagonalLeft(pw: real, px: real, py: real, pz: real, a: real, b: real, c: real, d: real, w: real, x: real,
      y: real, z: real)
    requires pw == a * w - b * x - c * y - d * z && px == a * x + b * w + c * z - d * y
    requires py == a * y - b * z + c * w + d * x && pz == a * z + b * y - c * x + d * w
    ensures pw * pw + px * px - py * py - pz * pz == (a * a + b * b - c * c - d * d) * (w * w + x * x - y * y - z * z)
      + 4.0 * (b * c - d * a) * (x * y + z * w) + 4.0 * (b * d + c * a) * (x * z - y * w)
  {
  }

  lemma DiagonalRight(a: real, b: real, c: real, d: real, w: real, x: real, y: real, z: real,
                      e1: real, e2: real, e3: real, f1: real, f2: real, f3: real)
    requires e1 == a * a + b * b - c * c - d * d && e2 == 2.0 * (b * c - d * a) && e3 == 2.0 * (b * d + c * a)
    requires f1 == w * w + x * x - y * y - z * z && f2 == 2.0 * (x * y + z * w) && f3 == 2.0 * (x * z - y * w)
    ensures e1 * f1 + e2 * f2 + e3 * f3 == (a * a + b * b - c * c - d * d) * (w * w + x * x - y * y - z * z)
      + 4.0 * (b * c - d * a) * (x * y + z * w) + 4.0 * (b * d + c * a) * (x * z - y * w)
  {
  }

  lemma UpperLeft(pw: real, px: real, py: real, pz: real, a: real, b: real, c: real, d: real, w: real, x: real,
      y: real, z: real)
    requires pw == a * w - b * x - c * y - d * z && px == a * x + b * w + c * z - d * y
    requires py == a * y - b * z + c * w + d * x && pz == a * z + b * y - c * x + d * w
    ensures 2.0 * (px * py - pz * pw) == 2.0 * (a * a + b * b - c * c - d * d) * (x * y - z * w)
      + 2.0 * (b * c - d * a) * (w * w - x * x + y * y - z * z) + 4.0 * (b * d + c * a) * (y * z + x * w)
  {
  }

  lemma UpperRight(a: real, b: real, c: real, d: real, w: real, x: real, y: real, z: real,
                   e1: real, e2: real, e3: real, f1: real, f2: real, f3: real)
    requires e1 == a * a + b * b - c * c - d * d && e2 == 2.0 * (b * c - d * a) && e3 == 2.0 * (b * d + c * a)
    requires f1 == 2.0 * (x * y - z * w) && f2 == w * w - x * x + y * y - z * z && f3 == 2.0 * (y * z + x * w)
    ensures e1 * f1 + e2 * f2 + e3 * f3 == 2.0 * (a * a + b * b - c * c - d * d) * (x * y - z * w)
      + 2.0 * (b * c - d * a) * (w * w - x * x + y * y - z * z) + 4.0 * (b * d + c * a) * (y * z + x * w)
  {
  }

  lemma LowerLeft(pw: real, px: real, py: real, pz: real, a: real, b: real, c: real, d: real, w: real, x: real,
      y: real, z: real)
    requires pw == a * w - b * x - c * y - d * z && px == a * x + b * w + c * z - d * y
    requires py == a * y - b * z + c * w + d * x && pz == a * z + b * y - c * x + d * w
    ensures 2.0 * (px * pz + py * pw) == 2.0 * (a * a + b * b - c * c - d * d) * (x * z + y * w)
      + 4.0 * (b * c - d * a) * (y * z - x * w) + 2.0 * (b * d + c * a) * (w * w - x * x - y * y + z * z)
  {
  }

  lemma LowerRight(a: real, b: real, c: real, d: real, w: real, x: real, y: real, z: real,
                   e1: real, e2: real, e3: real, f1: real, f2: real, f3: real)
    requires e1 == a * a + b * b - c * c - d * d && e2 == 2.0 * (b * c - d * a) && e3 == 2.0 * (b * d + c * a)
    requires f1 == 2.0 * (x * z + y * w) && f2 == 2.0 * (y * z - x * w) && f3 == w * w - x * x - y * y + z * z
    ensures e1 * f1 + e2 * f2 + e3 * f3 == 2.0 * (a * a + b * b - c * c - d * d) * (x * z + y * w)
      + 4.0 * (b * c - d * a) * (y * z - x * w) + 2.0 * (b * d + c * a) * (w * w - x * x - y * y + z * z)
  {
  }

  predicate ProductIs(pw: real, px: real, py: real, pz: real, a: real, b: real, c: real, d: real, w: real, x: real,
      y: real, z: real) {
    && pw == a * w - b * x - c * y - d * z && px == a * x + b * w + c * z - d * y
    && py == a * y - b * z + c * w + d * x && pz == a * z + b * y - c * x + d * w
  }

  predicate RowIs(a: real, b: real, c: real, d: real, e1: real, e2: real, e3: real) {
    e1 == a * a + b * b - c * c - d * d && e2 == 2.0 * (b * c - d * a) && e3 == 2.0 * (b * d + c * a)
  }

  lemma ProductComponents(p: Quaternion, q: Quaternion, r: Quaternion)
    requires r == Product(p, q)
    ensures ProductIs(r.w, r.x, r.y, r.z, p.w, p.x, p.y, p.z, q.w, q.x, q.y, q.z)
  {
  }

  lemma RowComponents(p: Quaternion)
    ensures RowIs(p.w, p.x, p.y, p.z, Diagonal(p), Upper(p), Lower(p))
  {
  }

  predicate DiagonalColumnIs(w: real, x: real, y: real, z: real, f1: real, f2: real, f3: real) {
    f1 == w * w + x * x - y * y - z * z && f2 == 2.0 * (x * y + z * w) && f3 == 2.0 * (x * z - y * w)
  }

  lemma DiagonalColumnComponents(q: Quaternion)
    ensures DiagonalColumnIs(q.w, q.x, q.y, q.z, Diagonal(q), Lower(Turn(q)), Upper(Turn(Turn(q))))
  {
  }

  lemma DiagonalEntry(pw: real, px: real, py: real, pz: real, a: real, b: real, c: real, d: real, w: real, x: real,
      y: real, z: real,
                      e1: real, e2: real, e3: real, f1: real, f2: real, f3: real)
    requires ProductIs(pw, px, py, pz, a, b, c, d, w, x, y, z) && RowIs(a, b, c, d, e1, e2, e3)
    requires DiagonalColumnIs(w, x, y, z, f1, f2, f3)
    ensures pw * pw + px * px - py * py - pz * pz == e1 * f1 + e2 * f2 + e3 * f3
  {
    DiagonalLeft(pw, px, py, pz, a, b, c, d, w, x, y, z);
    DiagonalRight(a, b, c, d, w, x, y, z, e1, e2, e3, f1, f2, f3);
  }

  predicate UpperColumnIs(w: real, x: real, y: real, z: real, f1: real, f2: real, f3: real) {
    f1 == 2.0 * (x * y - z * w) && f2 == w * w - x * x + y * y - z * z && f3 == 2.0 * (y * z + x * w)
  }

  lemma UpperColumnComponents(q: Quaternion)
    ensures UpperColumnIs(q.w, q.x, q.y, q.z, Upper(q), Diagonal(Turn(q)), Lower(Turn(Turn(q))))
  {
  }

  lemma UpperEntry(pw: real, px: real, py: real, pz: real, a: real, b: real, c: real, d: real, w: real, x: real,
      y: real, z: real,
                      e1: real, e2: real, e3: real, f1: real, f2: real, f3: real)
    requires ProductIs(pw, px, py, pz, a, b, c, d, w, x, y, z) && RowIs(a, b, c, d, e1, e2, e3)
    requires UpperColumnIs(w, x, y, z, f1, f2, f3)
    ensures 2.0 * (px * py - pz * pw) == e1 * f1 + e2 * f2 + e3 * f3
  {
    UpperLeft(pw, px, py, pz, a, b, c, d, w, x, y, z);
    UpperRight(a, b, c, d, w, x, y, z, e1, e2, e3, f1, f2, f3);
  }

  predicate LowerColumnIs(w: real, x: real, y: real, z: real, f1: real, f2: real, f3: real) {
    f1 == 2.0 * (x * z + y * w) && f2 == 2.0 * (y * z - x * w) && f3 == w * w - x * x - y * y + z * z
  }

  lemma LowerColumnComponents(q: Quaternion)
    ensures LowerColumnIs(q.w, q.x, q.y, q.z, Lower(q), Upper(Turn(q)), Diagonal(Turn(Turn(q))))
  {
  }

  lemma LowerEntry(pw: real, px: real, py: real, pz: real, a: real, b: real, c: real, d: real, w: real, x: real,
      y: real, z: real,
                      e1: real, e2: real, e3: real, f1: real, f2: real, f3: real)
    requires ProductIs(pw, px, py, pz, a, b, c, d, w, x, y, z) && RowIs(a, b, c, d, e1, e2, e3)
    requires LowerColumnIs(w, x, y, z, f1, f2, f3)
    ensures 2.0 * (px * pz + py * pw) == e1 * f1 + e2 * f2 + e3 * f3
  {
    LowerLeft(pw, px, py, pz, a, b, c, d, w, x, y, z);
    LowerRight(a, b, c, d, w, x, y, z, e1, e2, e3, f1, f2, f3);
  }

  lemma FirstRowX(p: Quaternion, q: Quaternion)
    ensures Diagonal(Product(p, q)) == Diagonal(p) * Diagonal(q) + Upper(p) * Lower(Turn(q))
        + Lower(p) * Upper(Turn(Turn(q)))
  {
    var r := Product(p, q);
    ProductComponents(p, q, r);
    RowComponents(p);
    DiagonalColumnComponents(q);
    DiagonalEntry(r.w, r.x, r.y, r.z, p.w, p.x, p.y, p.z, q.w, q.x, q.y, q.z, Diagonal(p), Upper(p), Lower(p),
                  Diagonal(q), Lower(Turn(q)), Upper(Turn(Turn(q))));
  }

  lemma FirstRowY(p: Quaternion, q: Quaternion)
    ensures Upper(Product(p, q)) == Diagonal(p) * Upper(q) + Upper(p) * Diagonal(Turn(q))
        + Lower(p) * Lower(Turn(Turn(q)))
  {
    var r := Product(p, q);
    ProductComponents(p, q, r);
    RowComponents(p);
    UpperColumnComponents(q);
    UpperEntry(r.w, r.x, r.y, r.z, p.w, p.x, p.y, p.z, q.w, q.x, q.y, q.z, Diagonal(p), Upper(p), Lower(p),
                  Upper(q), Diagonal(Turn(q)), Lower(Turn(Turn(q))));
  }

  lemma FirstRowZ(p: Quaternion, q: Quaternion)
    ensures Lower(Product(p, q)) == Diagonal(p) * Lower(q) + Upper(p) * Upper(Turn(q))
        + Lower(p) * Diagonal(Turn(Turn(q)))
  {
    var r := Product(p, q);
    ProductComponents(p, q, r);
    RowComponents(p);
    LowerColumnComponents(q);
    LowerEntry(r.w, r.x, r.y, r.z, p.w, p.x, p.y, p.z, q.w, q.x, q.y, q.z, Diagonal(p), Upper(p), Lower(p),
                  Lower(q), Upper(Turn(q)), Diagonal(Turn(Turn(q))));
  }

  // The other rows are the first row after turning the axes.

  lemma TurnProductX(p: Quaternion, q: Quaternion)
    ensures Product(Turn(p), Turn(q)).w == Product(p, q).w && Product(Turn(p), Turn(q)).x == Product(p, q).y
  {
  }

  lemma TurnProductY(p: Quaternion, q: Quaternion)
    ensures Product(Turn(p), Turn(q)).y == Product(p, q).z && Product(Turn(p), Turn(q)).z == Product(p, q).x
  {
  }

  lemma TurnProduct(p: Quaternion, q: Quaternion)
    ensures Product(Turn(p), Turn(q)) == Turn(Product(p, q))
  {
    TurnProductX(p, q);
    TurnProductY(p, q);
  }

  lemma TurnHomogeneous(q: Quaternion)
    ensures Homogeneous(Turn(q)) == TurnMat(Homogeneous(q))
  {
    assert Turn(Turn(Turn(q))) == q;
  }

  lemma TurnRowTimes(v: Vec, b: Mat)
    ensures RowTimes(TurnVec(v), TurnMat(b)) == TurnVec(RowTimes(v, b))
  {
  }

  lemma FirstRow(p: Quaternion, q: Quaternion)
    ensures Homogeneous(Product(p, q)).x == RowTimes(Homogeneous(p).x, Homogeneous(q))
  {
    FirstRowX(p, q);
    FirstRowY(p, q);
    FirstRowZ(p, q);
  }

  lemma SecondRow(p: Quaternion, q: Quaternion)
    ensures Homogeneous(Product(p, q)).y == RowTimes(Homogeneous(p).y, Homogeneous(q))
  {
    FirstRow(Turn(p), Turn(q));
    TurnProduct(p, q);
    TurnHomogeneous(p);
    TurnHomogeneous(q);
    TurnHomogeneous(Product(p, q));
    TurnRowTimes(Homogeneous(p).y, Homogeneous(q));
  }

  lemma ThirdRow(p: Quaternion, q: Quaternion)
    ensures Homogeneous(Product(p, q)).z == RowTimes(Homogeneous(p).z, Homogeneous(q))
  {
    SecondRow(Turn(p), Turn(q));
    TurnProduct(p, q);
    TurnHomogeneous(p);
    TurnHomogeneous(q);
    TurnHomogeneous(Product(p, q));
    TurnRowTimes(Homogeneous(p).z, Homogeneous(q));
  }

  predicate NormIs(n: real, w: real, x: real, y: real, z: real) {
    n == w * w + x * x + y * y + z * z
  }

  /** Euler's four-square identity. */
  lemma FourSquares(a: real, b: real, c: real, d: real, w: real, x: real, y: real, z: real, rw: real, rx: real,
      ry: real, rz: real,
                    p: real, q: real)
    requires rw == a * w - b * x - c * y - d * z && rx == a * x + b * w + c * z - d * y
    requires ry == a * y - b * z + c * w + d * x && rz == a * z + b * y - c * x + d * w
    requires p == a * a + b * b + c * c + d * d && q == w * w + x * x + y * y + z * z
    ensures rw * rw + rx * rx + ry * ry + rz * rz == p * q
  {
  }

  lemma NormsOfProduct(r: real, rw: real, rx: real, ry: real, rz: real, a: real, b: real, c: real, d: real,
                       w: real, x: real, y: real, z: real, p: real, q: real)
    requires ProductIs(rw, rx, ry, rz, a, b, c, d, w, x, y, z)
    requires NormIs(r, rw, rx, ry, rz) && NormIs(p, a, b, c, d) && NormIs(q, w, x, y, z)
    ensures r == p * q
  {
    FourSquares(a, b, c, d, w, x, y, z, rw, rx, ry, rz, p, q);
  }

  lemma NormComponents(q: Quaternion)
    ensures NormIs(QuaternionNormSquared(q), q.w, q.x, q.y, q.z)
  {
  }

  lemma ProductNorm(p: Quaternion, q: Quaternion)
    ensures QuaternionNormSquared(Product(p, q)) == QuaternionNormSquared(p) * QuaternionNormSquared(q)
  {
    var r := Product(p, q);
    ProductComponents(p, q, r);
    NormComponents(p);
    NormComponents(q);
    NormComponents(r);
    NormsOfProduct(QuaternionNormSquared(r), r.w, r.x, r.y, r.z, p.w, p.x, p.y, p.z, q.w, q.x, q.y, q.z,
                   QuaternionNormSquared(p), QuaternionNormSquared(q));
  }

  lemma HomogeneousMultiplicative(p: Quaternion, q: Quaternion)
    ensures Homogeneous(Product(p, q)) == Mul(Homogeneous(p), Homogeneous(q))
  {
    FirstRow(p, q);
    SecondRow(p, q);
    ThirdRow(p, q);
  }
}

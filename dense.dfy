/**
 * Dense vectors and matrices as NumPy holds them: filling a zero vector by
 * indexed writes, dot products over exact reals, columns, and what it means
 * for a vector to solve a square linear system.
 */
module Dense {
  import opened Errors

  /** np.full(shape=n, fill_value=z). */
  function Filled<T>(n: nat, z: T): (r: seq<T>)
    ensures |r| == n && forall i :: 0 <= i < n ==> r[i] == z
  {
    seq(n, _ => z)
  }

  predicate WritesIn<T>(ws: seq<(nat, T)>, n: nat) {
    forall k :: 0 <= k < |ws| ==> ws[k].0 < n
  }

  /** The vector `base` after the writes `v[i] = x` of `ws`, applied left to right. */
  function Scatter<T>(base: seq<T>, ws: seq<(nat, T)>): (r: seq<T>)
    requires WritesIn(ws, |base|)
    ensures |r| == |base|
  {
    if ws == [] then base
    else
      var last := ws[|ws| - 1];
      Scatter(base, ws[..|ws| - 1])[last.0 := last.1]
  }

  /** Reference definition: the value of the last write to index `i`, if any. */
  function LastWrite<T>(ws: seq<(nat, T)>, i: nat): Option<T> {
    if ws == [] then None
    else if ws[|ws| - 1].0 == i then Some(ws[|ws| - 1].1)
    else LastWrite(ws[..|ws| - 1], i)
  }

  /** Index `i` of a scattered vector holds its last write, or the base value when none. */
  lemma {:induction false} ScatterAt<T>(base: seq<T>, ws: seq<(nat, T)>, i: nat)
    requires WritesIn(ws, |base|) && i < |base|
    ensures Scatter(base, ws)[i] == (match LastWrite(ws, i) case Some(v) => v case None => base[i])
  {
    if ws != [] {
      ScatterAt(base, ws[..|ws| - 1], i);
    }
  }

  /** No write names `i` exactly when LastWrite finds none. */
  lemma {:induction false} LastWriteNone<T>(ws: seq<(nat, T)>, i: nat)
    ensures LastWrite(ws, i).None? <==> forall k :: 0 <= k < |ws| ==> ws[k].0 != i
  {
    if ws != [] {
      LastWriteNone(ws[..|ws| - 1], i);
      assert forall k :: 0 <= k < |ws| - 1 ==> ws[..|ws| - 1][k] == ws[k];
    }
  }

  /** A write with no later write to the same index is the one that stays. */
  lemma {:induction false} LastWriteIs<T>(ws: seq<(nat, T)>, k: nat)
    requires k < |ws|
    requires forall q :: k < q < |ws| ==> ws[q].0 != ws[k].0
    ensures LastWrite(ws, ws[k].0) == Some(ws[k].1)
  {
    if k < |ws| - 1 {
      LastWriteIs(ws[..|ws| - 1], k);
    }
  }

  /** Exact reals of an integer vector (NumPy's int-to-float promotion, without rounding). */
  function Reals(s: seq<int>): (r: seq<real>)
    ensures |r| == |s| && forall i :: 0 <= i < |s| ==> r[i] == s[i] as real
  {
    seq(|s|, i requires 0 <= i < |s| => s[i] as real)
  }

  /** np.dot of two vectors of equal length. */
  function Dot(u: seq<real>, v: seq<real>): real
    requires |u| == |v|
  {
    if u == [] then 0.0 else Dot(u[..|u| - 1], v[..|v| - 1]) + u[|u| - 1] * v[|v| - 1]
  }

  lemma {:induction false} DotComm(u: seq<real>, v: seq<real>)
    requires |u| == |v|
    ensures Dot(u, v) == Dot(v, u)
  {
    if u != [] {
      DotComm(u[..|u| - 1], v[..|v| - 1]);
    }
  }

  lemma {:induction false} DotZero(z: seq<real>, x: seq<real>)
    requires |z| == |x| && forall i :: 0 <= i < |z| ==> z[i] == 0.0
    ensures Dot(z, x) == 0.0
  {
    if z != [] {
      DotZero(z[..|z| - 1], x[..|x| - 1]);
    }
  }

  /** A dot product of two non-negative vectors is non-negative. */
  lemma DotNonNegative(u: seq<real>, x: seq<real>)
    requires |u| == |x|
    ensures (forall i :: 0 <= i < |u| ==> u[i] >= 0.0 && x[i] >= 0.0) ==> Dot(u, x) >= 0.0
  {
    if forall i :: 0 <= i < |u| ==> u[i] >= 0.0 && x[i] >= 0.0 {
      var z := Filled(|u|, 0.0);
      DotMonotone(z, u, x);
      DotZero(z, x);
    }
  }

  /** Dot is linear in its first argument: (u + a*w).x == u.x + a*(w.x). */
  lemma {:induction false} DotAddScaled(u: seq<real>, w: seq<real>, a: real, s: seq<real>, x: seq<real>)
    requires |u| == |w| == |s| == |x|
    requires forall i :: 0 <= i < |s| ==> s[i] == u[i] + a * w[i]
    ensures Dot(s, x) == Dot(u, x) + a * Dot(w, x)
  {
    if s != [] {
      var n := |s| - 1;
      DotAddScaled(u[..n], w[..n], a, s[..n], x[..n]);
      var du, dw := Dot(u[..n], x[..n]), Dot(w[..n], x[..n]);
      assert Dot(s, x) == Dot(s[..n], x[..n]) + s[n] * x[n];
      assert Dot(u, x) == du + u[n] * x[n];
      assert Dot(w, x) == dw + w[n] * x[n];
      ScaledStep(du, dw, a, u[n], w[n], x[n]);
    }
  }

  /** The last step of DotAddScaled, on scalars. */
  lemma ScaledStep(du: real, dw: real, a: real, un: real, wn: real, xn: real)
    ensures (du + a * dw) + (un + a * wn) * xn == (du + un * xn) + a * (dw + wn * xn)
  {
    assert (un + a * wn) * xn == un * xn + a * (wn * xn);
  }

  /** Against a non-negative x, a pointwise smaller vector has the smaller dot product. */
  lemma {:induction false} DotMonotone(u: seq<real>, v: seq<real>, x: seq<real>)
    requires |u| == |v| == |x|
    requires forall i :: 0 <= i < |u| ==> u[i] <= v[i] && x[i] >= 0.0
    ensures Dot(u, x) <= Dot(v, x)
  {
    if u != [] {
      var n := |u| - 1;
      DotMonotone(u[..n], v[..n], x[..n]);
      assert u[n] * x[n] <= v[n] * x[n] by {
        assert (v[n] - u[n]) * x[n] >= 0.0;
      }
    }
  }

  /** Every row of `M` has `w` entries. */
  predicate IsMatrix<T>(M: seq<seq<T>>, w: nat) {
    forall r :: 0 <= r < |M| ==> |M[r]| == w
  }

  /** Column `k` of a matrix, as a vector. */
  function Column<T>(M: seq<seq<T>>, k: nat): (r: seq<T>)
    requires forall row :: 0 <= row < |M| ==> k < |M[row]|
    ensures |r| == |M| && forall row :: 0 <= row < |M| ==> r[row] == M[row][k]
  {
    seq(|M|, row requires 0 <= row < |M| => M[row][k])
  }

  /** np.hstack of two matrices with as many rows: each row of B followed by the row of C. */
  function HStack<T>(B: seq<seq<T>>, C: seq<seq<T>>): (r: seq<seq<T>>)
    requires |B| == |C|
    ensures |r| == |B| && forall row :: 0 <= row < |B| ==> r[row] == B[row] + C[row]
  {
    seq(|B|, row requires 0 <= row < |B| => B[row] + C[row])
  }

  /** The real matrix of an integer matrix. */
  function RealMatrix(M: seq<seq<int>>): (r: seq<seq<real>>)
    ensures |r| == |M| && forall row :: 0 <= row < |M| ==> r[row] == Reals(M[row])
  {
    seq(|M|, row requires 0 <= row < |M| => Reals(M[row]))
  }

  /** A column of the real matrix is the reals of the column. */
  lemma RealColumn(M: seq<seq<int>>, k: nat)
    requires forall row :: 0 <= row < |M| ==> k < |M[row]|
    ensures forall row :: 0 <= row < |M| ==> k < |RealMatrix(M)[row]|
    ensures Column(RealMatrix(M), k) == Reals(Column(M, k))
  {
  }

  /** The transpose of an m-by-w matrix. */
  function Transpose(M: seq<seq<real>>, w: nat): (r: seq<seq<real>>)
    requires IsMatrix(M, w)
    ensures |r| == w && IsMatrix(r, |M|)
    ensures forall k :: 0 <= k < w ==> r[k] == Column(M, k)
  {
    seq(w, k requires 0 <= k < w => Column(M, k))
  }

  /** The vector M x. */
  function MatVec(M: seq<seq<real>>, x: seq<real>): (r: seq<real>)
    requires IsMatrix(M, |x|)
    ensures |r| == |M| && forall row :: 0 <= row < |M| ==> r[row] == Dot(M[row], x)
  {
    seq(|M|, row requires 0 <= row < |M| => Dot(M[row], x))
  }

  /** The row vector y M of an m-by-w matrix. */
  function VecMat(y: seq<real>, M: seq<seq<real>>, w: nat): (r: seq<real>)
    requires IsMatrix(M, w) && |y| == |M|
    ensures |r| == w && forall k :: 0 <= k < w ==> r[k] == Dot(y, Column(M, k))
  {
    seq(w, k requires 0 <= k < w => Dot(y, Column(M, k)))
  }

  /** Peeling the last row off M x: y (M x) == y' (M' x) + a (R x). */
  lemma {:induction false} DotMatVecLastRow(y: seq<real>, M: seq<seq<real>>, x: seq<real>)
    requires IsMatrix(M, |x|) && |y| == |M| && M != []
    ensures Dot(y, MatVec(M, x))
         == Dot(y[..|M| - 1], MatVec(M[..|M| - 1], x)) + y[|M| - 1] * Dot(M[|M| - 1], x)
  {
    var m := |M| - 1;
    assert MatVec(M, x)[..m] == MatVec(M[..m], x);
  }

  /** Peeling the last row off y M: y M == y' M' + a R. */
  lemma {:induction false} VecMatLastRow(y: seq<real>, M: seq<seq<real>>, w: nat)
    requires IsMatrix(M, w) && |y| == |M| && M != []
    ensures forall k :: 0 <= k < w ==>
      VecMat(y, M, w)[k] == VecMat(y[..|M| - 1], M[..|M| - 1], w)[k] + y[|M| - 1] * M[|M| - 1][k]
  {
    var m := |M| - 1;
    forall k | 0 <= k < w
      ensures VecMat(y, M, w)[k] == VecMat(y[..m], M[..m], w)[k] + y[m] * M[m][k]
    {
      assert Column(M, k)[..m] == Column(M[..m], k);
    }
  }

  /** The inductive step of DotMatVec: the identity for all rows from the identity without the last. */
  lemma {:induction false} DotMatVecStep(y: seq<real>, M: seq<seq<real>>, x: seq<real>)
    requires IsMatrix(M, |x|) && |y| == |M| && M != []
    requires Dot(y[..|M| - 1], MatVec(M[..|M| - 1], x)) == Dot(VecMat(y[..|M| - 1], M[..|M| - 1], |x|), x)
    ensures Dot(y, MatVec(M, x)) == Dot(VecMat(y, M, |x|), x)
  {
    DotMatVecLastRow(y, M, x);
    DotVecMatLastRow(y, M, x);
  }

  /** Peeling the last row off (y M) x: (y M) x == (y' M') x + a (R x). */
  lemma {:induction false} DotVecMatLastRow(y: seq<real>, M: seq<seq<real>>, x: seq<real>)
    requires IsMatrix(M, |x|) && |y| == |M| && M != []
    ensures Dot(VecMat(y, M, |x|), x)
         == Dot(VecMat(y[..|M| - 1], M[..|M| - 1], |x|), x) + y[|M| - 1] * Dot(M[|M| - 1], x)
  {
    var m, w := |M| - 1, |x|;
    VecMatLastRow(y, M, w);
    DotAddScaled(VecMat(y[..m], M[..m], w), M[m], y[m], VecMat(y, M, w), x);
  }

  /** y (M x) == (y M) x: the associativity behind weak and strong duality. */
  lemma {:induction false} DotMatVec(y: seq<real>, M: seq<seq<real>>, x: seq<real>)
    requires IsMatrix(M, |x|) && |y| == |M|
    ensures Dot(y, MatVec(M, x)) == Dot(VecMat(y, M, |x|), x)
  {
    if M == [] {
      DotZero(VecMat(y, M, |x|), x);
    } else {
      var m := |M| - 1;
      assert IsMatrix(M[..m], |x|);
      DotMatVec(y[..m], M[..m], x);
      DotMatVecStep(y, M, x);
    }
  }

  /** x solves the square system M x = v. */
  predicate Solves(M: seq<seq<real>>, v: seq<real>, x: seq<real>) {
    && |M| == |v| == |x|
    && IsMatrix(M, |x|)
    && forall row :: 0 <= row < |M| ==> Dot(M[row], x) == v[row]
  }

  /**
   * numpy.linalg.solve, taken as a parameter: None stands for the LinAlgError it
   * raises on a singular or non-square matrix.
   */
  type Solver = (seq<seq<real>>, seq<real>) -> Option<seq<real>>

  /** Whatever the solver returns solves the system it was given. */
  ghost predicate SoundSolver(solve: Solver) {
    forall M, v :: solve(M, v).Some? ==> Solves(M, v, solve(M, v).value)
  }
}

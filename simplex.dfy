/**
 * The revised simplex method of model.py on a problem in standard form,
 * maximise c.x subject to A x = b and x >= 0: a basis is a list of column
 * indices Bv, with the other columns in Nv. This module defines the basis
 * matrix and costs that getBNCB returns, the certificates steps2to5 stops
 * with (OPTIMAL and UNBOUNDED), and proves what those certificates mean:
 * at an optimal stop no feasible x does better than the basic solution, and
 * at an unbounded stop a ray of feasible points gains the entering column's
 * reduced cost per unit.
 */
module Simplex {
  import opened Errors
  import opened Dense
  import opened Utils

  /** Every index of `cols` is below w. */
  predicate InRange(cols: seq<nat>, w: nat) {
    forall k :: 0 <= k < |cols| ==> cols[k] < w
  }

  /** The matrix of the columns `cols` of A, in that order (getBNCB's B). */
  function BasisMatrix(A: seq<seq<int>>, cols: seq<nat>): (B: seq<seq<int>>)
    requires IsMatrix(A, Width(A)) && InRange(cols, Width(A))
    ensures |B| == |A| && IsMatrix(B, |cols|)
    ensures forall k :: 0 <= k < |cols| ==> Column(B, k) == Column(A, cols[k])
  {
    seq(|A|, row requires 0 <= row < |A| => seq(|cols|, k requires 0 <= k < |cols| => A[row][cols[k]]))
  }

  /** A single column taken out of A (u.col) is the basis matrix of that one column. */
  lemma {:induction false} BasisMatrixFirst(A: seq<seq<int>>, j: nat, C: seq<seq<int>>)
    requires IsMatrix(A, Width(A)) && j < Width(A)
    requires |C| == |A| && IsMatrix(C, 1) && Column(C, 0) == Column(A, j)
    ensures InRange([j], Width(A)) && C == BasisMatrix(A, [j])
  {
    var B := BasisMatrix(A, [j]);
    forall row | 0 <= row < |A|
      ensures C[row] == B[row]
    {
      assert C[row][0] == Column(C, 0)[row];
    }
  }

  /** getBNCB's step: the basis matrix of cols, with column j of A stacked to its right, is that of cols + [j]. */
  lemma {:induction false} BasisMatrixNext(A: seq<seq<int>>, cols: seq<nat>, j: nat, C: seq<seq<int>>)
    requires IsMatrix(A, Width(A)) && InRange(cols, Width(A)) && j < Width(A)
    requires |C| == |A| && IsMatrix(C, 1) && Column(C, 0) == Column(A, j)
    ensures InRange(cols + [j], Width(A))
    ensures HStack(BasisMatrix(A, cols), C) == BasisMatrix(A, cols + [j])
  {
    var B := BasisMatrix(A, cols);
    var B' := BasisMatrix(A, cols + [j]);
    forall row | 0 <= row < |A|
      ensures B[row] + C[row] == B'[row]
    {
      assert C[row][0] == Column(C, 0)[row];
      assert C[row] == [A[row][j]];
    }
  }

  /** The costs of the columns `cols`, in that order (getBNCB's CB). */
  function BasisCosts(c: seq<int>, cols: seq<nat>): (CB: seq<int>)
    requires InRange(cols, |c|)
    ensures |CB| == |cols| && forall k :: 0 <= k < |cols| ==> CB[k] == c[cols[k]]
  {
    seq(|cols|, k requires 0 <= k < |cols| => c[cols[k]])
  }

  /** A problem whose A has a row per entry of b and a column per entry of c, and a basis inside it. */
  predicate BasisOk(A: seq<seq<int>>, b: seq<int>, c: seq<int>, Bv: seq<nat>) {
    IsMatrix(A, |c|) && |b| == |A| && |A| > 0 && Bv != [] && InRange(Bv, |c|)
  }

  /** The real basis matrix. */
  function RB(A: seq<seq<int>>, b: seq<int>, c: seq<int>, Bv: seq<nat>): (M: seq<seq<real>>)
    requires BasisOk(A, b, c, Bv)
    ensures |M| == |A| && IsMatrix(M, |Bv|)
  {
    RealMatrix(BasisMatrix(A, Bv))
  }

  /** XB is the basic solution: B XB = b (compXB). */
  predicate Primal(A: seq<seq<int>>, b: seq<int>, c: seq<int>, Bv: seq<nat>, XB: seq<real>) {
    BasisOk(A, b, c, Bv) && Solves(RB(A, b, c, Bv), Reals(b), XB)
  }

  /** pi is the dual solution of the basis: pi B = CB, solved as B^T pi = CB (step 2). */
  predicate Dual(A: seq<seq<int>>, b: seq<int>, c: seq<int>, Bv: seq<nat>, pi: seq<real>) {
    BasisOk(A, b, c, Bv) && Solves(Transpose(RB(A, b, c, Bv), |Bv|), Reals(BasisCosts(c, Bv)), pi)
  }

  /**
   * steps2to5's OPTIMAL stop: XB and pi are the primal and dual solutions of
   * the basis Bv, and every column of Nv has a negative reduced cost.
   */
  predicate OptimalAt(A: seq<seq<int>>, b: seq<int>, c: seq<int>, Bv: seq<nat>, Nv: seq<nat>, pi: seq<real>, XB: seq<real>) {
    && Primal(A, b, c, Bv, XB) && Dual(A, b, c, Bv, pi)
    && |pi| == |A|
    && forall k :: 0 <= k < |Nv| ==> Nv[k] < |c| && ReducedCost(A, c, pi, Nv[k]) < 0.0
  }

  /**
   * steps2to5 past pricing: column Nv[p] has the largest reduced cost, not
   * negative, and no column before it in Nv ties with it (pricing keeps the
   * first maximum); d solves B d = A_j for it, with no zero entry.
   */
  predicate EnteringAt(A: seq<seq<int>>, b: seq<int>, c: seq<int>, Bv: seq<nat>, Nv: seq<nat>, pi: seq<real>, p: nat, d: seq<real>, XB: seq<real>) {
    && Primal(A, b, c, Bv, XB) && Dual(A, b, c, Bv, pi)
    && |pi| == |A| && p < |Nv| && InRange(Nv, |c|)
    && (forall k :: 0 <= k < |Nv| ==> ReducedCost(A, c, pi, Nv[k]) <= ReducedCost(A, c, pi, Nv[p]))
    && (forall k :: 0 <= k < p ==> ReducedCost(A, c, pi, Nv[k]) < ReducedCost(A, c, pi, Nv[p]))
    && ReducedCost(A, c, pi, Nv[p]) >= 0.0
    && Solves(RB(A, b, c, Bv), Reals(Column(A, Nv[p])), d)
    && |d| == |XB| && NonZero(d)
  }

  /** steps2to5's UNBOUNDED stop: past pricing, and no row limits the step (the ratio test finds none). */
  predicate UnboundedAt(A: seq<seq<int>>, b: seq<int>, c: seq<int>, Bv: seq<nat>, Nv: seq<nat>, pi: seq<real>, p: nat, d: seq<real>, XB: seq<real>) {
    EnteringAt(A, b, c, Bv, Nv, pi, p, d, XB) && RatioTest(XB, d) == -1
  }

  /**
   * comp_max_t as written raises IndexError on the basis Bv: past pricing,
   * the rows with a non-negative ratio are not a prefix of the rows.
   */
  predicate RatioIndexErrorAt(A: seq<seq<int>>, b: seq<int>, c: seq<int>, Bv: seq<nat>, Nv: seq<nat>, pi: seq<real>, p: nat, d: seq<real>, XB: seq<real>) {
    EnteringAt(A, b, c, Bv, Nv, pi, p, d, XB) && !EligiblePrefix(XB, d)
  }

  /** Some pass of steps2to5 on the basis Bv reaches comp_max_t's IndexError. */
  ghost predicate RatioIndexError(A: seq<seq<int>>, b: seq<int>, c: seq<int>, Bv: seq<nat>, Nv: seq<nat>) {
    exists pi, p, d, XB :: RatioIndexErrorAt(A, b, c, Bv, Nv, pi, p, d, XB)
  }

  /** Over some split of the columns 0..6 into a basis and the rest, a pass of steps2to5 reaches comp_max_t's IndexError. */
  ghost predicate RatioIndexErrorSomewhere(A: seq<seq<int>>, b: seq<int>, c: seq<int>) {
    exists Bv, Nv :: Partition(Bv, Nv, 7) && RatioIndexError(A, b, c, Bv, Nv)
  }

  /** A split of the columns at which a pass reaches comp_max_t's IndexError witnesses RatioIndexErrorSomewhere. */
  lemma RatioIndexErrorFound(A: seq<seq<int>>, b: seq<int>, c: seq<int>, Bv: seq<nat>, Nv: seq<nat>)
    requires Partition(Bv, Nv, 7) && RatioIndexError(A, b, c, Bv, Nv)
    ensures RatioIndexErrorSomewhere(A, b, c)
  {
  }

  /** steps2to5's pivot: past pricing, and row `iout` of the basis leaves (the ratio test's choice). */
  predicate PivotAt(A: seq<seq<int>>, b: seq<int>, c: seq<int>, Bv: seq<nat>, Nv: seq<nat>, pi: seq<real>, p: nat, d: seq<real>, XB: seq<real>, iout: nat) {
    EnteringAt(A, b, c, Bv, Nv, pi, p, d, XB) && RatioTest(XB, d) == iout
  }

  /** A solved primal system makes B square: one basic column per row. */
  lemma {:induction false} PrimalSquare(A: seq<seq<int>>, b: seq<int>, c: seq<int>, Bv: seq<nat>, XB: seq<real>)
    requires Primal(A, b, c, Bv, XB)
    ensures |Bv| == |XB| == |A| == |b|
  {
    var M := RB(A, b, c, Bv);
    assert |M[0]| == |Bv| && |M[0]| == |XB|;
  }

  /** The dual solution prices the basic columns at their costs: pi B = CB. */
  lemma {:induction false} DualCosts(A: seq<seq<int>>, b: seq<int>, c: seq<int>, Bv: seq<nat>, pi: seq<real>)
    requires Dual(A, b, c, Bv, pi)
    ensures |pi| == |A|
    ensures VecMat(pi, RB(A, b, c, Bv), |Bv|) == Reals(BasisCosts(c, Bv))
  {
    var M := RB(A, b, c, Bv);
    var T := Transpose(M, |Bv|);
    var CB := Reals(BasisCosts(c, Bv));
    assert |T[0]| == |M| && |T[0]| == |pi|;
    forall k | 0 <= k < |Bv|
      ensures VecMat(pi, M, |Bv|)[k] == CB[k]
    {
      assert T[k] == Column(M, k);
      DotComm(pi, Column(M, k));
    }
  }

  /** Every basic column has reduced cost zero. */
  lemma {:induction false} BasicReducedCostZero(A: seq<seq<int>>, b: seq<int>, c: seq<int>, Bv: seq<nat>, pi: seq<real>, k: nat)
    requires Dual(A, b, c, Bv, pi) && k < |Bv|
    ensures |pi| == |A|
    ensures ReducedCost(A, c, pi, Bv[k]) == 0.0
  {
    DualCosts(A, b, c, Bv, pi);
    var B := BasisMatrix(A, Bv);
    RealColumn(B, k);
    assert Column(B, k) == Column(A, Bv[k]);
  }

  /** Strong duality at the basis: CB . XB == pi . b. */
  lemma {:induction false} DualObjective(A: seq<seq<int>>, b: seq<int>, c: seq<int>, Bv: seq<nat>, pi: seq<real>, XB: seq<real>)
    requires Primal(A, b, c, Bv, XB) && Dual(A, b, c, Bv, pi)
    ensures |pi| == |b|
    ensures Obj(BasisCosts(c, Bv), XB) == Dot(pi, Reals(b))
  {
    PrimalSquare(A, b, c, Bv, XB);
    DualCosts(A, b, c, Bv, pi);
    var M := RB(A, b, c, Bv);
    assert MatVec(M, XB) == Reals(b);
    DotMatVec(pi, M, XB);
  }

  /**
   * Weak duality: when every column's reduced cost is at most 0, pi . b bounds
   * c . x from above for every feasible x (A x = b, x >= 0).
   */
  lemma {:induction false} WeakDuality(A: seq<seq<int>>, b: seq<int>, c: seq<int>, pi: seq<real>, x: seq<real>)
    requires IsMatrix(A, |c|) && |b| == |A| && |pi| == |A| && |x| == |c|
    requires forall j :: 0 <= j < |c| ==> ReducedCost(A, c, pi, j) <= 0.0
    requires forall j :: 0 <= j < |x| ==> x[j] >= 0.0
    requires IsMatrix(RealMatrix(A), |x|) && MatVec(RealMatrix(A), x) == Reals(b)
    ensures Dot(Reals(c), x) <= Dot(pi, Reals(b))
  {
    var M := RealMatrix(A);
    var y := VecMat(pi, M, |c|);
    forall j | 0 <= j < |c|
      ensures Reals(c)[j] <= y[j]
    {
      RealColumn(A, j);
      assert y[j] == Dot(pi, Column(M, j));
      assert ReducedCost(A, c, pi, j) <= 0.0;
    }
    DotMonotone(Reals(c), y, x);
    DotMatVec(pi, M, x);
  }

  /** Every column index below w is in Bv or in Nv. */
  predicate Covers(Bv: seq<nat>, Nv: seq<nat>, w: nat) {
    forall j: nat :: j < w ==> j in Bv || j in Nv
  }

  /**
   * The OPTIMAL certificate means optimality: when the basis and the
   * non-basic list between them name every column, no feasible x has a
   * larger objective than the basic solution's CB . XB.
   */
  lemma {:induction false} OptimalBound(A: seq<seq<int>>, b: seq<int>, c: seq<int>, Bv: seq<nat>, Nv: seq<nat>, pi: seq<real>, XB: seq<real>, x: seq<real>)
    requires OptimalAt(A, b, c, Bv, Nv, pi, XB) && Covers(Bv, Nv, |c|)
    requires |x| == |c| && (forall j :: 0 <= j < |x| ==> x[j] >= 0.0)
    requires IsMatrix(RealMatrix(A), |x|) && MatVec(RealMatrix(A), x) == Reals(b)
    ensures Dot(Reals(c), x) <= Obj(BasisCosts(c, Bv), XB)
  {
    forall j | 0 <= j < |c|
      ensures ReducedCost(A, c, pi, j) <= 0.0
    {
      if j in Bv {
        var k :| 0 <= k < |Bv| && Bv[k] == j;
        BasicReducedCostZero(A, b, c, Bv, pi, k);
      } else {
        var k :| 0 <= k < |Nv| && Nv[k] == j;
      }
    }
    WeakDuality(A, b, c, pi, x);
    DualObjective(A, b, c, Bv, pi, XB);
  }

  /** The point t units along the ray from XB in direction -d. */
  function AlongRay(XB: seq<real>, d: seq<real>, t: real): (r: seq<real>)
    requires |d| == |XB|
    ensures |r| == |XB| && forall i :: 0 <= i < |XB| ==> r[i] == XB[i] - t * d[i]
  {
    seq(|XB|, i requires 0 <= i < |XB| => XB[i] - t * d[i])
  }

  /** The dot product with a point of the ray: u . (XB - t d) == u . XB - t (u . d). */
  lemma {:induction false} RayDot(u: seq<real>, XB: seq<real>, d: seq<real>, t: real)
    requires |u| == |XB| == |d|
    ensures Dot(u, AlongRay(XB, d, t)) == Dot(u, XB) + (-t) * Dot(u, d)
  {
    var x := AlongRay(XB, d, t);
    forall i | 0 <= i < |x|
      ensures x[i] == XB[i] + (-t) * d[i]
    {
    }
    DotComm(u, x);
    DotAddScaled(XB, d, -t, x, u);
    DotComm(XB, u);
    DotComm(d, u);
  }

  /**
   * The UNBOUNDED certificate means a ray of feasible points. First, for every
   * t >= 0 the basic variables XB - t d stay non-negative (when XB is).
   */
  lemma {:induction false} UnboundedRayNonNegative(A: seq<seq<int>>, b: seq<int>, c: seq<int>, Bv: seq<nat>, Nv: seq<nat>, pi: seq<real>, p: nat, d: seq<real>, XB: seq<real>, t: real)
    requires UnboundedAt(A, b, c, Bv, Nv, pi, p, d, XB)
    requires (forall i :: 0 <= i < |XB| ==> XB[i] >= 0.0) && t >= 0.0
    ensures |Bv| == |XB| && |b| == |A|
    ensures forall i :: 0 <= i < |XB| ==> AlongRay(XB, d, t)[i] >= 0.0
  {
    PrimalSquare(A, b, c, Bv, XB);
    NoEligibleRowIsRay(XB, d, t);
  }

  /** Second (after RayBalances), the objective grows by t times the entering column's reduced cost. */
  lemma {:induction false} UnboundedRayObjective(A: seq<seq<int>>, b: seq<int>, c: seq<int>, Bv: seq<nat>, Nv: seq<nat>, pi: seq<real>, p: nat, d: seq<real>, XB: seq<real>, t: real)
    requires UnboundedAt(A, b, c, Bv, Nv, pi, p, d, XB)
    ensures Nv[p] < |c| && |Bv| == |XB|
    ensures Obj(BasisCosts(c, Bv), AlongRay(XB, d, t)) + t * c[Nv[p]] as real == Obj(BasisCosts(c, Bv), XB) + t * ReducedCost(A, c, pi, Nv[p])
    ensures ReducedCost(A, c, pi, Nv[p]) >= 0.0
  {
    PrimalSquare(A, b, c, Bv, XB);
    RayObjective(A, b, c, Bv, pi, Nv[p], d, XB, t);
  }

  /**
   * Along the ray the rows still balance: B (XB - t d) + t A_j == b. At an
   * UNBOUNDED stop, j is the entering column Nv[p] and d its direction.
   */
  lemma {:induction false} RayBalances(A: seq<seq<int>>, b: seq<int>, c: seq<int>, Bv: seq<nat>, j: nat, d: seq<real>, XB: seq<real>, t: real)
    requires Primal(A, b, c, Bv, XB) && j < |c|
    requires Solves(RB(A, b, c, Bv), Reals(Column(A, j)), d) && |d| == |XB|
    ensures forall row :: 0 <= row < |A| ==> Dot(RB(A, b, c, Bv)[row], AlongRay(XB, d, t)) + t * A[row][j] as real == b[row] as real
  {
    var M := RB(A, b, c, Bv);
    forall row | 0 <= row < |A|
      ensures Dot(M[row], AlongRay(XB, d, t)) + t * A[row][j] as real == b[row] as real
    {
      RayDot(M[row], XB, d, t);
    }
  }

  /** The basic costs of the direction d equal the dual price of the column it was solved for: CB . d == pi . A_j. */
  lemma {:induction false} DirectionCost(A: seq<seq<int>>, b: seq<int>, c: seq<int>, Bv: seq<nat>, pi: seq<real>, j: nat, d: seq<real>)
    requires Dual(A, b, c, Bv, pi) && j < |c|
    requires Solves(RB(A, b, c, Bv), Reals(Column(A, j)), d)
    ensures |pi| == |A| && |d| == |Bv|
    ensures Dot(Reals(BasisCosts(c, Bv)), d) == Dot(pi, Reals(Column(A, j)))
  {
    DualCosts(A, b, c, Bv, pi);
    var M := RB(A, b, c, Bv);
    assert MatVec(M, d) == Reals(Column(A, j));
    DotMatVec(pi, M, d);
  }

  /** The objective along the ray: CB . (XB - t d) + t c_j == CB . XB + t (c_j - pi . A_j). */
  lemma {:induction false} RayObjective(A: seq<seq<int>>, b: seq<int>, c: seq<int>, Bv: seq<nat>, pi: seq<real>, j: nat, d: seq<real>, XB: seq<real>, t: real)
    requires Primal(A, b, c, Bv, XB) && Dual(A, b, c, Bv, pi) && j < |c|
    requires Solves(RB(A, b, c, Bv), Reals(Column(A, j)), d) && |d| == |XB|
    ensures |pi| == |A|
    ensures Obj(BasisCosts(c, Bv), AlongRay(XB, d, t)) + t * c[j] as real
         == Obj(BasisCosts(c, Bv), XB) + t * ReducedCost(A, c, pi, j)
  {
    PrimalSquare(A, b, c, Bv, XB);
    var CB := Reals(BasisCosts(c, Bv));
    var x := AlongRay(XB, d, t);
    var P := Dot(pi, Reals(Column(A, j)));
    assert Dot(CB, d) == P by {
      DirectionCost(A, b, c, Bv, pi, j, d);
    }
    assert Dot(CB, x) == Dot(CB, XB) + (-t) * Dot(CB, d) by {
      RayDot(CB, XB, d, t);
    }
    assert ReducedCost(A, c, pi, j) == c[j] as real - P;
    RayArith(Dot(CB, x), Dot(CB, XB), Dot(CB, d), P, c[j] as real, t);
  }

  lemma {:induction false} RayArith(x: real, y: real, dc: real, p: real, cj: real, t: real)
    requires x == y + (-t) * dc && dc == p
    ensures x + t * cj == y + t * (cj - p)
  {
  }

  /** 0, 1, ..., w-1. */
  function Range(w: nat): (r: seq<nat>)
    ensures |r| == w && forall i :: 0 <= i < w ==> r[i] == i
  {
    seq(w, i requires 0 <= i < w => i)
  }

  /** Bv and Nv together hold each column index below w exactly once. */
  predicate Partition(Bv: seq<nat>, Nv: seq<nat>, w: nat) {
    multiset(Bv) + multiset(Nv) == multiset(Range(w))
  }

  lemma {:induction false} RangeCount(w: nat, j: nat)
    ensures multiset(Range(w))[j] == if j < w then 1 else 0
  {
    if w > 0 {
      RangeCount(w - 1, j);
      assert Range(w) == Range(w - 1) + [w - 1];
    }
  }

  /** A partition names every column below w once: in Bv or in Nv, never both, never twice. */
  lemma {:induction false} PartitionMeans(Bv: seq<nat>, Nv: seq<nat>, w: nat)
    requires Partition(Bv, Nv, w)
    ensures Covers(Bv, Nv, w)
    ensures forall j :: j in Bv || j in Nv ==> j < w
    ensures forall j :: !(j in Bv && j in Nv)
    ensures forall j :: multiset(Bv)[j] <= 1 && multiset(Nv)[j] <= 1
  {
    forall j: nat
      ensures multiset(Bv)[j] + multiset(Nv)[j] == if j < w then 1 else 0
    {
      RangeCount(w, j);
      assert (multiset(Bv) + multiset(Nv))[j] == multiset(Range(w))[j];
    }
    forall j: nat | j < w
      ensures j in Bv || j in Nv
    {
      assert multiset(Bv)[j] > 0 || multiset(Nv)[j] > 0;
    }
    forall j: nat | j in Bv || j in Nv
      ensures j < w
    {
      assert multiset(Bv)[j] > 0 || multiset(Nv)[j] > 0;
    }
    forall j: nat | j in Bv
      ensures j !in Nv
    {
      assert multiset(Bv)[j] > 0;
    }
  }

  /** find_basic_feas_sol's basis [0, 2, 6] and non-basic list [1, 3, 4, 5] partition the columns 0..6. */
  lemma {:induction false} InitialPartition()
    ensures Partition([0, 2, 6], [1, 3, 4, 5], 7)
  {
    assert Range(7) == [0, 1, 2, 3, 4, 5, 6];
    calc {
      multiset([0, 2, 6]) + multiset([1, 3, 4, 5]);
      multiset{0, 2, 6} + multiset{1, 3, 4, 5};
      multiset{0, 1, 2, 3, 4, 5, 6};
    }
  }

  /** The pivot's swap of Bv[i] and Nv[j] keeps a partition a partition. */
  lemma {:induction false} SwapKeepsPartition(Bv: seq<nat>, Nv: seq<nat>, i: nat, j: nat, w: nat)
    requires i < |Bv| && j < |Nv| && Partition(Bv, Nv, w)
    ensures Partition(Bv[i := Nv[j]], Nv[j := Bv[i]], w)
  {
    assert Bv == Bv[..i] + [Bv[i]] + Bv[i + 1..];
    assert Bv[i := Nv[j]] == Bv[..i] + [Nv[j]] + Bv[i + 1..];
    assert Nv == Nv[..j] + [Nv[j]] + Nv[j + 1..];
    assert Nv[j := Bv[i]] == Nv[..j] + [Bv[i]] + Nv[j + 1..];
  }

  /**
   * How steps2to5 ends: with the OPTIMAL or the UNBOUNDED certificate (which it
   * prints), with the exception that stops it, at a zero entry of d (where
   * the ratio x / d_i is not a number), or after `fuel` pivots.
   */
  datatype Stop =
    | Optimal(obj: real, Bv: seq<nat>, Nv: seq<nat>, pi: seq<real>, xb: seq<real>)
    | Unbounded(Bv: seq<nat>, Nv: seq<nat>, pi: seq<real>, entering: nat, d: seq<real>, xb: seq<real>)
    | Failed(error: PyError)
    | ZeroDivisor
    | OutOfFuel

  /**
   * A stop carries the certificate it names, for the basis Bv and the
   * non-basic list Nv the arrays hold when steps2to5 stops.
   */
  predicate Certifies(A: seq<seq<int>>, b: seq<int>, c: seq<int>, s: Stop, Bv: seq<nat>, Nv: seq<nat>) {
    && (s.Optimal? ==>
          && s.Bv == Bv && s.Nv == Nv && OptimalAt(A, b, c, Bv, Nv, s.pi, s.xb)
          && |s.xb| == |Bv| && s.obj == Obj(BasisCosts(c, Bv), s.xb))
    && (s.Unbounded? ==>
          s.Bv == Bv && s.Nv == Nv && UnboundedAt(A, b, c, Bv, Nv, s.pi, s.entering, s.d, s.xb))
  }

  /** The solutions of B XB = b and B^T pi = CB for a basis of a problem are its primal and dual solutions. */
  lemma {:induction false} BasisSolutions(A: seq<seq<int>>, b: seq<int>, c: seq<int>, Bv: seq<nat>, XB: seq<real>, pi: seq<real>)
    requires IsMatrix(A, |c|) && |A| >= 2 && |b| == |A| && InRange(Bv, |c|)
    requires Solves(RealMatrix(BasisMatrix(A, Bv)), Reals(b), XB)
    requires Solves(Transpose(RealMatrix(BasisMatrix(A, Bv)), |Bv|), Reals(BasisCosts(c, Bv)), pi)
    ensures Primal(A, b, c, Bv, XB) && Dual(A, b, c, Bv, pi)
    ensures |pi| == |A| && |XB| == |Bv| == |A|
  {
    var M := RealMatrix(BasisMatrix(A, Bv));
    assert |M[0]| == |Bv| && |M[0]| == |XB|;
  }

  /**
   * An OPTIMAL stop whose basis and non-basic list split all the columns of
   * the problem is optimal: no feasible x has a larger objective. (solve's
   * lists split the columns 0..6, so this is every column when c has seven.)
   */
  lemma {:induction false} OptimalStopBound(A: seq<seq<int>>, b: seq<int>, c: seq<int>, s: Stop, x: seq<real>)
    requires s.Optimal? && Certifies(A, b, c, s, s.Bv, s.Nv) && Partition(s.Bv, s.Nv, |c|)
    requires |x| == |c| && (forall j :: 0 <= j < |x| ==> x[j] >= 0.0)
    requires IsMatrix(RealMatrix(A), |x|) && MatVec(RealMatrix(A), x) == Reals(b)
    ensures Dot(Reals(c), x) <= s.obj
  {
    PartitionMeans(s.Bv, s.Nv, |c|);
    OptimalBound(A, b, c, s.Bv, s.Nv, s.pi, s.xb, x);
  }

  /** A certified stop over a partition of the columns carries that partition. */
  lemma {:induction false} CertifiesStop(A: seq<seq<int>>, b: seq<int>, c: seq<int>, s: Stop, Bv: seq<nat>, Nv: seq<nat>)
    requires Certifies(A, b, c, s, Bv, Nv) && Partition(Bv, Nv, 7)
    ensures s.Optimal? || s.Unbounded? ==> Partition(s.Bv, s.Nv, 7) && Certifies(A, b, c, s, s.Bv, s.Nv)
  {
  }
}

/**
 * The helper functions of the solver: reading one `<c>x<k>` term, taking a
 * column, the objective value, pricing (the entering variable) and the ratio
 * test (the leaving variable).
 */
module Utils {
  import opened Errors
  import opened Text
  import opened Dense

  /**
   * get_coef_and_x: the token is cut at its 'x' characters; the text before the
   * first 'x' is the coefficient and the text after it (up to any second 'x')
   * the 1-based variable number, returned as a 0-based index. Python evaluates
   * int(ci[0]) before it indexes ci[1], so a token without 'x' that is not a
   * number is a ValueError and a number without 'x' is an IndexError.
   */
  function GetCoefAndX(cxi: string): (r: Result<(int, int)>)
    ensures r.Ok? ==> 'x' in cxi
    ensures r.Err? ==> r.error == ValueError || r.error == IndexError
  {
    var ci := SplitOn(cxi, 'x');
    JoinSplitOn(cxi, 'x');
    match ParseInt(ci[0])
    case Err(e) => Err(e)
    case Ok(c) =>
      if |ci| < 2 then Err(IndexError)
      else
        assert JoinOn(ci, 'x')[|ci[0]|] == 'x';
        match ParseInt(ci[1])
        case Err(e) => Err(e)
        case Ok(k) => Ok((c, k - 1))
  }

  /** The term text written for coefficient `c` on variable number `k`. */
  function TermText(c: int, k: int): string {
    ShowInt(c) + "x" + ShowInt(k)
  }

  /** Reading a written term back gives its coefficient and its 0-based index. */
  lemma TermRoundTrip(c: int, k: int)
    ensures GetCoefAndX(TermText(c, k)) == Ok((c, k - 1))
  {
    SplitOnFirst(ShowInt(c), 'x', ShowInt(k));
    SplitOnNone(ShowInt(k), 'x');
    assert SplitOn(TermText(c, k), 'x') == [ShowInt(c), ShowInt(k)];
    ParseShowInt(c);
    ParseShowInt(k);
  }

  /** The number of columns of a NumPy matrix held as rows (none when it has no rows). */
  function Width<T>(V: seq<seq<T>>): nat {
    if V == [] then 0 else |V[0]|
  }

  /** col(V, i) = V[:, [i]]: column i as a one-column matrix; IndexError past the last column. */
  function Col(V: seq<seq<int>>, i: nat): (r: Result<seq<seq<int>>>)
    requires IsMatrix(V, Width(V))
    ensures r.Ok? <==> i < Width(V)
    ensures r.Ok? ==> IsMatrix(r.value, 1) && Column(r.value, 0) == Column(V, i)
  {
    if i < Width(V) then
      var cm := seq(|V|, row requires 0 <= row < |V| => [V[row][i]]);
      assert Column(cm, 0) == Column(V, i);
      Ok(cm)
    else Err(IndexError)
  }

  /**
   * obj(CB, XB) = CB . XB, the objective value of a basic solution: 0 for an
   * empty basis, and never negative when the basic costs and values are not.
   */
  function Obj(CB: seq<int>, XB: seq<real>): (r: real)
    requires |CB| == |XB|
    ensures CB == [] ==> r == 0.0
    ensures (forall i :: 0 <= i < |CB| ==> CB[i] >= 0 && XB[i] >= 0.0) ==> r >= 0.0
  {
    DotNonNegative(Reals(CB), XB);
    Dot(Reals(CB), XB)
  }

  /**
   * The reduced cost c_j - pi . A_j of column j: what one more unit of x_j
   * gains once the basic variables make up for it.
   */
  function ReducedCost(A: seq<seq<int>>, c: seq<int>, pi: seq<real>, j: nat): real
    requires IsMatrix(A, |c|) && |pi| == |A| && j < |c|
  {
    c[j] as real - Dot(pi, Reals(Column(A, j)))
  }

  /**
   * pricing: the reduced costs of the non-basic columns, in the order of Nv, and
   * the POSITION in Nv of the first largest one, with that largest value.
   * An empty Nv ends in cbar[0] on an empty array, an IndexError.
   */
  method Pricing(Nv: seq<nat>, A: seq<seq<int>>, pi: seq<real>, c: seq<int>) returns (r: Result<(real, nat)>)
    requires A != [] && IsMatrix(A, |c|) && |pi| == |A|
    ensures r.Err? <==> Nv == [] || exists k :: 0 <= k < |Nv| && Nv[k] >= |c|
    ensures r.Err? ==> r.error == IndexError
    ensures r.Ok? ==>
      var (best, p) := r.value;
      && p < |Nv|
      && best == ReducedCost(A, c, pi, Nv[p])
      && (forall k :: 0 <= k < |Nv| ==> ReducedCost(A, c, pi, Nv[k]) <= best)
      && (forall k :: 0 <= k < p ==> ReducedCost(A, c, pi, Nv[k]) < best)
  {
    var cbar: seq<real> := [];
    var jmax: nat := 0;
    var i := 0;
    while i < |Nv|
      invariant i <= |Nv| && |cbar| == i
      invariant forall k :: 0 <= k < i ==> Nv[k] < |c| && cbar[k] == ReducedCost(A, c, pi, Nv[k])
      invariant i == 0 ==> jmax == 0
      invariant i > 0 ==> jmax < i
      invariant i > 0 ==> forall k :: 0 <= k < i ==> cbar[k] <= cbar[jmax]
      invariant i > 0 ==> forall k :: 0 <= k < jmax ==> cbar[k] < cbar[jmax]
    {
      var j := Nv[i];
      var aj := Col(A, j);
      if aj.Err? {
        return Err(aj.error);
      }
      cbar := cbar + [c[j] as real - Dot(pi, Reals(Column(aj.value, 0)))];
      if cbar[i] > cbar[jmax] {
        jmax := i;
      }
      i := i + 1;
    }
    if |cbar| == 0 {
      return Err(IndexError);
    }
    return Ok((cbar[jmax], jmax));
  }

  predicate NonZero(d: seq<real>) {
    forall i :: 0 <= i < |d| ==> d[i] != 0.0
  }

  /** The ratio x_i / d_i of row i. */
  function Ratio(XB: seq<real>, d: seq<real>, i: nat): real
    requires |d| == |XB| && NonZero(d) && i < |XB|
  {
    XB[i] / d[i]
  }

  /** Row i passes comp_max_t's filter: the SIGN of its ratio, not d_i > 0. */
  predicate Eligible(XB: seq<real>, d: seq<real>, i: nat)
    requires |d| == |XB| && NonZero(d) && i < |XB|
  {
    Ratio(XB, d, i) >= 0.0
  }

  /** The eligible rows form a prefix 0..k-1 of the first n rows. */
  predicate EligiblePrefixUpTo(XB: seq<real>, d: seq<real>, n: nat)
    requires |d| == |XB| && NonZero(d) && n <= |XB|
  {
    forall i, j :: 0 <= i < j < n && Eligible(XB, d, j) ==> Eligible(XB, d, i)
  }

  /** The eligible rows form a prefix 0..k-1 of the rows. */
  predicate EligiblePrefix(XB: seq<real>, d: seq<real>)
    requires |d| == |XB| && NonZero(d)
  {
    EligiblePrefixUpTo(XB, d, |XB|)
  }

  /** t_i[k] == k for every k: the filtered list is indexed by row numbers. */
  predicate Identity(ti: seq<nat>) {
    forall k :: 0 <= k < |ti| ==> ti[k] == k
  }

  /**
   * The ratio test as evidently intended: -1 when no row is eligible, otherwise
   * the first eligible row whose ratio is smallest.
   */
  function RatioTestUpTo(XB: seq<real>, d: seq<real>, n: nat): (r: int)
    requires |d| == |XB| && NonZero(d) && n <= |XB|
    ensures -1 <= r < n
    ensures r == -1 <==> forall i :: 0 <= i < n ==> !Eligible(XB, d, i)
    ensures r >= 0 ==> Eligible(XB, d, r)
    ensures r >= 0 ==> forall i :: 0 <= i < n && Eligible(XB, d, i) ==> Ratio(XB, d, r) <= Ratio(XB, d, i)
    ensures r >= 0 ==> forall i :: 0 <= i < r && Eligible(XB, d, i) ==> Ratio(XB, d, r) < Ratio(XB, d, i)
  {
    if n == 0 then -1
    else
      var best := RatioTestUpTo(XB, d, n - 1);
      if Eligible(XB, d, n - 1) && (best == -1 || Ratio(XB, d, n - 1) < Ratio(XB, d, best)) then n - 1
      else best
  }

  function RatioTest(XB: seq<real>, d: seq<real>): int
    requires |d| == |XB| && NonZero(d)
  {
    RatioTestUpTo(XB, d, |XB|)
  }

  /** The first-smallest eligible row is unique: anything meeting RatioTest's contract is its result. */
  lemma RatioTestUnique(XB: seq<real>, d: seq<real>, r: nat)
    requires |d| == |XB| && NonZero(d) && r < |XB| && Eligible(XB, d, r)
    requires forall i :: 0 <= i < |XB| && Eligible(XB, d, i) ==> Ratio(XB, d, r) <= Ratio(XB, d, i)
    requires forall i :: 0 <= i < r && Eligible(XB, d, i) ==> Ratio(XB, d, r) < Ratio(XB, d, i)
    ensures RatioTest(XB, d) == r
  {
  }

  /**
   * The state of comp_max_t's filtering loop after the first n rows: t holds
   * the non-negative ratios and ti their rows; ti is 0..|ti|-1 exactly when the
   * eligible rows so far form a prefix, and otherwise its last row is past |ti|.
   */
  predicate Filtered(XB: seq<real>, d: seq<real>, t: seq<real>, ti: seq<nat>, n: nat)
    requires |d| == |XB| && NonZero(d) && n <= |XB|
  {
    && |t| == |ti|
    && (forall k :: 0 <= k < |ti| ==> ti[k] < n && t[k] == Ratio(XB, d, ti[k]))
    && (Identity(ti) <==> EligiblePrefixUpTo(XB, d, n))
    && (Identity(ti) ==> forall j :: 0 <= j < n ==> (Eligible(XB, d, j) <==> j < |ti|))
    && (!Identity(ti) ==> |ti| > 0 && ti[|ti| - 1] >= |ti|)
    && (ti == [] <==> forall j :: 0 <= j < n ==> !Eligible(XB, d, j))
  }

  /** One turn of the filtering loop keeps Filtered. */
  lemma FilteredStep(XB: seq<real>, d: seq<real>, t: seq<real>, ti: seq<nat>, n: nat)
    requires |d| == |XB| && NonZero(d) && n < |XB|
    requires Filtered(XB, d, t, ti, n)
    ensures Eligible(XB, d, n) ==> Filtered(XB, d, t + [Ratio(XB, d, n)], ti + [n], n + 1)
    ensures !Eligible(XB, d, n) ==> Filtered(XB, d, t, ti, n + 1)
  {
    if Identity(ti) && ti != [] {
      assert ti[|ti| - 1] == |ti| - 1;
    }
    assert |ti| <= n;
    if Eligible(XB, d, n) {
      var ti' := ti + [n];
      if Identity(ti) && |ti| == n {
        assert Identity(ti');
        assert EligiblePrefixUpTo(XB, d, n + 1);
      } else if Identity(ti) {
        assert !Eligible(XB, d, |ti|);
        assert ti'[|ti|] != |ti|;
        assert !EligiblePrefixUpTo(XB, d, n + 1);
      } else {
        var k :| 0 <= k < |ti| && ti[k] != k;
        assert ti'[k] != k;
        assert !EligiblePrefixUpTo(XB, d, n);
        assert !EligiblePrefixUpTo(XB, d, n + 1);
      }
    } else {
      assert EligiblePrefixUpTo(XB, d, n + 1) <==> EligiblePrefixUpTo(XB, d, n);
    }
  }

  /** When every key of the min is in range, its result is the corrected ratio test. */
  lemma FilteredMin(XB: seq<real>, d: seq<real>, t: seq<real>, ti: seq<nat>, bestPos: nat)
    requires |d| == |XB| && NonZero(d)
    requires Filtered(XB, d, t, ti, |XB|)
    requires forall q :: 0 <= q < |ti| ==> ti[q] < |t|
    requires bestPos < |ti|
    requires forall q :: 0 <= q < |ti| ==> t[ti[bestPos]] <= t[ti[q]]
    requires forall q :: 0 <= q < bestPos ==> t[ti[bestPos]] < t[ti[q]]
    ensures EligiblePrefix(XB, d)
    ensures RatioTest(XB, d) == ti[bestPos]
  {
    assert Identity(ti);
    var best := ti[bestPos];
    forall j | 0 <= j < |XB| && Eligible(XB, d, j) ensures Ratio(XB, d, best) <= Ratio(XB, d, j) {
      assert j < |ti| && ti[j] == j;
    }
    forall j | 0 <= j < best && Eligible(XB, d, j) ensures Ratio(XB, d, best) < Ratio(XB, d, j) {
      assert ti[j] == j;
    }
    RatioTestUnique(XB, d, best);
  }

  /**
   * comp_max_t as written. The filtered ratios go to t and their rows to t_i;
   * the result is min(t_i, key=lambda i: t[i]), which looks a ROW number up in
   * the FILTERED list. It is right when the eligible rows are a prefix of the
   * rows and an IndexError otherwise.
   */
  method CompMaxT(XB: seq<real>, d: seq<real>) returns (r: Result<int>)
    requires |d| == |XB| && NonZero(d)
    ensures r.Err? <==> !EligiblePrefix(XB, d)
    ensures r.Err? ==> r.error == IndexError
    ensures r.Ok? ==> r.value == RatioTest(XB, d)
  {
    var t: seq<real> := [];
    var ti: seq<nat> := [];
    var i := 0;
    while i < |XB|
      invariant i <= |XB|
      invariant Filtered(XB, d, t, ti, i)
    {
      var div := XB[i] / d[i];
      FilteredStep(XB, d, t, ti, i);
      if div >= 0.0 {
        t := t + [div];
        ti := ti + [i];
      }
      i := i + 1;
    }
    if |t| == 0 {
      return Ok(-1);
    }
    var v := MinByKey(ti, t);
    if v.Ok? {
      FilteredMin(XB, d, t, ti, v.value);
      return Ok(ti[v.value]);
    }
    assert !Identity(ti);
    return Err(IndexError);
  }

  /**
   * Python's min(t_i, key=lambda i: t[i]) over a non-empty t_i: the key of every
   * element is evaluated in order (an IndexError at the first one past the end
   * of t), and the first element with the smallest key wins. The result is the
   * POSITION of the winner in t_i.
   */
  method MinByKey(ti: seq<nat>, t: seq<real>) returns (r: Result<nat>)
    requires ti != []
    ensures r.Err? <==> exists q :: 0 <= q < |ti| && ti[q] >= |t|
    ensures r.Err? ==> r.error == IndexError
    ensures r.Ok? ==>
      && r.value < |ti|
      && (forall q :: 0 <= q < |ti| ==> ti[q] < |t| && t[ti[r.value]] <= t[ti[q]])
      && (forall q :: 0 <= q < r.value ==> t[ti[r.value]] < t[ti[q]])
  {
    if ti[0] >= |t| {
      return Err(IndexError);
    }
    var bestKey, bestPos := t[ti[0]], 0;
    var k := 1;
    while k < |ti|
      invariant 1 <= k <= |ti|
      invariant forall q :: 0 <= q < k ==> ti[q] < |t|
      invariant bestPos < k && bestKey == t[ti[bestPos]]
      invariant forall q :: 0 <= q < k ==> bestKey <= t[ti[q]]
      invariant forall q :: 0 <= q < bestPos ==> bestKey < t[ti[q]]
    {
      if ti[k] >= |t| {
        return Err(IndexError);
      }
      var key := t[ti[k]];
      if key < bestKey {
        bestKey, bestPos := key, k;
      }
      k := k + 1;
    }
    return Ok(bestPos);
  }

  /**
   * comp_max_t's doc-comment: stepping to t = x_r / d_r along d keeps the basic
   * solution non-negative, whenever it was non-negative before.
   */
  lemma RatioTestKeepsFeasible(XB: seq<real>, d: seq<real>)
    requires |d| == |XB| && NonZero(d)
    requires forall i :: 0 <= i < |XB| ==> XB[i] >= 0.0
    requires RatioTest(XB, d) >= 0
    ensures var t := Ratio(XB, d, RatioTest(XB, d));
      forall i :: 0 <= i < |XB| ==> XB[i] - t * d[i] >= 0.0
  {
    forall i | 0 <= i < |XB| ensures XB[i] - Ratio(XB, d, RatioTest(XB, d)) * d[i] >= 0.0 {
      RatioTestRowFeasible(XB, d, i);
    }
  }

  /** One row of RatioTestKeepsFeasible. */
  lemma RatioTestRowFeasible(XB: seq<real>, d: seq<real>, i: nat)
    requires |d| == |XB| && NonZero(d) && i < |XB|
    requires XB[i] >= 0.0
    requires RatioTest(XB, d) >= 0
    ensures XB[i] - Ratio(XB, d, RatioTest(XB, d)) * d[i] >= 0.0
  {
    var t := Ratio(XB, d, RatioTest(XB, d));
    assert Eligible(XB, d, i) ==> t <= Ratio(XB, d, i);
    StepRowNonNegative(XB[i], d[i], t);
  }

  /** The arithmetic of one row of RatioTestKeepsFeasible. */
  lemma StepRowNonNegative(x: real, di: real, t: real)
    requires x >= 0.0 && di != 0.0 && t >= 0.0
    requires x / di >= 0.0 ==> t <= x / di
    ensures x - t * di >= 0.0
  {
    if di > 0.0 {
      DivNonNegative(x, di);
      assert t * di <= (x / di) * di;
    } else {
      assert t * di <= 0.0;
    }
  }

  /**
   * When the ratio test finds no eligible row from a non-negative basic
   * solution, every step t >= 0 along d stays non-negative: the LP is unbounded
   * along that ray.
   */
  lemma NoEligibleRowIsRay(XB: seq<real>, d: seq<real>, t: real)
    requires |d| == |XB| && NonZero(d)
    requires forall i :: 0 <= i < |XB| ==> XB[i] >= 0.0
    requires RatioTest(XB, d) == -1 && t >= 0.0
    ensures forall i :: 0 <= i < |XB| ==> XB[i] - t * d[i] >= 0.0
  {
    forall i | 0 <= i < |XB| ensures XB[i] - t * d[i] >= 0.0 {
      assert !Eligible(XB, d, i);
      RayRow(XB[i], d[i], t);
    }
  }

  lemma RayRow(x: real, di: real, t: real)
    requires x >= 0.0 && di != 0.0 && t >= 0.0 && x / di < 0.0
    ensures x - t * di >= 0.0
  {
    assert di < 0.0 by {
      if di > 0.0 {
        DivNonNegative(x, di);
        assert false;
      }
    }
    assert t * di <= 0.0;
  }

  lemma DivNonNegative(x: real, y: real)
    requires x >= 0.0 && y > 0.0
    ensures x / y >= 0.0
  {
  }

  /** Row i blocks the step along d: d_i > 0, so x_i - t d_i falls as t grows. */
  predicate Blocking(d: seq<real>, i: nat)
    requires i < |d|
  {
    d[i] > 0.0
  }

  /** Stepping t along d keeps the basic solution non-negative. */
  predicate StepFeasible(XB: seq<real>, d: seq<real>, t: real)
    requires |d| == |XB|
  {
    forall i :: 0 <= i < |XB| ==> XB[i] - t * d[i] >= 0.0
  }

  /**
   * The ratio test that comp_max_t's doc comment describes, over the first n
   * rows: -1 when no row blocks, otherwise the first blocking row with the
   * smallest ratio. A row with x_i = 0 and d_i < 0, whose ratio passes
   * comp_max_t's `div >= 0`, does not block and is skipped.
   */
  function BlockingRatioTestUpTo(XB: seq<real>, d: seq<real>, n: nat): (r: int)
    requires |d| == |XB| && n <= |XB|
    ensures -1 <= r < n
    ensures r == -1 <==> forall i :: 0 <= i < n ==> !Blocking(d, i)
    ensures r >= 0 ==> Blocking(d, r)
    ensures r >= 0 ==> forall i :: 0 <= i < n && Blocking(d, i) ==> XB[r] / d[r] <= XB[i] / d[i]
    ensures r >= 0 ==> forall i :: 0 <= i < r && Blocking(d, i) ==> XB[r] / d[r] < XB[i] / d[i]
  {
    if n == 0 then -1
    else
      var best := BlockingRatioTestUpTo(XB, d, n - 1);
      if Blocking(d, n - 1) && (best == -1 || XB[n - 1] / d[n - 1] < XB[best] / d[best]) then n - 1
      else best
  }

  function BlockingRatioTest(XB: seq<real>, d: seq<real>): int
    requires |d| == |XB|
  {
    BlockingRatioTestUpTo(XB, d, |XB|)
  }

  /**
   * The first half of comp_max_t's doc comment, for the corrected test: from a
   * non-negative XB the step to the chosen row is non-negative and keeps
   * XB - t d >= 0.
   */
  lemma BlockingRatioTestFeasible(XB: seq<real>, d: seq<real>)
    requires |d| == |XB|
    requires forall i :: 0 <= i < |XB| ==> XB[i] >= 0.0
    requires BlockingRatioTest(XB, d) >= 0
    ensures var r := BlockingRatioTest(XB, d);
      XB[r] / d[r] >= 0.0 && StepFeasible(XB, d, XB[r] / d[r])
  {
    var r := BlockingRatioTest(XB, d);
    var s := XB[r] / d[r];
    DivNonNegative(XB[r], d[r]);
    forall i | 0 <= i < |XB| ensures XB[i] - s * d[i] >= 0.0 {
      if Blocking(d, i) {
        assert s <= XB[i] / d[i];
      }
      BlockingRowFeasible(XB[i], d[i], s);
    }
  }

  /** With no blocking row, every step t >= 0 keeps XB - t d >= 0: the LP is unbounded along d. */
  lemma BlockingRatioTestRay(XB: seq<real>, d: seq<real>, t: real)
    requires |d| == |XB|
    requires forall i :: 0 <= i < |XB| ==> XB[i] >= 0.0
    requires BlockingRatioTest(XB, d) == -1 && t >= 0.0
    ensures StepFeasible(XB, d, t)
  {
    forall i | 0 <= i < |XB| ensures XB[i] - t * d[i] >= 0.0 {
      assert !Blocking(d, i);
      BlockingRowFeasible(XB[i], d[i], t);
    }
  }

  /**
   * The second half of comp_max_t's doc comment, for the corrected test: no
   * step t' >= 0 larger than the chosen row's ratio keeps XB - t' d >= 0.
   */
  lemma BlockingRatioTestMaximal(XB: seq<real>, d: seq<real>)
    requires |d| == |XB|
    requires BlockingRatioTest(XB, d) >= 0
    ensures var r := BlockingRatioTest(XB, d);
      forall t' :: t' >= 0.0 && StepFeasible(XB, d, t') ==> t' <= XB[r] / d[r]
  {
    var r := BlockingRatioTest(XB, d);
    forall t' | t' >= 0.0 && StepFeasible(XB, d, t') ensures t' <= XB[r] / d[r] {
      assert XB[r] - t' * d[r] >= 0.0;
      DivBound(XB[r], d[r], t');
    }
  }

  /** One row of BlockingRatioTestFeasible. */
  lemma BlockingRowFeasible(x: real, di: real, t: real)
    requires x >= 0.0 && t >= 0.0
    requires di > 0.0 ==> t <= x / di
    ensures x - t * di >= 0.0
  {
    if di > 0.0 {
      assert t * di <= (x / di) * di;
    } else {
      assert t * di <= 0.0;
    }
  }

  /** t * y <= x with y > 0 bounds t by x / y. */
  lemma DivBound(x: real, y: real, t: real)
    requires y > 0.0 && t * y <= x
    ensures t <= x / y
  {
  }

  /** On a row with x_i > 0 or d_i > 0, comp_max_t's filter is the blocking test. */
  lemma EligibleBlocking(XB: seq<real>, d: seq<real>, i: nat)
    requires |d| == |XB| && NonZero(d) && i < |XB| && XB[i] >= 0.0
    requires XB[i] > 0.0 || d[i] > 0.0
    ensures Eligible(XB, d, i) <==> Blocking(d, i)
  {
    if d[i] > 0.0 {
      DivNonNegative(XB[i], d[i]);
    } else {
      assert XB[i] / d[i] < 0.0 by {
        assert XB[i] / d[i] * d[i] == XB[i];
      }
    }
  }

  /**
   * Without a row where x_i = 0 and d_i < 0 (a non-degenerate basis), the
   * ratio test that the solver runs is the corrected one.
   */
  lemma {:induction false} RatioTestNondegenerate(XB: seq<real>, d: seq<real>, n: nat)
    requires |d| == |XB| && NonZero(d) && n <= |XB|
    requires forall i :: 0 <= i < |XB| ==> XB[i] >= 0.0
    requires forall i :: 0 <= i < |XB| ==> XB[i] > 0.0 || d[i] > 0.0
    ensures RatioTestUpTo(XB, d, n) == BlockingRatioTestUpTo(XB, d, n)
  {
    if n > 0 {
      RatioTestNondegenerate(XB, d, n - 1);
      EligibleBlocking(XB, d, n - 1);
    }
  }

  /** An UNBOUNDED answer of the solver's ratio test is also one of the corrected test. */
  lemma RatioTestUnboundedBlocking(XB: seq<real>, d: seq<real>)
    requires |d| == |XB| && NonZero(d)
    requires forall i :: 0 <= i < |XB| ==> XB[i] >= 0.0
    requires RatioTest(XB, d) == -1
    ensures BlockingRatioTest(XB, d) == -1
  {
    forall i | 0 <= i < |XB| ensures !Blocking(d, i) {
      assert !Eligible(XB, d, i);
      if d[i] > 0.0 {
        DivNonNegative(XB[i], d[i]);
      }
    }
  }

  /**
   * An input on which comp_max_t as written stops short of the largest step:
   * row 0 (x = 0, d = -1) passes its filter with ratio 0, so the step is 0,
   * although the step 1 still keeps XB - t d >= 0 and the corrected test
   * chooses row 1.
   */
  lemma CompMaxTDegenerateInput()
    ensures EligiblePrefix([0.0, 1.0], [-1.0, 1.0])
    ensures RatioTest([0.0, 1.0], [-1.0, 1.0]) == 0 && Ratio([0.0, 1.0], [-1.0, 1.0], 0) == 0.0
    ensures StepFeasible([0.0, 1.0], [-1.0, 1.0], 1.0)
    ensures BlockingRatioTest([0.0, 1.0], [-1.0, 1.0]) == 1
  {
    assert Eligible([0.0, 1.0], [-1.0, 1.0], 0) && Eligible([0.0, 1.0], [-1.0, 1.0], 1);
    assert !Blocking([-1.0, 1.0], 0) && Blocking([-1.0, 1.0], 1);
  }

  /** An input on which comp_max_t as written raises: rows 0 and 1 have ratios -1 and 2. */
  lemma CompMaxTNotPrefixInput()
    ensures !EligiblePrefix([1.0, 2.0], [-1.0, 1.0])
    ensures RatioTest([1.0, 2.0], [-1.0, 1.0]) == 1
  {
    assert !Eligible([1.0, 2.0], [-1.0, 1.0], 0) && Eligible([1.0, 2.0], [-1.0, 1.0], 1);
  }
}

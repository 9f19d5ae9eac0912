/**
 * The class Model of model.py: its fields, and the methods that fill them
 * from the lines of an LP file (get_coefs, make_standard, read), take a basis
 * (getBNCB, find_basic_feas_sol) and run the revised simplex method
 * (steps2to5, solve). Each method is proved to agree with the functions of
 * ModelSpec and Simplex, which carry the properties.
 */
module LpModel {
  import opened Errors
  import opened Text
  import opened Dense
  import opened Utils
  import opened ModelSpec
  import opened Simplex

  /**
   * The body of make_standard's loop on the words of one row, with the
   * variable count n: the rewritten row and the count after it.
   */
  method RewriteRow(constr: seq<string>, n: int) returns (r: Result<(seq<string>, int)>)
    ensures r == StandardRow(constr, n)
  {
    var l := |constr|;
    var ri := PyIndex(l - 2, l);
    if ri.None? {
      return Err(IndexError);
    }
    var symb := "";
    if Contains(constr[ri.value], "<=") {
      symb := "+";
    } else if Contains(constr[ri.value], ">=") {
      symb := "-";
    }
    var nc := PySlice(constr, 0, l - 2);
    var n' := n;
    if symb != "" {
      n' := n' + 1;
      nc := nc + [symb, TermText(1, n'), "=", constr[l - 1]];
    } else {
      nc := nc + PySlice(constr, l - 2, l);
    }
    return Ok((nc, n'));
  }

  class Model {
    var c: seq<int>
    var A: seq<seq<int>>
    var b: seq<int>
    /** Number of constraints (never updated by the methods modelled). */
    var m: int
    /** Number of variables. */
    var n: int
    /** The standardised constraint rows make_standard leaves. */
    var constraints: seq<seq<string>>

    /** The fields as a value. */
    function State(): ModelData
      reads this
    {
      ModelData(c, A, b, m, n, constraints)
    }

    /** An empty model: no costs, no rows, no variables. */
    constructor()
      ensures State() == ModelData([], [], [], 0, 0, [])
    {
      c, A, b, m, n, constraints := [], [], [], 0, 0, [];
    }

    /**
     * get_coefs: fills a zero vector of n entries with the coefficient of every
     * term token of `s`, one token at a time.
     */
    method GetCoefs(s: seq<string>) returns (r: Result<seq<int>>)
      ensures r == Coefs(n, s)
    {
      if n < 0 {
        return Err(ValueError);
      }
      var coefs := new int[n](_ => 0);
      var i := 0;
      while i < |s|
        invariant 0 <= i <= |s|
        invariant CoefWrites(n, s[..i]).Ok?
        invariant coefs[..] == Scatter(Filled(n, 0), CoefWrites(n, s[..i]).value)
      {
        var v := s[i];
        CoefWritesStep(n, s, i);
        if v != "+" && v != "-" {
          var cx := GetCoefAndX(v);
          if cx.Err? {
            CoefWritesErrPrefix(n, s, i + 1);
            return Err(cx.error);
          }
          var (cf, x) := cx.value;
          var j := PyIndex(x, n);
          if j.None? {
            CoefWritesErrPrefix(n, s, i + 1);
            return Err(IndexError);
          }
          ghost var ws := CoefWrites(n, s[..i]).value;
          assert TermWrite(n, v) == Ok((j.value, cf));
          assert (ws + [(j.value, cf)])[..|ws|] == ws;
          coefs[j.value] := cf;
        }
        i := i + 1;
      }
      assert s[..i] == s;
      return Ok(coefs[..]);
    }
    /**
     * make_standard: from line 3 up to the first line mentioning `bounds`,
     * rewrites each constraint row into equality form, numbering a new slack
     * or surplus variable for each `<=` or `>=` row. Returns the exception
     * raised, if any, with the fields as they stood when it was raised.
     */
    method MakeStandard(lines: seq<string>) returns (err: Option<PyError>)
      modifies this
      ensures var r := MakeStandardSpec(lines, old(n));
        constraints == r.rows && n == r.n && err == r.error
      ensures c == old(c) && A == old(A) && b == old(b) && m == old(m)
    {
      var i := 3;
      constraints := [];
      while i < |lines|
        invariant 3 <= i
        invariant Scan(IsBoundsLine, StandardLine, lines, i, n, constraints) == MakeStandardSpec(lines, old(n))
        invariant c == old(c) && A == old(A) && b == old(b) && m == old(m)
        decreases |lines| - i
      {
        if IsBoundsLine(lines[i]) {
          return None;
        }
        var step := RewriteRow(Split(lines[i]), n);
        if step.Err? {
          return Some(step.error);
        }
        var nc;
        nc, n := step.value.0, step.value.1;
        if constraints != [] && |nc| != |constraints[0]| {
          return Some(ValueError);
        }
        constraints := constraints + [nc];
        i := i + 1;
      }
      return Some(IndexError);
    }
    /**
     * read, on the lines of the file: n from the bounds section, then
     * make_standard, c from the objective line, and one row of A and one entry
     * of b per standardised row. Returns the exception raised, if any, with
     * the fields as they stood when it was raised.
     */
    method Read(lines: seq<string>) returns (err: Option<PyError>)
      modifies this
      ensures (State(), err) == ReadSpec(old(State()), lines)
    {
      var nb := CompNbX(lines);
      if nb.Err? {
        return Some(nb.error);
      }
      n := nb.value;
      err := MakeStandard(lines);
      if err.Some? {
        return;
      }
      ghost var stop := MakeStandardRows(lines, nb.value);
      var fo := Split(lines[1]);
      var cr := GetCoefs(fo);
      if cr.Err? {
        return Some(cr.error);
      }
      c := cr.value;
      err := AddConstraintRows(IterRows(constraints));
    }

    /**
     * read's row loop: int() of each row's last word goes to b, get_coefs of
     * the words before its last two to A (np.vstack refuses a row of another
     * width).
     */
    method AddConstraintRows(rows: seq<seq<string>>) returns (err: Option<PyError>)
      modifies this
      ensures (State(), err) == AddRows(old(State()), rows)
    {
      var k := 0;
      while k < |rows|
        invariant k <= |rows|
        invariant AddRows(State(), rows[k..]) == AddRows(old(State()), rows)
        decreases |rows| - k
      {
        var constr := rows[k];
        var l := |constr|;
        var li := PyIndex(l - 1, l);
        if li.None? {
          return Some(IndexError);
        }
        var bj := ParseInt(constr[li.value]);
        if bj.Err? {
          return Some(bj.error);
        }
        var coefs := GetCoefs(PySlice(constr, 0, l - 2));
        if coefs.Err? {
          return Some(coefs.error);
        }
        if A != [] && |A[0]| != |coefs.value| {
          return Some(ValueError);
        }
        assert rows[k..][1..] == rows[k + 1..];
        A := A + [coefs.value];
        b := b + [bj.value];
        k := k + 1;
      }
      return None;
    }

    /**
     * getBNCB: the columns `cols` of A side by side (np.hstack) and their
     * costs. An A of fewer than two rows is a one-dimensional NumPy array,
     * and taking a column of it raises IndexError, as do an empty cols, a
     * column past A's width and a cost past the end of c.
     */
    method GetBNCB(cols: seq<nat>) returns (r: Result<(seq<seq<int>>, seq<int>)>)
      requires IsMatrix(A, Width(A))
      ensures r.Err? <==> cols == [] || |A| < 2 || !InRange(cols, Width(A)) || !InRange(cols, |c|)
      ensures r.Err? ==> r.error == IndexError
      ensures r.Ok? ==> InRange(cols, Width(A)) && r.value == (BasisMatrix(A, cols), BasisCosts(c, cols))
    {
      if cols == [] || |A| < 2 {
        return Err(IndexError);
      }
      var a0 := Col(A, cols[0]);
      if a0.Err? {
        return Err(a0.error);
      }
      if cols[0] >= |c| {
        return Err(IndexError);
      }
      var B := a0.value;
      var CB := [c[cols[0]]];
      BasisMatrixFirst(A, cols[0], B);
      assert cols[..1] == [cols[0]];
      var i := 1;
      while i < |cols|
        invariant 1 <= i <= |cols|
        invariant InRange(cols[..i], Width(A)) && InRange(cols[..i], |c|)
        invariant B == BasisMatrix(A, cols[..i]) && CB == BasisCosts(c, cols[..i])
      {
        var ai := Col(A, cols[i]);
        if ai.Err? {
          return Err(ai.error);
        }
        if cols[i] >= |c| {
          return Err(IndexError);
        }
        BasisMatrixNext(A, cols[..i], cols[i], ai.value);
        assert cols[..i + 1] == cols[..i] + [cols[i]];
        B := HStack(B, ai.value);
        CB := CB + [c[cols[i]]];
        i := i + 1;
      }
      assert cols[..i] == cols;
      return Ok((B, CB));
    }

    /**
     * find_basic_feas_sol: the fixed starting basis of columns 0, 2 and 6
     * (non-basic 1, 3, 4 and 5), its matrix and costs, and XB solving B XB = b
     * (compXB). The solver's failure is the LinAlgError it raises.
     */
    method FindBasicFeasSol(solve: Solver) returns (err: Option<PyError>, B: seq<seq<int>>, Bv: array<nat>, Nv: array<nat>, CB: seq<int>, XB: seq<real>)
      requires SoundSolver(solve) && IsMatrix(A, |c|)
      ensures fresh(Bv) && fresh(Nv) && Bv != Nv
      ensures Bv[..] == [0, 2, 6] && Nv[..] == [1, 3, 4, 5]
      ensures err == Some(IndexError) <==> |A| < 2 || |c| < 7
      ensures err.None? ==> |A| >= 2 && InRange(Bv[..], |c|) && B == BasisMatrix(A, Bv[..]) && CB == BasisCosts(c, Bv[..])
      ensures err.None? ==> Solves(RealMatrix(B), Reals(b), XB)
      ensures err.Some? ==> err == Some(IndexError) || err == Some(LinAlgError)
    {
      Bv := new nat[3] [0, 2, 6];
      Nv := new nat[4] [1, 3, 4, 5];
      B, CB, XB := [], [], [];
      var r := GetBNCB(Bv[..]);
      if r.Err? {
        return Some(r.error), B, Bv, Nv, CB, XB;
      }
      B, CB := r.value.0, r.value.1;
      var x := solve(RealMatrix(B), Reals(b));
      if x.None? {
        return Some(LinAlgError), B, Bv, Nv, CB, XB;
      }
      XB := x.value;
      err := None;
    }

    /**
     * solve: find_basic_feas_sol, then steps2to5 from that basis. It fails
     * with IndexError when the starting basis does not fit the model, and
     * otherwise only where comp_max_t raises it on a pass; an OPTIMAL or UNBOUNDED stop carries its certificate for a basis
     * that, with the non-basic list, still splits the columns 0..6.
     */
    method Solve(solve: Solver, fuel: nat) returns (s: Stop)
      requires SoundSolver(solve) && IsMatrix(A, |c|) && |b| == |A|
      ensures |A| < 2 || |c| < 7 ==> s == Failed(IndexError)
      ensures s == Failed(IndexError) ==> |A| < 2 || |c| < 7 || RatioIndexErrorSomewhere(A, b, c)
      ensures s.Failed? ==> s.error == IndexError || s.error == LinAlgError
      ensures s.Optimal? || s.Unbounded? ==> Partition(s.Bv, s.Nv, 7) && Certifies(A, b, c, s, s.Bv, s.Nv)
    {
      var err, B, Bv, Nv, CB, XB := FindBasicFeasSol(solve);
      if err.Some? {
        return Failed(err.value);
      }
      s := Iterate(B, Bv, Nv, CB, XB, solve, fuel);
      if s == Failed(IndexError) {
        RatioIndexErrorFound(A, b, c, Bv[..], Nv[..]);
      }
    }

    /** steps2to5 from the initial basis find_basic_feas_sol set up. */
    method Iterate(B: seq<seq<int>>, Bv: array<nat>, Nv: array<nat>, CB: seq<int>, XB: seq<real>, solve: Solver, fuel: nat) returns (s: Stop)
      requires SoundSolver(solve) && Bv != Nv
      requires IsMatrix(A, |c|) && |A| >= 2 && |b| == |A| && |c| >= 7
      requires Bv[..] == [0, 2, 6] && Nv[..] == [1, 3, 4, 5]
      requires B == BasisMatrix(A, Bv[..]) && CB == BasisCosts(c, Bv[..])
      requires Solves(RealMatrix(B), Reals(b), XB)
      modifies Bv, Nv
      ensures s.Failed? ==> s.error == LinAlgError || s.error == IndexError
      ensures s == Failed(IndexError) ==> Partition(Bv[..], Nv[..], 7) && RatioIndexError(A, b, c, Bv[..], Nv[..])
      ensures s.Optimal? || s.Unbounded? ==> Partition(s.Bv, s.Nv, 7) && Certifies(A, b, c, s, s.Bv, s.Nv)
    {
      InitialPartition();
      assert InRange(Nv[..], |c|);
      s := Steps2To5(B, Bv, Nv, CB, XB, solve, fuel);
      assert Partition(Bv[..], Nv[..], 7);
      CertifiesStop(A, b, c, s, Bv[..], Nv[..]);
    }

    /**
     * steps2to5, its tail recursion unrolled into a loop of at most `fuel`
     * pivots; every pass is Steps2To5Choose (steps 2 to 5), then Pivot (step 6).
     */
    method Steps2To5(B0: seq<seq<int>>, Bv: array<nat>, Nv: array<nat>, CB0: seq<int>, XB0: seq<real>, solve: Solver, fuel: nat) returns (s: Stop)
      requires SoundSolver(solve) && Bv != Nv
      requires IsMatrix(A, |c|) && |A| >= 2 && |b| == |A|
      requires InRange(Bv[..], |c|)
      requires B0 == BasisMatrix(A, Bv[..]) && CB0 == BasisCosts(c, Bv[..])
      requires Solves(RealMatrix(B0), Reals(b), XB0)
      modifies Bv, Nv
      ensures multiset(Bv[..]) + multiset(Nv[..]) == old(multiset(Bv[..]) + multiset(Nv[..]))
      ensures InRange(Bv[..], |c|)
      ensures InRange(old(Nv[..]), |c|) ==> InRange(Nv[..], |c|)
      ensures Certifies(A, b, c, s, Bv[..], Nv[..])
      ensures s.Failed? ==> s.error == LinAlgError || s.error == IndexError
      ensures s == Failed(IndexError) ==> Nv.Length == 0 || !InRange(old(Nv[..]), |c|) || RatioIndexError(A, b, c, Bv[..], Nv[..])
    {
      var B, CB, XB := B0, CB0, XB0;
      var f := fuel;
      while f > 0
        invariant InRange(Bv[..], |c|)
        invariant B == BasisMatrix(A, Bv[..]) && CB == BasisCosts(c, Bv[..])
        invariant Solves(RealMatrix(B), Reals(b), XB)
        invariant multiset(Bv[..]) + multiset(Nv[..]) == old(multiset(Bv[..]) + multiset(Nv[..]))
        invariant InRange(old(Nv[..]), |c|) ==> InRange(Nv[..], |c|)
        decreases f
      {
        var stop, jin, iout, pi, d := Steps2To5Choose(B, Bv[..], Nv[..], CB, XB, solve);
        if stop.Some? {
          return stop.value;
        }
        var solved;
        solved, B, CB, XB := Pivot(Bv, Nv, jin, iout, solve);
        if !solved {
          return Failed(LinAlgError);
        }
        f := f - 1;
      }
      return OutOfFuel;
    }

    /**
     * Step 6 of steps2to5: swaps the entering column Nv[jin] and the leaving
     * column Bv[iout] between the arrays, then rebuilds B and CB for the new
     * basis (getBNCB) and solves B XB = b (compXB), which fails with
     * LinAlgError when the new B is singular.
     */
    method Pivot(Bv: array<nat>, Nv: array<nat>, jin: nat, iout: nat, solve: Solver)
      returns (solved: bool, B: seq<seq<int>>, CB: seq<int>, XB: seq<real>)
      requires SoundSolver(solve) && Bv != Nv
      requires IsMatrix(A, |c|) && |A| >= 2
      requires iout < Bv.Length && jin < Nv.Length
      requires InRange(Bv[..], |c|) && Nv[jin] < |c|
      modifies Bv, Nv
      ensures Bv[..] == old(Bv[..])[iout := old(Nv[jin])] && Nv[..] == old(Nv[..])[jin := old(Bv[iout])]
      ensures multiset(Bv[..]) + multiset(Nv[..]) == old(multiset(Bv[..]) + multiset(Nv[..]))
      ensures InRange(Bv[..], |c|)
      ensures InRange(old(Nv[..]), |c|) ==> InRange(Nv[..], |c|)
      ensures B == BasisMatrix(A, Bv[..]) && CB == BasisCosts(c, Bv[..])
      ensures solved ==> Solves(RealMatrix(B), Reals(b), XB)
    {
      SwapColumns(Bv, Nv, iout, jin);
      var r := GetBNCB(Bv[..]);
      B, CB := r.value.0, r.value.1;
      var xo := solve(RealMatrix(B), Reals(b));
      solved := xo.Some?;
      XB := if solved then xo.value else [];
    }

    /**
     * Steps 2 to 5 of steps2to5 on the basis Bv: solves pi B = CB (B^T pi =
     * CB), a LinAlgError when B is singular; then PriceAndStep. OPTIMAL,
     * UNBOUNDED and IndexError each stop exactly under their condition.
     */
    method Steps2To5Choose(B: seq<seq<int>>, Bv: seq<nat>, Nv: seq<nat>, CB: seq<int>, XB: seq<real>, solve: Solver)
      returns (s: Option<Stop>, jin: nat, iout: nat, pi: seq<real>, d: seq<real>)
      requires SoundSolver(solve)
      requires IsMatrix(A, |c|) && |A| >= 2 && |b| == |A|
      requires InRange(Bv, |c|)
      requires B == BasisMatrix(A, Bv) && CB == BasisCosts(c, Bv)
      requires Solves(RealMatrix(B), Reals(b), XB)
      ensures s.Some? ==> Certifies(A, b, c, s.value, Bv, Nv) && !s.value.OutOfFuel?
      ensures s.Some? && s.value.Failed? ==> s.value.error == LinAlgError || s.value.error == IndexError
      ensures solve(Transpose(RealMatrix(B), |CB|), Reals(CB)).Some? ==> pi == solve(Transpose(RealMatrix(B), |CB|), Reals(CB)).value
      ensures s.Some? && s.value.Optimal? <==> Nv != [] && OptimalAt(A, b, c, Bv, Nv, pi, XB)
      ensures s.Some? && s.value.Unbounded? <==> UnboundedAt(A, b, c, Bv, Nv, pi, jin, d, XB)
      ensures s == Some(Failed(IndexError)) <==>
        || (solve(Transpose(RealMatrix(B), |CB|), Reals(CB)).Some? && (Nv == [] || !InRange(Nv, |c|)))
        || RatioIndexErrorAt(A, b, c, Bv, Nv, pi, jin, d, XB)
      ensures s == Some(ZeroDivisor) ==> |d| == |XB| && !NonZero(d)
      ensures s == Some(Failed(IndexError)) ==> Nv == [] || !InRange(Nv, |c|) || RatioIndexError(A, b, c, Bv, Nv)
      ensures s.None? ==> PivotAt(A, b, c, Bv, Nv, pi, jin, d, XB, iout) && iout < |Bv|
    {
      jin, iout, pi, d := 0, 0, [], [];
      var po := solve(Transpose(RealMatrix(B), |CB|), Reals(CB));
      if po.None? {
        return Some(Failed(LinAlgError)), jin, iout, pi, d;
      }
      pi := po.value;
      BasisSolutions(A, b, c, Bv, XB, pi);
      s, jin, iout, d := PriceAndStep(B, Bv, Nv, CB, XB, pi, solve);
    }

    /**
     * Steps 3 to 5 of steps2to5, once pi is the dual solution of the basis:
     * pricing (an IndexError for an empty or out-of-range Nv), OPTIMAL
     * exactly when the largest reduced cost is negative, and otherwise steps
     * 4 and 5 (Steps4To5) with the first column of largest reduced cost.
     */
    method PriceAndStep(B: seq<seq<int>>, Bv: seq<nat>, Nv: seq<nat>, CB: seq<int>, XB: seq<real>, pi: seq<real>, solve: Solver)
      returns (s: Option<Stop>, jin: nat, iout: nat, d: seq<real>)
      requires SoundSolver(solve)
      requires Primal(A, b, c, Bv, XB) && Dual(A, b, c, Bv, pi) && |pi| == |A| && |XB| == |Bv|
      requires B == BasisMatrix(A, Bv) && CB == BasisCosts(c, Bv)
      ensures s.Some? ==> Certifies(A, b, c, s.value, Bv, Nv) && !s.value.OutOfFuel?
      ensures s.Some? && s.value.Failed? ==> s.value.error == LinAlgError || s.value.error == IndexError
      ensures s.Some? && s.value.Optimal? <==> Nv != [] && OptimalAt(A, b, c, Bv, Nv, pi, XB)
      ensures s.Some? && s.value.Unbounded? <==> UnboundedAt(A, b, c, Bv, Nv, pi, jin, d, XB)
      ensures s == Some(Failed(IndexError)) <==> Nv == [] || !InRange(Nv, |c|) || RatioIndexErrorAt(A, b, c, Bv, Nv, pi, jin, d, XB)
      ensures s == Some(ZeroDivisor) ==> |d| == |XB| && !NonZero(d)
      ensures s.None? ==> PivotAt(A, b, c, Bv, Nv, pi, jin, d, XB, iout) && iout < |Bv|
    {
      jin, iout, d := 0, 0, [];
      var pr := Pricing(Nv, A, pi, c);
      if pr.Err? {
        return Some(Failed(pr.error)), jin, iout, d;
      }
      var cjbar := pr.value.0;
      jin := pr.value.1;
      if cjbar < 0.0 {
        return Some(Optimal(Obj(CB, XB), Bv, Nv, pi, XB)), jin, iout, d;
      }
      s, iout, d := Steps4To5(B, Bv, Nv, CB, XB, pi, jin, solve);
    }

    /**
     * Steps 4 and 5 of steps2to5, for the entering column j = Nv[jin] that
     * pricing chose: solves B d = A_j (LinAlgError when B is singular), then
     * runs comp_max_t as written. Each stop happens exactly under its
     * condition: ZeroDivisor at a zero entry of d, IndexError when the rows
     * with a non-negative ratio are not a prefix of the rows, UNBOUNDED when
     * no row limits the step; otherwise row iout, the ratio test's choice,
     * leaves.
     */
    method Steps4To5(B: seq<seq<int>>, Bv: seq<nat>, Nv: seq<nat>, CB: seq<int>, XB: seq<real>, pi: seq<real>, jin: nat, solve: Solver)
      returns (s: Option<Stop>, iout: nat, d: seq<real>)
      requires SoundSolver(solve)
      requires Primal(A, b, c, Bv, XB) && Dual(A, b, c, Bv, pi) && |pi| == |A|
      requires B == BasisMatrix(A, Bv) && CB == BasisCosts(c, Bv)
      requires jin < |Nv| && InRange(Nv, |c|)
      requires forall k :: 0 <= k < |Nv| ==> ReducedCost(A, c, pi, Nv[k]) <= ReducedCost(A, c, pi, Nv[jin])
      requires forall k :: 0 <= k < jin ==> ReducedCost(A, c, pi, Nv[k]) < ReducedCost(A, c, pi, Nv[jin])
      requires ReducedCost(A, c, pi, Nv[jin]) >= 0.0
      ensures s.Some? ==> Certifies(A, b, c, s.value, Bv, Nv) && !s.value.OutOfFuel? && !s.value.Optimal?
      ensures s.Some? && s.value.Failed? ==> s.value.error == LinAlgError || s.value.error == IndexError
      ensures s == Some(Failed(LinAlgError)) <==> solve(RealMatrix(B), Reals(Column(A, Nv[jin]))).None?
      ensures solve(RealMatrix(B), Reals(Column(A, Nv[jin]))).Some? ==>
        d == solve(RealMatrix(B), Reals(Column(A, Nv[jin]))).value && |d| == |XB|
      ensures s == Some(ZeroDivisor) <==> solve(RealMatrix(B), Reals(Column(A, Nv[jin]))).Some? && !NonZero(d)
      ensures s == Some(Failed(IndexError)) <==> RatioIndexErrorAt(A, b, c, Bv, Nv, pi, jin, d, XB)
      ensures s.Some? && s.value.Unbounded? <==> UnboundedAt(A, b, c, Bv, Nv, pi, jin, d, XB)
      ensures s.None? ==> PivotAt(A, b, c, Bv, Nv, pi, jin, d, XB, iout) && iout < |Bv|
    {
      iout, d := 0, [];
      PrimalSquare(A, b, c, Bv, XB);
      var dO := solve(RealMatrix(B), Reals(Column(A, Nv[jin])));
      if dO.None? {
        return Some(Failed(LinAlgError)), iout, d;
      }
      d := dO.value;
      if !NonZero(d) {
        return Some(ZeroDivisor), iout, d;
      }
      var t := CompMaxT(XB, d);
      if t.Err? {
        return Some(Failed(t.error)), iout, d;
      }
      if t.value < 0 {
        return Some(Unbounded(Bv, Nv, pi, jin, d, XB)), iout, d;
      }
      iout := t.value;
      s := None;
    }
  }

  /**
   * Step 6's swap `Bv[iout], Nv[jin] = Nv[jin], Bv[iout]`: the entering
   * column takes the leaving one's place in the basis, and the other way
   * round. The two lists together keep the same columns.
   */
  method SwapColumns(Bv: array<nat>, Nv: array<nat>, iout: nat, jin: nat)
    requires Bv != Nv && iout < Bv.Length && jin < Nv.Length
    modifies Bv, Nv
    ensures Bv[..] == old(Bv[..])[iout := old(Nv[jin])] && Nv[..] == old(Nv[..])[jin := old(Bv[iout])]
    ensures multiset(Bv[..]) + multiset(Nv[..]) == old(multiset(Bv[..]) + multiset(Nv[..]))
  {
    Bv[iout], Nv[jin] := Nv[jin], Bv[iout];
  }
}

/**
 * data.py: the dense-array builder that turns a pulp problem into c, A and b.
 * A pulp expression is taken as its (variable name, coefficient) terms in
 * iteration order plus its constant; the variables and the constraints are
 * taken in the order pulp iterates over them.
 */
module Data {
  import opened Errors
  import opened Text
  import opened Dense

  /** A pulp linear expression: its terms, as (variable name, coefficient), and its constant. */
  datatype Expr = Expr(terms: seq<(string, real)>, constant: real)

  /** No name occurs twice. */
  predicate Distinct(names: seq<string>) {
    forall i, j :: 0 <= i < j < |names| ==> names[i] != names[j]
  }

  /** The names of some terms, in order. */
  function Names(terms: seq<(string, real)>): (r: seq<string>)
    ensures |r| == |terms| && forall k :: 0 <= k < |terms| ==> r[k] == terms[k].0
  {
    seq(|terms|, k requires 0 <= k < |terms| => terms[k].0)
  }

  /**
   * The name -> index map populate_vars builds: the k-th name is mapped to k,
   * so a repeated name keeps its LAST position.
   */
  function VarIndex(names: seq<string>): (vars: map<string, nat>)
    ensures forall x :: x in vars <==> x in names
    ensures forall x :: x in vars ==> vars[x] < |names| && names[vars[x]] == x
    ensures forall k :: 0 <= k < |names| ==> names[k] in vars && k <= vars[names[k]]
  {
    if names == [] then map[]
    else
      var prefix := names[..|names| - 1];
      var last := names[|names| - 1];
      assert names == prefix + [last];
      VarIndex(prefix)[last := |names| - 1]
  }

  /**
   * With distinct names, the k-th name is mapped to exactly k: the map is a
   * bijection from the names onto 0..|names|-1.
   */
  lemma {:induction false} VarIndexDistinct(names: seq<string>)
    requires Distinct(names)
    ensures forall k :: 0 <= k < |names| ==> VarIndex(names)[names[k]] == k
    ensures |VarIndex(names)| == |names|
  {
    var vars := VarIndex(names);
    forall k | 0 <= k < |names|
      ensures vars[names[k]] == k
    {
      var p := vars[names[k]];
      assert names[p] == names[k];
    }
    VarIndexCard(names);
  }

  /** With distinct names, the map has one key per name. */
  lemma {:induction false} VarIndexCard(names: seq<string>)
    requires Distinct(names)
    ensures |VarIndex(names)| == |names|
  {
    if names != [] {
      var prefix := names[..|names| - 1];
      var last := names[|names| - 1];
      DistinctPrefix(names);
      VarIndexCard(prefix);
      VarIndexSnoc(names, |names| - 1);
      assert names[..|names|] == names;
      assert last !in VarIndex(prefix);
    }
  }

  /** Distinct names without their last are distinct, and do not contain the last. */
  lemma DistinctPrefix(names: seq<string>)
    requires Distinct(names) && names != []
    ensures Distinct(names[..|names| - 1]) && names[|names| - 1] !in names[..|names| - 1]
  {
    var prefix := names[..|names| - 1];
    assert forall i :: 0 <= i < |prefix| ==> prefix[i] == names[i];
  }

  /**
   * One write `c[vars[name]] = coef` of populate_c, or `A[i][vars[name]] =
   * coef` of populateAb (where rowOk says that row i exists): a KeyError for
   * a name not in vars, then an IndexError for a missing row or an index
   * outside -n..n-1 (a negative index counts from the end).
   */
  function EntryWrite(vars: map<string, int>, n: nat, rowOk: bool, term: (string, real)): (r: Result<(nat, real)>)
    ensures r.Ok? <==> term.0 in vars && rowOk && -(n as int) <= vars[term.0] < n
    ensures r.Err? ==> (r.error == KeyError <==> term.0 !in vars)
    ensures r.Err? ==> r.error == KeyError || r.error == IndexError
    ensures r.Ok? ==> r.value.1 == term.1 && r.value.0 < n
    ensures r.Ok? && vars[term.0] >= 0 ==> r.value.0 == vars[term.0]
  {
    if term.0 !in vars then Err(KeyError)
    else if !rowOk then Err(IndexError)
    else
      match PyIndex(vars[term.0], n)
      case None => Err(IndexError)
      case Some(j) => Ok((j, term.1))
  }

  /** The writes of a sequence of terms, in order; the first failing one decides the error. */
  function EntryWrites(vars: map<string, int>, n: nat, rowOk: bool, terms: seq<(string, real)>): (r: Result<seq<(nat, real)>>)
    ensures r.Ok? <==> forall k :: 0 <= k < |terms| ==> EntryWrite(vars, n, rowOk, terms[k]).Ok?
    ensures r.Ok? ==> |r.value| == |terms| && WritesIn(r.value, n)
    ensures r.Ok? ==> forall k :: 0 <= k < |terms| ==> r.value[k] == EntryWrite(vars, n, rowOk, terms[k]).value
  {
    if terms == [] then Ok([])
    else
      var prefix := terms[..|terms| - 1];
      assert forall k :: 0 <= k < |prefix| ==> prefix[k] == terms[k];
      match EntryWrites(vars, n, rowOk, prefix)
      case Err(e) => Err(e)
      case Ok(ws) =>
        match EntryWrite(vars, n, rowOk, terms[|terms| - 1])
        case Err(e) => Err(e)
        case Ok(w) => Ok(ws + [w])
  }

  /** The writes for one more term. */
  lemma EntryWritesStep(vars: map<string, int>, n: nat, rowOk: bool, terms: seq<(string, real)>, i: nat)
    requires i < |terms| && EntryWrites(vars, n, rowOk, terms[..i]).Ok?
    ensures EntryWrites(vars, n, rowOk, terms[..i + 1]) ==
      match EntryWrite(vars, n, rowOk, terms[i])
      case Err(e) => Err(e)
      case Ok(w) => Ok(EntryWrites(vars, n, rowOk, terms[..i]).value + [w])
  {
    assert terms[..i + 1][..i] == terms[..i];
  }

  /** The first bad term decides: once a prefix of the terms fails, all of them fail the same way. */
  lemma {:induction false} EntryWritesErrPrefix(vars: map<string, int>, n: nat, rowOk: bool, terms: seq<(string, real)>, k: nat)
    requires k <= |terms| && EntryWrites(vars, n, rowOk, terms[..k]).Err?
    ensures EntryWrites(vars, n, rowOk, terms) == EntryWrites(vars, n, rowOk, terms[..k])
    decreases |terms|
  {
    if k == |terms| {
      assert terms[..k] == terms;
    } else {
      var prefix := terms[..|terms| - 1];
      assert prefix[..k] == terms[..k];
      EntryWritesErrPrefix(vars, n, rowOk, prefix, k);
    }
  }

  /**
   * Filling a zero vector of n entries with the terms' coefficients at their
   * variables' indices: the dense row of a linear expression.
   */
  function DenseRow(vars: map<string, int>, n: nat, terms: seq<(string, real)>): (r: Result<seq<real>>)
    ensures r.Ok? <==> EntryWrites(vars, n, true, terms).Ok?
    ensures r.Ok? ==> |r.value| == n
  {
    match EntryWrites(vars, n, true, terms)
    case Err(e) => Err(e)
    case Ok(ws) => Ok(Scatter(Filled(n, 0.0), ws))
  }

  /**
   * Over the map of distinct variable names, with distinct known names in the
   * terms: the dense row holds each term's coefficient at its variable's
   * index and 0.0 at every variable no term names.
   */
  lemma {:induction false} DenseRowAt(names: seq<string>, terms: seq<(string, real)>)
    requires Distinct(names) && Distinct(Names(terms))
    requires forall k :: 0 <= k < |terms| ==> terms[k].0 in names
    ensures var vars := VarIndex(names);
      var r := DenseRow(vars, |names|, terms);
      && r.Ok?
      && (forall k :: 0 <= k < |terms| ==> r.value[vars[terms[k].0]] == terms[k].1)
      && (forall j :: 0 <= j < |names| && names[j] !in Names(terms) ==> r.value[j] == 0.0)
  {
    VarIndexDistinct(names);
    var vars := VarIndex(names);
    forall k | 0 <= k < |terms|
      ensures EntryWrite(vars, |names|, true, terms[k]).Ok?
    {
    }
    var ws := EntryWrites(vars, |names|, true, terms).value;
    forall k | 0 <= k < |terms|
      ensures Scatter(Filled(|names|, 0.0), ws)[vars[terms[k].0]] == terms[k].1
    {
      DenseRowHit(names, terms, ws, k);
    }
    forall j | 0 <= j < |names| && names[j] !in Names(terms)
      ensures Scatter(Filled(|names|, 0.0), ws)[j] == 0.0
    {
      DenseRowMiss(names, terms, ws, j);
    }
  }

  lemma {:induction false} DenseRowHit(names: seq<string>, terms: seq<(string, real)>, ws: seq<(nat, real)>, k: nat)
    requires Distinct(names) && Distinct(Names(terms)) && k < |terms|
    requires EntryWrites(VarIndex(names), |names|, true, terms) == Ok(ws)
    requires forall k :: 0 <= k < |names| ==> VarIndex(names)[names[k]] == k
    ensures Scatter(Filled(|names|, 0.0), ws)[VarIndex(names)[terms[k].0]] == terms[k].1
  {
    var vars := VarIndex(names);
    var j := vars[terms[k].0];
    assert ws[k] == (j, terms[k].1);
    forall q | k < q < |ws|
      ensures ws[q].0 != ws[k].0
    {
      assert Names(terms)[q] != Names(terms)[k];
      assert ws[q].0 == vars[terms[q].0];
      assert names[vars[terms[q].0]] == terms[q].0;
    }
    LastWriteIs(ws, k);
    ScatterAt(Filled(|names|, 0.0), ws, j);
  }

  lemma {:induction false} DenseRowMiss(names: seq<string>, terms: seq<(string, real)>, ws: seq<(nat, real)>, j: nat)
    requires j < |names| && names[j] !in Names(terms)
    requires EntryWrites(VarIndex(names), |names|, true, terms) == Ok(ws)
    ensures Scatter(Filled(|names|, 0.0), ws)[j] == 0.0
  {
    var vars := VarIndex(names);
    forall k | 0 <= k < |ws|
      ensures ws[k].0 != j
    {
      assert ws[k].0 == vars[terms[k].0];
      assert names[vars[terms[k].0]] == terms[k].0;
      assert Names(terms)[k] == terms[k].0;
    }
    LastWriteNone(ws, j);
    ScatterAt(Filled(|names|, 0.0), ws, j);
  }

  /** populate_c: a zero vector of len(vars) entries with the objective's coefficients written in. */
  function PopulateCSpec(obj: seq<(string, real)>, vars: map<string, int>): (r: Result<seq<real>>)
    ensures r.Ok? ==> |r.value| == |vars|
    ensures r.Err? ==> r.error == KeyError || r.error == IndexError
  {
    EntryWritesError(vars, |vars|, true, obj);
    DenseRow(vars, |vars|, obj)
  }

  /**
   * populate_c over the map populate_vars builds from distinct names: it fails
   * exactly when the objective names an unknown variable, and then with
   * KeyError; otherwise entry vars[name] is that name's coefficient (for
   * distinct objective names) and every other entry is 0.0.
   */
  lemma {:induction false} PopulateCFromVars(names: seq<string>, obj: seq<(string, real)>)
    requires Distinct(names)
    ensures var r := PopulateCSpec(obj, VarIndex(names));
      && (r.Err? <==> exists k :: 0 <= k < |obj| && obj[k].0 !in names)
      && (r.Err? ==> r.error == KeyError)
      && (r.Ok? ==> |r.value| == |names|)
    ensures Distinct(Names(obj)) && (forall k :: 0 <= k < |obj| ==> obj[k].0 in names) ==>
      var vars := VarIndex(names);
      var r := PopulateCSpec(obj, vars);
      && r.Ok?
      && (forall k :: 0 <= k < |obj| ==> r.value[vars[obj[k].0]] == obj[k].1)
      && (forall j :: 0 <= j < |names| && names[j] !in Names(obj) ==> r.value[j] == 0.0)
  {
    var vars := VarIndex(names);
    VarIndexDistinct(names);
    var r := EntryWrites(vars, |vars|, true, obj);
    if r.Err? {
      var k :| 0 <= k < |obj| && EntryWrite(vars, |vars|, true, obj[k]).Err?;
      assert obj[k].0 !in names;
      EntryWritesFirstError(vars, |vars|, true, obj);
    } else {
      forall k | 0 <= k < |obj|
        ensures obj[k].0 in names
      {
        assert EntryWrite(vars, |vars|, true, obj[k]).Ok?;
      }
    }
    if Distinct(Names(obj)) && (forall k :: 0 <= k < |obj| ==> obj[k].0 in names) {
      DenseRowAt(names, obj);
    }
  }

  /** When every index is in range (rowOk, indices from 0..n-1), the only error is a KeyError. */
  lemma {:induction false} EntryWritesFirstError(vars: map<string, int>, n: nat, rowOk: bool, terms: seq<(string, real)>)
    requires rowOk && forall x :: x in vars ==> 0 <= vars[x] < n
    ensures EntryWrites(vars, n, rowOk, terms).Err? ==> EntryWrites(vars, n, rowOk, terms).error == KeyError
  {
    if terms != [] {
      EntryWritesFirstError(vars, n, rowOk, terms[..|terms| - 1]);
    }
  }

  /**
   * The rows populateAb fills in, constraint by constraint: constraint k
   * appends -constant to b and writes its coefficients into row k, which
   * must exist as soon as the constraint has a term.
   */
  function AbRows(m: nat, n: nat, vars: map<string, int>, constrs: seq<Expr>): (r: Result<(seq<seq<real>>, seq<real>)>)
    ensures r.Ok? <==> forall k :: 0 <= k < |constrs| ==> EntryWrites(vars, n, k < m, constrs[k].terms).Ok?
    ensures r.Ok? ==> |r.value.0| == m && IsMatrix(r.value.0, n) && |r.value.1| == |constrs|
  {
    if constrs == [] then Ok((Filled(m, Filled(n, 0.0)), []))
    else
      var prefix := constrs[..|constrs| - 1];
      var i := |constrs| - 1;
      assert forall k :: 0 <= k < |prefix| ==> prefix[k] == constrs[k];
      match AbRows(m, n, vars, prefix)
      case Err(e) => Err(e)
      case Ok((A, b)) =>
        match EntryWrites(vars, n, i < m, constrs[i].terms)
        case Err(e) => Err(e)
        case Ok(ws) =>
          Ok((if i < m then A[i := Scatter(Filled(n, 0.0), ws)] else A, b + [-constrs[i].constant]))
  }

  /**
   * What the rows hold: b[k] is minus constraint k's constant, row i is the
   * dense row of constraint i, and the rows past the last constraint stay zero.
   */
  lemma {:induction false} AbRowsAt(m: nat, n: nat, vars: map<string, int>, constrs: seq<Expr>)
    requires AbRows(m, n, vars, constrs).Ok?
    ensures var r := AbRows(m, n, vars, constrs).value;
      && (forall k :: 0 <= k < |constrs| ==> r.1[k] == -constrs[k].constant)
      && (forall i :: 0 <= i < m ==>
            r.0[i] == if i < |constrs| then DenseRow(vars, n, constrs[i].terms).value else Filled(n, 0.0))
  {
    if constrs != [] {
      var prefix := constrs[..|constrs| - 1];
      assert forall k :: 0 <= k < |prefix| ==> prefix[k] == constrs[k];
      AbRowsAt(m, n, vars, prefix);
    }
  }

  /** A constraint whose row does not exist can be written only when it has no terms. */
  lemma {:induction false} NoRowNoTerms(vars: map<string, int>, n: nat, terms: seq<(string, real)>)
    ensures EntryWrites(vars, n, false, terms).Ok? ==> terms == []
  {
    if terms != [] {
      assert EntryWrite(vars, n, false, terms[0]).Err?;
    }
  }

  /**
   * populateAb: np.full((m, n), 0.0) refuses negative dimensions with a
   * ValueError; otherwise the rows above.
   */
  function PopulateAbSpec(m: int, n: int, vars: map<string, int>, constrs: seq<Expr>): (r: Result<(seq<seq<real>>, seq<real>)>)
    ensures m < 0 || n < 0 ==> r == Err(ValueError)
    ensures r.Ok? ==> |r.value.0| == m && IsMatrix(r.value.0, n) && |r.value.1| == |constrs|
  {
    if m < 0 || n < 0 then Err(ValueError) else AbRows(m, n, vars, constrs)
  }

  /**
   * populateAb succeeds only when the constraints past row m-1 have no
   * terms, and the error it raises is one of numpy's or the dictionary's.
   */
  lemma {:induction false} PopulateAbRowsFit(m: int, n: int, vars: map<string, int>, constrs: seq<Expr>)
    ensures var r := PopulateAbSpec(m, n, vars, constrs);
      && (r.Ok? ==> forall k :: 0 <= m <= k < |constrs| ==> constrs[k].terms == [])
      && (r.Err? ==> r.error in {ValueError, KeyError, IndexError})
  {
    var r := PopulateAbSpec(m, n, vars, constrs);
    if r.Ok? {
      forall k | 0 <= m <= k < |constrs|
        ensures constrs[k].terms == []
      {
        NoRowNoTerms(vars, n, constrs[k].terms);
      }
    } else if m >= 0 && n >= 0 {
      AbRowsError(m, n, vars, constrs);
    }
  }

  lemma {:induction false} AbRowsError(m: nat, n: nat, vars: map<string, int>, constrs: seq<Expr>)
    ensures AbRows(m, n, vars, constrs).Err? ==> AbRows(m, n, vars, constrs).error in {KeyError, IndexError}
  {
    if constrs != [] {
      AbRowsError(m, n, vars, constrs[..|constrs| - 1]);
      EntryWritesError(vars, n, |constrs| - 1 < m, constrs[|constrs| - 1].terms);
    }
  }

  lemma {:induction false} EntryWritesError(vars: map<string, int>, n: nat, rowOk: bool, terms: seq<(string, real)>)
    ensures EntryWrites(vars, n, rowOk, terms).Err? ==> EntryWrites(vars, n, rowOk, terms).error in {KeyError, IndexError}
  {
    if terms != [] {
      EntryWritesError(vars, n, rowOk, terms[..|terms| - 1]);
    }
  }

  /**
   * populateAb over the map populate_vars builds from distinct names, with
   * n = len(vars), at most m constraints and each constraint naming distinct
   * known variables: it succeeds, row i holds constraint i's coefficients at
   * their variables' indices and 0.0 elsewhere, b[i] is minus constraint
   * i's constant, and the rows past the last constraint are zero.
   */
  lemma {:induction false} PopulateAbFromVars(names: seq<string>, m: nat, constrs: seq<Expr>) returns (A: seq<seq<real>>, b: seq<real>)
    requires Distinct(names) && |constrs| <= m
    requires forall i :: 0 <= i < |constrs| ==> Distinct(Names(constrs[i].terms))
    requires forall i, k :: 0 <= i < |constrs| && 0 <= k < |constrs[i].terms| ==> constrs[i].terms[k].0 in names
    ensures PopulateAbSpec(m, |names|, VarIndex(names), constrs) == Ok((A, b))
    ensures |A| == m && IsMatrix(A, |names|) && |b| == |constrs|
    ensures forall i :: 0 <= i < |constrs| ==> b[i] == -constrs[i].constant
    ensures forall i, k :: 0 <= i < |constrs| && 0 <= k < |constrs[i].terms| ==>
      A[i][VarIndex(names)[constrs[i].terms[k].0]] == constrs[i].terms[k].1
    ensures forall i, j :: 0 <= i < |constrs| && 0 <= j < |names| && names[j] !in Names(constrs[i].terms) ==>
      A[i][j] == 0.0
    ensures forall i :: |constrs| <= i < m ==> A[i] == Filled(|names|, 0.0)
  {
    var vars := VarIndex(names);
    AbRowsAt(m, |names|, vars, constrs);
    forall i | 0 <= i < |constrs|
      ensures DenseRow(vars, |names|, constrs[i].terms).Ok?
      ensures var row := DenseRow(vars, |names|, constrs[i].terms).value;
        && (forall k :: 0 <= k < |constrs[i].terms| ==> row[vars[constrs[i].terms[k].0]] == constrs[i].terms[k].1)
        && (forall j :: 0 <= j < |names| && names[j] !in Names(constrs[i].terms) ==> row[j] == 0.0)
    {
      DenseRowAt(names, constrs[i].terms);
    }
    A, b := AbRows(m, |names|, vars, constrs).value.0, AbRows(m, |names|, vars, constrs).value.1;
  }

  /** One more name maps to its own position. */
  lemma VarIndexSnoc(names: seq<string>, i: nat)
    requires i < |names|
    ensures VarIndex(names[..i + 1]) == VarIndex(names[..i])[names[i] := i]
  {
    assert names[..i + 1][..i] == names[..i];
  }

  /**
   * populate_vars: numbers the variables 0, 1, ... in iteration order into a
   * fresh dictionary and hands the constraints back unchanged.
   */
  method PopulateVars<C>(lpVars: seq<string>, lpConstrs: C) returns (vars: map<string, int>, constrs: C)
    ensures vars == VarIndex(lpVars) && constrs == lpConstrs
  {
    var i := 0;
    vars := map[];
    while i < |lpVars|
      invariant 0 <= i <= |lpVars|
      invariant vars == VarIndex(lpVars[..i])
    {
      VarIndexSnoc(lpVars, i);
      vars := vars[lpVars[i] := i];
      i := i + 1;
    }
    assert lpVars[..i] == lpVars;
    constrs := lpConstrs;
  }

  /** populate_c: writes the objective's coefficients into a zero array of len(vars) entries. */
  method PopulateC(obj: seq<(string, real)>, vars: map<string, int>) returns (r: Result<seq<real>>)
    ensures r == PopulateCSpec(obj, vars)
  {
    var n := |vars|;
    var c := new real[n](_ => 0.0);
    var k := 0;
    while k < |obj|
      invariant 0 <= k <= |obj| && c.Length == n
      invariant EntryWrites(vars, n, true, obj[..k]).Ok?
      invariant c[..] == Scatter(Filled(n, 0.0), EntryWrites(vars, n, true, obj[..k]).value)
    {
      var err := WriteCoef(c, vars, obj, k);
      if err.Some? {
        return Err(err.value);
      }
      k := k + 1;
    }
    assert obj[..k] == obj;
    return Ok(c[..]);
  }

  /** One turn of populate_c's loop: `c[vars[str(k)]] = obj[k]` for term k. */
  method WriteCoef(c: array<real>, vars: map<string, int>, obj: seq<(string, real)>, k: nat) returns (err: Option<PyError>)
    requires k < |obj| && EntryWrites(vars, c.Length, true, obj[..k]).Ok?
    requires c[..] == Scatter(Filled(c.Length, 0.0), EntryWrites(vars, c.Length, true, obj[..k]).value)
    modifies c
    ensures err.Some? ==> Err(err.value) == EntryWrites(vars, c.Length, true, obj)
    ensures err.None? ==>
      && EntryWrites(vars, c.Length, true, obj[..k + 1]).Ok?
      && c[..] == Scatter(Filled(c.Length, 0.0), EntryWrites(vars, c.Length, true, obj[..k + 1]).value)
  {
    var n := c.Length;
    var (name, coef) := obj[k];
    EntryWritesStep(vars, n, true, obj, k);
    if name !in vars {
      EntryWritesErrPrefix(vars, n, true, obj, k + 1);
      return Some(KeyError);
    }
    var j := PyIndex(vars[name], n);
    if j.None? {
      EntryWritesErrPrefix(vars, n, true, obj, k + 1);
      return Some(IndexError);
    }
    ghost var ws := EntryWrites(vars, n, true, obj[..k]).value;
    assert EntryWrite(vars, n, true, obj[k]) == Ok((j.value, coef));
    assert (ws + [(j.value, coef)])[..|ws|] == ws;
    c[j.value] := coef;
    return None;
  }

  /** Row i of a two-dimensional array. */
  function Row(A: array2<real>, i: nat): (r: seq<real>)
    requires i < A.Length0
    reads A
    ensures |r| == A.Length1 && forall j :: 0 <= j < A.Length1 ==> r[j] == A[i, j]
  {
    seq(A.Length1, j requires 0 <= j < A.Length1 reads A => A[i, j])
  }

  /**
   * The inner loop of populateAb for constraint i: writes its coefficients
   * into row i, which the caller has left zero. Returns the exception
   * raised, if any.
   */
  method WriteRow(A: array2<real>, i: nat, vars: map<string, int>, terms: seq<(string, real)>) returns (err: Option<PyError>)
    requires i < A.Length0 ==> Row(A, i) == Filled(A.Length1, 0.0)
    modifies A
    ensures err.Some? <==> EntryWrites(vars, A.Length1, i < A.Length0, terms).Err?
    ensures err.Some? ==> err.value == EntryWrites(vars, A.Length1, i < A.Length0, terms).error
    ensures err.None? ==> Rows(A) == if i < A.Length0 then old(Rows(A))[i := DenseRow(vars, A.Length1, terms).value] else old(Rows(A))
  {
    var n := A.Length1;
    var rowOk := i < A.Length0;
    var k := 0;
    while k < |terms|
      invariant 0 <= k <= |terms|
      invariant EntryWrites(vars, n, rowOk, terms[..k]).Ok?
      invariant rowOk ==> Row(A, i) == Scatter(Filled(n, 0.0), EntryWrites(vars, n, rowOk, terms[..k]).value)
      invariant forall r, q :: 0 <= r < A.Length0 && r != i && 0 <= q < n ==> A[r, q] == old(A[r, q])
    {
      var (name, coef) := terms[k];
      EntryWritesStep(vars, n, rowOk, terms, k);
      if name !in vars {
        EntryWritesErrPrefix(vars, n, rowOk, terms, k + 1);
        return Some(KeyError);
      }
      var x := vars[name];
      if !rowOk {
        EntryWritesErrPrefix(vars, n, rowOk, terms, k + 1);
        return Some(IndexError);
      }
      var j := PyIndex(x, n);
      if j.None? {
        EntryWritesErrPrefix(vars, n, rowOk, terms, k + 1);
        return Some(IndexError);
      }
      ghost var ws := EntryWrites(vars, n, rowOk, terms[..k]).value;
      assert EntryWrite(vars, n, rowOk, terms[k]) == Ok((j.value, coef));
      assert (ws + [(j.value, coef)])[..|ws|] == ws;
      WriteEntry(A, i, j.value, coef);
      k := k + 1;
    }
    assert terms[..k] == terms;
    forall r | 0 <= r < A.Length0 && r != i
      ensures Row(A, r) == old(Row(A, r))
    {
    }
    return None;
  }

  /** The write `A[i][j] = v`: row i changes at j, and no other row changes. */
  method WriteEntry(A: array2<real>, i: nat, j: nat, v: real)
    requires i < A.Length0 && j < A.Length1
    modifies A
    ensures Row(A, i) == old(Row(A, i))[j := v]
    ensures forall r, q :: 0 <= r < A.Length0 && r != i && 0 <= q < A.Length1 ==> A[r, q] == old(A[r, q])
  {
    A[i, j] := v;
  }

  /** The rows of a two-dimensional array, as a matrix. */
  function Rows(A: array2<real>): (r: seq<seq<real>>)
    reads A
    ensures |r| == A.Length0 && forall i :: 0 <= i < A.Length0 ==> r[i] == Row(A, i)
  {
    seq(A.Length0, i requires 0 <= i < A.Length0 reads A => Row(A, i))
  }

  /**
   * populateAb: an m-by-n zero array; for each constraint i in turn, appends
   * -constant to b and writes the coefficients into row i.
   */
  method PopulateAb(m: int, n: int, vars: map<string, int>, constrs: seq<Expr>) returns (r: Result<(seq<seq<real>>, seq<real>)>)
    ensures r == PopulateAbSpec(m, n, vars, constrs)
  {
    if m < 0 || n < 0 {
      return Err(ValueError);
    }
    var A := Zeros(m, n);
    var b: seq<real> := [];
    var i := 0;
    while i < |constrs|
      invariant 0 <= i <= |constrs|
      invariant AbRows(m, n, vars, constrs[..i]).Ok?
      invariant Rows(A) == AbRows(m, n, vars, constrs[..i]).value.0
      invariant b == AbRows(m, n, vars, constrs[..i]).value.1
    {
      var err;
      b, err := AddConstraint(A, b, vars, constrs, i);
      if err.Some? {
        return Err(err.value);
      }
      i := i + 1;
    }
    assert constrs[..i] == constrs;
    return Ok((Rows(A), b));
  }

  /** np.full(shape=(m, n), fill_value=0.0). */
  method Zeros(m: nat, n: nat) returns (A: array2<real>)
    ensures fresh(A) && A.Length0 == m && A.Length1 == n
    ensures Rows(A) == Filled(m, Filled(n, 0.0))
  {
    A := new real[m, n]((_, _) => 0.0);
    forall i | 0 <= i < m
      ensures Row(A, i) == Filled(n, 0.0)
    {
    }
  }

  /**
   * One turn of populateAb's outer loop, for constraint i: appends its
   * negated constant to b and writes its coefficients into row i.
   */
  method AddConstraint(A: array2<real>, b: seq<real>, vars: map<string, int>, constrs: seq<Expr>, i: nat)
    returns (b': seq<real>, err: Option<PyError>)
    requires i < |constrs|
    requires AbRows(A.Length0, A.Length1, vars, constrs[..i]).Ok?
    requires Rows(A) == AbRows(A.Length0, A.Length1, vars, constrs[..i]).value.0
    requires b == AbRows(A.Length0, A.Length1, vars, constrs[..i]).value.1
    modifies A
    ensures err.Some? ==> Err(err.value) == AbRows(A.Length0, A.Length1, vars, constrs)
    ensures err.None? ==>
      && AbRows(A.Length0, A.Length1, vars, constrs[..i + 1]).Ok?
      && Rows(A) == AbRows(A.Length0, A.Length1, vars, constrs[..i + 1]).value.0
      && b' == AbRows(A.Length0, A.Length1, vars, constrs[..i + 1]).value.1
  {
    var m, n := A.Length0, A.Length1;
    b' := b + [-constrs[i].constant];
    assert i < m ==> Row(A, i) == Filled(n, 0.0) by {
      AbRowsAt(m, n, vars, constrs[..i]);
    }
    err := WriteRow(A, i, vars, constrs[i].terms);
    AbRowsStep(m, n, vars, constrs, i);
    if err.Some? {
      AbRowsErrPrefix(m, n, vars, constrs, i + 1);
    }
  }

  /** Once a prefix of the constraints fails, populateAb fails the same way. */
  lemma {:induction false} AbRowsErrPrefix(m: nat, n: nat, vars: map<string, int>, constrs: seq<Expr>, k: nat)
    requires k <= |constrs| && AbRows(m, n, vars, constrs[..k]).Err?
    ensures AbRows(m, n, vars, constrs) == AbRows(m, n, vars, constrs[..k])
    decreases |constrs|
  {
    if k == |constrs| {
      assert constrs[..k] == constrs;
    } else {
      var prefix := constrs[..|constrs| - 1];
      assert prefix[..k] == constrs[..k];
      AbRowsErrPrefix(m, n, vars, prefix, k);
    }
  }

  /** One more constraint: its row is written (when it exists) and its constant appended. */
  lemma {:induction false} AbRowsStep(m: nat, n: nat, vars: map<string, int>, constrs: seq<Expr>, i: nat)
    requires i < |constrs| && AbRows(m, n, vars, constrs[..i]).Ok?
    ensures var r := AbRows(m, n, vars, constrs[..i + 1]);
      var prev := AbRows(m, n, vars, constrs[..i]).value;
      && (r.Ok? <==> EntryWrites(vars, n, i < m, constrs[i].terms).Ok?)
      && (r.Err? ==> r.error == EntryWrites(vars, n, i < m, constrs[i].terms).error)
      && (r.Ok? ==> r.value.1 == prev.1 + [-constrs[i].constant])
      && (r.Ok? ==> r.value.0 == if i < m then prev.0[i := DenseRow(vars, n, constrs[i].terms).value] else prev.0)
  {
    assert constrs[..i + 1][..i] == constrs[..i];
  }
}

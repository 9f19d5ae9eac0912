/**
 * The LP-text front end of model.py as functions of the input lines: the
 * variable count of the bounds section, the rewriting of every constraint row
 * into equality form, the coefficient vector of a row of terms, and the whole
 * of `read`. The class Model (model.dfy) runs these step by step on its fields
 * and is proved to agree with them.
 */
module ModelSpec {
  import opened Errors
  import opened Text
  import opened Dense
  import opened Utils

  /**
   * comp_nb_x: the number after the 'x' of the first word of the
   * next-to-last line (the only line of a one-line file). A missing line,
   * word or 'x' is an IndexError, a malformed number a ValueError.
   */
  function CompNbX(lines: seq<string>): (r: Result<int>)
    ensures r.Ok? ==> lines != [] && Split(lines[if |lines| >= 2 then |lines| - 2 else 0]) != []
    ensures r.Err? ==> r.error == IndexError || r.error == ValueError
  {
    match PyIndex(|lines| - 2, |lines|)
    case None => Err(IndexError)
    case Some(i) =>
      var x := Split(lines[i]);
      if x == [] then Err(IndexError)
      else
        var ps := SplitOn(x[0], 'x');
        if |ps| < 2 then Err(IndexError) else ParseInt(ps[1])
  }

  /** A bounds section ending in a line `x<k> ...` and one more line declares k variables. */
  lemma CompNbXReadsLastBound(lines: seq<string>, k: int)
    requires |lines| >= 2
    requires var ws := Split(lines[|lines| - 2]); ws != [] && ws[0] == "x" + ShowInt(k)
    ensures CompNbX(lines) == Ok(k)
  {
    SplitOnFirst([], 'x', ShowInt(k));
    SplitOnNone(ShowInt(k), 'x');
    assert [] + ['x'] + ShowInt(k) == "x" + ShowInt(k);
    ParseShowInt(k);
  }

  /** The `+` and `-` tokens that get_coefs skips. */
  predicate IsSign(tok: string) {
    tok == "+" || tok == "-"
  }

  /**
   * The write `coefs[x] = c` of one term token into a vector of n entries, as
   * (index, coefficient): NumPy counts a negative x from the end, and an x
   * outside -n..n-1 is an IndexError.
   */
  function TermWrite(n: nat, tok: string): (r: Result<(nat, int)>)
    ensures r.Ok? ==> r.value.0 < n
  {
    match GetCoefAndX(tok)
    case Err(e) => Err(e)
    case Ok((c, x)) =>
      match PyIndex(x, n)
      case None => Err(IndexError)
      case Some(j) => Ok((j, c))
  }

  /** The writes get_coefs performs for the tokens `s`, in order; the first bad token decides the error. */
  function CoefWrites(n: nat, s: seq<string>): (r: Result<seq<(nat, int)>>)
    ensures r.Ok? ==> WritesIn(r.value, n)
  {
    if s == [] then Ok([])
    else
      match CoefWrites(n, s[..|s| - 1])
      case Err(e) => Err(e)
      case Ok(ws) =>
        var tok := s[|s| - 1];
        if IsSign(tok) then Ok(ws)
        else
          match TermWrite(n, tok)
          case Err(e) => Err(e)
          case Ok(w) => Ok(ws + [w])
  }

  /** get_coefs' writes for one more token. */
  lemma CoefWritesStep(n: nat, s: seq<string>, i: nat)
    requires i < |s| && CoefWrites(n, s[..i]).Ok?
    ensures CoefWrites(n, s[..i + 1]) ==
      if IsSign(s[i]) then CoefWrites(n, s[..i])
      else match TermWrite(n, s[i])
        case Err(e) => Err(e)
        case Ok(w) => Ok(CoefWrites(n, s[..i]).value + [w])
  {
    assert s[..i + 1][..i] == s[..i];
  }

  /**
   * get_coefs: a zero vector of n integers (a ValueError for a negative n, as
   * np.full raises) with the coefficient of every term token written at its
   * variable's index; sign tokens are skipped.
   */
  function Coefs(n: int, s: seq<string>): (r: Result<seq<int>>)
    ensures r.Ok? ==> n >= 0 && |r.value| == n
  {
    if n < 0 then Err(ValueError)
    else
      match CoefWrites(n, s)
      case Err(e) => Err(e)
      case Ok(ws) => Ok(Scatter(Filled(n, 0), ws))
  }

  /** Reference definition: the coefficient of the last term token of `s` that writes index j. */
  function LastTermFor(n: nat, s: seq<string>, j: nat): Option<int> {
    if s == [] then None
    else
      var tok := s[|s| - 1];
      if !IsSign(tok) && TermWrite(n, tok).Ok? && TermWrite(n, tok).value.0 == j then Some(TermWrite(n, tok).value.1)
      else LastTermFor(n, s[..|s| - 1], j)
  }

  /**
   * get_coefs puts at every index the coefficient of the LAST term naming it
   * (a later term overwrites an earlier one) and 0 at every index no term names.
   */
  lemma {:induction false} CoefsAt(n: nat, s: seq<string>, j: nat)
    requires Coefs(n, s).Ok? && j < n
    ensures Coefs(n, s).value[j] == (match LastTermFor(n, s, j) case Some(c) => c case None => 0)
  {
    var ws := CoefWrites(n, s).value;
    ScatterAt(Filled(n, 0), ws, j);
    CoefWritesLast(n, s, j);
  }

  lemma {:induction false} CoefWritesLast(n: nat, s: seq<string>, j: nat)
    requires CoefWrites(n, s).Ok?
    ensures LastWrite(CoefWrites(n, s).value, j) == LastTermFor(n, s, j)
  {
    if s != [] {
      CoefWritesLast(n, s[..|s| - 1], j);
      var ws := CoefWrites(n, s[..|s| - 1]).value;
      var tok := s[|s| - 1];
      if !IsSign(tok) {
        var w := TermWrite(n, tok).value;
        assert CoefWrites(n, s).value == ws + [w];
        assert (ws + [w])[..|ws|] == ws;
      }
    }
  }

  /** The first bad token decides: once a prefix of the tokens fails, all of them fail the same way. */
  lemma {:induction false} CoefWritesErrPrefix(n: nat, s: seq<string>, k: nat)
    requires k <= |s| && CoefWrites(n, s[..k]).Err?
    ensures CoefWrites(n, s) == CoefWrites(n, s[..k])
    decreases |s|
  {
    if k == |s| {
      assert s[..k] == s;
    } else {
      var s' := s[..|s| - 1];
      assert s'[..k] == s[..k];
      CoefWritesErrPrefix(n, s', k);
    }
  }

  /** A `-` (or `+`) token changes nothing: a sign written apart from its term is lost. */
  lemma {:induction false} CoefsDropSign(n: int, s: seq<string>, sign: string, rest: seq<string>)
    requires IsSign(sign)
    ensures Coefs(n, s + [sign] + rest) == Coefs(n, s + rest)
  {
    if n >= 0 {
      CoefWritesDropSign(n, s, sign, rest);
    }
  }

  lemma {:induction false} CoefWritesDropSign(n: nat, s: seq<string>, sign: string, rest: seq<string>)
    requires IsSign(sign)
    ensures CoefWrites(n, s + [sign] + rest) == CoefWrites(n, s + rest)
    decreases |rest|
  {
    if rest == [] {
      assert (s + [sign] + rest)[..|s|] == s;
      assert s + rest == s;
    } else {
      var k := |rest| - 1;
      CoefWritesDropSign(n, s, sign, rest[..k]);
      var u, v := s + [sign] + rest, s + rest;
      assert u[..|u| - 1] == s + [sign] + rest[..k] && u[|u| - 1] == rest[k];
      assert v[..|v| - 1] == s + rest[..k] && v[|v| - 1] == rest[k];
      CoefWritesSameLast(n, u, v);
    }
  }

  /** Token lists that agree on their writes up to a common last token agree on all of them. */
  lemma CoefWritesSameLast(n: nat, u: seq<string>, v: seq<string>)
    requires u != [] && v != [] && u[|u| - 1] == v[|v| - 1]
    requires CoefWrites(n, u[..|u| - 1]) == CoefWrites(n, v[..|v| - 1])
    ensures CoefWrites(n, u) == CoefWrites(n, v)
  {
  }

  /** Appending one term token writes its coefficient over whatever its index held. */
  lemma {:induction false} CoefsAppendTerm(n: nat, s: seq<string>, c: int, k: int)
    requires Coefs(n, s).Ok?
    requires -(n as int) <= k - 1 < n
    ensures Coefs(n, s + [TermText(c, k)]) == Ok(Coefs(n, s).value[PyIndex(k - 1, n).value := c])
  {
    var tok := TermText(c, k);
    TermRoundTrip(c, k);
    assert |tok| >= 3;
    assert (s + [tok])[..|s|] == s;
    var ws := CoefWrites(n, s).value;
    var w := (PyIndex(k - 1, n).value, c);
    assert CoefWrites(n, s + [tok]) == Ok(ws + [w]);
    assert (ws + [w])[..|ws|] == ws;
  }

  /**
   * The quirk behind every `>=` row: make_standard writes its surplus term as
   * the two tokens `-` and `1x<k>`, get_coefs drops the `-`, and the surplus
   * variable gets coefficient +1 where -1 was meant.
   */
  lemma SurplusEntersPositive(n: nat, terms: seq<string>, k: nat)
    requires Coefs(n, terms).Ok? && 1 <= k <= n
    ensures Coefs(n, terms + ["-", TermText(1, k)]).Ok?
    ensures Coefs(n, terms + ["-", TermText(1, k)]).value[k - 1] == 1
  {
    CoefsDropSign(n, terms, "-", [TermText(1, k)]);
    assert terms + ["-"] + [TermText(1, k)] == terms + ["-", TermText(1, k)];
    CoefsAppendTerm(n, terms, 1, k);
  }

  /** The relation token of a row of length l: the one at l-2, Python-style. */
  function RelIndex(constr: seq<string>): Option<nat> {
    PyIndex(|constr| - 2, |constr|)
  }

  /** A row whose relation token contains `<=` or `>=` (and so gets a slack or surplus). */
  predicate IsInequality(constr: seq<string>) {
    RelIndex(constr).Some? &&
    (Contains(constr[RelIndex(constr).value], "<=") || Contains(constr[RelIndex(constr).value], ">="))
  }

  /**
   * One iteration of make_standard's loop on the words of one line, with the
   * variable count n: `<=` adds `+ 1x<n+1>`, `>=` adds `- 1x<n+1>`, and the
   * row is then closed by `=` and its last word. A row with no words is an
   * IndexError.
   */
  function StandardRow(constr: seq<string>, n: int): (r: Result<(seq<string>, int)>)
    ensures r.Err? <==> constr == []
    ensures r.Ok? ==> r.value.1 == n + (if IsInequality(constr) then 1 else 0)
  {
    var l := |constr|;
    match RelIndex(constr)
    case None => Err(IndexError)
    case Some(ri) =>
      var symb := if Contains(constr[ri], "<=") then "+" else if Contains(constr[ri], ">=") then "-" else "";
      var nc := PySlice(constr, 0, l - 2);
      if symb != "" then Ok((nc + [symb, TermText(1, n + 1), "=", constr[l - 1]], n + 1))
      else Ok((nc + PySlice(constr, l - 2, l), n))
  }

  /** The relation token of a non-empty row. */
  function RelToken(constr: seq<string>): string
    requires constr != []
  {
    constr[RelIndex(constr).value]
  }

  /** The words of a row before its relation token. */
  function Terms(constr: seq<string>): seq<string> {
    if |constr| >= 2 then constr[..|constr| - 2] else []
  }

  /**
   * What StandardRow does, in plain terms: an inequality row keeps its terms
   * (all words before the relation) and its right-hand side, gets the new
   * variable n+1 with sign + for `<=` and - for `>=`, and the count grows by
   * one; any other row is kept as it is and the count does not change.
   */
  lemma StandardRowShape(constr: seq<string>, n: int)
    requires constr != []
    ensures StandardRow(constr, n).Ok?
    ensures var (row, n') := StandardRow(constr, n).value;
      && row[|row| - 1] == constr[|constr| - 1]
      && (IsInequality(constr) ==>
            && n' == n + 1
            && row == Terms(constr) + [if Contains(RelToken(constr), "<=") then "+" else "-", TermText(1, n + 1), "=", constr[|constr| - 1]])
      && (!IsInequality(constr) ==> n' == n && row == constr)
  {
    var l := |constr|;
    if l == 1 {
      assert PySlice(constr, 0, l - 2) == [];
      assert PySlice(constr, l - 2, l) == constr;
    } else {
      assert PySlice(constr, l - 2, l) == constr[l - 2..];
      assert constr[..l - 2] + constr[l - 2..] == constr;
    }
  }

  /** make_standard's result: the rewritten rows, the new variable count and the exception, if any. */
  datatype Standardized = Standardized(rows: seq<seq<string>>, n: int, error: Option<PyError>)

  /** The loop test of make_standard: the lower-cased line contains `bounds`. */
  predicate IsBoundsLine(line: string) {
    Contains(Lower(line), "bounds")
  }

  /** One iteration of make_standard's loop on a line. */
  function StandardLine(line: string, n: int): Result<(seq<string>, int)> {
    StandardRow(Split(line), n)
  }

  /** What one line adds to the variable count: 1 for an inequality row. */
  function Grows(line: string): nat {
    if IsInequality(Split(line)) then 1 else 0
  }

  /** A function from a line and a count to a rewritten row and the new count. */
  type RowStep = (string, int) -> Result<(seq<string>, int)>

  /**
   * make_standard's loop from line i on, with the rows so far and the count
   * n, for a stop test and a step on one line. It stops at the first line
   * that passes the test; running off the end of the lines is an IndexError,
   * a failing step raises its error, and a row of another length than the
   * rows before it is a ValueError (np.vstack). The state reached before an
   * exception is kept.
   */
  function Scan(isStop: string -> bool, step: RowStep, lines: seq<string>, i: nat, n: int, rows: seq<seq<string>>): (r: Standardized)
    ensures |r.rows| >= |rows| && r.rows[..|rows|] == rows
    ensures r.error.None? ==> i + |r.rows| - |rows| < |lines| && isStop(lines[i + |r.rows| - |rows|])
    decreases |lines| - i
  {
    if i >= |lines| then Standardized(rows, n, Some(IndexError))
    else if isStop(lines[i]) then Standardized(rows, n, None)
    else
      match step(lines[i], n)
      case Err(e) => Standardized(rows, n, Some(e))
      case Ok((row, n')) =>
        if rows != [] && |row| != |rows[0]| then Standardized(rows, n', Some(ValueError))
        else Scan(isStop, step, lines, i + 1, n', rows + [row])
  }

  /**
   * make_standard: the constraint rows run from line index 3 to the `bounds`
   * line; a file of three lines or fewer has no such line (IndexError).
   */
  function MakeStandardSpec(lines: seq<string>, n: int): (r: Standardized)
    ensures |lines| <= 3 ==> r == Standardized([], n, Some(IndexError))
    ensures r.error.None? ==> 3 + |r.rows| < |lines| && IsBoundsLine(lines[3 + |r.rows|])
  {
    Scan(IsBoundsLine, StandardLine, lines, 3, n, [])
  }

  /** The sum of `grows` over lines lo..hi-1. */
  function Count(grows: string -> nat, lines: seq<string>, lo: nat, hi: nat): nat
    requires lo <= hi <= |lines|
    decreases hi - lo
  {
    if lo == hi then 0 else Count(grows, lines, lo, hi - 1) + grows(lines[hi - 1])
  }

  /** Every successful step adds `grows` of its line to the count. */
  ghost predicate StepGrows(step: RowStep, grows: string -> nat) {
    forall line, n :: step(line, n).Ok? ==> step(line, n).value.1 == n + grows(line)
  }

  /** make_standard's step adds one variable per inequality row and none otherwise. */
  lemma StandardLineGrows()
    ensures StepGrows(StandardLine, Grows)
  {
    forall line, n | StandardLine(line, n).Ok?
      ensures StandardLine(line, n).value.1 == n + Grows(line)
    {
      StandardRowShape(Split(line), n);
    }
  }

  /** Line `stop` is the first line from i on that passes the stop test. */
  predicate StopsAt(isStop: string -> bool, lines: seq<string>, i: nat, stop: nat) {
    i <= stop < |lines| && isStop(lines[stop]) &&
    forall q :: i <= q < stop ==> !isStop(lines[q])
  }

  /**
   * `out` holds, for lines i..stop-1 in order, the rows `step` makes of them,
   * the count starting at n and growing by what each line adds.
   */
  predicate RowsAgree(step: RowStep, grows: string -> nat, lines: seq<string>, i: nat, stop: nat, n: int, out: seq<seq<string>>)
    decreases stop - i
  {
    && i <= stop <= |lines| && |out| == stop - i
    && (i < stop ==>
          && step(lines[i], n) == Ok((out[0], n + grows(lines[i])))
          && RowsAgree(step, grows, lines, i + 1, stop, n + grows(lines[i]), out[1..]))
  }

  /** The row of line q: the step's row for it, with the count before it n plus what the lines above it add. */
  lemma {:induction false} RowsAgreeAt(step: RowStep, grows: string -> nat, lines: seq<string>, i: nat, stop: nat, n: int, out: seq<seq<string>>, q: nat)
    requires RowsAgree(step, grows, lines, i, stop, n, out)
    requires i <= q < stop
    ensures step(lines[q], n + Count(grows, lines, i, q)) == Ok((out[q - i], n + Count(grows, lines, i, q + 1)))
    decreases q - i
  {
    if q > i {
      var n' := n + grows(lines[i]);
      RowsAgreeAt(step, grows, lines, i + 1, stop, n', out[1..], q);
      CountShift(grows, lines, i, q);
      CountShift(grows, lines, i, q + 1);
    } else {
      assert Count(grows, lines, i, i + 1) == grows(lines[i]);
    }
  }

  /** All rows have the length of the first: the rows form a matrix. */
  predicate SameLength(rows: seq<seq<string>>) {
    forall q :: 0 <= q < |rows| ==> |rows[q]| == |rows[0]|
  }

  /**
   * When the loop succeeds, it stopped at the first stop line from i on; it
   * appended one row per line before it, in order, each one the step's row
   * for its line; and the count grew by what those lines add.
   */
  lemma {:induction false} ScanRows(isStop: string -> bool, step: RowStep, grows: string -> nat, lines: seq<string>, i: nat, n: int, rows: seq<seq<string>>)
    requires StepGrows(step, grows)
    requires Scan(isStop, step, lines, i, n, rows).error.None?
    ensures var r := Scan(isStop, step, lines, i, n, rows);
      && |rows| <= |r.rows| && r.rows[..|rows|] == rows
      && exists stop :: StopsAt(isStop, lines, i, stop)
           && r.n == n + Count(grows, lines, i, stop)
           && RowsAgree(step, grows, lines, i, stop, n, r.rows[|rows|..])
    decreases |lines| - i
  {
    var r := Scan(isStop, step, lines, i, n, rows);
    if isStop(lines[i]) {
      assert StopsAt(isStop, lines, i, i);
      assert RowsAgree(step, grows, lines, i, i, n, r.rows[|rows|..]);
    } else {
      var (row, n') := step(lines[i], n).value;
      ScanRows(isStop, step, grows, lines, i + 1, n', rows + [row]);
      var stop :| StopsAt(isStop, lines, i + 1, stop)
        && r.n == n' + Count(grows, lines, i + 1, stop)
        && RowsAgree(step, grows, lines, i + 1, stop, n', r.rows[|rows| + 1..]);
      assert StopsAt(isStop, lines, i, stop);
      CountShift(grows, lines, i, stop);
      assert r.rows[..|rows| + 1] == rows + [row];
      assert r.rows[|rows|..][0] == row;
      assert r.rows[|rows|..][1..] == r.rows[|rows| + 1..];
      assert r.rows[..|rows|] == (r.rows[..|rows| + 1])[..|rows|];
    }
  }

  /** The loop keeps its rows a matrix, whether it succeeds or not. */
  lemma {:induction false} ScanSameLength(isStop: string -> bool, step: RowStep, lines: seq<string>, i: nat, n: int, rows: seq<seq<string>>)
    requires SameLength(rows)
    ensures SameLength(Scan(isStop, step, lines, i, n, rows).rows)
    decreases |lines| - i
  {
    if i < |lines| && !isStop(lines[i]) {
      var sr := step(lines[i], n);
      if sr.Ok? && (rows == [] || |sr.value.0| == |rows[0]|) {
        assert SameLength(rows + [sr.value.0]);
        ScanSameLength(isStop, step, lines, i + 1, sr.value.1, rows + [sr.value.0]);
      }
    }
  }

  /** Counting from i is the count of line i plus the count from i+1. */
  lemma {:induction false} CountShift(grows: string -> nat, lines: seq<string>, i: nat, q: nat)
    requires i < q <= |lines|
    ensures Count(grows, lines, i, q) == grows(lines[i]) + Count(grows, lines, i + 1, q)
    decreases q - i
  {
    if q > i + 1 {
      CountShift(grows, lines, i, q - 1);
    }
  }

  lemma {:induction false} CountMono(grows: string -> nat, lines: seq<string>, lo: nat, mid: nat, hi: nat)
    requires lo <= mid <= hi <= |lines|
    ensures Count(grows, lines, lo, mid) <= Count(grows, lines, lo, hi)
    decreases hi - mid
  {
    if mid < hi {
      CountMono(grows, lines, lo, mid, hi - 1);
    }
  }

  lemma StopsAtUnique(isStop: string -> bool, lines: seq<string>, i: nat, stop: nat, stop': nat)
    requires StopsAt(isStop, lines, i, stop) && StopsAt(isStop, lines, i, stop')
    ensures stop == stop'
  {
  }

  /**
   * make_standard, when it succeeds: line `stop` is the first line from
   * index 3 on that mentions `bounds`; there is one row per line 3..stop-1,
   * in order, each the StandardRow of its line, the inequality rows getting
   * the new variables nb+1, nb+2, ... in row order; all rows have the same
   * length; and n grows from nb by the number of inequality rows.
   */
  lemma MakeStandardRows(lines: seq<string>, nb: int) returns (stop: nat)
    requires MakeStandardSpec(lines, nb).error.None?
    ensures var r := MakeStandardSpec(lines, nb);
      && StopsAt(IsBoundsLine, lines, 3, stop) && |r.rows| == stop - 3
      && r.n == nb + Count(Grows, lines, 3, stop)
      && RowsAgree(StandardLine, Grows, lines, 3, stop, nb, r.rows)
      && SameLength(r.rows)
  {
    StandardLineGrows();
    ScanRows(IsBoundsLine, StandardLine, Grows, lines, 3, nb, []);
    ScanSameLength(IsBoundsLine, StandardLine, lines, 3, nb, []);
    var r := MakeStandardSpec(lines, nb);
    assert r.rows[0..] == r.rows;
    stop :| StopsAt(IsBoundsLine, lines, 3, stop)
      && r.n == nb + Count(Grows, lines, 3, stop)
      && RowsAgree(StandardLine, Grows, lines, 3, stop, nb, r.rows);
  }

  /** If get_coefs succeeds on some tokens, it succeeds on every prefix of them. */
  lemma {:induction false} CoefsPrefix(n: int, s: seq<string>, t: seq<string>)
    requires Coefs(n, s + t).Ok?
    ensures Coefs(n, s).Ok?
    decreases |t|
  {
    if t != [] {
      var k := |t| - 1;
      assert (s + t)[..|s| + k] == s + t[..k];
      CoefsPrefix(n, s, t[..k]);
    } else {
      assert s + t == s;
    }
  }

  /** The fields of a Model: costs c, the rows of A, right-hand sides b, m, n and the standardised rows. */
  datatype ModelData = ModelData(c: seq<int>, A: seq<seq<int>>, b: seq<int>, m: int, n: int, constraints: seq<seq<string>>)

  /** A string one character at a time, as iterating over a NumPy string yields it. */
  function Chars(w: string): (r: seq<string>)
    ensures |r| == |w| && forall j :: 0 <= j < |w| ==> r[j] == [w[j]]
  {
    seq(|w|, j requires 0 <= j < |w| => [w[j]])
  }

  /**
   * What `for constr in self.constraints` visits. Two or more rows form a
   * matrix and each row is visited; a single row stays a one-dimensional
   * array, and each of its words is visited as a row of one-character strings.
   */
  function IterRows(rows: seq<seq<string>>): (r: seq<seq<string>>)
    ensures |rows| != 1 ==> r == rows
    ensures |rows| == 1 ==> |r| == |rows[0]| && forall k :: 0 <= k < |r| ==> |r[k]| == |rows[0][k]|
    ensures |rows| == 1 ==> forall k, i :: 0 <= k < |r| && 0 <= i < |rows[0][k]| ==> r[k][i] == [rows[0][k][i]]
  {
    if |rows| == 1 then seq(|rows[0]|, k requires 0 <= k < |rows[0]| => Chars(rows[0][k])) else rows
  }

  /** int() of a row's last word, and get_coefs of the words before its last two. */
  function RowValues(n: int, row: seq<string>): (r: Result<(seq<int>, int)>)
    ensures r.Ok? ==> row != [] && ParseInt(row[|row| - 1]) == Ok(r.value.1) && |r.value.0| == n
  {
    var l := |row|;
    match PyIndex(l - 1, l)
    case None => Err(IndexError)
    case Some(li) =>
      match ParseInt(row[li])
      case Err(e) => Err(e)
      case Ok(bj) =>
        match Coefs(n, PySlice(row, 0, l - 2))
        case Err(e) => Err(e)
        case Ok(coefs) => Ok((coefs, bj))
  }

  /**
   * One iteration of read's row loop: the coefficients become a new row of A
   * (np.vstack refuses one of another width) and the right-hand side a new
   * entry of b.
   */
  function AddRow(st: ModelData, row: seq<string>): Result<ModelData> {
    match RowValues(st.n, row)
    case Err(e) => Err(e)
    case Ok((coefs, bj)) =>
      if st.A != [] && |st.A[0]| != |coefs| then Err(ValueError)
      else Ok(st.(A := st.A + [coefs], b := st.b + [bj]))
  }

  /** read's row loop; the rows added before an exception stay. */
  function AddRows(st: ModelData, rows: seq<seq<string>>): (r: (ModelData, Option<PyError>))
    ensures r.0.(A := st.A, b := st.b) == st
    decreases |rows|
  {
    if rows == [] then (st, None)
    else
      match AddRow(st, rows[0])
      case Err(e) => (st, Some(e))
      case Ok(st') => AddRows(st', rows[1..])
  }

  /**
   * read on the lines of a file: n from the bounds section, make_standard,
   * c from the objective line (line 1), then one row of A and one entry of b
   * per standardised row, appended to whatever A and b already held. The
   * state reached before an exception is kept.
   */
  function ReadSpec(st: ModelData, lines: seq<string>): (r: (ModelData, Option<PyError>))
    ensures r.0.m == st.m
    ensures r.1.None? ==> r.0.n >= 0 && |r.0.c| == r.0.n
  {
    match CompNbX(lines)
    case Err(e) => (st, Some(e))
    case Ok(nb) =>
      var std := MakeStandardSpec(lines, nb);
      var st1 := st.(n := std.n, constraints := std.rows);
      if std.error.Some? then (st1, std.error)
      else if |lines| < 2 then (st1, Some(IndexError))
      else
        match Coefs(std.n, Split(lines[1]))
        case Err(e) => (st1, Some(e))
        case Ok(c) => AddRows(st1.(c := c), IterRows(std.rows))
  }

  /** Rows A[offA..] and entries b[offB..] are the coefficients and right-hand sides of `rows`, in order. */
  predicate RowsRead(n: int, rows: seq<seq<string>>, A: seq<seq<int>>, offA: nat, b: seq<int>, offB: nat) {
    && offA + |rows| <= |A| && offB + |rows| <= |b|
    && forall k :: 0 <= k < |rows| ==> RowValues(n, rows[k]) == Ok((A[offA + k], b[offB + k]))
  }

  /**
   * read's row loop changes only A and b, and only by appending; when it
   * succeeds, row k of the new part of A and entry k of the new part of b
   * are the coefficients and the right-hand side of row k.
   */
  lemma {:induction false} AddRowsAppends(st: ModelData, rows: seq<seq<string>>)
    ensures var (r, err) := AddRows(st, rows);
      && r.(A := st.A, b := st.b) == st
      && |r.A| - |st.A| == |r.b| - |st.b| >= 0
      && r.A[..|st.A|] == st.A && r.b[..|st.b|] == st.b
      && (err.None? ==>
            && |r.A| == |st.A| + |rows|
            && RowsRead(st.n, rows, r.A, |st.A|, r.b, |st.b|))
  {
    AddRowsKeeps(st, rows);
    AddRowsReads(st, rows);
  }

  /** read's row loop changes only A and b, and only by appending to both alike. */
  lemma {:induction false} AddRowsKeeps(st: ModelData, rows: seq<seq<string>>)
    ensures var r := AddRows(st, rows).0;
      && r.(A := st.A, b := st.b) == st
      && |r.A| - |st.A| == |r.b| - |st.b| >= 0
      && r.A[..|st.A|] == st.A && r.b[..|st.b|] == st.b
    decreases |rows|
  {
    if rows != [] {
      match AddRow(st, rows[0])
      case Err(_) =>
      case Ok(st') =>
        var a, bk := AddRowOk(st, rows[0]);
        AddRowsKeeps(st', rows[1..]);
        var r := AddRows(st', rows[1..]).0;
        assert r.A[..|st.A|] == (r.A[..|st'.A|])[..|st.A|];
        assert r.b[..|st.b|] == (r.b[..|st'.b|])[..|st.b|];
    }
  }

  /** When read's row loop succeeds, it appended one row of A and one entry of b per row, in order. */
  lemma {:induction false} AddRowsReads(st: ModelData, rows: seq<seq<string>>)
    ensures var r := AddRows(st, rows).0;
      AddRows(st, rows).1.None? ==>
        && |r.A| == |st.A| + |rows|
        && RowsRead(st.n, rows, r.A, |st.A|, r.b, |st.b|)
    decreases |rows|
  {
    if rows != [] {
      match AddRow(st, rows[0])
      case Err(_) =>
      case Ok(st') =>
        var a, bk := AddRowOk(st, rows[0]);
        AddRowsReads(st', rows[1..]);
        var (r, err) := AddRows(st', rows[1..]);
        assert AddRows(st, rows) == (r, err);
        if err.None? {
          AddRowsKeepsAt(st', rows[1..], |st.A|, |st.b|);
          assert st'.n == st.n && |st'.A| == |st.A| + 1 && |st'.b| == |st.b| + 1;
          RowsReadCons(st.n, rows, r.A, |st.A|, r.b, |st.b|);
        }
    }
  }

  /** read's row loop keeps row i of A and entry j of b, and n. */
  lemma AddRowsKeepsAt(st: ModelData, rows: seq<seq<string>>, i: nat, j: nat)
    requires i < |st.A| && j < |st.b|
    ensures var r := AddRows(st, rows).0;
      i < |r.A| && r.A[i] == st.A[i] && j < |r.b| && r.b[j] == st.b[j] && r.n == st.n
  {
    AddRowsKeeps(st, rows);
    var r := AddRows(st, rows).0;
    assert r.A[i] == r.A[..|st.A|][i];
    assert r.b[j] == r.b[..|st.b|][j];
  }

  /** A row added without error: its coefficients and right-hand side, appended to A and b. */
  lemma AddRowOk(st: ModelData, row: seq<string>) returns (a: seq<int>, bk: int)
    requires AddRow(st, row).Ok?
    ensures RowValues(st.n, row) == Ok((a, bk))
    ensures AddRow(st, row).value == st.(A := st.A + [a], b := st.b + [bk])
  {
    a, bk := RowValues(st.n, row).value.0, RowValues(st.n, row).value.1;
  }

  /** Row j of a run of rows read into A and b. */
  lemma RowsReadAt(n: int, rows: seq<seq<string>>, A: seq<seq<int>>, offA: nat, b: seq<int>, offB: nat, j: nat)
    requires RowsRead(n, rows, A, offA, b, offB) && j < |rows|
    ensures offA + j < |A| && offB + j < |b| && RowValues(n, rows[j]) == Ok((A[offA + j], b[offB + j]))
  {
  }

  /** RowsRead grows by one row at the front. */
  lemma RowsReadCons(n: int, rows: seq<seq<string>>, A: seq<seq<int>>, offA: nat, b: seq<int>, offB: nat)
    requires rows != [] && offA < |A| && offB < |b|
    requires RowValues(n, rows[0]) == Ok((A[offA], b[offB]))
    requires RowsRead(n, rows[1..], A, offA + 1, b, offB + 1)
    ensures RowsRead(n, rows, A, offA, b, offB)
  {
    forall k | 0 <= k < |rows|
      ensures RowValues(n, rows[k]) == Ok((A[offA + k], b[offB + k]))
    {
      if k > 0 {
        assert rows[k] == rows[1..][k - 1];
      }
    }
  }

  /** Both slack (`+`) and surplus (`-`) terms give their variable coefficient +1, as the sign token is dropped. */
  lemma NewVariableEntersPositive(n: nat, terms: seq<string>, sign: string, k: nat)
    requires IsSign(sign)
    requires Coefs(n, terms + [sign, TermText(1, k)]).Ok? && 1 <= k <= n
    ensures Coefs(n, terms + [sign, TermText(1, k)]).value[k - 1] == 1
  {
    assert terms + [sign] + [TermText(1, k)] == terms + [sign, TermText(1, k)];
    CoefsDropSign(n, terms, sign, [TermText(1, k)]);
    CoefsPrefix(n, terms, [TermText(1, k)]);
    CoefsAppendTerm(n, terms, 1, k);
  }

  /**
   * What a successful read leaves: make_standard's rows (one per line before
   * the first `bounds` line, all of one length), n grown by one per
   * inequality row, c read from the objective line with that n, m untouched,
   * and A and b extended by one row and one entry for every row the loop
   * visits, in order.
   */
  lemma ReadRows(st: ModelData, lines: seq<string>, nb: int) returns (stop: nat)
    requires ReadSpec(st, lines).1.None?
    requires CompNbX(lines) == Ok(nb)
    ensures var r := ReadSpec(st, lines).0;
      && r.constraints == MakeStandardSpec(lines, nb).rows && |r.constraints| == stop - 3
      && StopsAt(IsBoundsLine, lines, 3, stop)
      && RowsAgree(StandardLine, Grows, lines, 3, stop, nb, r.constraints)
      && SameLength(r.constraints)
      && r.n == nb + Count(Grows, lines, 3, stop)
      && Ok(r.c) == Coefs(r.n, Split(lines[1]))
      && r.m == st.m
      && |r.A| == |st.A| + |IterRows(r.constraints)| && |r.b| == |st.b| + |IterRows(r.constraints)|
      && r.A[..|st.A|] == st.A && r.b[..|st.b|] == st.b
      && RowsRead(r.n, IterRows(r.constraints), r.A, |st.A|, r.b, |st.b|)
  {
    var std := ReadUnfold(st, lines, nb);
    stop := MakeStandardRows(lines, nb);
    var st1 := st.(n := std.n, constraints := std.rows, c := Coefs(std.n, Split(lines[1])).value);
    var rows := IterRows(std.rows);
    AddRowsAppends(st1, rows);
    var r := ReadSpec(st, lines).0;
    assert r == AddRows(st1, rows).0;
  }

  /** A successful read is make_standard, then the objective, then the row loop. */
  lemma ReadUnfold(st: ModelData, lines: seq<string>, nb: int) returns (std: Standardized)
    requires ReadSpec(st, lines).1.None?
    requires CompNbX(lines) == Ok(nb)
    ensures std == MakeStandardSpec(lines, nb) && std.error.None?
    ensures |lines| >= 2 && Coefs(std.n, Split(lines[1])).Ok?
    ensures ReadSpec(st, lines)
         == AddRows(st.(n := std.n, constraints := std.rows, c := Coefs(std.n, Split(lines[1])).value), IterRows(std.rows))
  {
    std := MakeStandardSpec(lines, nb);
  }

  /** With two rows or more, read's loop visits the rows themselves. */
  lemma IterRowsMany(rows: seq<seq<string>>)
    requires |rows| != 1
    ensures IterRows(rows) == rows
  {
  }

  /**
   * read on an inequality line, from the facts ReadRows gives about a
   * successful read with at least two constraint rows: the row of A read from
   * constraint line 3+j has coefficient +1 on the variable make_standard added
   * for it (numbered after the nb declared ones and one per inequality line
   * above it), whether the line says `<=` or `>=`; and its entry of b is int()
   * of the line's last word.
   */
  lemma InequalityRowRead(lines: seq<string>, nb: int, stop: nat, rows: seq<seq<string>>, n: int,
                          A: seq<seq<int>>, offA: nat, b: seq<int>, offB: nat, j: nat)
    requires RowsAgree(StandardLine, Grows, lines, 3, stop, nb, rows)
    requires n == nb + Count(Grows, lines, 3, stop) && nb >= 0
    requires RowsRead(n, rows, A, offA, b, offB)
    requires 3 + j < stop && IsInequality(Split(lines[3 + j]))
    ensures InequalityRowOf(lines[3 + j], nb + Count(Grows, lines, 3, 3 + j), A, offA + j, b, offB + j)
  {
    var k := InequalityLineRow(lines, nb, stop, rows, j);
    RowsReadAt(n, rows, A, offA, b, offB, j);
    InequalityRowValues(lines[3 + j], k, n, rows[j], A[offA + j], b[offB + j]);
  }

  /** The row make_standard gives inequality line 3+j, with the count before it and after it. */
  lemma InequalityLineRow(lines: seq<string>, nb: int, stop: nat, rows: seq<seq<string>>, j: nat) returns (k: int)
    requires RowsAgree(StandardLine, Grows, lines, 3, stop, nb, rows)
    requires 3 + j < stop && IsInequality(Split(lines[3 + j]))
    ensures j < |rows| && k == nb + Count(Grows, lines, 3, 3 + j)
    ensures StandardLine(lines[3 + j], k) == Ok((rows[j], k + 1)) && k + 1 <= nb + Count(Grows, lines, 3, stop)
  {
    k := nb + Count(Grows, lines, 3, 3 + j);
    RowsAgreeFrom3(StandardLine, Grows, lines, nb, stop, rows, j);
    InequalityGrows(lines[3 + j]);
  }

  /** An inequality line adds one variable. */
  lemma InequalityGrows(line: string)
    requires IsInequality(Split(line))
    ensures Grows(line) == 1
  {
  }

  /** Row j of a run of agreeing rows from line 3, with the count before it and no more than the final count. */
  lemma RowsAgreeFrom3(step: RowStep, grows: string -> nat, lines: seq<string>, nb: int, stop: nat, rows: seq<seq<string>>, j: nat)
    requires RowsAgree(step, grows, lines, 3, stop, nb, rows)
    requires 3 + j < stop
    ensures j < |rows|
    ensures step(lines[3 + j], nb + Count(grows, lines, 3, 3 + j))
         == Ok((rows[j], nb + Count(grows, lines, 3, 3 + j) + grows(lines[3 + j])))
    ensures nb + Count(grows, lines, 3, 3 + j) + grows(lines[3 + j]) <= nb + Count(grows, lines, 3, stop)
  {
    RowsAgreeAt(step, grows, lines, 3, stop, nb, rows, 3 + j);
    CountMono(grows, lines, 3, 3 + j + 1, stop);
  }

  /**
   * What an inequality line gives when read: entry k of its row of A (the
   * variable make_standard added for it) is 1, and its entry of b is int() of
   * the line's last word.
   */
  predicate InequalityRead(line: string, k: int, a: seq<int>, bk: int) {
    var ws := Split(line);
    && 0 <= k < |a| && a[k] == 1
    && ws != [] && Ok(bk) == ParseInt(ws[|ws| - 1])
  }

  /** Row i of A and entry i of b exist and are what inequality line `line` gives. */
  predicate InequalityRowOf(line: string, k: int, A: seq<seq<int>>, i: nat, b: seq<int>, ib: nat) {
    i < |A| && ib < |b| && InequalityRead(line, k, A[i], b[ib])
  }

  /**
   * A standardised inequality row read back: the new variable k+1 has
   * coefficient +1 and the right-hand side is int() of the row's last word.
   */
  lemma InequalityRowValues(line: string, k: nat, n: int, row: seq<string>, a: seq<int>, bk: int)
    requires IsInequality(Split(line))
    requires StandardLine(line, k) == Ok((row, k + 1))
    requires RowValues(n, row) == Ok((a, bk)) && k < n
    ensures InequalityRead(line, k, a, bk)
  {
    var constr := Split(line);
    var sign := InequalityRowShape(constr, k, row);
    RowValuesOk(n, row, a, bk);
    InequalityNewCoef(n, Terms(constr), sign, k, row, a);
  }

  /**
   * The rewritten form of an inequality row: its terms, a sign, the new
   * variable's term, then `=` and the row's last word.
   */
  lemma InequalityRowShape(constr: seq<string>, k: int, row: seq<string>) returns (sign: string)
    requires IsInequality(constr) && StandardRow(constr, k) == Ok((row, k + 1))
    ensures IsSign(sign) && |row| >= 2 && constr != []
    ensures row[..|row| - 2] == Terms(constr) + [sign, TermText(1, k + 1)]
    ensures row[|row| - 1] == constr[|constr| - 1]
  {
    StandardRowShape(constr, k);
    sign := if Contains(RelToken(constr), "<=") then "+" else "-";
    assert row == Terms(constr) + [sign, TermText(1, k + 1), "=", constr[|constr| - 1]];
  }

  /** The new variable's coefficient in a read-back inequality row is +1. */
  lemma InequalityNewCoef(n: int, terms: seq<string>, sign: string, k: nat, row: seq<string>, a: seq<int>)
    requires IsSign(sign) && k < n && |row| >= 2
    requires row[..|row| - 2] == terms + [sign, TermText(1, k + 1)]
    requires Coefs(n, row[..|row| - 2]) == Ok(a)
    ensures k < |a| && a[k] == 1
  {
    NewVariableEntersPositive(n, terms, sign, k + 1);
  }

  /** A row read without error: its last word is the right-hand side, and the words before its last two the terms. */
  lemma RowValuesOk(n: int, row: seq<string>, a: seq<int>, bk: int)
    requires RowValues(n, row) == Ok((a, bk))
    ensures |row| >= 2 ==> Coefs(n, row[..|row| - 2]) == Ok(a)
    ensures row != [] && ParseInt(row[|row| - 1]) == Ok(bk)
  {
  }

  /** Every row read has n entries, so A keeps one width and one entry of b per row. */
  lemma {:induction false} AddRowsShape(st: ModelData, rows: seq<seq<string>>)
    requires st.n >= 0 && IsMatrix(st.A, st.n) && |st.b| == |st.A|
    ensures var r := AddRows(st, rows).0;
      IsMatrix(r.A, st.n) && |r.b| == |r.A| && r.c == st.c && r.n == st.n
    decreases |rows|
  {
    if rows != [] {
      match AddRow(st, rows[0])
      case Err(_) =>
      case Ok(st') =>
        AddRowsShape(st', rows[1..]);
    }
  }

  /**
   * read on a fresh model, whatever exception it stops at, leaves A a matrix
   * with |c| columns and one row per entry of b: the shape the solver methods
   * assume. c is either still empty (an exception came before line 1 was
   * read) or has n entries.
   */
  lemma {:induction false} ReadShape(lines: seq<string>)
    ensures var r := ReadSpec(ModelData([], [], [], 0, 0, []), lines).0;
      && IsMatrix(r.A, |r.c|) && |r.b| == |r.A|
      && (r.c == [] || |r.c| == r.n)
  {
    var st := ModelData([], [], [], 0, 0, []);
    match CompNbX(lines)
    case Err(_) =>
    case Ok(nb) =>
      var std := MakeStandardSpec(lines, nb);
      var st1 := st.(n := std.n, constraints := std.rows);
      if std.error.None? && |lines| >= 2 {
        match Coefs(std.n, Split(lines[1]))
        case Err(_) =>
        case Ok(c) =>
          AddRowsShape(st1.(c := c), IterRows(std.rows));
          AddRowsKeeps(st1.(c := c), IterRows(std.rows));
      }
  }
}

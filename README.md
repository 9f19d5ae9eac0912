# r_simplex in Dafny

A model of the revised simplex solver `r_simplex`. It covers three parts of the solver.

**The LP-text front end (`model.py`, `utils.py`).** The solver reads a problem given as lines of text:
- `comp_nb_x` reads the variable count from the bounds section;
- `make_standard` rewrites every constraint row into equality form, adding a slack (`<=`) or surplus (`>=`) variable;
- `get_coefs` and `get_coef_and_x` turn `<c>x<k>` tokens into dense integer coefficient vectors;
- the row loop of `read` assembles `A` and `b`.

**The revised simplex loop (`model.py`, `utils.py`).**
- `find_basic_feas_sol` sets up the hard-coded starting basis.
- `getBNCB` and `col` gather the basis columns.
- `pricing` chooses the entering column.
- `comp_max_t` is the ratio test that chooses the leaving row. The loop runs it as written, including the IndexError of the finding below; the certificates are stated with the intended ratio test, which agrees with it wherever it returns.
- `steps2to5` swaps the two columns in the arrays `Bv` and `Nv` and repeats until OPTIMAL or UNBOUNDED.
- `solve` runs the whole method.

**The dense-array builder (`data.py`).**
- `populate_vars` numbers the variables.
- `populate_c` and `populateAb` scatter the objective and the constraints into `c`, `A` and `b`.

Layout:
- `errors.dfy`: Python's exceptions (`ValueError`, `IndexError`, `KeyError`, `LinAlgError`), as a `Result`.
- `text.dfy`: the string and index semantics the reader relies on: `str.split`, `int()`, f-string digits, negative indices and slices.
- `dense.dfy`: vectors and matrices: scattered writes, dot products, `hstack`, transposition, and what a linear solve promises.
- `utils.dfy`: `utils.py`.
- `model_spec.dfy`: the text front end of `model.py` as functions of the input lines.
- `simplex.dfy`: the basis, the OPTIMAL and UNBOUNDED certificates, and what they mean (weak duality, the unbounded ray).
- `model.dfy`: the class `Model` with its fields and imperative methods. Each is proved to agree with `model_spec.dfy` and `simplex.dfy`.
- `data.dfy`: `data.py`.

The three `np.linalg.solve` calls become one parameter `solve` of type `Solver`. Its only assumed property is `SoundSolver`: whatever solution it returns satisfies the system. `None` stands for the `LinAlgError` of a singular matrix. Floats are exact reals.

## Model

| member | source | states |
|---|---|---|
| Utils.TermRoundTrip | utils.py:19-23 | get_coef_and_x on the token `<c>x<k>` gives back `(c, k-1)` |
| Utils.GetCoefAndX | utils.py:19-23 | success implies an `x` was present, and the only errors are ValueError (from `int()`) and IndexError (no text after an `x`) |
| Utils.Obj | utils.py:14-18 | the objective `c_B · x_B` is 0 for an empty basis and never negative when every basic cost and every basic value is non-negative |
| Utils.Col | utils.py:25-28 | `V[:, [i]]` succeeds exactly when i is below the width; the result is a one-column matrix whose column is column i of V |
| Utils.Pricing | utils.py:50-60 | IndexError exactly when Nv is empty or names a column past c. Otherwise it returns a position p in Nv and the value c_j - pi.A_j for j = Nv[p]. That value is at least every reduced cost over Nv and strictly greater than those at earlier positions, so p is the first maximal position |
| Utils.RatioTestUpTo | utils.py:36-47 | the intended ratio test gives -1 exactly when no row has x_i/d_i >= 0. Otherwise it gives an eligible row with the smallest ratio, and the first such row |
| Utils.RatioTestUnique | utils.py:47 | any row meeting that description is the ratio test's result |
| Utils.FilteredStep | utils.py:36-40 | one turn of the filtering loop appends the ratio and the row number of an eligible row and skips any other row |
| Utils.FilteredMin | utils.py:47 | when every key lookup t[i] is in range, the eligible rows are a prefix and the min is the intended ratio test |
| Utils.MinByKey | utils.py:47 | `min(t_i, key=lambda i: t[i])`: IndexError exactly when some element of t_i is past the end of t. Otherwise it returns the first position with the smallest key |
| Utils.CompMaxT | utils.py:30-48 | comp_max_t as written: IndexError exactly when the eligible rows are not a prefix of the rows. Otherwise it returns the intended ratio test's result |
| Utils.CompMaxTNotPrefixInput | utils.py:36-47 | for XB = [1, 2] and d = [-1, 1] the eligible rows are not a prefix (so comp_max_t raises), while the intended result is row 1 |
| Utils.RatioTestKeepsFeasible | utils.py:31 | the feasibility half of the doc comment: from XB >= 0, the step t = x_r/d_r to the chosen row r keeps XB - t d >= 0 |
| Utils.RatioTestRowFeasible | utils.py:31 | the same, for one row |
| Utils.NoEligibleRowIsRay | utils.py:42-44 | when no row is eligible, XB - t d >= 0 for every t >= 0 |
| Utils.BlockingRatioTestUpTo | utils.py:30-48 | the ratio test as the doc comment describes it: -1 exactly when no row has d_i > 0, otherwise the first row with d_i > 0 whose ratio is smallest among those rows |
| Utils.BlockingRatioTestFeasible | utils.py:31 | from XB >= 0, the corrected step t = x_r/d_r is non-negative and keeps XB - t d >= 0 |
| Utils.BlockingRatioTestMaximal | utils.py:31 | the "max t" of the doc comment: no t' >= 0 larger than the corrected step keeps XB - t' d >= 0 |
| Utils.BlockingRatioTestRay | utils.py:42-44 | with no row where d_i > 0, every step t >= 0 keeps XB - t d >= 0 |
| Utils.EligibleBlocking | utils.py:37-38 | on a row with x_i > 0 or d_i > 0, passing `div >= 0` is the same as d_i > 0 |
| Utils.RatioTestNondegenerate | utils.py:36-47 | when no row has x_i = 0 and d_i < 0, comp_max_t's ratio test and the corrected one choose the same row |
| Utils.RatioTestUnboundedBlocking | utils.py:42-44 | from XB >= 0, a -1 (UNBOUNDED) from comp_max_t's ratio test is also the corrected test's answer |
| Utils.CompMaxTDegenerateInput | utils.py:36-40 | for XB = [0, 1] and d = [-1, 1] comp_max_t returns row 0 with step 0, while step 1 keeps XB - t d >= 0 and the corrected test chooses row 1 |
| ModelSpec.CompNbXReadsLastBound | model.py:53-57 | when the next-to-last line starts with `x<k>`, comp_nb_x returns k |
| ModelSpec.CompNbX | model.py:53-57 | the count of variables comes from the first word of the second-to-last line (the only line when there is one); an empty file or an empty such line fails, and the only failures are IndexError and ValueError |
| ModelSpec.TermWrite | model.py:49-50 | a successful write of one term lands inside the vector |
| ModelSpec.CoefWrites | model.py:47-50 | every write of get_coefs lands inside the vector |
| ModelSpec.Coefs | model.py:45-51 | get_coefs succeeds only for n >= 0 and then returns n entries |
| ModelSpec.CoefsAt | model.py:45-51 | each index holds the coefficient of the LAST term token naming it, and 0 when no token names it |
| ModelSpec.CoefWritesLast | model.py:47-50 | the last write to index j is the last term token naming j |
| ModelSpec.CoefWritesErrPrefix | model.py:47-50 | the first bad token decides the error |
| ModelSpec.CoefsDropSign | model.py:48 | a `+` or `-` token changes nothing: a sign written apart from its term is lost |
| ModelSpec.CoefWritesDropSign | model.py:48 | the same, for the writes |
| ModelSpec.CoefsAppendTerm | model.py:47-50 | one more term token overwrites its index with its coefficient |
| ModelSpec.CoefsPrefix | model.py:47-50 | if get_coefs succeeds on some tokens, it succeeds on every prefix of them |
| ModelSpec.SurplusEntersPositive | model.py:48-50 | a `>=` row's surplus term `- 1x<k>` enters with coefficient +1 |
| ModelSpec.NewVariableEntersPositive | model.py:73-78 | both the slack (`+`) and the surplus (`-`) variable get coefficient +1 |
| ModelSpec.StandardRow | model.py:65-80 | rewriting a constraint fails exactly on an empty line, and a successful rewrite raises the variable count by one exactly for an inequality |
| ModelSpec.StandardRowShape | model.py:65-80 | an inequality row becomes its terms, then the sign, `1x<n+1>`, `=` and its right-hand side, and n grows by one. Any other row is kept as it is and n is unchanged |
| ModelSpec.StandardLineGrows | model.py:70-80 | each line adds one variable if it is an inequality row and none otherwise |
| ModelSpec.ScanRows | model.py:62-87 | a successful loop stops at the first stop line, appends one row per line before it (in order, each the step's row for its line), and grows the count by what those lines add |
| ModelSpec.Scan | model.py:62-87 | the scan only appends rows after those already collected, and when it ends without error it ends on a stop line, one line per collected row after the start |
| ModelSpec.ScanSameLength | model.py:82-85 | the rows always form a matrix (np.vstack refuses a row of another length) |
| ModelSpec.MakeStandardSpec | model.py:59-88 | a file of at most three lines raises IndexError with nothing rewritten; a successful pass stops on the bounds line that follows the rewritten constraints, from the fourth line on |
| ModelSpec.MakeStandardRows | model.py:59-88 | make_standard runs from line 3 to the first line mentioning `bounds`. It gives one rewritten row per line, in order, numbers the new variables nb+1, nb+2, ... in row order, and grows n by the number of inequality rows |
| ModelSpec.StopsAtUnique | model.py:62-64 | the stop line is unique |
| ModelSpec.CountShift | model.py:76-77 | counting from line i is line i's contribution plus the count from i+1 |
| ModelSpec.CountMono | model.py:76-77 | the count only grows as lines are added |
| ModelSpec.RowsAgreeAt | model.py:62-87 | row q of the result is the step's row for line q, with the count as it stood before that line |
| ModelSpec.AddRowsAppends | model.py:30-43 | read's row loop changes only A and b, and only by appending. On success, row k of the new part of A is get_coefs of row k without its last two tokens, and entry k of b is int() of its last token |
| ModelSpec.AddRowsKeeps | model.py:30-43 | read's row loop leaves every field but A and b alone, and extends A and b by the same number of entries without changing the old ones |
| ModelSpec.AddRowsReads | model.py:30-43 | when read's row loop ends without an exception, it has appended exactly one row of A and one entry of b per visited row, and they are that row's coefficients and right-hand side |
| ModelSpec.AddRowsShape | model.py:38-43 | every row added has n entries, with one b entry per row |
| ModelSpec.AddRows | model.py:30-43 | reading constraint rows changes only A and b |
| ModelSpec.RowValues | model.py:32-36 | a row that reads yields n coefficients and, as b's entry, the integer written in its last word |
| ModelSpec.ReadUnfold | model.py:18-30 | a successful read is make_standard, then c from line 1, then the row loop |
| ModelSpec.ReadRows | model.py:18-43 | a successful read leaves make_standard's rows, n grown per inequality row, c = get_coefs of line 1 with the final n, and m untouched. A and b are extended by one row and one entry per visited row, in order |
| ModelSpec.ReadShape | model.py:18-43 | read on a fresh model, whatever exception stops it, leaves A a matrix with len(c) columns and one row per entry of b, and c either empty (the exception came before line 1 was read) or with n entries |
| ModelSpec.ReadSpec | model.py:18-43 | reading keeps m, and a read without error leaves a non-negative n with one objective coefficient per variable |
| ModelSpec.IterRowsMany | model.py:30 | with two rows or more, the loop visits the rows themselves |
| ModelSpec.IterRows | model.py:30 | iterating a list of several rows yields them unchanged; a single row (a NumPy 1-D array) is iterated word by word, each word turning into the row of its characters |
| ModelSpec.RowsAgreeFrom3 | model.py:60-87 | row j of make_standard's result is the rewrite of line 3+j with the count as it stood before that line. The count after that line is at most the final count |
| ModelSpec.InequalityRowValues | model.py:34-36 | a standardised inequality row read back has coefficient +1 on its new variable, and b equals int() of the line's last word |
| ModelSpec.InequalityRowRead | model.py:30-43 | after a successful read, the row of A for inequality line 3+j has +1 on the variable added for it (numbered after the declared ones and one per inequality line above), whether the line says `<=` or `>=` |
| LpModel.RewriteRow | model.py:65-80 | one turn of make_standard's loop computes the specified rewritten row and count |
| LpModel.Model.constructor | model.py:7-12 | a new model has no costs, no rows and no variables |
| LpModel.Model.GetCoefs | model.py:45-51 | the loop writing into a zero array returns exactly get_coefs' vector, or its error |
| LpModel.Model.MakeStandard | model.py:59-88 | the loop leaves the rows, n and the error make_standard specifies, and changes no other field |
| LpModel.Model.AddConstraintRows | model.py:30-43 | the row loop leaves exactly the fields and the error of the specified loop |
| LpModel.Model.Read | model.py:18-43 | read leaves exactly the fields and the error of the specified read |
| LpModel.Model.GetBNCB | model.py:90-96 | IndexError exactly when cols is empty, A has fewer than two rows, or a column lies past A's width or past c. Otherwise it returns B, whose column k is column cols[k] of A, and CB with CB[k] = c[cols[k]] |
| LpModel.Model.FindBasicFeasSol | model.py:98-109 | fresh arrays Bv = [0,2,6] and Nv = [1,3,4,5]. IndexError exactly when A has fewer than two rows or c fewer than 7 entries. Otherwise B and CB belong to that basis and XB solves B XB = b, unless the solver raises LinAlgError |
| LpModel.Model.Solve | model.py:155-157 | IndexError whenever the starting basis does not fit (fewer than 2 rows or 7 columns). Otherwise IndexError only where comp_max_t raises it on some pass, over a split of the columns 0..6. An OPTIMAL or UNBOUNDED stop carries its certificate, for lists that still partition the columns 0..6 |
| LpModel.Model.Iterate | model.py:156-157 | steps2to5 from the starting basis fails only with LinAlgError or with comp_max_t's IndexError, the latter at a basis that still partitions the columns. A certified stop keeps the partition |
| LpModel.Model.Steps2To5 | model.py:111-148 | the pivot loop keeps the basis in range and the multiset union of Bv and Nv. Every stop carries its certificate for the final arrays. IndexError only for an empty or out-of-range Nv, or where comp_max_t raises it at the final basis |
| LpModel.Model.Steps2To5Choose | model.py:111-138 | one pass, from step 2 (pi solves B^T pi = CB, else LinAlgError). OPTIMAL exactly when Nv is non-empty and every non-basic reduced cost is negative. UNBOUNDED exactly when the entering column is past pricing and the ratio test finds no row. IndexError exactly for an empty or out-of-range Nv, or comp_max_t's non-prefix case. Without a stop, the pivot is certified |
| LpModel.Model.PriceAndStep | model.py:116-138 | steps 3 to 5 once pi is the dual solution: the same iff characterisations of OPTIMAL, UNBOUNDED and IndexError. The entering position is pricing's first largest reduced cost |
| LpModel.Model.Steps4To5 | model.py:125-138 | never OPTIMAL. LinAlgError exactly when the solve of B d = A_j fails. ZeroDivisor exactly when d has a zero entry. IndexError exactly when comp_max_t as written raises. UNBOUNDED exactly when the ratio test gives -1, with its certificate. Otherwise the leaving row is the ratio test's choice |
| LpModel.Model.Pivot | model.py:140-146 | Bv[iout] and Nv[jin] are swapped, the multiset union is kept, and B and CB are those of the new basis. When the solver succeeds, XB solves the new system |
| LpModel.SwapColumns | model.py:143 | `Bv[iout], Nv[jin] = Nv[jin], Bv[iout]`: exactly those two entries change, and the union is kept |
| Simplex.BasisMatrix | model.py:90-96 | B has one row per row of A and len(cols) columns; column k is column cols[k] of A |
| Simplex.BasisCosts | model.py:91-95 | CB[k] = c[cols[k]] |
| Simplex.BasisMatrixFirst | model.py:91 | the first column taken is the basis matrix of one column |
| Simplex.BasisMatrixNext | model.py:93-94 | hstack of the basis matrix so far and the next column is the basis matrix of the longer list |
| Simplex.BasisSolutions | model.py:98-113 | the two solves of a basis (B XB = b, then B^T pi = CB) give its primal and dual solutions, and B is square |
| Simplex.PrimalSquare | model.py:98-99 | a solved B XB = b makes B square |
| Simplex.DualCosts | model.py:113 | pi B = CB |
| Simplex.BasicReducedCostZero | model.py:113-116 | every basic column has reduced cost zero |
| Simplex.DualObjective | utils.py:14-18 | obj(CB, XB) = CB.XB equals pi.b at a basis |
| Simplex.WeakDuality | model.py:116-123 | when all reduced costs are at most 0, pi.b bounds c.x for every feasible x |
| Simplex.OptimalBound | model.py:121-123 | at the OPTIMAL certificate, when Bv and Nv name every column, no feasible x beats CB.XB |
| Simplex.OptimalStopBound | model.py:121-123 | an OPTIMAL stop whose lists partition c's columns is optimal: c.x <= obj for every feasible x |
| Simplex.UnboundedRayNonNegative | model.py:134-137 | at the UNBOUNDED certificate, the basic variables XB - t d stay >= 0 for every t >= 0 |
| Simplex.RayBalances | model.py:126-137 | along the ray the rows still balance: B (XB - t d) + t A_j = b |
| Simplex.UnboundedRayObjective | model.py:134-137 | along the ray the objective grows by t times the entering reduced cost, which is not negative |
| Simplex.RayObjective | model.py:126-137 | CB.(XB - t d) + t c_j = CB.XB + t (c_j - pi.A_j) |
| Simplex.DirectionCost | model.py:113-129 | CB.d = pi.A_j for the direction d solved for column j |
| Simplex.RayDot | model.py:126-137 | u.(XB - t d) = u.XB - t (u.d) |
| Simplex.PartitionMeans | model.py:104-105 | a partition names each column below w exactly once, in Bv or in Nv |
| Simplex.InitialPartition | model.py:104-105 | [0,2,6] and [1,3,4,5] partition the columns 0..6 |
| Simplex.SwapKeepsPartition | model.py:143 | the swap keeps a partition |
| Simplex.CertifiesStop | model.py:156-157 | a certified stop over a partition carries that partition |
| Data.VarIndex | data.py:5-13 | the keys are exactly the names. Each name maps to a position holding it, and no later position holds it (a repeated name keeps its last position) |
| Data.VarIndexDistinct | data.py:5-13 | for distinct names, the k-th name maps to k, so the values are exactly 0..len-1 |
| Data.VarIndexCard | data.py:8-12 | for distinct names, the dictionary has one key per name |
| Data.PopulateVars | data.py:5-13 | the counter loop builds exactly that map and returns lp_constrs unchanged |
| Data.EntryWrite | data.py:20 | one write `c[vars[name]] = coef`: KeyError exactly for an unknown name, then IndexError for a missing row or an index outside -n..n-1 |
| Data.EntryWrites | data.py:19-20 | all writes succeed exactly when each one does; the i-th write is that of the i-th term |
| Data.EntryWritesErrPrefix | data.py:19-20 | the first failing write decides the error |
| Data.EntryWritesFirstError | data.py:20 | with every index in range, the only possible error is KeyError |
| Data.DenseRow | data.py:18-21 | a dense row has n entries and exists exactly when every write succeeds |
| Data.DenseRowAt | data.py:18-21 | each term's coefficient sits at its variable's index, and 0.0 sits at every variable no term names |
| Data.DenseRowHit | data.py:20 | a named variable's entry is its term's coefficient |
| Data.DenseRowMiss | data.py:18 | an unnamed variable's entry stays 0.0 |
| Data.PopulateCSpec | data.py:15-21 | a populated c has one entry per variable, and the only failures are KeyError (a name that is not a variable) and IndexError |
| Data.PopulateCFromVars | data.py:15-21 | over populate_vars' map: KeyError exactly when the objective names an unknown variable. Otherwise c has len(vars) entries, entry vars[name] is that name's coefficient, and every other entry is 0.0 |
| Data.PopulateC | data.py:15-21 | the loop writing into the zero array returns exactly populate_c's vector, or its error |
| Data.WriteCoef | data.py:19-20 | one turn of the loop: an unknown name is the KeyError the whole objective raises, an out-of-range index the IndexError. Otherwise the array becomes the zero vector with one more specified write applied |
| Data.AbRows | data.py:28-36 | success exactly when every constraint's writes succeed, with row i existing only for i < m. A is m x n and b has one entry per constraint |
| Data.AbRowsAt | data.py:26-36 | b[k] = -constant of constraint k; row i is constraint i's dense row, and rows past the last constraint are zero |
| Data.AbRowsStep | data.py:29-35 | one more constraint appends its negated constant and writes its row, when that row exists |
| Data.AbRowsErrPrefix | data.py:29-35 | the first failing constraint decides the error |
| Data.NoRowNoTerms | data.py:34 | a constraint past row m-1 can only be written when it has no terms |
| Data.PopulateAbRowsFit | data.py:26-35 | a successful populateAb has no terms in constraints past row m-1. Its errors are ValueError, KeyError or IndexError |
| Data.AbRowsError | data.py:33-34 | the row loop raises only KeyError or IndexError |
| Data.EntryWritesError | data.py:33-34 | one constraint's writes raise only KeyError or IndexError |
| Data.PopulateAbFromVars | data.py:23-36 | over populate_vars' map, with at most m constraints naming distinct known variables: A[i][vars[x]] is x's coefficient in constraint i, every other entry is 0.0, and b[i] is minus constraint i's constant |
| Data.PopulateAbSpec | data.py:23-36 | a negative shape raises ValueError; a populated A is an m × n matrix and b has one entry per constraint |
| Data.Zeros | data.py:26 | a fresh m x n array whose every row is all 0.0 |
| Data.AddConstraint | data.py:29-35 | one turn of the outer loop: either the error that the whole of populateAb raises, or b extended by minus the constant, with rows 0..i holding the specified dense rows |
| Data.WriteEntry | data.py:34 | A[i][j] = v changes entry j of row i and nothing else |
| Data.WriteRow | data.py:31-34 | the inner loop raises what the specified writes raise. Otherwise row i becomes the dense row of the constraint and every other row is unchanged |
| Data.PopulateAb | data.py:23-36 | the nested loops over the m x n array return exactly populateAb's A and b, or its error (ValueError for negative dimensions) |

## Left out

- File reading (`open`/`readlines`): `read` takes the list of lines.
- Console output: `__str__` and every `print` (including the OPTIMAL/UNBOUNDED messages, which become the `Stop` value returned).
- `np.linalg.solve`: a parameter `solve` that either fails (`LinAlgError`) or returns a solution of the system. Its numerics are out of scope.
- Floating point: exact reals throughout. Where comp_max_t would divide by a zero d_i (inf/nan in NumPy), steps2to5 stops with `ZeroDivisor`.
- Unbounded recursion of `steps2to5`: a loop of at most `fuel` pivots, ending in `OutOfFuel`. Termination (there is no anti-cycling) is not claimed.
- `Model.sum` (dead, no return) and the commented-out ratio test in `utils.py`.
- `compXB` is inlined as the `solve` call in FindBasicFeasSol and Pivot.
- pulp objects in `data.py`: an expression is its (name, coefficient) terms in iteration order plus a constant. `str(x)` is the name. The constraint dictionary is the sequence of its expressions, in iteration order; its keys are never used.
- `to_mps.py` and `run.py`: a pulp export script and the command-line entry point.
- The NumPy dtype of `self.constraints` (`str`) and the 1-D shape of a one-row `A` are modelled only as far as `read` and `getBNCB` observe them: a single row is iterated word by word, and a 1-D A raises IndexError in `col`.
- 64-bit integers: NumPy's int64 coefficient arrays are unbounded `int`s here, so overflow is not modelled.
- `int()` accepts only ASCII digits with an optional sign. Underscores and non-ASCII digits are not modelled, and surrounding whitespace is never present because tokens come from `split()`. `lower()` is ASCII only.
- LpModel.Model.Solve: OPTIMAL is proved optimal (Simplex.OptimalStopBound) only when c has exactly 7 columns. The hard-coded basis [0,2,6] with [1,3,4,5] names only columns 0..6, so wider problems leave columns that pricing never sees.
- Simplex.UnboundedRayNonNegative: the UNBOUNDED ray is stated on the basic variables and on the balance of the rows (Simplex.RayBalances). The full x vector along the ray is not assembled.
- The `Model.constraints` attribute exists only after `make_standard`. Here it starts as an empty list.
- Utils.RatioTestKeepsFeasible: states that the chosen step keeps XB - t d >= 0, not that it is the largest such t as comp_max_t's doc comment says, because comp_max_t does not compute the largest one (Findings, utils.py:38). The maximum is proved for the corrected test, Utils.BlockingRatioTestMaximal.

## Findings

| source | as written | input that shows it | evidently intended | confidence | as-written member | corrected member |
|---|---|---|---|---|---|---|
| utils.py:47 | `min(t_i, key=lambda i: t[i])` looks a row number up in the filtered list `t` | XB = [1, 2], d = [-1, 1]: only row 1 is eligible, so t has one entry and `t[1]` raises IndexError | the eligible row with the smallest ratio, here row 1 | not executed | Utils.CompMaxT | Utils.RatioTestUpTo |
| utils.py:38 | `if div >= 0` keeps a row with x_i = 0 and d_i < 0, whose ratio is 0 (-0.0 in NumPy), although that row does not limit the step | XB = [0, 1], d = [-1, 1]: the step is t = 0 from row 0, yet t = 1 keeps XB - t d = [1, 0] >= 0 | the largest t with XB - t d >= 0, from the rows where d_i > 0: here row 1 with t = 1 | not executed | Utils.CompMaxTDegenerateInput | Utils.BlockingRatioTestUpTo |

`Utils.CompMaxT` is what the pivot loop (`LpModel.Model.Steps4To5`) calls, so the model raises IndexError where the program does. Where `comp_max_t` returns, its result equals `Utils.RatioTest`, and the UNBOUNDED and pivot certificates, and the feasibility lemmas, are stated with that ratio test. The filter of utils.py:38 is kept as the program has it, so the solver may take a step of 0 on a degenerate basis. The corrected test of that row, `Utils.BlockingRatioTest`, is proved to give the largest feasible step (`Utils.BlockingRatioTestMaximal`). It chooses the same row as the solver's test whenever no basic variable is 0 with d_i < 0 (`Utils.RatioTestNondegenerate`), and it agrees with every UNBOUNDED answer of the solver (`Utils.RatioTestUnboundedBlocking`).

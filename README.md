# A verified model of a DPLL SAT solver and its Sudoku encoder

This project models, in Dafny, the core of a small Python SAT solver and proves
properties of that model. A formula is a list of clauses. A clause is a list of
non-zero signed integer literals. The solver decides satisfiability with plain DPLL:

- boolean constraint propagation (`propagate_unit` / `bcp`);
- the unit-clause cascade (`get_unit_clauses` / `assign_unit`);
- literal selection: first literal, or one-sided or two-sided Jeroslow-Wang;
- the recursive search (`solve` / `backtrack`), which tries the chosen literal
  first and its negation only when the first branch answers `[]`.

The repository holds four near-identical copies of this engine. The copies are
`solver/og_solver.py`, `solver/solver_class.py`, `solver_class.py` and
`solver_typed.py`. The two files under `solver/` import their Jeroslow-Wang
methods from `solver/heuristics.py`. The two top-level scripts `solver_class.py`
and `solver_typed.py` each define their own copies of those methods. The
top-level `heuristics.py` is one more copy, which no file imports. All of these
copies compute the same thing, so the methods are modelled once. The propagation and cascade loops are textually the same in
every copy, so each is modelled once. The files differ in three ways:

- how the literal is selected;
- whether search counters are kept (only `solver/og_solver.py`);
- the name of the recursive function.

The second component is the Sudoku encoder of `encode_puzzles.py`. It turns each
given cell of a puzzle string into a DIMACS unit clause. It then assembles one
DIMACS file per puzzle: a header, the rule clauses, and the unit clauses.

Modules, one per concern of the source:

- `Cnf.dfy`: `Wrappers` (Option, Result) and `Cnf` (clauses, formulas,
  variables, satisfaction, consistency).
- `Propagation.dfy`: `Bcp` is the source's loop. It is proved equal to the
  specification function `Propagate`. Its closed form is conflict exactly when
  some clause consists of the negated literal only; otherwise the reduction.
- `UnitCascade.dfy`: `AssignUnit` is the `while` loop, proved equal to
  `Cascade`. The lemmas cover the three exits, termination, soundness and
  completeness.
- `Heuristics.dfy`: `Weigh`, `WeighClause` and `ArgMax` are the nested loops
  filling the `defaultdict` and Python's `max`. They are proved equal to
  `WeightMap`, `KeyOrder` and `FirstMax`.
- `Dpll.dfy`: the search `Search` / `Branch` / `Try` as functions, with
  soundness, consistency, completeness and the counter bookkeeping
  (`SearchCounts`).
- `SolverClass.dfy`: class `SatSolver` of `solver/solver_class.py` and of
  `solver_class.py`. These are the same class: strategy fixed at construction.
- `SolverTyped.dfy`: `backtrack` of `solver_typed.py`.
- `OgSolver.dfy`: class `MeteredSolver` of `solver/og_solver.py`. It keeps five
  counters, updated in place.
- `SudokuEncoding.dfy`:
  - `ConvertToDimacs`: the nested loops of `convert_to_DIMACS`;
  - `GenerateDimacs`: the pure part of `generate_DIMACS` (length check, file
    contents, header).

Each method that has a loop or mutates state is proved against a specification
function. The properties are stated about that function.

Some behaviour of the code is worth stating plainly, since the model follows it
exactly:

- the counters of `solver/og_solver.py` are never reset between `solve` calls on
  the same instance;
- the cascade always takes the first unit clause of the formula;
- heuristic ties go to the key inserted first into the dictionary, which is the
  key met first while scanning the formula clause by clause.

In two places the program's own text promises more than its code does, and the
model follows the code:

- the constructor docstring of `solver/og_solver.py` (lines 15-16) lists
  strategies 4 (MOM's heuristic) and 5 (DLIS), and the constructor accepts them,
  but the selectors they call are defined nowhere;
- the comments at `encode_puzzles.py` lines 34-35 speak of 1 to 16 and 11 to 26,
  while the symbol table numbers `"123456789ABCDEF"` 1 to 15 and `"GHIJKLMNOP"`
  11 to 20, so 'G' to 'K' share their numbers with 'B' to 'F'
  (`LettersCollide`).

## Model

| member | source | states |
|---|---|---|
| `Propagation.Strip` | solver_class.py:50 | The comprehension removing `-unit`: the result holds exactly the literals of the clause other than `x`, is no longer, is the clause itself when `x` is absent, and keeps literals distinct |
| `Propagation.StripAppend` | solver_class.py:50 | The comprehension keeps the surviving literals in their order: stripping a concatenation is the concatenation of the stripped parts |
| `Propagation.StripSingle` | solver_class.py:50 | A single literal is removed when it equals `-unit` and kept otherwise |
| `Propagation.Reduce` | solver_class.py:45-56 | The non-conflicting result never has more clauses than the input, and strictly fewer when some clause holds the literal |
| `Propagation.ReduceShape` | solver_class.py:46-55 | Every clause of the reduction is an input clause without `u`, stripped of `-u`; every such clause is in the reduction; neither `u` nor `-u` is left |
| `Propagation.PropagateSpec` | solver_class.py:45-56 | The loop's outcome in closed form: `-1` (Conflict) exactly when some clause lacks `u`, holds `-u` and holds nothing else; otherwise the drop/strip/keep reduction |
| `Propagation.Bcp` | solver_class.py:33-56 | The loop building `new_cnf` (same loop as solver/og_solver.py:29-52, solver/solver_class.py:22-47, solver_typed.py:68-91) returns exactly `Propagate`; its input is a value and is not modified |
| `Propagation.PropagateLength` | solver/og_solver.py:41-52 | A non-conflicting propagation never adds a clause, and has strictly fewer clauses when some clause holds the literal |
| `Propagation.PropagateConflictPersists` | solver_class.py:51-52 | The return at the first emptied clause: once a prefix conflicts, the whole formula does |
| `Propagation.ReduceAppend` | solver/og_solver.py:42-51 | Surviving clauses keep their relative order: the reduction of a concatenation is the concatenation of the reductions |
| `Propagation.ReduceSingle` | solver/solver_class.py:36-45 | One clause is dropped when it holds `u`, stripped of `-u` when it holds only `-u`, and kept unchanged otherwise |
| `Propagation.PropagateConflict` | solver/og_solver.py:45-48 | Conflict if and only if some clause lacks `u`, holds `-u`, and all its literals are `-u` |
| `Propagation.PropagateVars` | solver_typed.py:82-88 | No clause of the result mentions the propagated variable and no new variable appears |
| `Propagation.PropagateWellFormed` | solver_typed.py:84-90 | Propagation keeps clauses non-empty with distinct literals when it does not conflict |
| `Propagation.NoConflictOnLongClauses` | solver/solver_class.py:113-117 | When every clause has two or more distinct literals, the decision propagation never returns `-1` |
| `Propagation.PropagateSound` | solver/og_solver.py:41-52 | An assignment making `u` true that satisfies the simplified formula satisfies the input formula |
| `Propagation.PropagateComplete` | solver_typed.py:80-91 | An assignment satisfying the formula that does not make `u` false makes propagation not conflict and still satisfies the result |
| `UnitCascade.UnitClauses` | solver_class.py:71 | The unit-clause comprehension: exactly the clauses of length one, the first of them being the earliest such clause of the formula |
| `UnitCascade.CascadeStep` | solver_class.py:72-80 | One round propagates the first unit literal: conflict ends in `(-1, [])` after one round, an empty formula in `([], [u])`, otherwise `u` is prepended to the rest of the cascade on a strictly shorter formula |
| `UnitCascade.AssignUnit` | solver_class.py:59-81 | The `while` loop (same as solver/solver_class.py:49-74, solver_typed.py:94-116) returns exactly `Cascade` |
| `UnitCascade.CascadeOutcome` | solver_typed.py:105-116 | The three exits: a conflict after at least one round, or a formula with no unit clause and no more clauses than the input, one round per forced literal, unchanged when nothing is forced |
| `UnitCascade.CascadeWellFormed` | solver/solver_class.py:60-74 | On a well-formed formula the cascade leaves well-formed clauses of length at least two over input variables, and forces each variable at most once, none of them left in the formula |
| `UnitCascade.CascadeShape` | solver/og_solver.py:68-81 | The formula part of the above: well-formed, no clause shorter than two, no new variable |
| `UnitCascade.CascadeForced` | solver/og_solver.py:68-81 | The forced part of the above: consistent, taken from the input, disjoint from what is left |
| `UnitCascade.CascadeSound` | solver/og_solver.py:65-81 | An assignment holding every forced literal and satisfying the simplified formula satisfies the input |
| `UnitCascade.CascadeComplete` | solver/solver_class.py:60-74 | An assignment without complementary literals that satisfies the input makes the cascade not conflict and satisfies what is left |
| `UnitCascade.PropagateExampleSat` | solver_class.py:45-56 | `bcp([[1], [-1, 2]], 1)` is `[[2]]` |
| `UnitCascade.CascadeExampleUnit` | solver_class.py:70-81 | `[[2]]` cascades to an empty formula with `[2]` in one round |
| `UnitCascade.CascadeExampleSat` | solver_class.py:70-81 | `[[1], [-1, 2]]` cascades to the assignment `[1, 2]` and the empty formula in two rounds |
| `UnitCascade.CascadeExampleConflict` | solver_class.py:72-77 | `[[1], [-1]]` conflicts in the first round |
| `Heuristics.AddKeys` | heuristics.py:6-8 | Inserting a clause's keys into the dictionary only appends to the insertion order and keeps keys distinct |
| `Heuristics.AddKeysMembers` | heuristics.py:6-8 | The keys after inserting a clause are the earlier keys plus the keys of the clause's literals |
| `Heuristics.KeyOrder` | solver/heuristics.py:14-17 | The dictionary's insertion order holds each key once, and exactly the keys that occur in the formula |
| `Heuristics.AddKeysFirstSeen` | heuristics.py:7-8 | The inner loop appends new keys in the order their literals first appear in the clause |
| `Heuristics.KeyOrderFirstSeen` | solver/heuristics.py:14-17 | Insertion order is first-occurrence order: for any two keys, every occurrence of the later one is preceded, in the clause-by-clause, literal-by-literal scan, by an occurrence of the earlier one |
| `Heuristics.FirstMax` | solver/heuristics.py:19 | `max` over the keys returns one of the keys |
| `Heuristics.FirstMaxIsMaximal` | solver/heuristics.py:19 | The key `max` returns has weight at least that of every key |
| `Heuristics.FirstMaxIsFirst` | heuristics.py:9 | Ties go to the key inserted first: no earlier key has the same weight |
| `Heuristics.WeightMap` | solver/heuristics.py:32-35 | The filled dictionary has exactly the keys occurring in the formula |
| `Heuristics.JwChoice` | heuristics.py:19 | The chosen key occurs in the formula |
| `Heuristics.WeighClause` | heuristics.py:7-8 | The inner loop adds `2^-len(clause)` to the key of every literal of the clause and appends keys met for the first time |
| `Heuristics.Weigh` | solver/heuristics.py:14-17 | The nested loops leave exactly `WeightMap` (every occurring key with its sum of `2^-len(clause)`) in `KeyOrder` insertion order |
| `Heuristics.ArgMax` | solver_typed.py:47 | Python's `max(d, key=d.get)` returns `FirstMax` over the insertion order |
| `Heuristics.WeightPositive` | solver_class.py:129-132 | A key's weight is non-negative, and positive exactly when it occurs in the formula |
| `Heuristics.JwChoiceIsMaximal` | solver_class.py:133 | The chosen key occurs, weighs at least as much as every key, and no key inserted before it has the same weight |
| `Heuristics.JwChoiceSeenFirst` | heuristics.py:6-9 | Among keys of equal weight the chosen one is met first in the scan: every occurrence of another key with the same weight is preceded by an occurrence of the chosen key |
| `Heuristics.JeroslowWang` | solver/heuristics.py:4-19 | One-sided method (same as heuristics.py:4-9, solver_class.py:118-133, solver_typed.py:33-47): returns exactly `JwChoice` (first inserted among ties, by `JwChoiceIsMaximal`): a literal of some clause whose weight no key exceeds |
| `Heuristics.JeroslowWangTwoSided` | solver/heuristics.py:22-37 | Two-sided method (same as heuristics.py:14-19, solver_class.py:135-150, solver_typed.py:50-65): returns exactly `JwChoice`: a non-negative variable id occurring in some clause in some polarity, whose weight no key exceeds |
| `Heuristics.TwoSidedWeightSplit` | solver/heuristics.py:35 | A variable's two-sided weight is the sum of the one-sided weights of its two literals |
| `Heuristics.TwoSidedChoicePositive` | solver_typed.py:61-65 | On a well-formed formula (no literal 0) the two-sided choice is a positive variable id |
| `Heuristics.TwoSidedExampleOrder` | solver/heuristics.py:33-35 | `[[1, 2], [1, 3], [2]]` inserts the variables in the order 1, 2, 3 |
| `Heuristics.TwoSidedExampleWeights` | solver/heuristics.py:32-35 | `[[1, 2], [1, 3], [2]]` weighs variable 1 at 1/2, 2 at 3/4 and 3 at 1/4 |
| `Heuristics.TwoSidedExample` | solver/heuristics.py:37 | The two-sided method on `[[1, 2], [1, 3], [2]]` returns 2 |
| `Dpll.StrategyHeuristic` | solver/solver_class.py:86-92 | Strategy 1 selects the first literal, 2 the one-sided and 3 the two-sided Jeroslow-Wang method |
| `Dpll.Choose` | solver/solver_class.py:76-92 | `select_literal` returns a non-zero literal whose variable occurs in the formula |
| `Dpll.SelectLiteral` | solver/solver_class.py:76-92 | `select_literal`, shared by both solver classes (also solver/og_solver.py:83-98 and solver_class.py:100-116), returns `Choose` for the stored strategy: a non-zero literal whose variable occurs in the formula |
| `Dpll.DecideFacts` | solver/solver_class.py:113-117 | After the cascade, propagating the decision literal never conflicts, keeps the formula well-formed, and removes the decided variable |
| `Dpll.Shrinks` | solver_typed.py:136-139 | Termination: a decision on a variable of the formula strictly shrinks its set of variables |
| `Dpll.SearchSound` | solver/solver_class.py:105-118 | Soundness: a non-empty answer extends the incoming assignments and satisfies every clause of the formula |
| `Dpll.BranchSound` | solver/solver_class.py:113-118 | Soundness of the branching on `L` then `-L` |
| `Dpll.TrySound` | solver/solver_class.py:114 | Soundness of one decision: an answer to the propagated formula from `assignments + [L]` satisfies the formula before it |
| `Dpll.SearchConsistent` | solver/og_solver.py:116-133 | The answer assigns every variable at most once, given incoming assignments that do and that mention no variable of the formula |
| `Dpll.BranchConsistent` | solver/og_solver.py:128-131 | The same for the branching |
| `Dpll.TryConsistent` | solver/og_solver.py:128 | The same for one decision |
| `Dpll.SearchComplete` | solver_class.py:163-173 | When an assignment without complementary literals satisfies the formula, the search does not answer `[]` (unless formula and assignments are both empty) |
| `Dpll.BranchComplete` | solver_class.py:169-172 | The branching finds an answer on a satisfiable formula, because one of `L` and `-L` agrees with the satisfying assignment |
| `Dpll.TryComplete` | solver_class.py:170 | A decision agreeing with a satisfying assignment finds an answer |
| `Dpll.SolveDecides` | solver/solver_class.py:94-118 | From no assignments, a non-empty formula gets a non-empty answer if and only if it is satisfiable: `[]` means UNSAT |
| `Dpll.EmptyFormula` | solver/og_solver.py:122-123 | An empty formula answers the incoming assignments with no counter advanced; at top level this is `[]`, the same value as UNSAT |
| `Dpll.CountsOrdered` | solver/og_solver.py:119-131 | Backtracks never outnumber decisions, and conflicts never outnumber propagations |
| `Dpll.BranchCountsOrdered` | solver/og_solver.py:125-131 | Within a branching, backtracks never outnumber decisions and conflicts never outnumber propagations |
| `Dpll.TryCountsOrdered` | solver/og_solver.py:128 | The same two orderings for what one decision counts |
| `Dpll.UnsatHasConflict` | solver/og_solver.py:119-121 | A search that answers `[]` (from non-empty assignments or a non-empty formula) has counted at least one conflict |
| `Dpll.BranchUnsatHasConflict` | solver/og_solver.py:128-131 | A branching that answers `[]` has counted at least one conflict |
| `Dpll.TryUnsatHasConflict` | solver/og_solver.py:128 | A decision that answers `[]` has counted at least one conflict |
| `SolverClass.SatSolver.constructor` | solver/solver_class.py:10-19 | `__init__` demands a strategy in 1..3 (also solver_class.py:89-98) and stores it |
| `SolverClass.SatSolver.Create` | solver/solver_class.py:18 | Construction fails exactly for a strategy outside 1..3 |
| `SolverClass.SatSolver.Solve` | solver/solver_class.py:94-118 | `solve` (also solver_class.py:152-173) returns exactly `Search` for its strategy; a non-empty answer extends the assignments and satisfies the formula |
| `SolverClass.SatSolver.BranchOn` | solver/solver_class.py:113-118 | Tries `L` and, only when that answers `[]`, `-L`: exactly `Branch` |
| `SolverClass.SatSolver.TryLiteral` | solver/solver_class.py:114 | The recursive call on `propagate_unit(cnf, L)` from `assignments + [L]`: exactly `Try` |
| `SolverTyped.Backtrack` | solver_typed.py:119-140 | `backtrack` returns exactly `Search` with the two-sided method; a non-empty answer extends the assignments and satisfies the formula |
| `SolverTyped.Split` | solver_typed.py:136-140 | The selected variable decided true first, false only when that answers `[]`: exactly `Branch` |
| `SolverTyped.Decision` | solver_typed.py:137 | The recursive call on `bcp(cnf, x)` from `assignments + [x]`: exactly `Try` |
| `SolverTyped.DecisionPositive` | solver_typed.py:136 | Every decision of `backtrack` is a positive variable id of the formula, so the true branch comes first |
| `OgSolver.MeteredSolver.constructor` | solver/og_solver.py:10-26 | `__init__` demands a strategy in 1..5, stores it, and starts all five counters at 0 |
| `OgSolver.MeteredSolver.Create` | solver/og_solver.py:18 | Construction fails exactly for a strategy outside 1..5; otherwise every counter is 0 |
| `OgSolver.MeteredSolver.GetUnitClauses` | solver/og_solver.py:54-81 | The cascade returns exactly `Cascade`, and adds its number of rounds, the conflicting one included, to both `propagations` and `unit_clauses_resolved`, touching no other counter |
| `OgSolver.MeteredSolver.Solve` | solver/og_solver.py:104-133 | `solve` returns exactly `Search` and advances each counter by `SearchCounts`; it keeps `Valid` (the two propagation counters equal, backtracks at most decisions, conflicts at most propagations); a non-empty answer extends the assignments and satisfies the formula |
| `OgSolver.MeteredSolver.BranchOn` | solver/og_solver.py:125-131 | One decision counted, the literal first, and only when that answers `[]` one backtrack counted and its negation: exactly `Branch` and `BranchCounts` |
| `OgSolver.MeteredSolver.TryLiteral` | solver/og_solver.py:128 | The recursive call counts nothing itself: exactly `Try` and `TryCounts` |
| `SudokuEncoding.NatToStringDigits` | encode_puzzles.py:41 | The decimal text of the variable id is a non-empty string of digits with no leading zero |
| `SudokuEncoding.NatToStringRoundTrip` | encode_puzzles.py:41 | Reading the decimal text back gives the variable id |
| `SudokuEncoding.CharMap` | encode_puzzles.py:34-35 | A symbol with a number gets one in 1..20 |
| `SudokuEncoding.CharMapEnumerates` | encode_puzzles.py:34-35 | The table is the two enumerations: position `k` of `"123456789ABCDEF"` maps to `k + 1`, position `k` of `"GHIJKLMNOP"` to `k + 11`, and exactly those characters have a number |
| `SudokuEncoding.LettersCollide` | encode_puzzles.py:35 | 'G' to 'K' get the same numbers as 'B' to 'F' (11 to 15) |
| `SudokuEncoding.VariableDigits` | encode_puzzles.py:40 | The variable id is `gb·(gb·(row+1) + (col+1)) + d`, digits in base `grid_base` |
| `SudokuEncoding.VariableDecode` | encode_puzzles.py:40 | When the 1-based column and the symbol number are below `grid_base`, the id decodes to the symbol number, the 1-based column and the 1-based row |
| `SudokuEncoding.VariableInjective` | encode_puzzles.py:40 | Within those bounds different (row, column, symbol) triples get different ids |
| `SudokuEncoding.NineByNineLine` | encode_puzzles.py:40-41 | On a 9×9 board the line of digit `d` at row `r`, column `c` is the three decimal digits `r+1`, `c+1`, `d` followed by `" 0\n"` |
| `SudokuEncoding.Rows` | encode_puzzles.py:31 | There are `board_size` rows (none when `board_size <= 0`) |
| `SudokuEncoding.RowCells` | encode_puzzles.py:31 | Row `i` holds the puzzle characters at positions `i·size` up to `(i+1)·size`, cut short where the puzzle ends |
| `SudokuEncoding.RowGivensExact` | encode_puzzles.py:38-39 | The cells taken from a row are exactly its non-'.' positions with their symbols |
| `SudokuEncoding.RowGivensOrdered` | encode_puzzles.py:38 | The cells of a row come left to right |
| `SudokuEncoding.GivensExact` | encode_puzzles.py:37-39 | The given cells are exactly the non-'.' positions of the board, each with its own symbol |
| `SudokuEncoding.GivensRowMajor` | encode_puzzles.py:37-38 | The given cells come in row-major order, so none appears twice |
| `SudokuEncoding.EncodeAppend` | encode_puzzles.py:39-41 | One more cell: an unnumbered symbol makes the encoding fail, a numbered one appends its unit clause line after the earlier ones |
| `SudokuEncoding.RowStep` | encode_puzzles.py:38-41 | A '.' cell emits nothing, a numbered cell emits the line of its variable |
| `SudokuEncoding.GivensStep` | encode_puzzles.py:37 | The cells of the next row follow those of the rows before it |
| `SudokuEncoding.UnmappedGiven` | encode_puzzles.py:40 | A given cell without a number (`KeyError`) makes the whole board fail to encode |
| `SudokuEncoding.ConvertFails` | encode_puzzles.py:37-40 | Encoding fails exactly when some non-'.' cell holds a symbol without a number |
| `SudokuEncoding.ConvertToDimacs` | encode_puzzles.py:20-42 | The nested loops return exactly `Convert`: no result when some given symbol is unnumbered, otherwise one unit clause line per given cell, in row-major order |
| `SudokuEncoding.FirstBadLengthExact` | encode_puzzles.py:60-63 | No puzzle is reported exactly when every length is `board_size²`; a reported one has a wrong length and every earlier one the right length |
| `SudokuEncoding.FirstBadLengthKept` | encode_puzzles.py:61-63 | Once a wrong length is found, the later puzzles do not change the report |
| `SudokuEncoding.FilesExact` | encode_puzzles.py:67-75 | The files exist exactly when every puzzle encodes; otherwise the failure is an unnumbered symbol |
| `SudokuEncoding.FilesContents` | encode_puzzles.py:67-75 | When they exist there is one file per puzzle, built from that puzzle's clauses |
| `SudokuEncoding.FilesFailureKept` | encode_puzzles.py:68 | Once a puzzle fails to encode, the later puzzles do not change the outcome |
| `SudokuEncoding.FilesStep` | encode_puzzles.py:67-75 | One more puzzle: failing to encode it is the final outcome, encoding it appends its file |
| `SudokuEncoding.PuzzleFileShape` | encode_puzzles.py:69-71 | A file is the header `p cnf <size³> <count>` with count = rule lines after their header plus unit clauses, followed by exactly those lines |
| `SudokuEncoding.CheckLengths` | encode_puzzles.py:59-63 | The length loop finds exactly `FirstBadLength` |
| `SudokuEncoding.WriteFiles` | encode_puzzles.py:67-75 | The writing loop returns exactly `Files` over the puzzles' encodings |
| `SudokuEncoding.GenerateLengthError` | encode_puzzles.py:59-63 | The run fails on length exactly when some puzzle's length is not `board_size²`, whatever its symbols; the error names the first such puzzle 1-based, its length and `board_size²` |
| `SudokuEncoding.GenerateFiles` | encode_puzzles.py:59-75 | The run yields files exactly when every length is right and every puzzle encodes; then one file per puzzle, in order, built from that puzzle's unit clauses |
| `SudokuEncoding.GenerateDimacs` | encode_puzzles.py:45-75 | The length loop, then the writing loop, return exactly `Generate`, whose outcomes the two lemmas above describe |

## Left out

- Parsing of DIMACS text (`parse_dimacs`), the command-line entry points, benchmarking, result plotting and statistics, and `run_experiment.py`: file and process plumbing with no algorithm. The solver's input is taken as an already-parsed formula.
- File I/O of the encoder: `read_sudoku_rules`, reading and `strip`ping the puzzle file, `os.makedirs` and writing the files. `GenerateDimacs` takes the rule lines and the stripped, non-empty puzzle lines as inputs and returns the file contents instead of writing them.
- SudokuEncoding.GenerateDimacs: when a puzzle has an unnumbered symbol, the source has already written the files of the earlier puzzles before the `KeyError`. The model returns only the failure, and the failure does not carry the offending character.
- The `2 ** -len(clause)` weights are IEEE floats in the source; the model uses exact reals, so rounding and the ties it could create or break are not modelled.
- The mutable default `assignments=[]` together with `assignments += ...`: repeated top-level calls would share stale literals. The model passes the assignments as a value, and a top-level call starts from `[]`.
- Malformed formulas: empty clauses (which `cnf[0][0]` would crash on) and repeated literals within a clause are excluded by the `WellFormed` precondition of the search and of the solvers' methods, as are formulas without literals for the heuristics (`max` of an empty dictionary raises).
- OgSolver.MeteredSolver.Solve: requires strategy 1..3 although the constructor accepts 1..5, because strategies 4 and 5 call `moms_heuristic` and `dlis`, which are defined in no file of the repository.
- Dpll.SelectLiteral: requires strategy 1..3 for the same reason; `MeteredSolver.Solve` passes it its own strategy field.
- The `metrics` dictionary returned alongside the answer by `solver/og_solver.py` is the object's own counters; the model exposes them as fields instead of returning the dictionary.
- Python's recursion-depth limit, timeouts and cancellation.

# Sudoku to CNF compiler

A Dafny model of the constraint compiler in `SudokuSatSolver.py`. The Python class turns an N×N Sudoku (N = blockSize²) into a list of CNF clauses. It hands them to a SAT solver and reads the solver's model back as a grid.

The model covers:

- **Variable numbering.** `convert` numbers each (row, column, value) triple. It is modelled in `VariableIndex`, and proved to be a bijection from [1, N]³ onto [1, N³].
- **Exactly-one encoders.** The binomial (pairwise) encoder and the sequential (prefix-chain) encoder are modelled in `Encoders`.
  - Each is a function giving the clause list it appends.
  - Both are proved to express "exactly one input is true". For the sequential encoder, the chain's auxiliary variables are existentially quantified.
  - The sequential encoder's auxiliaries are proved to lie in a range of their own, above every primary variable and disjoint from every other call's range.
- **Constraint families.** The cell, row, column and block families and the clue unit clauses are modelled in `Constraints`.
  - Each is the list of groups its nested loops visit, and the clauses those visits emit.
  - Exact clause counts, and the exact growth of the `customVariables` tally, are proved.
  - For the clues: one unit clause per digit marker, and nothing else.
- **Decoding.** The part of `satSolving` that reads a model back into a grid is modelled in `Decoder`. Decoding succeeds exactly when every cell has a value marked true. The grid it then returns holds, for each cell, the smallest such value.
- **The compiler object.** The class `Solver.SudokuSatSolver` holds the clause list and the two counters as fields.
  - The encoders, the dispatch, the four `addClausesWith…Constraint` methods and `addClausesWithClues` are methods with loops. Each is proved to append exactly the clauses of the corresponding function and to advance the counters as stated.
  - `Solve` runs the families in the source's order, records the two clause-count checkpoints and decodes the solver's answer.

The core's shared vocabulary is in `Cnf`: literals, clauses, an assignment, clause satisfaction and "exactly one". Arithmetic facts used by the index proofs are in `Arith`.

Behaviour of the code worth knowing:

- **Encodings.** Only the binomial and sequential encodings exist. Every mode string other than `SEQUENTIAL` selects the binomial one.
- **Blocks.** They are hard-coded 3×3, whatever the block size (`Constraints.BlockGroupsOutsideSmallGrid`).
- **Chain length.** The sequential chain length is the grid width `size`, not the group's length.
- **Clues.** They are filtered only by "non-empty string of digits". No shape or range check is made.
- **Decoding a cell.** The decoder takes the first value marked true. It does not reject a cell with several true values.
- **Variable count.** `customVariables` grows by len - 1 per sequential call, but a call allocates only size - 1 fresh identifiers. For N < 9, the 9-entry block groups make `numberOfVariable` exceed the highest identifier the chains allocate by 9N(9 - N) (`Constraints.ReportedAuxGap`).
- **Block size 1.** In sequential mode every chain of a 1×1 puzzle is based at identifier 1, the cell's own variable, so its third clause negates that variable. The clauses `[1]` and `[-1, -1]` then make every 1×1 puzzle unsatisfiable (`Constraints.SingleCellSequentialUnsat`).
- **Block size 2.** In sequential mode the 3×3 blocks reach identifier 161, which is also the first auxiliary of the first column chain. The block clauses then constrain another group's auxiliary (`Constraints.BlockAliasesColumnChain`).
- **Report.** `solve` returns `satisfiable`, `result`, `numberOfVariable`, `numberOfClause`, `numberOfClauseTotal` and `timeInSecond`. The model's report holds all of them but the time.

## Model

| member | source | states |
|---|---|---|
| VariableIndex.UnconvertConvert | SudokuSatSolver.py:45-46 | Decoding an identifier returns the triple it was built from, so `convert` is injective on [1, N]³ |
| VariableIndex.ConvertUnconvert | SudokuSatSolver.py:45-46 | Every identifier in [1, N³] is the identifier of some in-range triple: the primaries are dense |
| VariableIndex.ConvertInRange | SudokuSatSolver.py:45-46 | In-range triples get identifiers in [1, N³], the `self.variables = size ** 3` primaries |
| VariableIndex.ConvertInjective | SudokuSatSolver.py:45-46 | Two in-range triples with the same identifier are the same triple |
| Encoders.BinomialLength | SudokuSatSolver.py:33-37 | The binomial encoding of n literals is 1 + n(n-1)/2 clauses |
| Encoders.BinomialShape | SudokuSatSolver.py:33-37 | The first clause is the input list. The pair (i, j), i < j, is excluded by `[-v_i, -v_j]` at the position fixed by the loop order |
| Encoders.BinomialExactlyOne | SudokuSatSolver.py:33-37 | For non-zero literals, an assignment satisfies the binomial clauses iff exactly one input literal is true |
| Encoders.SequentialLength | SudokuSatSolver.py:25-31 | The sequential encoding starts with the input list and has 3 + 3(size - 2) clauses (3 when size is 1) |
| Encoders.SequentialAuxRange | SudokuSatSolver.py:21-31 | Every literal of the c-th call is an input, its negation, or an auxiliary in (N³ + c(size-1), N³ + (c+1)(size-1)] |
| Encoders.AuxRangesDisjoint | SudokuSatSolver.py:21-22 | The auxiliary ranges of different calls are pairwise disjoint and lie above every primary |
| Encoders.SequentialExactlyOne | SudokuSatSolver.py:25-31 | For positive inputs below the auxiliaries, some choice of the size - 1 auxiliaries satisfies the chain iff exactly one input is true |
| Encoders.SequentialSound | SudokuSatSolver.py:25-31 | Any satisfying choice of auxiliaries forces exactly one true input |
| Encoders.SequentialComplete | SudokuSatSolver.py:25-31 | Exactly one true input admits a satisfying choice of auxiliaries |
| Encoders.ExactOneCorrect | SudokuSatSolver.py:39-43 | Whichever encoding the mode selects, its clauses (auxiliaries existentially quantified) hold iff exactly one input is true |
| Constraints.LineFamiliesShape | SudokuSatSolver.py:48-64 | The cell, row and column loops each visit N² groups of N pairwise distinct primaries |
| Constraints.BlockFamilyShape | SudokuSatSolver.py:66-72 | The block loops visit 9N groups of 9 variables. When N >= 9 these are distinct primaries |
| Constraints.BlockGroupsOutsideSmallGrid | SudokuSatSolver.py:68-71 | For blockSize 2 the 3×3 blocks name identifier 161, beyond the 64 primaries of a 4×4 grid |
| Constraints.LinesBeforeAll | SudokuSatSolver.py:49-51 | The groups the two nested line loops visit, in order, are exactly the family's groups in row-major order |
| Constraints.BlocksBeforeAll | SudokuSatSolver.py:67-71 | The groups the three nested block loops visit, in order, are exactly the block family, value outermost |
| Constraints.FamiliesFit | SudokuSatSolver.py:27 | Every line group is long enough for the chain. The block groups are long enough iff the mode is not sequential or N <= 9 |
| Constraints.StructuralClauseCount | SudokuSatSolver.py:98-102 | The structural clause list has (3N² + 9N)(3N - 3) clauses in sequential mode (3 per group when N <= 1) and 3N²(1 + N(N-1)/2) + 9N·37 otherwise; this is `numberOfClause` of a fresh solver |
| Constraints.NineByNineBinomialCount | SudokuSatSolver.py:98-102 | A 9×9 puzzle in binomial mode has 11988 structural clauses |
| Constraints.StructuralVariableCount | SudokuSatSolver.py:20-23 | The four families make `customVariables` grow by 3N²(N - 1) + 72N in sequential mode (len - 1 per call) and by nothing otherwise, so a binomial solve reports N³ variables |
| Constraints.ReportedAuxGap | SudokuSatSolver.py:21-23 | After the four sequential families, `variables + customVariables` is the highest identifier the chains allocate plus 9N(9 - N): the two agree only for N = 9 (and the empty grid) |
| Constraints.SingleCellSequentialUnsat | SudokuSatSolver.py:25-27 | For blockSize 1 in sequential mode the structural clauses begin `[1]`, `[-1, 2]`, `[-1, -1]`, and no assignment satisfies them |
| Constraints.BlockAliasesColumnChain | SudokuSatSolver.py:21-27 | For blockSize 2 in sequential mode, call 32 (the first column chain) links identifier 1 to its first auxiliary 161, and the ninth block group of value 1 lists the same identifier 161 |
| Constraints.ClueClausesExactly | SudokuSatSolver.py:74-79 | Clue compilation appends one clause per digit cell. Each digit cell's unit clause `[convert(i, j, int(k))]` is among them, and every clause appended is such a unit clause |
| Constraints.ClueClauseCount | SudokuSatSolver.py:74-79 | Clue compilation appends exactly as many clauses as the first N×N markers hold digit strings, which is `numberOfClauseTotal - numberOfClause` |
| Decoder.FirstPositive | SudokuSatSolver.py:91 | The `next(...)` pick is the 1-based position of the first positive entry. It is absent exactly when no entry is positive |
| Decoder.PickValues | SudokuSatSolver.py:91-92 | The value list succeeds iff every chunk has a positive entry, and then holds each chunk's pick in order |
| Decoder.ChunksRoundTrip | SudokuSatSolver.py:93 | Cutting a list into slices of width n loses and reorders nothing |
| Decoder.Decode | SudokuSatSolver.py:90-93 | A zero grid width fails with the zero-step error and nothing else does |
| Decoder.DecodeCorrect | SudokuSatSolver.py:90-93 | For a model of at least N³ literals, decoding succeeds iff every cell has a value marked true. The grid is then N×N and holds, for each cell, the smallest such value |
| Decoder.UndecidedCell | SudokuSatSolver.py:91 | A failed pick names an in-range cell none of whose values is marked true |
| Solver.SudokuSatSolver.constructor | SudokuSatSolver.py:10-18 | size is blockSize², variables is size³, and the clause list and both counters start empty or zero |
| Solver.SudokuSatSolver.ExactOneWithSequentialEncoding | SudokuSatSolver.py:20-31 | Appends exactly the sequential clauses over auxiliaries numbered from `variables + count(size-1)`, adds 1 to `count` and len - 1 to `customVariables` |
| Solver.SudokuSatSolver.ExactOneWithBinomialEncoding | SudokuSatSolver.py:33-37 | Appends exactly the binomial clauses and leaves both counters unchanged |
| Solver.SudokuSatSolver.ExactOneConstraint | SudokuSatSolver.py:39-43 | Appends the encoding the mode selects. Advances `count` only in sequential mode |
| Solver.SudokuSatSolver.AddClausesWithCellConstraint | SudokuSatSolver.py:48-52 | Appends the encodings of the N² cell groups in loop order and advances the counters by the family's totals |
| Solver.SudokuSatSolver.AddClausesWithRowConstraint | SudokuSatSolver.py:54-58 | The same for the N² row groups |
| Solver.SudokuSatSolver.AddClausesWithColumnConstraint | SudokuSatSolver.py:60-64 | The same for the N² column groups |
| Solver.SudokuSatSolver.AddClausesWithBlockConstraint | SudokuSatSolver.py:66-72 | The same for the 9N block groups |
| Solver.SudokuSatSolver.AddClausesWithClues | SudokuSatSolver.py:74-79 | Appends exactly the clue unit clauses, row by row, and leaves the counters unchanged |
| Solver.SolveStructural | SudokuSatSolver.py:98-101 | Running the four families one after the other appends the structural clause list and adds the structural call and auxiliary counts |
| Solver.SudokuSatSolver.SatSolving | SudokuSatSolver.py:81-94 | No grid when unsatisfiable. Otherwise the call fails only when decoding fails; for a full model it succeeds iff every cell has a true value, and the grid holds the least true values |
| Solver.SudokuSatSolver.Solve | SudokuSatSolver.py:96-115 | The clause list gains the structural clauses and then the clue clauses. The report's `numberOfClause` and `numberOfClauseTotal` are the two checkpoints, and `numberOfVariable` is `variables + customVariables`. The result is present iff the solver answered satisfiable, and the call fails only when decoding fails |

## Left out

- The Glucose solver calls (SudokuSatSolver.py:82-88) are foreign code. The solver's answer is the `SolverOutcome` parameter of `SatSolving` and `Solve`: unsatisfiable, or a model as a list of signed integers. Nothing relates that answer to the clauses handed over.
- Timing (`time.time()`, `timeInSecond`) is wall-clock and floating point, so it is left out. The report has no time field.
- App.py (HTTP routing, JSON) and main.py (file reading, printing) are I/O plumbing and are not part of this model.
- Constraints.IsDigitMarker: Python's `str.isdigit` also accepts non-ASCII digit characters, for which `int` may raise. The model accepts only '0' to '9'.
- Solver.SudokuSatSolver.AddClausesWithClues: requires a clue grid of at least N rows of N markers. The source raises IndexError on a shorter one.
- Solver.SudokuSatSolver.ExactOneWithSequentialEncoding: requires 1 <= size <= len(vs). The source raises IndexError when the group is shorter than the grid width; no family calls it with size 0.
- Solver.SudokuSatSolver.AddClausesWithBlockConstraint: requires that sequential mode is used only with N <= 9. The 9-entry block groups make the source raise IndexError otherwise.
- Encoders.ExactOneCorrect: stated for groups whose length equals the chain length, with at least two entries. That covers the cell, row and column groups, and the block groups when N is 9. It makes no claim for blocks of other grids, whose chain covers only part of the group.
- Encoders.SequentialAuxRange: stated for a chain length of at least 2. With size 1 the source's third clause names `indexFrom` itself, which is a primary variable.
- Decoder.DecodeCorrect: stated for models of at least N³ literals, as a solver returns for any clause set naming every primary. For a shorter model, `Decoder.Decode` still gives the source's result.
- Python lists are mutable and `clauses.append(variables)` stores the caller's list object. Nothing mutates those lists afterwards, so clauses are modelled as values.

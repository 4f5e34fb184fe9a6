/** The compiler object: it owns the clause list and the counters that the
    encoders advance, builds the four constraint families and the clue units,
    hands the clauses to a SAT solver and reads the grid back. */
module Solver {
  import opened Cnf
  import opened VariableIndex
  import opened Encoders
  import opened Constraints
  import opened Decoder

  /** What the SAT solver answers: no model, or a model listing one literal
      per variable in identifier order. The solver itself is not modelled. */
  datatype SolverOutcome = Unsatisfiable | Satisfiable(model: seq<int>)

  /** The pair `satSolving` returns: the decoded grid when there is one, and
      whether the clauses were satisfiable. */
  datatype Solution = Solution(result: Option<seq<seq<nat>>>, satisfiable: bool)

  /** The statistics `solve` returns, without the elapsed time. */
  datatype Report = Report(
    satisfiable: bool,
    result: Option<seq<seq<nat>>>,
    numberOfVariable: int,
    numberOfClause: nat,
    numberOfClauseTotal: nat)

  /** Clause list `cs`, counter `n` and auxiliary count `aux` are those of
      the start state (c0, n0, a0) after dispatching the groups `done` in order. */
  ghost predicate EmitState(mode: string, size: nat, primaries: int, c0: seq<Clause>, n0: nat, a0: int,
                            done: seq<seq<Literal>>, cs: seq<Clause>, n: nat, aux: int)
  {
    && Fits(mode, size, done)
    && cs == c0 + Emit(mode, size, primaries, n0, done)
    && n == CountAfter(mode, n0, |done|)
    && aux == a0 + AuxAdded(mode, done)
  }

  /** Dispatching one more group `g` extends the emitted prefix by its clauses. */
  lemma EmitStateNext(mode: string, size: nat, primaries: int, c0: seq<Clause>, n0: nat, a0: int,
                      done: seq<seq<Literal>>, cs: seq<Clause>, n: nat, aux: int, g: seq<Literal>)
    requires EmitState(mode, size, primaries, c0, n0, a0, done, cs, n, aux)
    requires IsSequential(mode) ==> 1 <= size <= |g|
    ensures EmitState(mode, size, primaries, c0, n0, a0, done + [g],
                      cs + ExactOneClauses(mode, size, primaries, n, g),
                      CountAfter(mode, n, 1), aux + AuxAdded(mode, [g]))
  {
    var next := done + [g];
    assert next[..|done|] == done && next[|done|] == g;
    assert Fits(mode, size, next) by {
      forall x | 0 <= x < |next| && IsSequential(mode) ensures size <= |next[x]| {
        if x < |done| {
          assert next[x] == done[x];
        }
      }
    }
    assert [g][..0] == [];
    AppendAssoc(c0, Emit(mode, size, primaries, n0, done), ExactOneClauses(mode, size, primaries, n, g));
  }

  /** At the end of a family's loops every group has been dispatched. */
  lemma LinesEmitted(mode: string, size: nat, primaries: int, c0: seq<Clause>, n0: nat, a0: int,
                     f: LineFamily, done: seq<seq<Literal>>, cs: seq<Clause>, n: nat, aux: int)
    requires EmitState(mode, size, primaries, c0, n0, a0, done, cs, n, aux)
    requires done == LinesBefore(f, size, size + 1, 1)
    ensures Fits(mode, size, LineGroups(f, size))
    ensures cs == c0 + Emit(mode, size, primaries, n0, LineGroups(f, size))
    ensures n == CountAfter(mode, n0, |LineGroups(f, size)|) && |LineGroups(f, size)| == size * size
    ensures aux == a0 + AuxAdded(mode, LineGroups(f, size))
  {
    LinesBeforeAll(f, size);
  }

  /** At the end of the block loops every block group has been dispatched. */
  lemma BlocksEmitted(mode: string, size: nat, primaries: int, c0: seq<Clause>, n0: nat, a0: int,
                      done: seq<seq<Literal>>, cs: seq<Clause>, n: nat, aux: int)
    requires EmitState(mode, size, primaries, c0, n0, a0, done, cs, n, aux)
    requires done == BlocksBefore(size, size + 1, 1, 1)
    ensures Fits(mode, size, BlockGroups(size))
    ensures cs == c0 + Emit(mode, size, primaries, n0, BlockGroups(size))
    ensures n == CountAfter(mode, n0, 9 * size)
    ensures aux == a0 + AuxAdded(mode, BlockGroups(size))
  {
    BlocksBeforeAll(size);
  }

  /** The four families, run one after the other from (c0, n0, a0) through
      the intermediate states (c1, n1, a1) .. (c4, n4, a4), emit Structural. */
  lemma SolveStructural(mode: string, size: nat, primaries: int, c0: seq<Clause>, n0: nat, a0: int,
                        c1: seq<Clause>, n1: nat, a1: int, c2: seq<Clause>, n2: nat, a2: int,
                        c3: seq<Clause>, n3: nat, a3: int, c4: seq<Clause>, n4: nat, a4: int)
    requires BlockFits(mode, size)
    requires LineStep(mode, size, primaries, Cells, c0, n0, a0, c1, n1, a1)
    requires LineStep(mode, size, primaries, Rows, c1, n1, a1, c2, n2, a2)
    requires LineStep(mode, size, primaries, Columns, c2, n2, a2, c3, n3, a3)
    requires Fits(mode, size, BlockGroups(size))
    requires c4 == c3 + Emit(mode, size, primaries, n3, BlockGroups(size))
    requires n4 == CountAfter(mode, n3, 9 * size) && a4 == a3 + AuxAdded(mode, BlockGroups(size))
    ensures c4 == c0 + Structural(mode, size, primaries, n0)
    ensures n4 == CountAfter(mode, n0, StructuralCalls(size))
    ensures a4 == a0 + StructuralAux(mode, size)
  {
    FamiliesFit(mode, size);
    var e0, e1 := Emit(mode, size, primaries, n0, LineGroups(Cells, size)), Emit(mode, size, primaries, n1, LineGroups(Rows, size));
    var e2, e3 := Emit(mode, size, primaries, n2, LineGroups(Columns, size)), Emit(mode, size, primaries, n3, BlockGroups(size));
    assert Structural(mode, size, primaries, n0) == e0 + e1 + e2 + e3;
    AppendFour(c0, e0, e1, e2, e3);
  }

  /** One line family run from (c, n, a) ends in (c', n', a'). */
  ghost predicate LineStep(mode: string, size: nat, primaries: int, f: LineFamily,
                           c: seq<Clause>, n: nat, a: int, c': seq<Clause>, n': nat, a': int)
  {
    && Fits(mode, size, LineGroups(f, size))
    && c' == c + Emit(mode, size, primaries, n, LineGroups(f, size))
    && n' == CountAfter(mode, n, size * size)
    && a' == a + AuxAdded(mode, LineGroups(f, size))
  }

  lemma AppendFour<T>(c0: seq<T>, e0: seq<T>, e1: seq<T>, e2: seq<T>, e3: seq<T>)
    ensures c0 + e0 + e1 + e2 + e3 == c0 + (e0 + e1 + e2 + e3)
  {
    AppendAssoc(c0, e0, e1);
    AppendAssoc(c0, e0 + e1, e2);
    AppendAssoc(c0, e0 + e1 + e2, e3);
  }

  /** Visiting cell (i, j), counted from 1, extends the clue clauses of its
      row by that cell's unit clause when its marker is a digit string. */
  lemma ClueStep(n: nat, clues: seq<seq<string>>, i: int, j: int)
    requires CluesCover(n, clues) && InGrid(n, i) && InGrid(n, j)
    ensures ClueRow(n, clues, i - 1, j) ==
            ClueRow(n, clues, i - 1, j - 1) +
            (if IsDigitMarker(clues[i - 1][j - 1]) then [[Convert(n, i, j, DigitValue(clues[i - 1][j - 1]))]] else [])
  {
  }

  /** Clause list `cs` is `c0` followed by the clue clauses of the rows before
      row i, counted from 1. */
  ghost predicate ClueRowsState(n: nat, clues: seq<seq<string>>, c0: seq<Clause>, i: int, cs: seq<Clause>)
  {
    CluesCover(n, clues) && 1 <= i <= n + 1 && cs == c0 + CluesBefore(n, clues, i - 1)
  }

  /** After the last row every clue clause has been appended. */
  lemma ClueRowsDone(n: nat, clues: seq<seq<string>>, c0: seq<Clause>, cs: seq<Clause>)
    requires ClueRowsState(n, clues, c0, n + 1, cs)
    ensures cs == c0 + ClueClauses(n, clues)
  {
  }

  /** Clause list `cs` is `c0` followed by the clue clauses of the rows before
      row i and of the cells of row i before column j, all counted from 1. */
  ghost predicate ClueState(n: nat, clues: seq<seq<string>>, c0: seq<Clause>, i: int, j: int, cs: seq<Clause>)
  {
    && CluesCover(n, clues) && 1 <= i <= n && 1 <= j <= n + 1
    && cs == c0 + (CluesBefore(n, clues, i - 1) + ClueRow(n, clues, i - 1, j - 1))
  }

  lemma ClueStart(n: nat, clues: seq<seq<string>>, c0: seq<Clause>, i: int, cs: seq<Clause>)
    requires ClueRowsState(n, clues, c0, i, cs) && i <= n
    ensures ClueState(n, clues, c0, i, 1, cs)
  {
    assert CluesBefore(n, clues, i - 1) + ClueRow(n, clues, i - 1, 0) == CluesBefore(n, clues, i - 1);
  }

  lemma ClueNext(n: nat, clues: seq<seq<string>>, c0: seq<Clause>, i: int, j: int, cs: seq<Clause>)
    requires ClueState(n, clues, c0, i, j, cs) && j <= n
    ensures ClueState(n, clues, c0, i, j + 1,
                      cs + if IsDigitMarker(clues[i - 1][j - 1])
                           then [[Convert(n, i, j, DigitValue(clues[i - 1][j - 1]))]] else [])
  {
    var before, row := CluesBefore(n, clues, i - 1), ClueRow(n, clues, i - 1, j - 1);
    var unit: seq<Clause> := if IsDigitMarker(clues[i - 1][j - 1])
                             then [[Convert(n, i, j, DigitValue(clues[i - 1][j - 1]))]] else [];
    ClueStep(n, clues, i, j);
    AppendAssoc(c0, before + row, unit);
    AppendAssoc(before, row, unit);
  }

  lemma ClueRowDone(n: nat, clues: seq<seq<string>>, c0: seq<Clause>, i: int, cs: seq<Clause>)
    requires ClueState(n, clues, c0, i, n + 1, cs)
    ensures ClueRowsState(n, clues, c0, i + 1, cs)
  {
  }

  class SudokuSatSolver {
    const blockSize: int
    const clues: seq<seq<string>>
    const mode: string
    /** The grid width, blockSize squared. */
    const size: nat
    /** The number of primary variables, size cubed. */
    const variables: nat
    /** The clauses emitted so far, in emission order. */
    var clauses: seq<Clause>
    /** Sequential encodings emitted so far; each owns its own auxiliaries. */
    var count: nat
    /** The auxiliary tally `solve` reports: len - 1 per sequential call,
        more than the size - 1 identifiers a call allocates when len > size. */
    var customVariables: int

    /** The size and variable count follow from blockSize. */
    ghost predicate Valid()
    {
      size == blockSize * blockSize && variables == size * size * size
    }

    constructor(blockSize: int, clues: seq<seq<string>>, mode: string)
      ensures Valid()
      ensures this.blockSize == blockSize && this.clues == clues && this.mode == mode
      ensures clauses == [] && count == 0 && customVariables == 0
    {
      this.blockSize := blockSize;
      this.clues := clues;
      this.mode := mode;
      var square := blockSize * blockSize;
      assert square >= 0 by {
        if blockSize < 0 {
          assert square == (-blockSize) * (-blockSize);
        }
      }
      size := square;
      variables := square * square * square;
      clauses := [];
      count := 0;
      customVariables := 0;
    }

    /** `exactOneWithSequentialEncoding`: a prefix chain over the first `size`
        entries of `vs`, with `size - 1` fresh auxiliaries numbered after the
        primaries and after every earlier chain's auxiliaries. The chain length
        is the grid width, so entries of `vs` past `size` only appear in the
        at-least-one clause. */
    method ExactOneWithSequentialEncoding(vs: seq<Literal>)
      requires 1 <= size <= |vs|
      modifies this
      ensures clauses == old(clauses) + SequentialClauses(vs, size, AuxBase(variables, size, old(count)))
      ensures count == old(count) + 1
      ensures customVariables == old(customVariables) + |vs| - 1
    {
      var indexFrom := variables + count * (size - 1);
      count := count + 1;
      customVariables := customVariables + |vs| - 1;

      ghost var c0 := clauses;
      clauses := clauses + [vs];
      clauses := clauses + [[-vs[0], indexFrom + 1]];
      clauses := clauses + [[-vs[size - 1], -(indexFrom + size - 1)]];
      ghost var head := clauses;
      var i := 2;
      while i < size
        invariant 2 <= i && (i <= size || i == 2)
        invariant clauses == head + ChainBefore(vs, indexFrom, i)
        invariant count == old(count) + 1 && customVariables == old(customVariables) + |vs| - 1
      {
        ChainNext(head, vs, indexFrom, i);
        clauses := clauses + [[-vs[i - 1], indexFrom + i]];
        clauses := clauses + [[-(indexFrom + i - 1), indexFrom + i]];
        clauses := clauses + [[-(indexFrom + i - 1), -vs[i - 1]]];
        i := i + 1;
      }
      SequentialDone(c0, vs, size, indexFrom, i);
    }

    /** `exactOneWithBinomialEncoding`: `vs` as one clause, then the negated
        pair of every two positions, row by row. */
    method ExactOneWithBinomialEncoding(vs: seq<Literal>)
      modifies this
      ensures clauses == old(clauses) + BinomialClauses(vs)
      ensures count == old(count) && customVariables == old(customVariables)
    {
      clauses := clauses + [vs];
      ghost var head := clauses;
      var i := 0;
      while i < |vs| - 1
        invariant 0 <= i <= PairRows(vs)
        invariant clauses == head + PairsBefore(vs, i)
        invariant count == old(count) && customVariables == old(customVariables)
      {
        var j := i + 1;
        while j < |vs|
          invariant i + 1 <= j <= |vs|
          invariant clauses == head + PairsBefore(vs, i) + PairRow(vs, i, j)
          invariant count == old(count) && customVariables == old(customVariables)
        {
          assert PairRow(vs, i, j + 1) == PairRow(vs, i, j) + [[-vs[i], -vs[j]]];
          clauses := clauses + [[-vs[i], -vs[j]]];
          j := j + 1;
        }
        i := i + 1;
      }
    }

    /** `exactOneConstraint`: SEQUENTIAL selects the chain, any other mode the
        pairwise encoding. */
    method ExactOneConstraint(vs: seq<Literal>)
      requires IsSequential(mode) ==> 1 <= size <= |vs|
      modifies this
      ensures clauses == old(clauses) + ExactOneClauses(mode, size, variables, old(count), vs)
      ensures count == CountAfter(mode, old(count), 1)
      ensures customVariables == old(customVariables) + AuxAdded(mode, [vs])
    {
      assert [vs][..0] == [];
      if mode == Sequential {
        ExactOneWithSequentialEncoding(vs);
      } else {
        ExactOneWithBinomialEncoding(vs);
      }
    }
    /** The clauses, counter and auxiliary count are those of a start state
        (c0, n0, a0) after dispatching the groups `done` in order. */
    ghost predicate Emitted(c0: seq<Clause>, n0: nat, a0: int, done: seq<seq<Literal>>)
      reads this
    {
      EmitState(mode, size, variables, c0, n0, a0, done, clauses, count, customVariables)
    }

    /** `addClausesWithCellConstraint`: exactly one value per cell, cells row
        by row. */
    method AddClausesWithCellConstraint()
      modifies this
      ensures clauses == old(clauses) + Emit(mode, size, variables, old(count), LineGroups(Cells, size))
      ensures count == CountAfter(mode, old(count), size * size)
      ensures customVariables == old(customVariables) + AuxAdded(mode, LineGroups(Cells, size))
    {
      ghost var c0, n0, a0 := clauses, count, customVariables;
      ghost var done: seq<seq<Literal>> := [];
      var i := 1;
      while i < size + 1
        invariant 1 <= i <= size + 1 && done == LinesBefore(Cells, size, i, 1)
        invariant Emitted(c0, n0, a0, done)
      {
        var j := 1;
        while j < size + 1
          invariant 1 <= j <= size + 1 && done == LinesBefore(Cells, size, i, j)
          invariant Emitted(c0, n0, a0, done)
        {
          var vs := CellGroup(size, i, j);
          EmitStateNext(mode, size, variables, c0, n0, a0, done, clauses, count, customVariables, vs);
          ExactOneConstraint(vs);
          LinesBeforeStep(Cells, size, i, j);
          done := done + [vs];
          j := j + 1;
        }
        LinesBeforeRound(Cells, size, i, j);
        i := i + 1;
      }
      LinesEmitted(mode, size, variables, c0, n0, a0, Cells, done, clauses, count, customVariables);
    }

    /** `addClausesWithRowConstraint`: every value exactly once per row, rows
        outer and values inner. */
    method AddClausesWithRowConstraint()
      modifies this
      ensures clauses == old(clauses) + Emit(mode, size, variables, old(count), LineGroups(Rows, size))
      ensures count == CountAfter(mode, old(count), size * size)
      ensures customVariables == old(customVariables) + AuxAdded(mode, LineGroups(Rows, size))
    {
      ghost var c0, n0, a0 := clauses, count, customVariables;
      ghost var done: seq<seq<Literal>> := [];
      var i := 1;
      while i < size + 1
        invariant 1 <= i <= size + 1 && done == LinesBefore(Rows, size, i, 1)
        invariant Emitted(c0, n0, a0, done)
      {
        var k := 1;
        while k < size + 1
          invariant 1 <= k <= size + 1 && done == LinesBefore(Rows, size, i, k)
          invariant Emitted(c0, n0, a0, done)
        {
          var vs := RowGroup(size, i, k);
          EmitStateNext(mode, size, variables, c0, n0, a0, done, clauses, count, customVariables, vs);
          ExactOneConstraint(vs);
          LinesBeforeStep(Rows, size, i, k);
          done := done + [vs];
          k := k + 1;
        }
        LinesBeforeRound(Rows, size, i, k);
        i := i + 1;
      }
      LinesEmitted(mode, size, variables, c0, n0, a0, Rows, done, clauses, count, customVariables);
    }

    /** `addClausesWithColumnConstraint`: every value exactly once per column,
        columns outer and values inner. */
    method AddClausesWithColumnConstraint()
      modifies this
      ensures clauses == old(clauses) + Emit(mode, size, variables, old(count), LineGroups(Columns, size))
      ensures count == CountAfter(mode, old(count), size * size)
      ensures customVariables == old(customVariables) + AuxAdded(mode, LineGroups(Columns, size))
    {
      ghost var c0, n0, a0 := clauses, count, customVariables;
      ghost var done: seq<seq<Literal>> := [];
      var j := 1;
      while j < size + 1
        invariant 1 <= j <= size + 1 && done == LinesBefore(Columns, size, j, 1)
        invariant Emitted(c0, n0, a0, done)
      {
        var k := 1;
        while k < size + 1
          invariant 1 <= k <= size + 1 && done == LinesBefore(Columns, size, j, k)
          invariant Emitted(c0, n0, a0, done)
        {
          var vs := ColumnGroup(size, j, k);
          EmitStateNext(mode, size, variables, c0, n0, a0, done, clauses, count, customVariables, vs);
          ExactOneConstraint(vs);
          LinesBeforeStep(Columns, size, j, k);
          done := done + [vs];
          k := k + 1;
        }
        LinesBeforeRound(Columns, size, j, k);
        j := j + 1;
      }
      LinesEmitted(mode, size, variables, c0, n0, a0, Columns, done, clauses, count, customVariables);
    }

    /** `addClausesWithBlockConstraint`: every value exactly once per 3×3
        block, values outer, then block rows, then block columns. The blocks
        are 3×3 whatever the grid size, so the sequential chain needs
        size <= 9. */
    method AddClausesWithBlockConstraint()
      requires BlockFits(mode, size)
      modifies this
      ensures clauses == old(clauses) + Emit(mode, size, variables, old(count), BlockGroups(size))
      ensures count == CountAfter(mode, old(count), 9 * size)
      ensures customVariables == old(customVariables) + AuxAdded(mode, BlockGroups(size))
    {
      ghost var c0, n0, a0 := clauses, count, customVariables;
      ghost var done: seq<seq<Literal>> := [];
      var k := 1;
      while k < size + 1
        invariant 1 <= k <= size + 1 && done == BlocksBefore(size, k, 1, 1)
        invariant Emitted(c0, n0, a0, done)
      {
        var ii := 1;
        while ii < 4
          invariant 1 <= ii <= 4 && done == BlocksBefore(size, k, ii, 1)
          invariant Emitted(c0, n0, a0, done)
        {
          var jj := 1;
          while jj < 4
            invariant 1 <= jj <= 4 && done == BlocksBefore(size, k, ii, jj)
            invariant Emitted(c0, n0, a0, done)
          {
            var vs := BlockGroup(size, k, ii, jj);
            EmitStateNext(mode, size, variables, c0, n0, a0, done, clauses, count, customVariables, vs);
            ExactOneConstraint(vs);
            done := done + [vs];
            jj := jj + 1;
          }
          ii := ii + 1;
        }
        k := k + 1;
      }
      BlocksEmitted(mode, size, variables, c0, n0, a0, done, clauses, count, customVariables);
    }

    /** `addClausesWithClues`: a unit clause for every cell whose marker is a
        non-empty string of decimal digits, row by row. */
    method AddClausesWithClues()
      requires CluesCover(size, clues)
      modifies this
      ensures clauses == old(clauses) + ClueClauses(size, clues)
      ensures count == old(count) && customVariables == old(customVariables)
    {
      var i := 1;
      while i < size + 1
        invariant ClueRowsState(size, clues, old(clauses), i, clauses)
        invariant count == old(count) && customVariables == old(customVariables)
      {
        ClueStart(size, clues, old(clauses), i, clauses);
        var j := 1;
        while j < size + 1
          invariant ClueState(size, clues, old(clauses), i, j, clauses)
          invariant count == old(count) && customVariables == old(customVariables)
        {
          ClueNext(size, clues, old(clauses), i, j, clauses);
          var k := clues[i - 1][j - 1];
          if IsDigitMarker(k) {
            clauses := clauses + [[Convert(size, i, j, DigitValue(k))]];
          }
          j := j + 1;
        }
        ClueRowDone(size, clues, old(clauses), i, clauses);
        i := i + 1;
      }
      ClueRowsDone(size, clues, old(clauses), clauses);
    }

    /** `satSolving` after the SAT call, whose answer is `outcome`: no grid
        when unsatisfiable; otherwise the first `variables` literals of the
        model read back as a grid, failing where `next` finds no true value. */
    method SatSolving(outcome: SolverOutcome) returns (r: Result<Solution>)
      requires Valid()
      ensures outcome.Unsatisfiable? ==> r == Success(Solution(None, false))
      ensures r.Failure? <==> outcome.Satisfiable? && Decode(outcome.model, size).Failure?
      ensures r.Failure? ==> (r.error == ZeroStep <==> size == 0)
      ensures r.Success? ==> r.value.satisfiable == outcome.Satisfiable? && (r.value.result.Some? <==> outcome.Satisfiable?)
      ensures outcome.Satisfiable? && size >= 1 && |outcome.model| >= variables ==>
                (r.Success? <==> forall i, j :: InGrid(size, i) && InGrid(size, j) ==> CellDecided(outcome.model, size, i, j))
      ensures outcome.Satisfiable? && size >= 1 && |outcome.model| >= variables && r.Success? ==>
                r.value.satisfiable && r.value.result.Some? && ReadsModel(outcome.model, size, r.value.result.value)
    {
      if outcome.Unsatisfiable? {
        return Success(Solution(None, false));
      }
      var model := outcome.model;
      if size >= 1 && |model| >= variables {
        DecodeCorrect(model, size);
      }
      var grid := Decode(model, size);
      if grid.Failure? {
        return Failure(grid.error);
      }
      r := Success(Solution(Some(grid.value), true));
    }

    /** `solve` without the clock: the cell, row, column and block families,
        the structural clause count, the clue units, the total clause count,
        then `satSolving` on the SAT solver's answer `outcome`. */
    method Solve(outcome: SolverOutcome) returns (r: Result<Report>)
      requires Valid() && BlockFits(mode, size) && CluesCover(size, clues)
      modifies this
      ensures clauses == old(clauses) + Structural(mode, size, variables, old(count)) + ClueClauses(size, clues)
      ensures count == CountAfter(mode, old(count), StructuralCalls(size))
      ensures customVariables == old(customVariables) + StructuralAux(mode, size)
      ensures r.Failure? <==> outcome.Satisfiable? && Decode(outcome.model, size).Failure?
      ensures r.Success? ==>
                && r.value.numberOfClause == |old(clauses)| + |Structural(mode, size, variables, old(count))|
                && r.value.numberOfClauseTotal == |clauses|
                && r.value.numberOfVariable == variables + customVariables
                && r.value.satisfiable == outcome.Satisfiable?
                && (r.value.result.Some? <==> outcome.Satisfiable?)
      ensures outcome.Satisfiable? && size >= 1 && |outcome.model| >= variables && r.Success? ==>
                r.value.result.Some? && ReadsModel(outcome.model, size, r.value.result.value)
    {
      ghost var c0, n0, a0 := clauses, count, customVariables;
      AddClausesWithCellConstraint();
      ghost var c1, n1, a1 := clauses, count, customVariables;
      AddClausesWithRowConstraint();
      ghost var c2, n2, a2 := clauses, count, customVariables;
      AddClausesWithColumnConstraint();
      ghost var c3, n3, a3 := clauses, count, customVariables;
      AddClausesWithBlockConstraint();
      var numberOfClause := |clauses|;
      FamiliesFit(mode, size);
      SolveStructural(mode, size, variables, c0, n0, a0, c1, n1, a1, c2, n2, a2, c3, n3, a3,
                      clauses, count, customVariables);

      AddClausesWithClues();
      var numberOfClauseTotal := |clauses|;

      var solution := SatSolving(outcome);
      if solution.Failure? {
        return Failure(solution.error);
      }
      r := Success(Report(solution.value.satisfiable, solution.value.result,
                          variables + customVariables, numberOfClause, numberOfClauseTotal));
    }
  }
}

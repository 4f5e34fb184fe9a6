/** The four constraint families and the clue unit clauses, as the lists of
    "exactly one" groups the compiler visits and the clauses those visits
    append. */
module Constraints {
  import opened Cnf
  import opened Arith
  import opened VariableIndex
  import opened Encoders

  // ---------------------------------------------------------------------------
  // Groups

  /** The n value variables of cell (i, j). */
  function CellGroup(n: nat, i: int, j: int): seq<Literal>
  {
    seq(n, k => Convert(n, i, j, k + 1))
  }

  /** The n column positions of value k in row i. */
  function RowGroup(n: nat, i: int, k: int): seq<Literal>
  {
    seq(n, j => Convert(n, i, j + 1, k))
  }

  /** The n row positions of value k in column j. */
  function ColumnGroup(n: nat, j: int, k: int): seq<Literal>
  {
    seq(n, i => Convert(n, i + 1, j, k))
  }

  /** Value k in block (ii, jj): rows 3ii-2 .. 3ii, columns 3jj-2 .. 3jj,
      row by row. The block is 3×3 whatever n is. */
  function BlockGroup(n: nat, k: int, ii: int, jj: int): seq<Literal>
  {
    seq(9, u => Convert(n, ii * 3 - 2 + u / 3, jj * 3 - 2 + u % 3, k))
  }

  /** The three families whose loops run over two grid coordinates. */
  datatype LineFamily = Cells | Rows | Columns

  /** Group (a, b) of a family: cell (a, b), value b of row a, or value b of
      column a. */
  function LineGroup(f: LineFamily, n: nat, a: int, b: int): seq<Literal>
  {
    match f
    case Cells => CellGroup(n, a, b)
    case Rows => RowGroup(n, a, b)
    case Columns => ColumnGroup(n, a, b)
  }

  /** A family's groups in loop order: a outer, b inner, both 1 .. n. */
  function LineGroups(f: LineFamily, n: nat): seq<seq<Literal>>
  {
    seq(n * n, t => LineGroupAt(f, n, t))
  }

  /** Group t of a line family: outer coordinate t / n + 1, inner t % n + 1. */
  function LineGroupAt(f: LineFamily, n: nat, t: int): seq<Literal>
  {
    if n == 0 then [] else LineGroup(f, n, t / n + 1, t % n + 1)
  }

  /** The block groups in loop order: k outer, then ii, then jj, each in 1..3. */
  function BlockGroups(n: nat): seq<seq<Literal>>
  {
    seq(9 * n, t => BlockGroupAt(n, t))
  }

  /** Group t of the block family: value t / 9 + 1, then block row, then block column. */
  function BlockGroupAt(n: nat, t: int): seq<Literal>
  {
    BlockGroup(n, t / 9 + 1, t % 9 / 3 + 1, t % 3 + 1)
  }

  /** The groups a family's loops have visited before reaching (a, b):
      every group of the outer rounds 1 .. a - 1, then (a, 1) .. (a, b - 1). */
  function LinesBefore(f: LineFamily, n: nat, a: int, b: int): seq<seq<Literal>>
    requires 1 <= a && 1 <= b <= n + 1
    decreases a, b
  {
    if b > 1 then LinesBefore(f, n, a, b - 1) + [LineGroup(f, n, a, b - 1)]
    else if a > 1 then LinesBefore(f, n, a - 1, n + 1)
    else []
  }

  /** One inner step of a family's loops visits group (a, b). */
  lemma LinesBeforeStep(f: LineFamily, n: nat, a: int, b: int)
    requires 1 <= a && 1 <= b <= n
    ensures LinesBefore(f, n, a, b + 1) == LinesBefore(f, n, a, b) + [LineGroup(f, n, a, b)]
  {
  }

  /** The end of outer round a is the start of round a + 1. */
  lemma LinesBeforeRound(f: LineFamily, n: nat, a: int, b: int)
    requires 1 <= a && b == n + 1
    ensures LinesBefore(f, n, a + 1, 1) == LinesBefore(f, n, a, b)
  {
  }

  /** The position after the last one of row i is the first one of row i + 1. */
  lemma NextRow(n: nat, i: int)
    requires 1 <= i
    ensures CellIndex(n, i, n + 1) == CellIndex(n, i + 1, 1)
  {
    MulStep(i - 1, n);
  }

  lemma {:induction false} LinesBeforePrefix(f: LineFamily, n: nat, a: int, b: int)
    requires 1 <= a <= n + 1 && 1 <= b <= n + 1 && (a <= n || b == 1)
    ensures 0 <= CellIndex(n, a, b) <= n * n
    ensures LinesBefore(f, n, a, b) == LineGroups(f, n)[..CellIndex(n, a, b)]
    decreases a, b
  {
    if b > 1 {
      LinesBeforePrefix(f, n, a, b - 1);
      var t := CellIndex(n, a, b - 1);
      RowMajor(n, a, b - 1);
      assert LineGroups(f, n)[t] == LineGroup(f, n, a, b - 1);
      TakeNext(LineGroups(f, n), t);
    } else if a > 1 {
      LinesBeforePrefix(f, n, a - 1, n + 1);
      NextRow(n, a - 1);
    }
  }

  /** When the outer loop ends, every group of the family has been visited, in order. */
  lemma LinesBeforeAll(f: LineFamily, n: nat)
    ensures LinesBefore(f, n, n + 1, 1) == LineGroups(f, n)
  {
    LinesBeforePrefix(f, n, n + 1, 1);
    assert CellIndex(n, n + 1, 1) == n * n;
  }

  /** Position of block (ii, jj) of value k in the block loops, counted from 0. */
  function BlockIndex(k: int, ii: int, jj: int): int
  {
    (k - 1) * 9 + (ii - 1) * 3 + (jj - 1)
  }

  /** The block groups the loops have visited before reaching (k, ii, jj). */
  function BlocksBefore(n: nat, k: int, ii: int, jj: int): seq<seq<Literal>>
    requires 1 <= k && 1 <= ii <= 4 && 1 <= jj <= 4
    decreases k, ii, jj
  {
    if jj > 1 then BlocksBefore(n, k, ii, jj - 1) + [BlockGroup(n, k, ii, jj - 1)]
    else if ii > 1 then BlocksBefore(n, k, ii - 1, 4)
    else if k > 1 then BlocksBefore(n, k - 1, 4, 1)
    else []
  }

  /** Dispatch BlockIndex(k, ii, jj) of the block loops is block (ii, jj) of value k. */
  lemma BlockGroupsAt(n: nat, k: int, ii: int, jj: int)
    requires InGrid(n, k) && 1 <= ii <= 3 && 1 <= jj <= 3
    ensures 0 <= BlockIndex(k, ii, jj) < |BlockGroups(n)|
    ensures BlockGroups(n)[BlockIndex(k, ii, jj)] == BlockGroup(n, k, ii, jj)
  {
    var t := BlockIndex(k, ii, jj);
    var r := (ii - 1) * 3 + (jj - 1);
    DivModOf(9, t, k - 1, r);
    DivModOf(3, r, ii - 1, jj - 1);
    DivModOf(3, t, (k - 1) * 3 + (ii - 1), jj - 1);
    assert BlockGroups(n)[t] == BlockGroupAt(n, t);
  }

  lemma {:induction false} BlocksBeforePrefix(n: nat, k: int, ii: int, jj: int)
    requires 1 <= k <= n + 1 && 1 <= ii <= 4 && 1 <= jj <= 4
    requires (k <= n || (ii == 1 && jj == 1)) && (ii <= 3 || jj == 1)
    ensures 0 <= BlockIndex(k, ii, jj) <= 9 * n
    ensures BlocksBefore(n, k, ii, jj) == BlockGroups(n)[..BlockIndex(k, ii, jj)]
    decreases k, ii, jj
  {
    if jj > 1 {
      var r := jj - 1;
      BlocksBeforePrefix(n, k, ii, r);
      BlocksStep(n, k, ii, r);
    } else if ii > 1 {
      BlocksBeforePrefix(n, k, ii - 1, 4);
    } else if k > 1 {
      BlocksBeforePrefix(n, k - 1, 4, 1);
    }
  }

  /** One step of the innermost block loop extends the visited prefix by one group. */
  lemma BlocksStep(n: nat, k: int, ii: int, r: int)
    requires InGrid(n, k) && 1 <= ii <= 3 && 1 <= r <= 3
    requires BlocksBefore(n, k, ii, r) == BlockGroups(n)[..BlockIndex(k, ii, r)]
    ensures BlockIndex(k, ii, r) + 1 == BlockIndex(k, ii, r + 1)
    ensures BlocksBefore(n, k, ii, r + 1) == BlockGroups(n)[..BlockIndex(k, ii, r + 1)]
  {
    var t := BlockIndex(k, ii, r);
    BlockGroupsAt(n, k, ii, r);
    TakeNext(BlockGroups(n), t);
  }

  /** When the value loop ends, every block group has been visited, in order. */
  lemma BlocksBeforeAll(n: nat)
    ensures BlocksBefore(n, n + 1, 1, 1) == BlockGroups(n)
  {
    BlocksBeforePrefix(n, n + 1, 1, 1);
  }

  // ---------------------------------------------------------------------------
  // Emission

  /** The sequential encoder reads the first `size` entries of every group. */
  predicate Fits(mode: string, size: nat, groups: seq<seq<Literal>>)
  {
    IsSequential(mode) && |groups| > 0 ==> 1 <= size && forall g :: 0 <= g < |groups| ==> size <= |groups[g]|
  }

  /** `count` after `calls` more dispatches: only the sequential encoder advances it. */
  function CountAfter(mode: string, count: nat, calls: nat): nat
  {
    if IsSequential(mode) then count + calls else count
  }

  /** The clauses appended by dispatching every group in order, starting from
      counter value `count`. */
  function Emit(mode: string, size: nat, primaries: int, count: nat, groups: seq<seq<Literal>>): seq<Clause>
    requires Fits(mode, size, groups)
  {
    if groups == [] then []
    else
      var k := |groups| - 1;
      FitsPrefix(mode, size, groups, k);
      Emit(mode, size, primaries, count, groups[..k]) +
      ExactOneClauses(mode, size, primaries, CountAfter(mode, count, k), groups[k])
  }

  /** What dispatching `groups` adds to `customVariables`: len - 1 per
      sequential call, nothing in binomial mode. */
  function AuxAdded(mode: string, groups: seq<seq<Literal>>): int
  {
    if !IsSequential(mode) || groups == [] then 0
    else AuxAdded(mode, groups[..|groups| - 1]) + |groups[|groups| - 1]| - 1
  }

  lemma FitsPrefix(mode: string, size: nat, groups: seq<seq<Literal>>, t: nat)
    requires Fits(mode, size, groups) && t <= |groups|
    ensures Fits(mode, size, groups[..t])
    ensures t < |groups| && IsSequential(mode) ==> 1 <= size <= |groups[t]|
  {
    if IsSequential(mode) && t > 0 {
      forall g | 0 <= g < t ensures size <= |groups[..t][g]| {
        assert groups[..t][g] == groups[g];
      }
    }
  }

  /** Dispatching one more group appends that group's clauses. */
  lemma EmitStep(mode: string, size: nat, primaries: int, count: nat, groups: seq<seq<Literal>>, t: nat)
    requires Fits(mode, size, groups) && t < |groups|
    ensures Fits(mode, size, groups[..t]) && Fits(mode, size, groups[..t + 1])
    ensures IsSequential(mode) ==> 1 <= size <= |groups[t]|
    ensures Emit(mode, size, primaries, count, groups[..t + 1]) ==
            Emit(mode, size, primaries, count, groups[..t]) +
            ExactOneClauses(mode, size, primaries, CountAfter(mode, count, t), groups[t])
    ensures AuxAdded(mode, groups[..t + 1]) == AuxAdded(mode, groups[..t]) + AuxAdded(mode, [groups[t]])
  {
    FitsPrefix(mode, size, groups, t + 1);
    assert groups[..t + 1][..t] == groups[..t];
    assert [groups[t]][..0] == [];
  }

  lemma FamiliesFit(mode: string, n: nat)
    ensures Fits(mode, n, LineGroups(Cells, n)) && Fits(mode, n, LineGroups(Rows, n)) && Fits(mode, n, LineGroups(Columns, n))
    ensures Fits(mode, n, BlockGroups(n)) <==> (IsSequential(mode) && n > 0 ==> n <= 9)
  {
    LineFits(mode, Cells, n);
    LineFits(mode, Rows, n);
    LineFits(mode, Columns, n);
    BlockFamilyFits(mode, n);
  }

  lemma LineFits(mode: string, f: LineFamily, n: nat)
    ensures Fits(mode, n, LineGroups(f, n))
  {
    forall g | 0 <= g < |LineGroups(f, n)| ensures |LineGroups(f, n)[g]| == n {
      LineGroupLength(f, n, g / n + 1, g % n + 1);
    }
  }

  lemma LineGroupLength(f: LineFamily, n: nat, a: int, b: int)
    ensures |LineGroup(f, n, a, b)| == n
  {
  }

  lemma BlockFamilyFits(mode: string, n: nat)
    ensures Fits(mode, n, BlockGroups(n)) <==> (IsSequential(mode) && n > 0 ==> n <= 9)
  {
    var groups := BlockGroups(n);
    assert forall g :: 0 <= g < |groups| ==> |groups[g]| == 9;
    if n > 0 {
      assert |groups[0]| == 9;
    }
  }

  /** The structural families require, in sequential mode, that the grid is at
      most 9 wide, or the 9-entry block groups are too short for the chain. */
  predicate BlockFits(mode: string, n: nat)
  {
    IsSequential(mode) ==> n <= 9
  }

  /** Dispatches issued by the four families together. */
  function StructuralCalls(n: nat): nat
  {
    3 * (n * n) + 9 * n
  }

  /** Cell, then row, then column, then block clauses, the counter threaded
      from one family to the next. */
  function Structural(mode: string, n: nat, primaries: int, count: nat): seq<Clause>
    requires BlockFits(mode, n)
  {
    FamiliesFit(mode, n);
    var c1 := CountAfter(mode, count, n * n);
    var c2 := CountAfter(mode, c1, n * n);
    var c3 := CountAfter(mode, c2, n * n);
    Emit(mode, n, primaries, count, LineGroups(Cells, n)) +
    Emit(mode, n, primaries, c1, LineGroups(Rows, n)) +
    Emit(mode, n, primaries, c2, LineGroups(Columns, n)) +
    Emit(mode, n, primaries, c3, BlockGroups(n))
  }

  /** `customVariables` added by the four families. */
  function StructuralAux(mode: string, n: nat): int
  {
    AuxAdded(mode, LineGroups(Cells, n)) + AuxAdded(mode, LineGroups(Rows, n)) +
    AuxAdded(mode, LineGroups(Columns, n)) + AuxAdded(mode, BlockGroups(n))
  }

  // ---------------------------------------------------------------------------
  // Clause and variable accounting

  /** Clauses one dispatch appends for a group of `len` literals. */
  function GroupClauseCount(mode: string, size: nat, len: nat): nat
  {
    if IsSequential(mode) then (if size <= 1 then 3 else 3 + 3 * (size - 2))
    else 1 + len * (len - 1) / 2
  }

  lemma ExactOneLength(mode: string, size: nat, primaries: int, count: nat, vs: seq<Literal>)
    requires IsSequential(mode) ==> 1 <= size <= |vs|
    ensures |ExactOneClauses(mode, size, primaries, count, vs)| == GroupClauseCount(mode, size, |vs|)
  {
    if IsSequential(mode) {
      SequentialLength(vs, size, AuxBase(primaries, size, count));
    } else {
      BinomialLength(vs);
    }
  }

  lemma {:induction false} EmitLength(mode: string, size: nat, primaries: int, count: nat,
                                      groups: seq<seq<Literal>>, len: nat)
    requires Fits(mode, size, groups)
    requires forall g :: 0 <= g < |groups| ==> |groups[g]| == len
    ensures |Emit(mode, size, primaries, count, groups)| == |groups| * GroupClauseCount(mode, size, len)
  {
    if groups != [] {
      var k := |groups| - 1;
      var c := GroupClauseCount(mode, size, len);
      FitsPrefix(mode, size, groups, k);
      assert forall g :: 0 <= g < k ==> groups[..k][g] == groups[g];
      EmitLength(mode, size, primaries, count, groups[..k], len);
      ExactOneLength(mode, size, primaries, CountAfter(mode, count, k), groups[k]);
      MulStep(k, c);
    }
  }

  lemma {:induction false} AuxAddedSum(mode: string, groups: seq<seq<Literal>>, len: nat)
    requires forall g :: 0 <= g < |groups| ==> |groups[g]| == len
    ensures AuxAdded(mode, groups) == if IsSequential(mode) then |groups| * (len - 1) else 0
  {
    if groups != [] && IsSequential(mode) {
      var k := |groups| - 1;
      assert forall g :: 0 <= g < k ==> groups[..k][g] == groups[g];
      AuxAddedSum(mode, groups[..k], len);
      assert |groups| * (len - 1) == k * (len - 1) + (len - 1) by {
        var c := len - 1;
        assert (k + 1) * c == k * c + c;
      }
    }
  }

  /** Every family's groups have the length the loops give them: n for
      cells, rows and columns, 9 for blocks. */
  lemma GroupLengths(n: nat)
    ensures |LineGroups(Cells, n)| == |LineGroups(Rows, n)| == |LineGroups(Columns, n)| == n * n && |BlockGroups(n)| == 9 * n
    ensures forall t :: 0 <= t < n * n ==> |LineGroups(Cells, n)[t]| == n
    ensures forall t :: 0 <= t < n * n ==> |LineGroups(Rows, n)[t]| == n
    ensures forall t :: 0 <= t < n * n ==> |LineGroups(Columns, n)[t]| == n
    ensures forall t :: 0 <= t < 9 * n ==> |BlockGroups(n)[t]| == 9
  {
  }

  /** The structural clause count, recorded as `numberOfClause` on a fresh
      solver: (3n² + 9n) chains of 3n - 3 clauses in sequential mode;
      3n² groups of 1 + n(n-1)/2 clauses plus 9n blocks of 1 + 36 otherwise. */
  lemma StructuralClauseCount(mode: string, n: nat, primaries: int, count: nat)
    requires BlockFits(mode, n)
    ensures |Structural(mode, n, primaries, count)| ==
            if IsSequential(mode) then StructuralCalls(n) * (if n <= 1 then 3 else 3 * n - 3)
            else 3 * (n * n) * (1 + n * (n - 1) / 2) + 9 * n * 37
  {
    FamiliesFit(mode, n);
    var c1 := CountAfter(mode, count, n * n);
    var c2 := CountAfter(mode, c1, n * n);
    var c3 := CountAfter(mode, c2, n * n);
    var per, blockPer := GroupClauseCount(mode, n, n), GroupClauseCount(mode, n, 9);
    LineEmitLength(mode, n, primaries, count, Cells);
    LineEmitLength(mode, n, primaries, c1, Rows);
    LineEmitLength(mode, n, primaries, c2, Columns);
    BlockEmitLength(mode, n, primaries, c3);
    var lines := n * n;
    assert |Structural(mode, n, primaries, count)| == lines * per + lines * per + lines * per + (9 * n) * blockPer;
    FamilyTotal(IsSequential(mode), n, lines, per, blockPer);
  }

  lemma LineEmitLength(mode: string, n: nat, primaries: int, count: nat, f: LineFamily)
    ensures Fits(mode, n, LineGroups(f, n))
    ensures |Emit(mode, n, primaries, count, LineGroups(f, n))| == (n * n) * GroupClauseCount(mode, n, n)
  {
    LineFits(mode, f, n);
    GroupLengths(n);
    EmitLength(mode, n, primaries, count, LineGroups(f, n), n);
  }

  lemma BlockEmitLength(mode: string, n: nat, primaries: int, count: nat)
    requires BlockFits(mode, n)
    ensures Fits(mode, n, BlockGroups(n))
    ensures |Emit(mode, n, primaries, count, BlockGroups(n))| == (9 * n) * GroupClauseCount(mode, n, 9)
  {
    BlockFamilyFits(mode, n);
    GroupLengths(n);
    EmitLength(mode, n, primaries, count, BlockGroups(n), 9);
  }

  /** The arithmetic behind StructuralClauseCount, over the per-group counts. */
  lemma FamilyTotal(sequential: bool, n: nat, lines: nat, per: nat, blockPer: nat)
    requires lines == n * n
    requires sequential ==> per == blockPer == (if n <= 1 then 3 else 3 + 3 * (n - 2))
    requires !sequential ==> per == 1 + n * (n - 1) / 2 && blockPer == 37
    ensures lines * per + lines * per + lines * per + (9 * n) * blockPer ==
            if sequential then StructuralCalls(n) * (if n <= 1 then 3 else 3 * n - 3)
            else 3 * (n * n) * (1 + n * (n - 1) / 2) + 9 * n * 37
  {
    SumOfFamilies(lines, 9 * n, per, blockPer);
    if sequential {
      var p := if n <= 1 then 3 else 3 * n - 3;
      assert per == p;
      MulSum(3 * lines, 9 * n, p);
    } else {
      var half := n * (n - 1) / 2;
      assert 3 * lines * per == 3 * (n * n) * (1 + half);
    }
  }

  /** `customVariables` after the four families: (3n² + 9n) calls adding
      len - 1 each in sequential mode (n - 1 for lines, 8 for blocks), none
      otherwise, so a binomial solve reports exactly n³ variables. */
  lemma StructuralVariableCount(mode: string, n: nat)
    ensures StructuralAux(mode, n) == if IsSequential(mode) then 3 * (n * n) * (n - 1) + 9 * n * 8 else 0
  {
    GroupLengths(n);
    AuxAddedSum(mode, LineGroups(Cells, n), n);
    AuxAddedSum(mode, LineGroups(Rows, n), n);
    AuxAddedSum(mode, LineGroups(Columns, n), n);
    AuxAddedSum(mode, BlockGroups(n), 9);
    AuxTotal(IsSequential(mode), n, n * n, AuxAdded(mode, LineGroups(Cells, n)), AuxAdded(mode, LineGroups(Rows, n)),
             AuxAdded(mode, LineGroups(Columns, n)), AuxAdded(mode, BlockGroups(n)));
  }

  /** `customVariables` grows by len - 1 per sequential call, while each call
      allocates only size - 1 fresh identifiers. The 9-entry block groups add 8
      each where their chain takes n - 1, so after the four families
      `variables + customVariables` exceeds the highest identifier the chains
      allocate by 9n(9 - n): it over-reports for every n < 9. */
  lemma ReportedAuxGap(n: nat)
    ensures n * n * n + StructuralAux(Sequential, n) == AuxBase(n * n * n, n, StructuralCalls(n)) + 9 * n * (9 - n)
  {
    StructuralVariableCount(Sequential, n);
    var m: int := n - 1;
    assert StructuralCalls(n) * m == 3 * (n * n) * m + 9 * n * m by {
      MulSum(3 * (n * n), 9 * n, m);
    }
    assert 9 * n * m + 9 * n * (9 - n) == 9 * n * 8 by {
      MulSumLeft(9 * n, m, 9 - n);
    }
  }

  /** The arithmetic behind StructuralVariableCount, over the per-family counts. */
  lemma AuxTotal(sequential: bool, n: nat, lines: nat, cells: int, rows: int, columns: int, blocks: int)
    requires lines == n * n
    requires cells == (if sequential then lines * (n - 1) else 0)
    requires rows == (if sequential then lines * (n - 1) else 0)
    requires columns == (if sequential then lines * (n - 1) else 0)
    requires blocks == (if sequential then 9 * n * (9 - 1) else 0)
    ensures cells + rows + columns + blocks == if sequential then 3 * (n * n) * (n - 1) + 9 * n * 8 else 0
  {
  }

  /** The standard 9×9 puzzle in binomial mode compiles to 11988 structural clauses. */
  lemma NineByNineBinomialCount(primaries: int, count: nat)
    ensures |Structural(Binomial, 9, primaries, count)| == 11988
  {
    assert !IsSequential(Binomial) by {
      assert Binomial[0] != Sequential[0];
    }
    BinomialTotal(Binomial, 9, primaries, count);
  }

  lemma BinomialTotal(mode: string, n: nat, primaries: int, count: nat)
    requires !IsSequential(mode) && n == 9
    ensures |Structural(mode, n, primaries, count)| == 11988
  {
    StructuralClauseCount(mode, n, primaries, count);
    assert n * (n - 1) / 2 == 36;
  }

  // ---------------------------------------------------------------------------
  // Family properties

  /** The entries of `g` are pairwise distinct primaries of an n×n grid. */
  predicate DistinctPrimaries(n: nat, g: seq<Literal>)
  {
    && (forall a :: 0 <= a < |g| ==> 1 <= g[a] <= n * n * n)
    && (forall a, b :: 0 <= a < b < |g| ==> g[a] != g[b])
  }

  lemma CellGroupShape(n: nat, i: int, j: int)
    requires InGrid(n, i) && InGrid(n, j)
    ensures |CellGroup(n, i, j)| == n && DistinctPrimaries(n, CellGroup(n, i, j))
  {
    var g := CellGroup(n, i, j);
    forall a | 0 <= a < n ensures 1 <= g[a] <= n * n * n {
      ConvertInRange(n, i, j, a + 1);
    }
    forall a, b | 0 <= a < b < n ensures g[a] != g[b] {
      UnconvertConvert(n, i, j, a + 1);
      UnconvertConvert(n, i, j, b + 1);
    }
  }

  lemma RowGroupShape(n: nat, i: int, k: int)
    requires InGrid(n, i) && InGrid(n, k)
    ensures |RowGroup(n, i, k)| == n && DistinctPrimaries(n, RowGroup(n, i, k))
  {
    var g := RowGroup(n, i, k);
    forall a | 0 <= a < n ensures 1 <= g[a] <= n * n * n {
      ConvertInRange(n, i, a + 1, k);
    }
    forall a, b | 0 <= a < b < n ensures g[a] != g[b] {
      UnconvertConvert(n, i, a + 1, k);
      UnconvertConvert(n, i, b + 1, k);
    }
  }

  lemma ColumnGroupShape(n: nat, j: int, k: int)
    requires InGrid(n, j) && InGrid(n, k)
    ensures |ColumnGroup(n, j, k)| == n && DistinctPrimaries(n, ColumnGroup(n, j, k))
  {
    var g := ColumnGroup(n, j, k);
    forall a | 0 <= a < n ensures 1 <= g[a] <= n * n * n {
      ConvertInRange(n, a + 1, j, k);
    }
    forall a, b | 0 <= a < b < n ensures g[a] != g[b] {
      UnconvertConvert(n, a + 1, j, k);
      UnconvertConvert(n, b + 1, j, k);
    }
  }

  lemma LineGroupShape(f: LineFamily, n: nat, a: int, b: int)
    requires InGrid(n, a) && InGrid(n, b)
    ensures |LineGroup(f, n, a, b)| == n && DistinctPrimaries(n, LineGroup(f, n, a, b))
  {
    match f
    case Cells => CellGroupShape(n, a, b);
    case Rows => RowGroupShape(n, a, b);
    case Columns => ColumnGroupShape(n, a, b);
  }

  /** Cell, row and column compilation each visit n² groups of n distinct
      primaries. */
  lemma LineFamiliesShape(f: LineFamily, n: nat)
    ensures |LineGroups(f, n)| == n * n
    ensures forall t :: 0 <= t < n * n ==> |LineGroups(f, n)[t]| == n && DistinctPrimaries(n, LineGroups(f, n)[t])
  {
    forall t | 0 <= t < n * n
      ensures |LineGroups(f, n)[t]| == n && DistinctPrimaries(n, LineGroups(f, n)[t])
    {
      DivBound(t, n, n);
      LineGroupShape(f, n, t / n + 1, t % n + 1);
    }
  }

  lemma BlockGroupShape(n: nat, k: int, ii: int, jj: int)
    requires n >= 9 && InGrid(n, k) && 1 <= ii <= 3 && 1 <= jj <= 3
    ensures DistinctPrimaries(n, BlockGroup(n, k, ii, jj))
  {
    var g := BlockGroup(n, k, ii, jj);
    forall a | 0 <= a < 9 ensures 1 <= g[a] <= n * n * n {
      ConvertInRange(n, ii * 3 - 2 + a / 3, jj * 3 - 2 + a % 3, k);
    }
    forall a, b | 0 <= a < b < 9 ensures g[a] != g[b] {
      UnconvertConvert(n, ii * 3 - 2 + a / 3, jj * 3 - 2 + a % 3, k);
      UnconvertConvert(n, ii * 3 - 2 + b / 3, jj * 3 - 2 + b % 3, k);
    }
  }

  /** Block compilation visits 9n groups of 9 variables; when the grid is at
      least 9 wide they are distinct primaries. */
  lemma BlockFamilyShape(n: nat)
    ensures |BlockGroups(n)| == 9 * n
    ensures forall t :: 0 <= t < 9 * n ==> |BlockGroups(n)[t]| == 9
    ensures n >= 9 ==> forall t :: 0 <= t < 9 * n ==> DistinctPrimaries(n, BlockGroups(n)[t])
  {
    if n >= 9 {
      forall t | 0 <= t < 9 * n ensures DistinctPrimaries(n, BlockGroups(n)[t]) {
        BlockGroupShape(n, t / 9 + 1, t % 9 / 3 + 1, t % 3 + 1);
      }
    }
  }

  /** With blockSize 2 (n = 4) the hard-coded 3×3 blocks reach rows and
      columns 7 to 9, so block groups name identifiers beyond the n³ = 64
      primaries. */
  lemma BlockGroupsOutsideSmallGrid()
    ensures BlockGroups(4)[8][8] == 161 > 4 * 4 * 4
  {
  }

  /** With blockSize 1 (n = n³ = 1) the sequential chain has length 1 and is
      based at identifier 1 for every call, so its third clause is [-1, -1]:
      together with the input clause [1] no assignment satisfies a 1×1
      puzzle's structural clauses, whatever the clues. */
  lemma SingleCellSequentialUnsat(a: Assignment, n: nat, count: nat)
    requires n == 1
    ensures Structural(Sequential, n, n, count)[..3] == [[1], [-1, 2], [-1, -1]]
    ensures !CnfSat(a, Structural(Sequential, n, n, count))
  {
    SingleCellHead(n, count);
    ContradictoryHead(a, Structural(Sequential, n, n, count));
  }

  /** A clause list that starts with [1] and, two clauses on, [-1, -1] has no
      model. */
  lemma ContradictoryHead(a: Assignment, cs: seq<Clause>)
    requires |cs| >= 3 && cs[..3] == [[1], [-1, 2], [-1, -1]]
    ensures !CnfSat(a, cs)
  {
    assert cs[0] == [1] && cs[2] == [-1, -1] by {
      assert cs[0] == cs[..3][0] && cs[2] == cs[..3][2];
    }
    assert ClauseSat(a, cs[0]) ==> a(1);
    assert ClauseSat(a, cs[2]) ==> !a(1);
  }

  /** The structural clauses of a 1×1 sequential puzzle begin with the chain
      of its only cell. */
  lemma SingleCellHead(n: nat, count: nat)
    requires n == 1
    ensures Structural(Sequential, n, n, count)[..3] == [[1], [-1, 2], [-1, -1]]
  {
    FamiliesFit(Sequential, n);
    SingleCellEmit(n, count);
    StructuralStartsWithCells(Sequential, n, n, count);
  }

  /** The structural clauses begin with the cell family's. */
  lemma StructuralStartsWithCells(mode: string, n: nat, primaries: int, count: nat)
    requires BlockFits(mode, n) && Fits(mode, n, LineGroups(Cells, n))
    ensures var cells := Emit(mode, n, primaries, count, LineGroups(Cells, n));
            |cells| <= |Structural(mode, n, primaries, count)| &&
            Structural(mode, n, primaries, count)[..|cells|] == cells
  {
    FamiliesFit(mode, n);
  }

  /** The cell family of a 1×1 grid is one call over the group [1], whose
      chain starts at identifier 1. */
  lemma SingleCellEmit(n: nat, count: nat)
    requires n == 1 && Fits(Sequential, n, LineGroups(Cells, n))
    ensures Emit(Sequential, n, n, count, LineGroups(Cells, n)) == [[1], [-1, 2], [-1, -1]]
  {
    SingleCellGroups(n);
    EmitOne(Sequential, n, n, count, [1]);
    assert SequentialClauses([1], 1, AuxBase(n, n, count)) == [[1], [-1, 2], [-1, -1]];
  }

  /** A 1×1 grid has one cell group, holding identifier 1. */
  lemma SingleCellGroups(n: nat)
    requires n == 1
    ensures LineGroups(Cells, n) == [[1]]
  {
    assert LineGroups(Cells, 1)[0] == LineGroupAt(Cells, 1, 0) == CellGroup(1, 1, 1) == [1];
  }

  /** Dispatching a single group appends that group's encoding. */
  lemma EmitOne(mode: string, size: nat, primaries: int, count: nat, g: seq<Literal>)
    requires IsSequential(mode) ==> 1 <= size <= |g|
    ensures Emit(mode, size, primaries, count, [g]) == ExactOneClauses(mode, size, primaries, count, g)
  {
    assert [g][..0] == [];
  }

  /** With blockSize 2 the 3×3 blocks reach identifier 161, which is also the
      first auxiliary of sequential call 32, the chain of the first column
      group: the block clauses constrain another group's auxiliary. */
  lemma BlockAliasesColumnChain(n: nat)
    requires n == 4
    ensures CountAfter(Sequential, CountAfter(Sequential, 0, 4 * 4), 4 * 4) == 32
    ensures AuxBase(64, 4, 32) < 161 <= AuxBase(64, 4, 33)
    ensures |LineGroups(Columns, n)| > 0 && LineGroups(Columns, n)[0] == [1, 17, 33, 49]
    ensures ExactOneClauses(Sequential, 4, 64, 32, [1, 17, 33, 49])[1] == [-1, 161]
    ensures |BlockGroups(n)| > 8 && BlockGroups(n)[8] == [121, 125, 129, 137, 141, 145, 153, 157, 161]
  {
    FirstColumnChain();
    FirstColumnGroup(n);
    LastBlockOfFirstValue(n);
  }

  /** In a 4×4 sequential solve the first column chain is call 32 (after 16
      cell and 16 row calls); its auxiliaries are 161 .. 163, and its second
      clause links identifier 1 to 161. */
  lemma FirstColumnChain()
    ensures CountAfter(Sequential, CountAfter(Sequential, 0, 4 * 4), 4 * 4) == 32
    ensures AuxBase(64, 4, 32) < 161 <= AuxBase(64, 4, 33)
    ensures ExactOneClauses(Sequential, 4, 64, 32, [1, 17, 33, 49])[1] == [-1, 161]
  {
    assert ExactOneClauses(Sequential, 4, 64, 32, [1, 17, 33, 49]) == SequentialClauses([1, 17, 33, 49], 4, 160);
  }

  /** The first column group of a 4×4 grid: value 1 in rows 1 .. 4 of column 1. */
  lemma FirstColumnGroup(n: nat)
    requires n == 4
    ensures |LineGroups(Columns, n)| > 0 && LineGroups(Columns, n)[0] == [1, 17, 33, 49]
  {
    assert LineGroups(Columns, 4)[0] == LineGroupAt(Columns, 4, 0) == ColumnGroup(4, 1, 1);
  }

  /** The ninth block group of a 4×4 grid: value 1 in rows and columns 7 .. 9. */
  lemma LastBlockOfFirstValue(n: nat)
    requires n == 4
    ensures |BlockGroups(n)| > 8 && BlockGroups(n)[8] == [121, 125, 129, 137, 141, 145, 153, 157, 161]
  {
    assert BlockGroups(4)[8] == BlockGroupAt(4, 8) == BlockGroup(4, 1, 3, 3);
  }

  // ---------------------------------------------------------------------------
  // Clues

  /** `k and k.isdigit()`: a non-empty marker made of decimal digits. */
  predicate IsDigitMarker(s: string)
  {
    |s| > 0 && forall c :: 0 <= c < |s| ==> '0' <= s[c] <= '9'
  }

  /** `int(k)` on a digit string. */
  function DigitValue(s: string): nat
    requires forall c :: 0 <= c < |s| ==> '0' <= s[c] <= '9'
  {
    if s == [] then 0 else DigitValue(s[..|s| - 1]) * 10 + (s[|s| - 1] as int - '0' as int)
  }

  /** The clue grid has at least n rows of at least n markers. */
  predicate CluesCover(n: nat, clues: seq<seq<string>>)
  {
    |clues| >= n && forall i :: 0 <= i < n ==> |clues[i]| >= n
  }

  /** Cell (i, j), counted from 0, lies in the grid and holds a digit marker. */
  predicate IsDigitCell(n: nat, clues: seq<seq<string>>, cell: (int, int))
    requires CluesCover(n, clues)
  {
    0 <= cell.0 < n && 0 <= cell.1 < n && IsDigitMarker(clues[cell.0][cell.1])
  }

  /** The unit clause a digit cell contributes. */
  function ClueUnit(n: nat, clues: seq<seq<string>>, cell: (int, int)): Clause
    requires CluesCover(n, clues) && IsDigitCell(n, clues, cell)
  {
    [Convert(n, cell.0 + 1, cell.1 + 1, DigitValue(clues[cell.0][cell.1]))]
  }

  /** The clue clauses of cells (i, 0) .. (i, j - 1). */
  function ClueRow(n: nat, clues: seq<seq<string>>, i: nat, j: nat): seq<Clause>
    requires CluesCover(n, clues) && i < n && j <= n
  {
    if j == 0 then []
    else ClueRow(n, clues, i, j - 1) + (if IsDigitCell(n, clues, (i, j - 1)) then [ClueUnit(n, clues, (i, j - 1))] else [])
  }

  /** The clue clauses of rows 0 .. i - 1. */
  function CluesBefore(n: nat, clues: seq<seq<string>>, i: nat): seq<Clause>
    requires CluesCover(n, clues) && i <= n
  {
    if i == 0 then [] else CluesBefore(n, clues, i - 1) + ClueRow(n, clues, i - 1, n)
  }

  /** `addClausesWithClues`: one unit clause per digit marker, row by row. */
  function ClueClauses(n: nat, clues: seq<seq<string>>): seq<Clause>
    requires CluesCover(n, clues)
  {
    CluesBefore(n, clues, n)
  }

  /** The digit cells of the grid. */
  function DigitCells(n: nat, clues: seq<seq<string>>): set<(int, int)>
    requires CluesCover(n, clues)
  {
    set i, j | 0 <= i < n && 0 <= j < n && IsDigitMarker(clues[i][j]) :: (i, j)
  }

  /** The digit cells of row i before column j. */
  function DigitColumnsBefore(n: nat, clues: seq<seq<string>>, i: nat, j: nat): set<(int, int)>
    requires CluesCover(n, clues) && i < n && j <= n
  {
    if j == 0 then {}
    else DigitColumnsBefore(n, clues, i, j - 1) + (if IsDigitCell(n, clues, (i, j - 1)) then {(i, j - 1)} else {})
  }

  /** The digit cells in rows before i. */
  function DigitRowsBefore(n: nat, clues: seq<seq<string>>, i: nat): set<(int, int)>
    requires CluesCover(n, clues) && i <= n
  {
    if i == 0 then {} else DigitRowsBefore(n, clues, i - 1) + DigitColumnsBefore(n, clues, i - 1, n)
  }

  lemma {:induction false} DigitColumnsMembers(n: nat, clues: seq<seq<string>>, i: nat, j: nat)
    requires CluesCover(n, clues) && i < n && j <= n
    ensures forall c :: c in DigitColumnsBefore(n, clues, i, j) <==> c.0 == i && c.1 < j && IsDigitCell(n, clues, c)
  {
    if j > 0 {
      DigitColumnsMembers(n, clues, i, j - 1);
    }
  }

  lemma {:induction false} DigitRowsMembers(n: nat, clues: seq<seq<string>>, i: nat)
    requires CluesCover(n, clues) && i <= n
    ensures forall c :: c in DigitRowsBefore(n, clues, i) <==> c.0 < i && IsDigitCell(n, clues, c)
  {
    if i > 0 {
      DigitRowsMembers(n, clues, i - 1);
      DigitColumnsMembers(n, clues, i - 1, n);
    }
  }

  /** The unit clauses of the digit cells among `cells`. */
  function UnitSet(n: nat, clues: seq<seq<string>>, cells: set<(int, int)>): set<Clause>
    requires CluesCover(n, clues)
  {
    set c | c in cells && IsDigitCell(n, clues, c) :: ClueUnit(n, clues, c)
  }

  lemma UnitSetMono(n: nat, clues: seq<seq<string>>, a: set<(int, int)>, b: set<(int, int)>)
    requires CluesCover(n, clues) && a <= b
    ensures UnitSet(n, clues, a) <= UnitSet(n, clues, b)
  {
  }

  /** Cell (i, j - 1) is not among the digit cells of row i before column j - 1. */
  lemma DigitColumnsFresh(n: nat, clues: seq<seq<string>>, i: nat, j: nat)
    requires CluesCover(n, clues) && i < n && 0 < j <= n
    ensures (i, j - 1) !in DigitColumnsBefore(n, clues, i, j - 1)
  {
    DigitColumnsMembers(n, clues, i, j - 1);
  }

  /** The digit cells of row i - 1 are not among those of the rows before it. */
  lemma DigitRowsFresh(n: nat, clues: seq<seq<string>>, i: nat)
    requires CluesCover(n, clues) && 0 < i <= n
    ensures DigitRowsBefore(n, clues, i - 1) !! DigitColumnsBefore(n, clues, i - 1, n)
  {
    DigitRowsMembers(n, clues, i - 1);
    DigitColumnsMembers(n, clues, i - 1, n);
  }

  /** Row i up to column j emits one clause per digit cell seen. */
  lemma {:induction false} ClueRowCount(n: nat, clues: seq<seq<string>>, i: nat, j: nat)
    requires CluesCover(n, clues) && i < n && j <= n
    ensures |ClueRow(n, clues, i, j)| == |DigitColumnsBefore(n, clues, i, j)|
  {
    if j == 0 {
      assert DigitColumnsBefore(n, clues, i, 0) == {};
    } else {
      ClueRowCount(n, clues, i, j - 1);
      DigitColumnsFresh(n, clues, i, j);
    }
  }

  /** Every digit cell of row i before column j has its unit clause emitted. */
  lemma {:induction false} ClueRowCover(n: nat, clues: seq<seq<string>>, i: nat, j: nat)
    requires CluesCover(n, clues) && i < n && j <= n
    ensures forall c :: c in DigitColumnsBefore(n, clues, i, j) ==>
              IsDigitCell(n, clues, c) && ClueUnit(n, clues, c) in ClueRow(n, clues, i, j)
  {
    if j > 0 {
      ClueRowCover(n, clues, i, j - 1);
      var cell := (i, j - 1);
      if IsDigitCell(n, clues, cell) {
        var prev := ClueRow(n, clues, i, j - 1);
        assert ClueRow(n, clues, i, j) == prev + [ClueUnit(n, clues, cell)];
        assert (prev + [ClueUnit(n, clues, cell)])[|prev|] == ClueUnit(n, clues, cell);
      }
    }
  }

  /** Every clause of row i before column j is the unit clause of one of its digit cells. */
  lemma {:induction false} ClueRowSound(n: nat, clues: seq<seq<string>>, i: nat, j: nat)
    requires CluesCover(n, clues) && i < n && j <= n
    ensures forall x :: 0 <= x < |ClueRow(n, clues, i, j)| ==>
              ClueRow(n, clues, i, j)[x] in UnitSet(n, clues, DigitColumnsBefore(n, clues, i, j))
  {
    if j > 0 {
      ClueRowSound(n, clues, i, j - 1);
      UnitSetMono(n, clues, DigitColumnsBefore(n, clues, i, j - 1), DigitColumnsBefore(n, clues, i, j));
      var cell := (i, j - 1);
      if IsDigitCell(n, clues, cell) {
        var prev := ClueRow(n, clues, i, j - 1);
        assert ClueRow(n, clues, i, j) == prev + [ClueUnit(n, clues, cell)];
        assert ClueUnit(n, clues, cell) in UnitSet(n, clues, DigitColumnsBefore(n, clues, i, j));
        forall x | 0 <= x < |prev| + 1
          ensures (prev + [ClueUnit(n, clues, cell)])[x] in UnitSet(n, clues, DigitColumnsBefore(n, clues, i, j))
        {
          if x < |prev| {
            assert (prev + [ClueUnit(n, clues, cell)])[x] == prev[x];
          }
        }
      }
    }
  }

  /** Rows before i emit one clause per digit cell. */
  lemma {:induction false} CluesBeforeCount(n: nat, clues: seq<seq<string>>, i: nat)
    requires CluesCover(n, clues) && i <= n
    ensures |CluesBefore(n, clues, i)| == |DigitRowsBefore(n, clues, i)|
  {
    if i > 0 {
      var r := i - 1;
      CluesBeforeCount(n, clues, r);
      ClueRowCount(n, clues, r, n);
      RowsLengths(n, clues, r);
    }
  }

  /** Row r adds its clauses to the list and its digit cells to the set. */
  lemma RowsLengths(n: nat, clues: seq<seq<string>>, r: nat)
    requires CluesCover(n, clues) && r < n
    ensures |CluesBefore(n, clues, r + 1)| == |CluesBefore(n, clues, r)| + |ClueRow(n, clues, r, n)|
    ensures |DigitRowsBefore(n, clues, r + 1)| == |DigitRowsBefore(n, clues, r)| + |DigitColumnsBefore(n, clues, r, n)|
  {
    DigitRowsFresh(n, clues, r + 1);
    DisjointUnionCard(DigitRowsBefore(n, clues, r), DigitColumnsBefore(n, clues, r, n));
  }

  lemma DisjointUnionCard<T>(a: set<T>, b: set<T>)
    requires a !! b
    ensures |a + b| == |a| + |b|
  {
    assert a * b == {};
  }

  /** Every digit cell of the rows before i has its unit clause emitted. */
  lemma {:induction false} CluesBeforeCover(n: nat, clues: seq<seq<string>>, i: nat)
    requires CluesCover(n, clues) && i <= n
    ensures forall c :: c in DigitRowsBefore(n, clues, i) ==>
              IsDigitCell(n, clues, c) && ClueUnit(n, clues, c) in CluesBefore(n, clues, i)
  {
    if i > 0 {
      CluesBeforeCover(n, clues, i - 1);
      ClueRowCover(n, clues, i - 1, n);
    }
  }

  /** Every clause of the rows before i is the unit clause of one of their digit cells. */
  lemma {:induction false} CluesBeforeSound(n: nat, clues: seq<seq<string>>, i: nat)
    requires CluesCover(n, clues) && i <= n
    ensures forall x :: 0 <= x < |CluesBefore(n, clues, i)| ==>
              CluesBefore(n, clues, i)[x] in UnitSet(n, clues, DigitRowsBefore(n, clues, i))
  {
    if i > 0 {
      CluesBeforeSound(n, clues, i - 1);
      ClueRowSound(n, clues, i - 1, n);
      var cells := DigitRowsBefore(n, clues, i);
      UnitSetMono(n, clues, DigitRowsBefore(n, clues, i - 1), cells);
      UnitSetMono(n, clues, DigitColumnsBefore(n, clues, i - 1, n), cells);
      var prev, row := CluesBefore(n, clues, i - 1), ClueRow(n, clues, i - 1, n);
      assert CluesBefore(n, clues, i) == prev + row;
      forall x | 0 <= x < |prev + row| ensures (prev + row)[x] in UnitSet(n, clues, cells) {
        if x < |prev| {
          assert (prev + row)[x] == prev[x];
        } else {
          assert (prev + row)[x] == row[x - |prev|];
        }
      }
    }
  }

  /** Clue compilation appends as many clauses as there are digit markers. */
  lemma ClueClauseCount(n: nat, clues: seq<seq<string>>)
    requires CluesCover(n, clues)
    ensures |ClueClauses(n, clues)| == |DigitCells(n, clues)|
  {
    DigitRowsMembers(n, clues, n);
    assert DigitRowsBefore(n, clues, n) == DigitCells(n, clues);
    CluesBeforeCount(n, clues, n);
  }

  /** Clue compilation appends exactly one clause per digit marker: the
      clauses appended are the unit clauses of the digit cells, each once. */
  lemma ClueClausesExactly(n: nat, clues: seq<seq<string>>)
    requires CluesCover(n, clues)
    ensures |ClueClauses(n, clues)| == |DigitCells(n, clues)|
    ensures forall c :: c in DigitCells(n, clues) ==> ClueUnit(n, clues, c) in ClueClauses(n, clues)
    ensures forall x :: 0 <= x < |ClueClauses(n, clues)| ==>
              exists c :: c in DigitCells(n, clues) && ClueClauses(n, clues)[x] == ClueUnit(n, clues, c)
  {
    DigitRowsMembers(n, clues, n);
    assert DigitRowsBefore(n, clues, n) == DigitCells(n, clues);
    ClueClauseCount(n, clues);
    assert forall c :: c in DigitCells(n, clues) ==> ClueUnit(n, clues, c) in ClueClauses(n, clues) by {
      CluesBeforeCover(n, clues, n);
    }
    assert forall x :: 0 <= x < |ClueClauses(n, clues)| ==> ClueClauses(n, clues)[x] in UnitSet(n, clues, DigitCells(n, clues)) by {
      CluesBeforeSound(n, clues, n);
    }
  }
}

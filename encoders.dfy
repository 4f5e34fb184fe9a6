/** The two "exactly one of these literals" encodings the compiler has, as the
    clause lists they append, and the dispatch between them. */
module Encoders {
  import opened Cnf
  import opened Arith

  /** The encoding-mode selector; only SEQUENTIAL changes the encoding. */
  const Sequential: string := "SEQUENTIAL"
  const Binomial: string := "BINOMIAL"

  predicate IsSequential(mode: string)
  {
    mode == Sequential
  }

  // ---------------------------------------------------------------------------
  // Binomial (pairwise) encoding

  /** Row `i` of the pairwise exclusions: [-vs[i], -vs[j]] for i < j < last. */
  function PairRow(vs: seq<Literal>, i: nat, last: nat): seq<Clause>
    requires i < last <= |vs|
  {
    seq(last - i - 1, t requires 0 <= t < last - i - 1 => [-vs[i], -vs[i + 1 + t]])
  }

  /** The exclusions of the first `i` rows, in the order the nested loops emit them. */
  function PairsBefore(vs: seq<Literal>, i: nat): seq<Clause>
    requires i <= |vs|
  {
    if i == 0 then [] else PairsBefore(vs, i - 1) + PairRow(vs, i - 1, |vs|)
  }

  /** Rows of the loop `for i in range(len(vs) - 1)`. */
  function PairRows(vs: seq<Literal>): nat
  {
    if |vs| == 0 then 0 else |vs| - 1
  }

  /** `exactOneWithBinomialEncoding`: the input as one clause, then every pair excluded. */
  function BinomialClauses(vs: seq<Literal>): seq<Clause>
  {
    [vs] + PairsBefore(vs, PairRows(vs))
  }

  /** Where row `i` of the exclusions starts: the sum of the n - 1 - r pairs of every row r < i. */
  function PairOffset(n: nat, i: nat): nat
    requires i <= n
  {
    if i == 0 then 0 else PairOffset(n, i - 1) + (n - i)
  }

  lemma {:induction false} PairOffsetClosed(n: nat, i: nat)
    requires i <= n
    ensures 2 * PairOffset(n, i) == i * (2 * n - 1 - i)
  {
    if i > 0 {
      PairOffsetClosed(n, i - 1);
      assert (i - 1) * (2 * n - i) + 2 * (n - i) == i * (2 * n - 1 - i);
    }
  }

  lemma {:induction false} PairsBeforeLength(vs: seq<Literal>, i: nat)
    requires i <= |vs|
    ensures |PairsBefore(vs, i)| == PairOffset(|vs|, i)
  {
    if i > 0 {
      PairsBeforeLength(vs, i - 1);
    }
  }

  /** The first `i` rows are a prefix of the first `m`. */
  lemma {:induction false} PairsBeforePrefix(vs: seq<Literal>, i: nat, m: nat)
    requires i <= m <= |vs|
    ensures |PairsBefore(vs, i)| <= |PairsBefore(vs, m)|
    ensures PairsBefore(vs, m)[..|PairsBefore(vs, i)|] == PairsBefore(vs, i)
    decreases m
  {
    if i < m {
      PairsBeforePrefix(vs, i, m - 1);
      var p, q := PairsBefore(vs, i), PairsBefore(vs, m - 1);
      assert PairsBefore(vs, m)[..|q|] == q;
      assert q[..|p|] == p;
    }
  }

  /** Binomial encoding of n literals appends exactly 1 + n(n-1)/2 clauses. */
  lemma BinomialLength(vs: seq<Literal>)
    ensures |BinomialClauses(vs)| == 1 + |vs| * (|vs| - 1) / 2
  {
    var n := |vs|;
    PairsBeforeLength(vs, PairRows(vs));
    PairOffsetClosed(n, PairRows(vs));
    if n > 0 {
      assert 2 * PairOffset(n, n - 1) == n * (n - 1);
    }
  }

  /** Binomial encoding begins with the input list and then excludes the pair
      (i, j), i < j, at a position fixed by the loop order: row by row, and
      within a row by increasing j. */
  lemma BinomialShape(vs: seq<Literal>, i: nat, j: nat)
    requires i < j < |vs|
    ensures BinomialClauses(vs)[0] == vs
    ensures 1 + PairOffset(|vs|, i) + (j - i - 1) < |BinomialClauses(vs)|
    ensures BinomialClauses(vs)[1 + PairOffset(|vs|, i) + (j - i - 1)] == [-vs[i], -vs[j]]
  {
    var n := |vs|;
    PairsBeforePrefix(vs, i + 1, n - 1);
    PairsBeforeLength(vs, i);
    var row := PairsBefore(vs, i + 1);
    assert row[PairOffset(n, i) + (j - i - 1)] == [-vs[i], -vs[j]];
    assert PairsBefore(vs, n - 1)[PairOffset(n, i) + (j - i - 1)] == row[PairOffset(n, i) + (j - i - 1)];
  }

  lemma RowSat(a: Assignment, vs: seq<Literal>, i: nat)
    requires i < |vs| && forall x :: 0 <= x < |vs| ==> vs[x] != 0
    ensures CnfSat(a, PairRow(vs, i, |vs|)) <==>
            forall q :: i < q < |vs| ==> !(Holds(a, vs[i]) && Holds(a, vs[q]))
  {
    var row := PairRow(vs, i, |vs|);
    forall q | i < q < |vs|
      ensures ClauseSat(a, row[q - i - 1]) <==> !(Holds(a, vs[i]) && Holds(a, vs[q]))
    {
      NegationHolds(a, vs[i]);
      NegationHolds(a, vs[q]);
      var c := row[q - i - 1];
      assert c == [-vs[i], -vs[q]];
      assert ClauseSat(a, c) <==> Holds(a, c[0]) || Holds(a, c[1]);
    }
    if forall q :: i < q < |vs| ==> !(Holds(a, vs[i]) && Holds(a, vs[q])) {
      forall t | 0 <= t < |row| ensures ClauseSat(a, row[t]) {
        assert row[(t + i + 1) - i - 1] == row[t];
      }
    }
  }

  lemma {:induction false} PairsSat(a: Assignment, vs: seq<Literal>, m: nat)
    requires m <= |vs| && forall x :: 0 <= x < |vs| ==> vs[x] != 0
    ensures CnfSat(a, PairsBefore(vs, m)) <==>
            forall p, q :: 0 <= p < m && p < q < |vs| ==> !(Holds(a, vs[p]) && Holds(a, vs[q]))
  {
    if m > 0 {
      PairsSat(a, vs, m - 1);
      RowSat(a, vs, m - 1);
      CnfSatAppend(a, PairsBefore(vs, m - 1), PairRow(vs, m - 1, |vs|));
    }
  }

  /** The binomial clauses hold exactly when exactly one input literal is true. */
  lemma BinomialExactlyOne(a: Assignment, vs: seq<Literal>)
    requires forall x :: 0 <= x < |vs| ==> vs[x] != 0
    ensures CnfSat(a, BinomialClauses(vs)) <==> ExactlyOne(a, vs)
  {
    PairsSat(a, vs, PairRows(vs));
    CnfSatAppend(a, [vs], PairsBefore(vs, PairRows(vs)));
    assert CnfSat(a, [vs]) <==> ClauseSat(a, vs) by {
      assert [vs][0] == vs;
    }
    ExactlyOneSplit(a, vs);
  }

  // ---------------------------------------------------------------------------
  // Sequential (prefix-chain) encoding

  /** First identifier below the auxiliaries of the `count`-th sequential call:
      that call uses from + 1 .. from + size - 1. */
  function AuxBase(primaries: int, size: nat, count: nat): int
  {
    primaries + count * (size - 1)
  }

  /** The three clauses of loop step i (2 <= i < size): vs[i-1] -> s_i,
      s_(i-1) -> s_i and s_(i-1) -> not vs[i-1], where s_i is from + i. */
  function ChainStep(vs: seq<Literal>, from: int, i: nat): seq<Clause>
    requires 1 <= i <= |vs|
  {
    [[-vs[i - 1], from + i], [-(from + i - 1), from + i], [-(from + i - 1), -vs[i - 1]]]
  }

  /** The steps i = 2 .. m - 1 of the loop, in order. */
  function ChainBefore(vs: seq<Literal>, from: int, m: nat): seq<Clause>
    requires m <= 2 || m <= |vs|
  {
    if m <= 2 then [] else ChainBefore(vs, from, m - 1) + ChainStep(vs, from, m - 1)
  }

  /** `exactOneWithSequentialEncoding` with chain length `size` (the grid size,
      not the length of `vs`) and auxiliaries from + 1 .. from + size - 1. */
  function SequentialClauses(vs: seq<Literal>, size: nat, from: int): seq<Clause>
    requires 1 <= size <= |vs|
  {
    [vs, [-vs[0], from + 1], [-vs[size - 1], -(from + size - 1)]] + ChainBefore(vs, from, size)
  }

  /** One more loop step appends the step's three clauses, one at a time. */
  lemma ChainNext(head: seq<Clause>, vs: seq<Literal>, from: int, i: nat)
    requires 2 <= i < |vs|
    ensures head + ChainBefore(vs, from, i) + [[-vs[i - 1], from + i]] + [[-(from + i - 1), from + i]]
              + [[-(from + i - 1), -vs[i - 1]]] == head + ChainBefore(vs, from, i + 1)
  {
    var a, b, c := [-vs[i - 1], from + i], [-(from + i - 1), from + i], [-(from + i - 1), -vs[i - 1]];
    assert ChainStep(vs, from, i) == [a] + [b] + [c];
    AppendAssoc(head + ChainBefore(vs, from, i) + [a], [b], [c]);
    AppendAssoc(head + ChainBefore(vs, from, i), [a], [b] + [c]);
    AppendAssoc(head, ChainBefore(vs, from, i), ChainStep(vs, from, i));
  }

  /** The three leading clauses followed by the finished loop make the whole encoding. */
  lemma SequentialDone(c0: seq<Clause>, vs: seq<Literal>, size: nat, from: int, i: nat)
    requires 1 <= size <= |vs| && size <= i && (i == size || i == 2)
    ensures c0 + [vs] + [[-vs[0], from + 1]] + [[-vs[size - 1], -(from + size - 1)]] + ChainBefore(vs, from, i)
            == c0 + SequentialClauses(vs, size, from)
  {
    var a, b := [-vs[0], from + 1], [-vs[size - 1], -(from + size - 1)];
    assert ChainBefore(vs, from, i) == ChainBefore(vs, from, size);
    assert [vs] + [a] + [b] == [vs, a, b];
    AppendAssoc(c0 + [vs] + [a], [b], ChainBefore(vs, from, size));
    AppendAssoc(c0 + [vs], [a], [b] + ChainBefore(vs, from, size));
    AppendAssoc(c0, [vs], [a] + ([b] + ChainBefore(vs, from, size)));
  }

  lemma {:induction false} ChainBeforeLength(vs: seq<Literal>, from: int, m: nat)
    requires m <= |vs|
    ensures |ChainBefore(vs, from, m)| == if m <= 2 then 0 else 3 * (m - 2)
  {
    if m > 2 {
      ChainBeforeLength(vs, from, m - 1);
    }
  }

  /** The sequential encoding appends 2 + 1 + 3(size - 2) clauses, beginning with the input list. */
  lemma SequentialLength(vs: seq<Literal>, size: nat, from: int)
    requires 1 <= size <= |vs|
    ensures SequentialClauses(vs, size, from)[0] == vs
    ensures |SequentialClauses(vs, size, from)| == if size == 1 then 3 else 3 + 3 * (size - 2)
  {
    ChainBeforeLength(vs, from, size);
  }

  /** Every literal of `cs` is an input literal, the negation of one, or a
      variable in (lo, hi]. */
  predicate LiteralsWithin(cs: seq<Clause>, vs: seq<Literal>, lo: int, hi: int)
  {
    forall i, t :: 0 <= i < |cs| && 0 <= t < |cs[i]| ==>
      cs[i][t] in vs || -cs[i][t] in vs || lo < Abs(cs[i][t]) <= hi
  }

  lemma WithinAppend(xs: seq<Clause>, ys: seq<Clause>, vs: seq<Literal>, lo: int, hi: int)
    requires LiteralsWithin(xs, vs, lo, hi) && LiteralsWithin(ys, vs, lo, hi)
    ensures LiteralsWithin(xs + ys, vs, lo, hi)
  {
    forall i, t | 0 <= i < |xs + ys| && 0 <= t < |(xs + ys)[i]|
      ensures (xs + ys)[i][t] in vs || -(xs + ys)[i][t] in vs || lo < Abs((xs + ys)[i][t]) <= hi
    {
      if i < |xs| {
        assert (xs + ys)[i] == xs[i];
      } else {
        assert (xs + ys)[i] == ys[i - |xs|];
      }
    }
  }

  lemma StepWithin(vs: seq<Literal>, from: int, i: nat, hi: int)
    requires 2 <= i <= |vs| && from >= 0 && from + i <= hi
    ensures LiteralsWithin(ChainStep(vs, from, i), vs, from, hi)
  {
    assert vs[i - 1] in vs;
    assert -(-vs[i - 1]) == vs[i - 1];
  }

  lemma {:induction false} ChainWithin(vs: seq<Literal>, from: int, m: nat)
    requires 2 <= m <= |vs| && from >= 0
    ensures LiteralsWithin(ChainBefore(vs, from, m), vs, from, from + m - 1)
  {
    if m > 2 {
      ChainWithin(vs, from, m - 1);
      StepWithin(vs, from, m - 1, from + m - 1);
      WithinAppend(ChainBefore(vs, from, m - 1), ChainStep(vs, from, m - 1), vs, from, from + m - 1);
    }
  }

  /** The auxiliaries of the c-th sequential call lie in
      (primaries + c(size-1), primaries + (c+1)(size-1)]; every other literal
      is an input or its negation. */
  lemma SequentialAuxRange(vs: seq<Literal>, size: nat, primaries: int, count: nat)
    requires 2 <= size <= |vs| && primaries >= 0
    ensures LiteralsWithin(SequentialClauses(vs, size, AuxBase(primaries, size, count)), vs,
                           primaries + count * (size - 1), primaries + (count + 1) * (size - 1))
  {
    var d := size - 1;
    MulNonneg(count, d);
    MulStep(count, d);
    var from := AuxBase(primaries, size, count);
    var hi := primaries + (count + 1) * d;
    assert from >= 0 && from + size - 1 == hi;
    ChainWithin(vs, from, size);
    var head := [vs, [-vs[0], from + 1], [-vs[size - 1], -(from + size - 1)]];
    HeadWithin(vs, size, from);
    assert SequentialClauses(vs, size, from) == head + ChainBefore(vs, from, size);
    WithinAppend(head, ChainBefore(vs, from, size), vs, from, from + size - 1);
  }

  /** The three leading clauses use the inputs and the first and last auxiliary. */
  lemma HeadWithin(vs: seq<Literal>, size: nat, from: int)
    requires 2 <= size <= |vs| && from >= 0
    ensures LiteralsWithin([vs, [-vs[0], from + 1], [-vs[size - 1], -(from + size - 1)]], vs, from, from + size - 1)
  {
    var cs := [vs, [-vs[0], from + 1], [-vs[size - 1], -(from + size - 1)]];
    forall i, t | 0 <= i < |cs| && 0 <= t < |cs[i]|
      ensures cs[i][t] in vs || -cs[i][t] in vs || from < Abs(cs[i][t]) <= from + size - 1
    {
      if i == 0 {
        assert cs[i][t] == vs[t];
      } else if i == 1 && t == 0 {
        assert -cs[i][t] == vs[0];
      } else if i == 2 && t == 0 {
        assert -cs[i][t] == vs[size - 1];
      }
    }
  }

  /** Auxiliary ranges of distinct sequential calls are disjoint and lie above
      every primary identifier. */
  lemma AuxRangesDisjoint(primaries: int, size: nat, c1: nat, c2: nat, x: int)
    requires c1 < c2
    requires AuxBase(primaries, size, c1) < x <= AuxBase(primaries, size, c1 + 1)
    ensures primaries < x
    ensures !(AuxBase(primaries, size, c2) < x <= AuxBase(primaries, size, c2 + 1))
  {
    var d := size - 1;
    MulStep(c1, d);
    assert d > 0;
    MulNonneg(c1, d);
    MulMono(c1 + 1, c2, d);
  }

  /** The chain clauses, read as implications over positive variables. */
  ghost predicate StepOk(b: Assignment, vs: seq<Literal>, from: int, i: nat)
    requires 1 <= i <= |vs|
  {
    && (b(vs[i - 1]) ==> b(from + i))
    && (b(from + i - 1) ==> b(from + i))
    && (b(from + i - 1) ==> !b(vs[i - 1]))
  }

  predicate Positive(vs: seq<Literal>, bound: int)
  {
    forall x :: 0 <= x < |vs| ==> 0 < vs[x] <= bound
  }

  lemma StepSat(b: Assignment, vs: seq<Literal>, from: int, i: nat)
    requires 2 <= i <= |vs| && from >= 0 && Positive(vs, from)
    ensures CnfSat(b, ChainStep(vs, from, i)) <==> StepOk(b, vs, from, i)
  {
    var step := ChainStep(vs, from, i);
    assert ClauseSat(b, step[0]) <==> Holds(b, step[0][0]) || Holds(b, step[0][1]);
    assert ClauseSat(b, step[1]) <==> Holds(b, step[1][0]) || Holds(b, step[1][1]);
    assert ClauseSat(b, step[2]) <==> Holds(b, step[2][0]) || Holds(b, step[2][1]);
    assert CnfSat(b, step) <==> ClauseSat(b, step[0]) && ClauseSat(b, step[1]) && ClauseSat(b, step[2]);
  }

  lemma {:induction false} ChainSat(b: Assignment, vs: seq<Literal>, from: int, m: nat)
    requires m <= |vs| && from >= 0 && Positive(vs, from)
    ensures CnfSat(b, ChainBefore(vs, from, m)) <==> forall i :: 2 <= i < m ==> StepOk(b, vs, from, i)
  {
    if m > 2 {
      ChainSat(b, vs, from, m - 1);
      StepSat(b, vs, from, m - 1);
      CnfSatAppend(b, ChainBefore(vs, from, m - 1), ChainStep(vs, from, m - 1));
      assert (forall i :: 2 <= i < m ==> StepOk(b, vs, from, i)) <==>
             (forall i :: 2 <= i < m - 1 ==> StepOk(b, vs, from, i)) && StepOk(b, vs, from, m - 1);
    }
  }

  /** The sequential clauses for n = |vs| >= 2, read as implications. */
  lemma SequentialSatForm(b: Assignment, vs: seq<Literal>, from: int)
    requires |vs| >= 2 && from >= 0 && Positive(vs, from)
    ensures CnfSat(b, SequentialClauses(vs, |vs|, from)) <==>
            && ClauseSat(b, vs)
            && (b(vs[0]) ==> b(from + 1))
            && (b(vs[|vs| - 1]) ==> !b(from + |vs| - 1))
            && forall i :: 2 <= i < |vs| ==> StepOk(b, vs, from, i)
  {
    var n := |vs|;
    var head := [vs, [-vs[0], from + 1], [-vs[n - 1], -(from + n - 1)]];
    ChainSat(b, vs, from, n);
    CnfSatAppend(b, head, ChainBefore(vs, from, n));
    assert ClauseSat(b, head[1]) <==> Holds(b, head[1][0]) || Holds(b, head[1][1]);
    assert ClauseSat(b, head[2]) <==> Holds(b, head[2][0]) || Holds(b, head[2][1]);
    assert CnfSat(b, head) <==> ClauseSat(b, head[0]) && ClauseSat(b, head[1]) && ClauseSat(b, head[2]);
  }

  /** The assignment `a` with the auxiliaries from + 1 .. from + |s| set to `s`. */
  function WithAux(a: Assignment, from: int, s: seq<bool>): Assignment
  {
    x => if from < x <= from + |s| then s[x - from - 1] else a(x)
  }

  lemma {:induction false} CountTrueAgree(a: Assignment, b: Assignment, ls: seq<Literal>)
    requires forall x :: 0 <= x < |ls| ==> Holds(a, ls[x]) == Holds(b, ls[x])
    ensures CountTrue(a, ls) == CountTrue(b, ls)
  {
    if ls != [] {
      assert forall x :: 0 <= x < |ls| - 1 ==> ls[1..][x] == ls[x + 1];
      CountTrueAgree(a, b, ls[1..]);
    }
  }

  /** Once s_start holds, the chain s_i -> s_(i+1) carries it up to s_r. */
  lemma {:induction false} ChainCarries(b: Assignment, vs: seq<Literal>, from: int, start: nat, r: nat)
    requires 1 <= start <= r < |vs|
    requires b(from + start)
    requires forall i :: 2 <= i < |vs| ==> StepOk(b, vs, from, i)
    ensures b(from + r)
    decreases r
  {
    if r > start {
      ChainCarries(b, vs, from, start, r - 1);
      assert StepOk(b, vs, from, r);
    }
  }

  /** Under the sequential clauses no two inputs are true. */
  lemma SequentialAtMostOne(b: Assignment, vs: seq<Literal>, from: int)
    requires |vs| >= 2 && from >= 0 && Positive(vs, from)
    requires CnfSat(b, SequentialClauses(vs, |vs|, from))
    ensures AtMostOne(b, vs)
  {
    var n := |vs|;
    SequentialSatForm(b, vs, from);
    forall p, q | 0 <= p < q < n ensures !(Holds(b, vs[p]) && Holds(b, vs[q])) {
      if b(vs[p]) {
        if p > 0 {
          assert StepOk(b, vs, from, p + 1);
        }
        ChainCarries(b, vs, from, p + 1, q);
        if q < n - 1 {
          assert StepOk(b, vs, from, q + 1);
        }
      }
    }
  }

  /** With exactly the input at position m true, s_i := (m < i) satisfies the chain. */
  lemma SequentialWitness(a: Assignment, vs: seq<Literal>, from: int, m: nat)
    requires |vs| >= 2 && from >= 0 && Positive(vs, from)
    requires m < |vs| && a(vs[m]) && forall j :: 0 <= j < |vs| && j != m ==> !a(vs[j])
    ensures CnfSat(WithAux(a, from, seq(|vs| - 1, t => m <= t)), SequentialClauses(vs, |vs|, from))
  {
    var n := |vs|;
    var s := seq(n - 1, t => m <= t);
    var b := WithAux(a, from, s);
    assert forall x :: 0 <= x < n ==> b(vs[x]) == a(vs[x]);
    assert b(from + 1) == (m < 1) by {
      assert s[0] == (m < 1);
    }
    assert b(from + n - 1) == (m < n - 1) by {
      assert s[n - 2] == (m < n - 1);
    }
    assert ClauseSat(b, vs) by {
      assert Holds(b, vs[m]);
    }
    forall i | 2 <= i < n ensures StepOk(b, vs, from, i) {
      assert s[i - 1] == (m < i) && s[i - 2] == (m < i - 1);
    }
    SequentialSatForm(b, vs, from);
  }

  /** The sequential clauses can be satisfied by some choice of the n - 1
      auxiliaries exactly when exactly one of the n inputs is true. */
  lemma SequentialExactlyOne(a: Assignment, vs: seq<Literal>, from: int)
    requires |vs| >= 2 && from >= 0 && Positive(vs, from)
    ensures (exists s: seq<bool> :: |s| == |vs| - 1 &&
              CnfSat(WithAux(a, from, s), SequentialClauses(vs, |vs|, from)))
            <==> ExactlyOne(a, vs)
  {
    var n := |vs|;
    if s: seq<bool> :| |s| == n - 1 && CnfSat(WithAux(a, from, s), SequentialClauses(vs, n, from)) {
      SequentialSound(a, vs, from, s);
    }
    if ExactlyOne(a, vs) {
      SequentialComplete(a, vs, from);
    }
  }

  /** Any satisfying choice of auxiliaries forces exactly one true input. */
  lemma SequentialSound(a: Assignment, vs: seq<Literal>, from: int, s: seq<bool>)
    requires |vs| >= 2 && from >= 0 && Positive(vs, from)
    requires |s| == |vs| - 1 && CnfSat(WithAux(a, from, s), SequentialClauses(vs, |vs|, from))
    ensures ExactlyOne(a, vs)
  {
    var b := WithAux(a, from, s);
    SequentialAtMostOne(b, vs, from);
    SequentialSatForm(b, vs, from);
    ExactlyOneSplit(b, vs);
    CountTrueAgree(a, b, vs);
  }

  /** Exactly one true input admits a satisfying choice of auxiliaries. */
  lemma SequentialComplete(a: Assignment, vs: seq<Literal>, from: int)
    requires |vs| >= 2 && from >= 0 && Positive(vs, from) && ExactlyOne(a, vs)
    ensures exists s: seq<bool> :: |s| == |vs| - 1 &&
              CnfSat(WithAux(a, from, s), SequentialClauses(vs, |vs|, from))
  {
    var n := |vs|;
    ExactlyOneWitness(a, vs);
    var m :| 0 <= m < n && Holds(a, vs[m]) && forall j :: 0 <= j < n && j != m ==> !Holds(a, vs[j]);
    SequentialWitness(a, vs, from, m);
    var s := seq(n - 1, t => m <= t);
    assert |s| == n - 1 && CnfSat(WithAux(a, from, s), SequentialClauses(vs, n, from));
  }

  // ---------------------------------------------------------------------------
  // Dispatch

  /** `exactOneConstraint`: the sequential encoding when the mode is exactly
      SEQUENTIAL, the binomial one for every other mode string. */
  function ExactOneClauses(mode: string, size: nat, primaries: int, count: nat, vs: seq<Literal>): seq<Clause>
    requires IsSequential(mode) ==> 1 <= size <= |vs|
  {
    if IsSequential(mode) then SequentialClauses(vs, size, AuxBase(primaries, size, count))
    else BinomialClauses(vs)
  }

  /** Either encoding of a group of `size` distinct-or-not primaries holds for
      some choice of that call's auxiliaries exactly when exactly one input is
      true. */
  lemma ExactOneCorrect(a: Assignment, mode: string, size: nat, primaries: int, count: nat, vs: seq<Literal>)
    requires |vs| == size >= 2 && Positive(vs, primaries)
    ensures (exists s: seq<bool> :: |s| == size - 1 &&
              CnfSat(WithAux(a, AuxBase(primaries, size, count), s), ExactOneClauses(mode, size, primaries, count, vs)))
            <==> ExactlyOne(a, vs)
  {
    var from := AuxBase(primaries, size, count);
    assert from >= primaries by {
      assert count * (size - 1) >= 0;
    }
    if IsSequential(mode) {
      assert vs[0] > 0 && Positive(vs, from);
      SequentialExactlyOne(a, vs, from);
    } else {
      var s0 := seq(size - 1, t => false);
      forall s: seq<bool> ensures CnfSat(WithAux(a, from, s), BinomialClauses(vs)) <==> ExactlyOne(a, vs) {
        BinomialExactlyOne(WithAux(a, from, s), vs);
        CountTrueAgree(a, WithAux(a, from, s), vs);
      }
      assert CnfSat(WithAux(a, from, s0), BinomialClauses(vs)) <==> ExactlyOne(a, vs);
    }
  }
}

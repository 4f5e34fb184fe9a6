/** Reading a grid back from a satisfying model. The model is the solver's
    list of literals, one per variable in identifier order (entry v - 1 is v
    when variable v is true, -v when it is false). */
module Decoder {
  import opened Arith
  import opened VariableIndex

  datatype Option<+T> = None | Some(value: T)

  /** Why decoding stops: a zero chunk width (an empty grid makes the chunking
      range step zero) or a cell whose chunk holds no true value. */
  datatype DecodeError = ZeroStep | NoTrueValue

  datatype Result<+T> = Success(value: T) | Failure(error: DecodeError)

  function Min(x: int, y: int): int
  {
    if x <= y then x else y
  }

  /** `s` cut into consecutive slices of width n from the front; the last
      slice keeps what is left when n does not divide |s|. */
  function Chunks<T>(s: seq<T>, n: nat): (r: seq<seq<T>>)
    requires n > 0
    ensures forall c :: 0 <= c < |r| ==> 0 < |r[c]| <= n
    decreases |s|
  {
    if s == [] then []
    else if |s| <= n then [s]
    else [s[..n]] + Chunks(s[n..], n)
  }

  /** Gluing the slices back together. */
  function Flatten<T>(xs: seq<seq<T>>): seq<T>
  {
    if xs == [] then [] else xs[0] + Flatten(xs[1..])
  }

  /** Chunking loses and reorders nothing. */
  lemma {:induction false} ChunksRoundTrip<T>(s: seq<T>, n: nat)
    requires n > 0
    ensures Flatten(Chunks(s, n)) == s
    decreases |s|
  {
    if |s| > n {
      ChunksRoundTrip(s[n..], n);
      assert Chunks(s, n)[1..] == Chunks(s[n..], n);
      assert s[..n] + s[n..] == s;
    }
  }

  /** When |s| is m times n there are m chunks, all full. */
  lemma {:induction false} ChunksExactCount<T>(s: seq<T>, n: nat, m: nat)
    requires n > 0 && |s| == m * n
    ensures |Chunks(s, n)| == m
    decreases m
  {
    if m > 1 {
      assert |s[n..]| == (m - 1) * n;
      ChunksExactCount(s[n..], n, m - 1);
    } else if m == 1 {
      assert |s| == n;
    }
  }

  /** Entry r of chunk c is entry c * n + r of `s` when chunk c is full. */
  lemma {:induction false} ChunkEntry<T>(s: seq<T>, n: nat, m: nat, c: nat, r: nat)
    requires n > 0 && |s| == m * n && c < m && r < n
    ensures |Chunks(s, n)| == m && |Chunks(s, n)[c]| == n
    ensures c * n + r < |s| && Chunks(s, n)[c][r] == s[c * n + r]
    decreases c
  {
    ChunksExactCount(s, n, m);
    MulPred(m, n);
    if c == 0 {
      assert Chunks(s, n)[0] == if m == 1 then s else s[..n];
    } else {
      var rest, p := s[n..], c - 1;
      ChunkEntry(rest, n, m - 1, p, r);
      assert Chunks(s, n) == [s[..n]] + Chunks(rest, n);
      MulStep(p, n);
    }
  }

  /** `next(k + 1 for k, l in enumerate(chunk) if l > 0)`: the 1-based position
      of the first positive entry, or nothing when there is none. */
  function FirstPositive(chunk: seq<int>): (r: Option<nat>)
    ensures r.Some? ==> 1 <= r.value <= |chunk| && chunk[r.value - 1] > 0 &&
                        forall m :: 0 <= m < r.value - 1 ==> chunk[m] <= 0
    ensures r.None? <==> forall m :: 0 <= m < |chunk| ==> chunk[m] <= 0
  {
    if chunk == [] then None
    else if chunk[0] > 0 then Some(1)
    else match FirstPositive(chunk[1..])
      case None => None
      case Some(k) => Some(k + 1)
  }

  /** The value list: the first positive position of every chunk, in order;
      a chunk without one stops the whole decoding. */
  function PickValues(chunks: seq<seq<int>>): (r: Result<seq<nat>>)
    ensures r.Success? <==> forall c :: 0 <= c < |chunks| ==> FirstPositive(chunks[c]).Some?
    ensures r.Success? ==>
              && |r.value| == |chunks|
              && forall c :: 0 <= c < |chunks| ==> r.value[c] == FirstPositive(chunks[c]).value
    ensures r.Failure? ==> r.error == NoTrueValue
  {
    if chunks == [] then Success([])
    else match FirstPositive(chunks[0])
      case None => Failure(NoTrueValue)
      case Some(k) =>
        match PickValues(chunks[1..])
        case Failure(e) => Failure(e)
        case Success(rest) => Success([k] + rest)
  }

  /** The decoding step of a satisfiable solve: keep the first n³ literals of
      the model, read one value per chunk of n, and cut the values into rows
      of n. */
  function Decode(model: seq<int>, n: nat): (r: Result<seq<seq<nat>>>)
    ensures r.Failure? ==> (r.error == ZeroStep <==> n == 0)
    ensures n == 0 ==> r.Failure?
  {
    if n == 0 then Failure(ZeroStep)
    else
      var primaries := model[..Min(|model|, n * n * n)];
      match PickValues(Chunks(primaries, n))
      case Failure(e) => Failure(e)
      case Success(values) => Success(Chunks(values, n))
  }

  /** Some value of cell (i, j) is marked true in the model. */
  predicate CellDecided(model: seq<int>, n: nat, i: int, j: int)
    requires n >= 1 && |model| >= n * n * n && InGrid(n, i) && InGrid(n, j)
  {
    exists k :: 1 <= k <= n && ModelTrue(model, n, i, j, k)
  }

  predicate ModelTrue(model: seq<int>, n: nat, i: int, j: int, k: int)
    requires n >= 1 && |model| >= n * n * n && InGrid(n, i) && InGrid(n, j) && InGrid(n, k)
  {
    ConvertInRange(n, i, j, k);
    model[Convert(n, i, j, k) - 1] > 0
  }

  /** `v` is the smallest value marked true for cell (i, j). */
  predicate LeastTrue(model: seq<int>, n: nat, i: int, j: int, v: int)
    requires n >= 1 && |model| >= n * n * n && InGrid(n, i) && InGrid(n, j)
  {
    && InGrid(n, v)
    && ModelTrue(model, n, i, j, v)
    && forall k :: 1 <= k < v ==> !ModelTrue(model, n, i, j, k)
  }

  /** `g` is an n×n grid holding, for every cell, the smallest value the
      model marks true for it. */
  predicate ReadsModel(model: seq<int>, n: nat, g: seq<seq<nat>>)
    requires n >= 1 && |model| >= n * n * n
  {
    && |g| == n
    && (forall i :: 0 <= i < n ==> |g[i]| == n)
    && forall r, c :: 0 <= r < n && 0 <= c < n ==> LeastTrue(model, n, r + 1, c + 1, g[r][c])
  }

  /** Decoding a model that covers every primary succeeds exactly when every
      cell has a value marked true, and then yields the grid of the smallest
      values marked true. */
  lemma DecodeCorrect(model: seq<int>, n: nat)
    requires n >= 1 && |model| >= n * n * n
    ensures Decode(model, n).Success? <==> forall i, j :: InGrid(n, i) && InGrid(n, j) ==> CellDecided(model, n, i, j)
    ensures Decode(model, n).Success? ==> ReadsModel(model, n, Decode(model, n).value)
  {
    var chunks := Chunks(model[..n * n * n], n);
    DecodeUnfold(model, n);
    if PickValues(chunks).Success? {
      DecodedGrid(model, n, chunks, PickValues(chunks).value);
    } else {
      var i, j := UndecidedCell(model, n, chunks);
    }
  }

  /** A successful value pick yields an n×n grid of least true values. */
  lemma DecodedGrid(model: seq<int>, n: nat, chunks: seq<seq<int>>, values: seq<nat>)
    requires n >= 1 && |model| >= n * n * n
    requires chunks == Chunks(model[..n * n * n], n) && PickValues(chunks) == Success(values)
    ensures ReadsModel(model, n, Chunks(values, n))
    ensures forall i, j :: InGrid(n, i) && InGrid(n, j) ==> CellDecided(model, n, i, j)
  {
    DecodedGridReads(model, n, chunks, values);
    DecodedGridDecided(model, n, chunks, values);
  }

  lemma DecodedGridReads(model: seq<int>, n: nat, chunks: seq<seq<int>>, values: seq<nat>)
    requires n >= 1 && |model| >= n * n * n
    requires chunks == Chunks(model[..n * n * n], n) && PickValues(chunks) == Success(values)
    ensures ReadsModel(model, n, Chunks(values, n))
  {
    DecodedCell(model, n, chunks, values, 1, 1);
    forall i | 0 <= i < n ensures |Chunks(values, n)[i]| == n {
      DecodedCell(model, n, chunks, values, i + 1, 1);
    }
    forall r, c | 0 <= r < n && 0 <= c < n
      ensures LeastTrue(model, n, r + 1, c + 1, Chunks(values, n)[r][c])
    {
      DecodedCell(model, n, chunks, values, r + 1, c + 1);
    }
  }

  lemma DecodedGridDecided(model: seq<int>, n: nat, chunks: seq<seq<int>>, values: seq<nat>)
    requires n >= 1 && |model| >= n * n * n
    requires chunks == Chunks(model[..n * n * n], n) && PickValues(chunks) == Success(values)
    ensures forall i, j :: InGrid(n, i) && InGrid(n, j) ==> CellDecided(model, n, i, j)
  {
    forall i, j | InGrid(n, i) && InGrid(n, j) ensures CellDecided(model, n, i, j) {
      DecodedCell(model, n, chunks, values, i, j);
    }
  }

  lemma DecodeUnfold(model: seq<int>, n: nat)
    requires n >= 1 && |model| >= n * n * n
    ensures var picked := PickValues(Chunks(model[..n * n * n], n));
            Decode(model, n) == if picked.Failure? then Failure(picked.error) else Success(Chunks(picked.value, n))
  {
    assert Min(|model|, n * n * n) == n * n * n;
  }

  /** A failed value pick comes from a cell with no value marked true. */
  lemma UndecidedCell(model: seq<int>, n: nat, chunks: seq<seq<int>>) returns (i: int, j: int)
    requires n >= 1 && |model| >= n * n * n
    requires chunks == Chunks(model[..n * n * n], n) && PickValues(chunks).Failure?
    ensures InGrid(n, i) && InGrid(n, j) && !CellDecided(model, n, i, j)
  {
    var t :| 0 <= t < |chunks| && FirstPositive(chunks[t]).None?;
    PrimaryChunkCount(model, n);
    i, j := CellOfIndex(n, t);
    forall k | 1 <= k <= n ensures !ModelTrue(model, n, i, j, k) {
      ModelTrueChunk(model, n, i, j, k);
    }
  }

  /** The first n³ literals make n² chunks, one per cell. */
  lemma PrimaryChunkCount(model: seq<int>, n: nat)
    requires n >= 1 && |model| >= n * n * n
    ensures |Chunks(model[..n * n * n], n)| == n * n
  {
    assert |model[..n * n * n]| == (n * n) * n;
    ChunksExactCount(model[..n * n * n], n, n * n);
  }

  /** The chunk of cell (i, j) lists the model's entries for its values 1..n in order. */
  lemma CellChunk(model: seq<int>, n: nat, i: int, j: int, k: int)
    requires n >= 1 && |model| >= n * n * n && InGrid(n, i) && InGrid(n, j) && InGrid(n, k)
    ensures |Chunks(model[..n * n * n], n)| == n * n
    ensures 0 <= CellIndex(n, i, j) < n * n
    ensures |Chunks(model[..n * n * n], n)[CellIndex(n, i, j)]| == n
    ensures 0 <= Convert(n, i, j, k) - 1 < |model|
    ensures Chunks(model[..n * n * n], n)[CellIndex(n, i, j)][k - 1] == model[Convert(n, i, j, k) - 1]
  {
    var primaries := model[..n * n * n];
    var t := CellIndex(n, i, j);
    RowMajor(n, i, j);
    ChunkEntry(primaries, n, n * n, t, k - 1);
    ConvertRowMajor(n, i, j, k);
    ConvertInRange(n, i, j, k);
  }

  /** The decoded value of cell (i, j) is the first value marked true for it. */
  lemma DecodedCell(model: seq<int>, n: nat, chunks: seq<seq<int>>, values: seq<nat>, i: int, j: int)
    requires n >= 1 && |model| >= n * n * n && InGrid(n, i) && InGrid(n, j)
    requires chunks == Chunks(model[..n * n * n], n) && PickValues(chunks) == Success(values)
    ensures |Chunks(values, n)| == n && |Chunks(values, n)[i - 1]| == n
    ensures CellDecided(model, n, i, j)
    ensures LeastTrue(model, n, i, j, Chunks(values, n)[i - 1][j - 1])
  {
    var t := CellIndex(n, i, j);
    ModelTrueChunk(model, n, i, j, 1);
    PickedValue(chunks, values, t);
    GridEntry(values, n, i, j);
    var v := values[t];
    ModelTrueChunk(model, n, i, j, v);
    forall k | 1 <= k < v ensures !ModelTrue(model, n, i, j, k) {
      ModelTrueChunk(model, n, i, j, k);
    }
  }

  /** Value k of cell (i, j) is marked true exactly when entry k - 1 of the cell's chunk is positive. */
  lemma ModelTrueChunk(model: seq<int>, n: nat, i: int, j: int, k: int)
    requires n >= 1 && |model| >= n * n * n && InGrid(n, i) && InGrid(n, j) && InGrid(n, k)
    ensures |Chunks(model[..n * n * n], n)| == n * n
    ensures 0 <= CellIndex(n, i, j) < n * n && |Chunks(model[..n * n * n], n)[CellIndex(n, i, j)]| == n
    ensures ModelTrue(model, n, i, j, k) <==> Chunks(model[..n * n * n], n)[CellIndex(n, i, j)][k - 1] > 0
  {
    CellChunk(model, n, i, j, k);
  }

  lemma PickedValue(chunks: seq<seq<int>>, values: seq<nat>, t: int)
    requires PickValues(chunks) == Success(values) && 0 <= t < |chunks|
    ensures |values| == |chunks| && FirstPositive(chunks[t]) == Some(values[t])
  {
  }

  /** Entry (i, j) of the grid cut from n² values is value (i - 1) * n + (j - 1). */
  lemma GridEntry(values: seq<nat>, n: nat, i: int, j: int)
    requires n >= 1 && |values| == n * n && InGrid(n, i) && InGrid(n, j)
    ensures |Chunks(values, n)| == n && |Chunks(values, n)[i - 1]| == n
    ensures 0 <= CellIndex(n, i, j) < |values| && Chunks(values, n)[i - 1][j - 1] == values[CellIndex(n, i, j)]
  {
    ChunkEntry(values, n, n, i - 1, j - 1);
  }

  /** The cell at row-major position t. */
  lemma CellOfIndex(n: nat, t: int) returns (i: int, j: int)
    requires n >= 1 && 0 <= t < n * n
    ensures InGrid(n, i) && InGrid(n, j) && CellIndex(n, i, j) == t
  {
    DivBound(t, n, n);
    i, j := t / n + 1, t % n + 1;
  }
}

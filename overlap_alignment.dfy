/**
 * `OverlapAlignmentProblem` with the parts of `AlignmentProblem` and
 * `DynamicProgrammingProblem` it inherits, as one class over the two
 * tables. The methods are proved to fill the tables with the values and
 * backpointers of the recurrence in `OverlapRecurrence`, to leave
 * `bestScoreCoords` on its best cell and to trace back along its walk.
 */
module OverlapAlignment {
  import opened JavaLang
  import opened Tuples
  import opened Scoring
  import opened DynamicProgramming
  import opened OverlapRecurrence

  class OverlapAlignmentProblem {
    /** The first sequence; its symbols index the first table dimension. */
    const seq1: seq<char>
    /** The second sequence; its symbols index the second table dimension. */
    const seq2: seq<char>
    const scoringMatrix: LinearScoringMatrix
    /** The first dimension of the tables, |seq1| + 1. */
    const width: int
    /** The second dimension of the tables, |seq2| + 1. */
    const height: int
    /** `Integer[][]` values: null until a cell is initialised or computed. */
    const valuesTable: array2<Nullable<int32>>
    /** Backpointers: null where none has been recorded. */
    const tracebackTable: array2<Nullable<Coords>>
    /** The cell with the best score found so far; null before `init`. */
    var bestScoreCoords: Nullable<Coords>

    predicate Valid() {
      && width == |seq1| + 1 && height == |seq2| + 1
      && width <= INT_MAX && height <= INT_MAX
      && valuesTable.Length0 == width && valuesTable.Length1 == height
      && tracebackTable.Length0 == width && tracebackTable.Length1 == height
    }

    /** The problem the tables are computed for. */
    function P(): Instance {
      Instance(seq1, seq2, scoringMatrix)
    }

    /**
     * The `OverlapAlignmentProblem` constructor: a linear scoring matrix with
     * the given match, mismatch and gap values, and tables of the size that the
     * `AlignmentProblem` constructor asks `DynamicProgrammingProblem` for.
     */
    constructor (seq1: seq<char>, seq2: seq<char>, matchValue: int32, mismatchValue: int32, gap: int32)
      requires |seq1| < INT_MAX && |seq2| < INT_MAX
      ensures Valid()
      ensures this.seq1 == seq1 && this.seq2 == seq2
      ensures scoringMatrix == NewLinearScoringMatrix(matchValue, mismatchValue, gap)
      ensures fresh(valuesTable) && fresh(tracebackTable)
      ensures forall i, j :: 0 <= i < width && 0 <= j < height ==> valuesTable[i, j] == Null && tracebackTable[i, j] == Null
      ensures bestScoreCoords == Null
    {
      this.seq1 := seq1;
      this.seq2 := seq2;
      scoringMatrix := NewLinearScoringMatrix(matchValue, mismatchValue, gap);
      width := |seq1| + 1;
      height := |seq2| + 1;
      valuesTable := new Nullable<int32>[|seq1| + 1, |seq2| + 1]((i, j) => Null);
      tracebackTable := new Nullable<Coords>[|seq1| + 1, |seq2| + 1]((i, j) => Null);
      bestScoreCoords := Null;
    }

    /** `getCoordsAfterInit`: the fill loop starts at (1, 1). */
    function GetCoordsAfterInit(): Coords
    {
      Tuple(1, 1)
    }

    /** `getTracebackLastCoords`: the traceback starts at the best cell. */
    function GetTracebackLastCoords(): Nullable<Coords>
      reads this
    {
      bestScoreCoords
    }

    /**
     * The cells the tables hold correctly once the cells before `next` are
     * computed: the cells with elem1 = 0 or elem2 = 0, and those cells. A correct cell
     * holds its score and, unless it is (0, 0), its backpointer.
     */
    ghost predicate HoldsBefore(next: Coords)
      reads valuesTable, tracebackTable
      requires Valid()
    {
      && (forall i, j {:trigger valuesTable[i, j]} :: 0 <= i < width && 0 <= j < height && (i == 0 || j == 0 || CellBefore(i, j, next)) ==>
            valuesTable[i, j] == NonNull(Score(P(), i, j)))
      && (forall i, j {:trigger tracebackTable[i, j]} :: 0 <= i < width && 0 <= j < height && (i == 0 || j == 0 || CellBefore(i, j, next)) ==>
            (i, j) != (0, 0) ==> tracebackTable[i, j] == NonNull(Back(P(), i, j)))
    }

    /** Every cell holds its score and, unless it is (0, 0), its backpointer. */
    ghost predicate TablesHold()
      reads valuesTable, tracebackTable
      requires Valid()
    {
      && (forall i, j {:trigger valuesTable[i, j]} :: 0 <= i < width && 0 <= j < height ==>
            valuesTable[i, j] == NonNull(Score(P(), i, j)))
      && (forall i, j {:trigger tracebackTable[i, j]} :: 0 <= i < width && 0 <= j < height && (i, j) != (0, 0) ==>
            tracebackTable[i, j] == NonNull(Back(P(), i, j)))
    }

    /** The state after `compute()`: every cell correct and `bestScoreCoords` on the best cell. */
    ghost predicate Computed()
      reads this, valuesTable, tracebackTable
      requires Valid()
    {
      && TablesHold()
      && bestScoreCoords.NonNull? && IsBestCell(P(), bestScoreCoords.value)
    }

    /** `init`: (i, 0) gets 0 and (0, j) gets j * gap, each pointing towards (0, 0); the best cell is (0, 0). */
    method Init()
      requires Valid()
      modifies valuesTable, tracebackTable, this`bestScoreCoords
      ensures HoldsBefore(Tuple(1, 1))
      ensures bestScoreCoords == NonNull(Tuple(0, 0))
      ensures tracebackTable[0, 0] == old(tracebackTable[0, 0])
      ensures forall i, j :: 1 <= i < width && 1 <= j < height ==>
        valuesTable[i, j] == old(valuesTable[i, j]) && tracebackTable[i, j] == old(tracebackTable[i, j])
    {
      for i := 0 to width
        invariant forall k :: 0 <= k < i ==> valuesTable[k, 0] == NonNull(0)
        invariant forall k :: 1 <= k < i ==> tracebackTable[k, 0] == NonNull(Tuple(k - 1, 0))
        invariant tracebackTable[0, 0] == old(tracebackTable[0, 0])
        invariant forall k, l :: 0 <= k < width && 1 <= l < height ==>
          valuesTable[k, l] == old(valuesTable[k, l]) && tracebackTable[k, l] == old(tracebackTable[k, l])
      {
        valuesTable[i, 0] := NonNull(0);
        if i > 0 {
          tracebackTable[i, 0] := NonNull(Tuple(i - 1, 0));
        }
      }
      for j := 0 to height
        invariant forall k :: 1 <= k < width ==> valuesTable[k, 0] == NonNull(0)
        invariant forall k :: 0 <= k < j ==> valuesTable[0, k] == NonNull(Mul32(k, GetGapExtendPenalty(scoringMatrix)))
        invariant forall k :: 1 <= k < width ==> tracebackTable[k, 0] == NonNull(Tuple(k - 1, 0))
        invariant forall k :: 1 <= k < j ==> tracebackTable[0, k] == NonNull(Tuple(0, k - 1))
        invariant tracebackTable[0, 0] == old(tracebackTable[0, 0])
        invariant forall k, l :: 1 <= k < width && 1 <= l < height ==>
          valuesTable[k, l] == old(valuesTable[k, l]) && tracebackTable[k, l] == old(tracebackTable[k, l])
      {
        valuesTable[0, j] := NonNull(Mul32(j, GetGapExtendPenalty(scoringMatrix)));
        if j > 0 {
          tracebackTable[0, j] := NonNull(Tuple(0, j - 1));
        }
      }
      bestScoreCoords := NonNull(Tuple(0, 0));
      forall i, j | 0 <= i < width && 0 <= j < height && (i == 0 || j == 0)
        ensures valuesTable[i, j] == NonNull(Score(P(), i, j))
        ensures (i, j) != (0, 0) ==> tracebackTable[i, j] == NonNull(Back(P(), i, j))
      {
        ScoreBoundary(P(), i, j);
      }
    }

    /**
     * `computeValueAndSaveTraceback` for an interior cell whose three
     * predecessors hold their scores: returns the cell's score, records its
     * backpointer, and moves the best cell here when the score beats the
     * best so far strictly.
     */
    method ComputeValueAndSaveTraceback(coords: Coords) returns (max: int32)
      requires Valid() && Interior(width, height, coords)
      requires var i, j := coords.elem1, coords.elem2;
        && valuesTable[i - 1, j - 1] == NonNull(Score(P(), i - 1, j - 1))
        && valuesTable[i - 1, j] == NonNull(Score(P(), i - 1, j))
        && valuesTable[i, j - 1] == NonNull(Score(P(), i, j - 1))
      requires bestScoreCoords.NonNull? && InBounds(width, height, bestScoreCoords.value)
      requires valuesTable[bestScoreCoords.value.elem1, bestScoreCoords.value.elem2].NonNull?
      modifies tracebackTable, this`bestScoreCoords
      ensures max == Score(P(), coords.elem1, coords.elem2)
      ensures tracebackTable[coords.elem1, coords.elem2] == NonNull(Back(P(), coords.elem1, coords.elem2))
      ensures forall k, l :: 0 <= k < width && 0 <= l < height && (k, l) != (coords.elem1, coords.elem2) ==>
        tracebackTable[k, l] == old(tracebackTable[k, l])
      ensures bestScoreCoords ==
        if max > valuesTable[old(bestScoreCoords).value.elem1, old(bestScoreCoords).value.elem2].value then NonNull(coords)
        else old(bestScoreCoords)
    {
      var i, j := coords.elem1, coords.elem2;
      var seq1ToSeq2 := Add32(valuesTable[i - 1, j - 1].value, GetScore(scoringMatrix, seq1[i - 1], seq2[j - 1]));
      var seq1ToGap := Add32(valuesTable[i - 1, j].value, GetGapExtendPenalty(scoringMatrix));
      var gapToSeq2 := Add32(valuesTable[i, j - 1].value, GetGapExtendPenalty(scoringMatrix));
      assert seq1ToSeq2 == Add32(Score(P(), i - 1, j - 1), PairScore(P(), i, j));
      assert seq1ToGap == Add32(Score(P(), i - 1, j), Gap(P())) && gapToSeq2 == Add32(Score(P(), i, j - 1), Gap(P()));
      CellFromPredecessors(P(), i, j, Score(P(), i - 1, j - 1), Score(P(), i - 1, j), Score(P(), i, j - 1));
      if seq1ToSeq2 >= seq1ToGap && seq1ToSeq2 >= gapToSeq2 {
        tracebackTable[i, j] := NonNull(Tuple(i - 1, j - 1));
        max := seq1ToSeq2;
      } else if seq1ToGap >= seq1ToSeq2 && seq1ToGap >= gapToSeq2 {
        tracebackTable[i, j] := NonNull(Tuple(i - 1, j));
        max := seq1ToGap;
      } else {
        tracebackTable[i, j] := NonNull(Tuple(i, j - 1));
        max := gapToSeq2;
      }
      var best := bestScoreCoords.value;
      if max > valuesTable[best.elem1, best.elem2].value {
        bestScoreCoords := NonNull(Tuple(i, j));
      }
    }

    /** `findResult`: the value stored at the traceback's last cell, which is the best score. */
    method FindResult() returns (r: int32)
      requires Valid() && Computed()
      ensures r == Score(P(), bestScoreCoords.value.elem1, bestScoreCoords.value.elem2)
    {
      var resultCoords := GetTracebackLastCoords().value;
      r := valuesTable[resultCoords.elem1, resultCoords.elem2].value;
    }

    /**
     * `compute()`: initialise, fill the interior cells in the order
     * `nextCoords` gives from (1, 1), and return the value of the best cell:
     * the maximum of 0 and all interior scores. The ghost `order` lists the
     * cells computed, in order. The progress test divides by
     * `iterations = width * height` in `int` on every pass; when that product
     * wraps to 0 the first pass throws `ArithmeticException` right after cell
     * (1, 1) is stored.
     */
    method Compute() returns (r: Result<int32>, ghost order: seq<Coords>)
      requires Valid()
      modifies valuesTable, tracebackTable, this`bestScoreCoords
      ensures r.Failure? <==> width > 1 && height > 1 && Mul32(width, height) == 0
      ensures r.Failure? ==> && r.error == Arithmetic && order == [Tuple(1, 1)]
                             && HoldsBefore(NextCoords(width, Tuple(1, 1)))
                             && bestScoreCoords.NonNull? && BestSoFar(P(), bestScoreCoords.value, NextCoords(width, Tuple(1, 1)))
      ensures r.Success? ==> Computed() && order == FillOrder(width, height)
      ensures r.Success? ==> r.value == Score(P(), bestScoreCoords.value.elem1, bestScoreCoords.value.elem2)
      ensures r.Success? ==> r.value >= 0 && forall i: nat, j: nat :: 1 <= i < width && 1 <= j < height ==> Score(P(), i, j) <= r.value
      ensures |seq1| == 0 || |seq2| == 0 ==> bestScoreCoords == NonNull(Tuple(0, 0)) && r == Success(0)
      ensures tracebackTable[0, 0] == old(tracebackTable[0, 0])
    {
      Init();
      var coords := GetCoordsAfterInit();
      var iterations := Mul32(width, height);
      order := [];
      BestSoFarInit(P());
      while coords.elem1 < width && coords.elem2 < height
        invariant 1 <= coords.elem1 && 1 <= coords.elem2 <= height
        invariant coords.elem1 < width || width <= 1
        invariant coords.elem2 == height ==> coords.elem1 == 1
        invariant HoldsBefore(coords)
        invariant bestScoreCoords.NonNull? && BestSoFar(P(), bestScoreCoords.value, coords)
        invariant tracebackTable[0, 0] == old(tracebackTable[0, 0])
        invariant order + FillSequence(width, height, coords) == FillOrder(width, height)
        invariant order == [] ==> coords == Tuple(1, 1)
        invariant iterations == 0 ==> order == []
        decreases height - coords.elem2, width - coords.elem1
      {
        ghost var before := coords;
        coords := ComputeCell(coords);
        order := order + [before];
        assert order + FillSequence(width, height, coords) == FillOrder(width, height);
        if iterations == 0 {
          return Failure(Arithmetic), order;
        }
      }
      HoldsBeforeEnd(coords);
      if width > 1 {
        BestSoFarExit(P(), bestScoreCoords.value, coords);
      } else {
        assert IsBestCell(P(), bestScoreCoords.value);
      }
      var result := FindResult();
      IsBestCellMaximal(P(), bestScoreCoords.value);
      r := Success(result);
    }

    /** One iteration of the fill loop: `valuesTable[coords] = computeValueAndSaveTraceback(coords)`, then `nextCoords`. */
    method ComputeCell(coords: Coords) returns (next: Coords)
      requires Valid() && Interior(width, height, coords)
      requires HoldsBefore(coords)
      requires bestScoreCoords.NonNull? && BestSoFar(P(), bestScoreCoords.value, coords)
      modifies valuesTable, tracebackTable, this`bestScoreCoords
      ensures next == NextCoords(width, coords)
      ensures HoldsBefore(next)
      ensures bestScoreCoords.NonNull? && BestSoFar(P(), bestScoreCoords.value, next)
      ensures tracebackTable[0, 0] == old(tracebackTable[0, 0])
    {
      var i, j := coords.elem1, coords.elem2;
      assert CellBefore(i - 1, j - 1, coords) && CellBefore(i - 1, j, coords) && CellBefore(i, j - 1, coords);
      ghost var best := bestScoreCoords.value;
      assert best != coords;
      assert valuesTable[best.elem1, best.elem2] == NonNull(Score(P(), best.elem1, best.elem2));
      var value := ComputeValueAndSaveTraceback(coords);
      assert bestScoreCoords == NonNull(if Score(P(), i, j) > Score(P(), best.elem1, best.elem2) then coords else best);
      valuesTable[i, j] := NonNull(value);
      next := NextCoords(width, coords);
      BestSoFarStep(P(), best, coords);
      HoldsBeforeNext(coords);
    }

    /** Once `coords`' own cell holds, everything before its successor holds. */
    lemma HoldsBeforeNext(coords: Coords)
      requires Valid() && Interior(width, height, coords) && HoldsBefore(coords)
      requires valuesTable[coords.elem1, coords.elem2] == NonNull(Score(P(), coords.elem1, coords.elem2))
      requires tracebackTable[coords.elem1, coords.elem2] == NonNull(Back(P(), coords.elem1, coords.elem2))
      ensures HoldsBefore(NextCoords(width, coords))
    {
      var next := NextCoords(width, coords);
      forall k, l | 0 <= k < width && 0 <= l < height && (k == 0 || l == 0 || CellBefore(k, l, next))
        ensures valuesTable[k, l] == NonNull(Score(P(), k, l))
        ensures (k, l) != (0, 0) ==> tracebackTable[k, l] == NonNull(Back(P(), k, l))
      {
        if k != 0 && l != 0 {
          BeforeNextCoords(width, coords, Tuple(k, l));
        }
      }
    }

    /** When the fill loop has left the table, every cell holds. */
    lemma HoldsBeforeEnd(coords: Coords)
      requires Valid() && HoldsBefore(coords)
      requires 1 <= coords.elem1 && 1 <= coords.elem2 <= height
      requires coords.elem1 < width || width <= 1
      requires coords.elem2 == height ==> coords.elem1 == 1
      requires !(coords.elem1 < width && coords.elem2 < height)
      ensures TablesHold()
    {
      assert width > 1 ==> coords == Tuple(1, height);
      forall i, j | 0 <= i < width && 0 <= j < height
        ensures valuesTable[i, j] == NonNull(Score(P(), i, j))
        ensures (i, j) != (0, 0) ==> tracebackTable[i, j] == NonNull(Back(P(), i, j))
      {
        assert i == 0 || j == 0 || CellBefore(i, j, coords);
      }
    }

    /** `shouldTracebackStop`: a null cell, (1, 1), or a cell whose value is 0; the `||` reads the cell only for other cells. */
    predicate ShouldTracebackStop(coords: Nullable<Coords>)
      reads valuesTable
      requires Valid() && (coords.Null? || InBounds(width, height, coords.value))
      requires coords.NonNull? && coords.value != GetCoordsAfterInit() ==> valuesTable[coords.value.elem1, coords.value.elem2].NonNull?
    {
      coords.Null? || coords.value == GetCoordsAfterInit() || valuesTable[coords.value.elem1, coords.value.elem2].value == 0
    }

    /**
     * `traceback(lastElemCoords)`: follow the backpointers from the given cell
     * until a stop cell, collecting the cells first to last, then drop a
     * leading null or (0, 0). From null or (1, 1) it stops at once without
     * reading a table, so the tables need to be computed only for other cells.
     */
    method Traceback(lastElemCoords: Nullable<Coords>) returns (result: seq<Nullable<Coords>>)
      requires Valid()
      requires lastElemCoords.Null? || InTable(P(), lastElemCoords.value)
      requires TablesHold() || lastElemCoords.Null? || lastElemCoords.value == Tuple(1, 1)
      ensures result == DropSentinel(Walk(P(), lastElemCoords))
    {
      ghost var target := Walk(P(), lastElemCoords);
      var walk := [lastElemCoords];
      var coords := lastElemCoords;
      while !ShouldTracebackStop(coords)
        invariant coords.Null? || InTable(P(), coords.value)
        invariant |walk| > 0 && walk[0] == coords
        invariant target == Walk(P(), coords) + walk[1..]
        invariant TablesHold() || coords.Null? || coords.value == Tuple(1, 1)
        decreases if coords.Null? then 0 else coords.value.elem1 + coords.value.elem2 + 1
      {
        var c := coords.value;
        assert valuesTable[c.elem1, c.elem2] == NonNull(Score(P(), c.elem1, c.elem2));
        WalkStep(P(), target, walk, c);
        coords := tracebackTable[c.elem1, c.elem2];
        walk := [coords] + walk;
      }
      assert coords.NonNull? && coords.value != Tuple(1, 1) ==> valuesTable[coords.value.elem1, coords.value.elem2] == NonNull(Score(P(), coords.value.elem1, coords.value.elem2));
      WalkDone(P(), target, walk, coords);
      if walk[0].Null? || (walk[0].value.elem1 == 0 && walk[0].value.elem2 == 0) {
        walk := walk[1..];
      }
      result := walk;
    }

    /**
     * `AlignmentProblem.traceback()`: the trace from the best cell printed one
     * step per line, comparing coordinates by value; it fails as
     * `trace.get(0)` does when the trace is empty. Before `compute()` the best
     * cell is null, the trace from null is empty, and so it always fails.
     */
    method TracebackString() returns (r: Result<string>)
      requires Valid() && (Computed() || bestScoreCoords.Null?)
      ensures bestScoreCoords.Null? ==> r == Failure(IndexOutOfBounds)
      ensures bestScoreCoords.NonNull? ==> r == TracebackText(P(), bestScoreCoords.value)
      ensures bestScoreCoords.NonNull? && |seq1| < 128 && |seq2| < 128 ==> r == TracebackAsWritten(P(), bestScoreCoords.value)
    {
      if bestScoreCoords.NonNull? && |seq1| < 128 && |seq2| < 128 {
        TracebackAsWrittenAgrees(P(), bestScoreCoords.value);
      }
      var trace := Traceback(GetTracebackLastCoords());
      if |trace| == 0 {
        return Failure(IndexOutOfBounds);
      }
      ghost var path := Trace(P(), bestScoreCoords.value);
      var result := PrintSteps(seq1, seq2, trace, path);
      r := Success(result);
    }
  }
  /**
   * The loop of `AlignmentProblem.traceback()` over a nonempty trace: one
   * line per step after the first cell, a symbol taken from a sequence's
   * iterator where that coordinate changes, '-' where it stays. The
   * iterators start at the first cell's coordinates, so by value they never
   * run out.
   */
  method PrintSteps(seq1: seq<char>, seq2: seq<char>, trace: seq<Nullable<Coords>>, ghost path: seq<Coords>)
    returns (result: string)
    requires UnitPath(path, |seq1|, |seq2|) && |path| > 0
    requires |trace| == |path| && forall k :: 0 <= k < |trace| ==> trace[k] == NonNull(path[k])
    ensures result == TraceLines(seq1, seq2, path)
  {
    result := "";
    var previous := trace[0].value;
    var p1 := if previous.elem1 < 0 then 0 else previous.elem1;
    var p2 := if previous.elem2 < 0 then 0 else previous.elem2;
    var k := 1;
    while k < |trace|
      invariant 1 <= k <= |trace|
      invariant previous == path[k - 1]
      invariant p1 == previous.elem1 && p2 == previous.elem2
      invariant result + StepLines(seq1, seq2, path, k - 1) == TraceLines(seq1, seq2, path)
    {
      var coords := trace[k].value;
      assert StepAt(path, k - 1);
      ghost var line := TraceLine(seq1, seq2, previous, coords);
      var c1 := '-';
      if coords.elem1 != previous.elem1 {
        c1 := seq1[p1];
        p1 := p1 + 1;
      }
      var c2 := '-';
      if coords.elem2 != previous.elem2 {
        c2 := seq2[p2];
        p2 := p2 + 1;
      }
      assert [c1, c2, '\n'] == line;
      assert (result + line) + StepLines(seq1, seq2, path, k) == result + (line + StepLines(seq1, seq2, path, k));
      result := result + [c1, c2, '\n'];
      previous := coords;
      k := k + 1;
    }
  }

  /**
   * Sequences of 65535 symbols give a 65536 x 65536 table, whose
   * `width * height` wraps to 0 in `int`: `compute()` then throws.
   */
  lemma ComputeCanDivideByZero()
    ensures var w := 65535 + 1; w <= INT_MAX && Mul32(w, w) == 0
  {
  }
}

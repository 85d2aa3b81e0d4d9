# Overlap alignment core of the superstring finder

The project models the alignment engine that the superstring finder uses to
glue genome reads together, and the simple read-ordering strategy used
beside it:

- **Dynamic-programming skeleton** (`DynamicProgrammingProblem`): a
  `width` x `height` pair of tables filled from (1, 1) by `nextCoords`,
  elem1 fastest, and a backpointer walk `traceback(last)`.
  See module `DynamicProgramming` and class `OverlapAlignment.OverlapAlignmentProblem`.
- **Overlap alignment** (`AlignmentProblem`, `OverlapAlignmentProblem`):
  - tables of size (|seq1| + 1) x (|seq2| + 1);
  - the cells with elem2 = 0 set to 0 and those with elem1 = 0 to
    `j * gap` in Java `int` arithmetic;
  - a max-of-three recurrence that prefers the diagonal, then the vertical
    move;
  - a running best cell, which becomes the result and the traceback start;
  - the two-column text of `traceback()`.

  The pure recurrence is in module `OverlapRecurrence`. The class
  `OverlapAlignment.OverlapAlignmentProblem` holds the two 2-D arrays and is
  proved to fill them with exactly that recurrence.
- **Alignment results** (`AlignmentResult`):
  - the containment test over the traceback's end points;
  - the three-loop walk `walkResult`, which feeds every symbol of both
    sequences to a handler;
  - the merge of seq2 onto seq1 in place;
  - the cached three-row `toString`.

  A handler is modelled by the list of events the walk raises, which the
  merge and the rendering then fold.
- **Scoring and coordinates**: `LinearScoringMatrix` in module `Scoring`, and
  `Tuple` with `equals`, `hashCode` and `toString` in module `Tuples`.
- **`SimpleGenomeAssemblyStrategy`** (module `GenomeAssembly`):
  - the caller's read list, sorted in place by `init`;
  - reads are removed by identity in `readUsed`.

Java `int` arithmetic wraps explicitly (`JavaLang.Wrap32`, `Add32`,
`Mul32`), both in the recurrence and in `hashCode`. Exceptions the code
throws on its own inputs are `Result.Failure` values:

- `IndexOutOfBounds` for `get(0)` of an empty list;
- `NoSuchElement` for `next()` on an exhausted iterator;
- `NullPointer` for a strategy used before `init`;
- `Arithmetic` for the progress division in `compute` when `width * height`
  wraps to 0.

One comment in the code disagrees with what it does; the model follows the
code. The comment says the traceback has to start in the last row
(`OverlapAlignmentProblem.java:80`). The code starts it at the best cell
found anywhere in the table (`OverlapAlignmentProblem.java:71-72`).

The cells (0, j) hold `j * gap` (`OverlapAlignmentProblem.java:40`), and
the cells (i, 0) hold 0 (`OverlapAlignmentProblem.java:32`). The table is
described throughout by its coordinates: cell (i, j) has elem1 = i and
elem2 = j, and the fill runs elem1 fastest.

## Model

In the source column, `A/` stands for `src/cz/cuni/mff/peckam/bioinf/alignments/` and `S/` for `src/cz/cuni/mff/peckam/bioinf/superstring/`; the cells themselves carry the full paths.

| member | source | states |
|---|---|---|
| JavaLang.Wrap32 | src/cz/cuni/mff/peckam/bioinf/alignments/OverlapAlignmentProblem.java:55-57 | The Java `int` a sum becomes is congruent to it modulo 2^32, and equal to it when it fits in 32 bits. |
| JavaLang.IntToString | src/cz/cuni/mff/peckam/bioinf/alignments/AlignmentResult.java:201 | `Integer.toString` is nonempty and made of '-' and decimal digits only. |
| JavaLang.IntToStringRoundTrip | src/cz/cuni/mff/peckam/bioinf/alignments/AlignmentResult.java:201 | Reading the printed score back gives the score. |
| JavaLang.IntToStringInjective | src/cz/cuni/mff/peckam/bioinf/alignments/Tuple.java:32 | Distinct numbers print as distinct strings. |
| Tuples.Equals | src/cz/cuni/mff/peckam/bioinf/alignments/Tuple.java:46-66 | `equals` is true exactly for a `Tuple` object whose components are pairwise equal, null matching only null. |
| Tuples.EqualsReflexive | src/cz/cuni/mff/peckam/bioinf/alignments/Tuple.java:48-49 | A tuple equals itself. |
| Tuples.EqualsSymmetric | src/cz/cuni/mff/peckam/bioinf/alignments/Tuple.java:54-65 | `t.equals(u)` and `u.equals(t)` agree. |
| Tuples.EqualsNullIsFalse | src/cz/cuni/mff/peckam/bioinf/alignments/Tuple.java:50-51 | No tuple equals null. |
| Tuples.HashCode | src/cz/cuni/mff/peckam/bioinf/alignments/Tuple.java:36-43 | The two `int` steps of `hashCode` give the wrapped value of 31·31 + 31·h(elem1) + h(elem2). |
| Tuples.HashClosedForm | src/cz/cuni/mff/peckam/bioinf/alignments/Tuple.java:38-42 | Wrapping after every `int` step equals wrapping the exact closed form once. |
| Tuples.HashCodeConsistentWithEquals | src/cz/cuni/mff/peckam/bioinf/alignments/Tuple.java:36-66 | Tuples that are `equals` have the same `hashCode`. |
| Tuples.ElemString | src/cz/cuni/mff/peckam/bioinf/alignments/Tuple.java:32 | A component prints as a nonempty string without ';'. |
| Tuples.ToString | src/cz/cuni/mff/peckam/bioinf/alignments/Tuple.java:30-33 | `toString` is at least six characters long, opens with '<' and closes with '>'. |
| Tuples.ToStringInjective | src/cz/cuni/mff/peckam/bioinf/alignments/Tuple.java:30-33 | Distinct tuples print differently, so the printed form determines both components. |
| Scoring.ScoreIsMatchIffEqual | src/cz/cuni/mff/peckam/bioinf/alignments/LinearScoringMatrix.java:51-54 | Equal symbols score the match bonus and others the mismatch penalty; when the two differ, the bonus means equal symbols. |
| Scoring.ScoreSymmetric | src/cz/cuni/mff/peckam/bioinf/alignments/LinearScoringMatrix.java:51-54 | The score does not depend on the order of the two symbols. |
| Scoring.ThreeArgumentConstructorGaps | src/cz/cuni/mff/peckam/bioinf/alignments/LinearScoringMatrix.java:28-34 | The three-argument constructor leaves the gap-open penalty null and makes the gap value the extension penalty. |
| Scoring.FourArgumentConstructorGaps | src/cz/cuni/mff/peckam/bioinf/alignments/LinearScoringMatrix.java:42-48 | The four-argument constructor stores both gap penalties; otherwise it equals the three-argument one. |
| DynamicProgramming.NextCoordsIsSuccessor | src/cz/cuni/mff/peckam/bioinf/alignments/DynamicProgrammingProblem.java:118-131 | From a cell with elem1 in 1..width-1, `nextCoords` gives the very next such cell in fill order (elem1 fastest). |
| DynamicProgramming.BeforeNextCoords | src/cz/cuni/mff/peckam/bioinf/alignments/DynamicProgrammingProblem.java:118-131 | A cell before the successor of c is c itself or before c. |
| DynamicProgramming.FillSequenceElements | src/cz/cuni/mff/peckam/bioinf/alignments/DynamicProgrammingProblem.java:60-63 | From cell c, the fill loop visits exactly the interior cells not before c. |
| DynamicProgramming.FillSequenceIncreasing | src/cz/cuni/mff/peckam/bioinf/alignments/DynamicProgrammingProblem.java:60-63 | The fill loop visits cells in strictly increasing fill order (elem1 fastest). |
| DynamicProgramming.FillOrderFromStart | src/cz/cuni/mff/peckam/bioinf/alignments/DynamicProgrammingProblem.java:56-63 | From (1, 1) the loop visits every interior cell exactly once, elem1 fastest. It visits none when width or height is at most 1. Each cell's three predecessors are boundary cells or were visited earlier. |
| OverlapRecurrence.Max3 | src/cz/cuni/mff/peckam/bioinf/alignments/OverlapAlignmentProblem.java:59-69 | The value kept is one of the three candidates and at least each of them. |
| OverlapRecurrence.ChooseMove | src/cz/cuni/mff/peckam/bioinf/alignments/OverlapAlignmentProblem.java:60-69 | The branch taken has a maximal candidate. It is the diagonal whenever the diagonal is maximal, and never horizontal when the vertical candidate is maximal. |
| OverlapRecurrence.Step | src/cz/cuni/mff/peckam/bioinf/alignments/OverlapAlignmentProblem.java:61-67 | Each move points at one of the three predecessors of the cell. |
| OverlapRecurrence.Back | src/cz/cuni/mff/peckam/bioinf/alignments/OverlapAlignmentProblem.java:31-67 | Every backpointer other than at (0, 0) lies in the table and points at a predecessor of its cell. |
| OverlapRecurrence.ScoreBoundary | src/cz/cuni/mff/peckam/bioinf/alignments/OverlapAlignmentProblem.java:31-44 | Cell (i, 0) holds 0 and points to (i - 1, 0). Cell (0, j) holds `j * gap` in `int` arithmetic (the exact product when it fits) and points to (0, j - 1). |
| OverlapRecurrence.ScoreIsBestCandidate | src/cz/cuni/mff/peckam/bioinf/alignments/OverlapAlignmentProblem.java:55-69 | An interior cell holds at least each of its three candidates. Its backpointer is diagonal exactly when the diagonal candidate is the value. It is vertical only when the vertical candidate beats the diagonal, and horizontal only when the horizontal one beats both. |
| OverlapRecurrence.CellFromPredecessors | src/cz/cuni/mff/peckam/bioinf/alignments/OverlapAlignmentProblem.java:55-69 | Each branch of `computeValueAndSaveTraceback`, applied to the predecessors' stored values, yields the cell's score and backpointer. |
| OverlapRecurrence.BestSoFarInit | src/cz/cuni/mff/peckam/bioinf/alignments/OverlapAlignmentProblem.java:46 | `init`'s (0, 0) is the best cell before any cell is computed. |
| OverlapRecurrence.BestSoFarStep | src/cz/cuni/mff/peckam/bioinf/alignments/OverlapAlignmentProblem.java:71-72 | The strict `max > best` update keeps the first cell reaching the maximum so far. |
| OverlapRecurrence.BestSoFarExit | src/cz/cuni/mff/peckam/bioinf/alignments/DynamicProgrammingProblem.java:60-67 | When the fill loop leaves at (1, height), the tracked cell is the best over all interior cells. |
| OverlapRecurrence.IsBestCellUnique | src/cz/cuni/mff/peckam/bioinf/alignments/OverlapAlignmentProblem.java:71-72 | The best cell is unique. |
| OverlapRecurrence.IsBestCellMaximal | src/cz/cuni/mff/peckam/bioinf/alignments/OverlapAlignmentProblem.java:71-72 | The best score is at least 0 and at least every interior score. The best cell is (0, 0) exactly when no interior score is positive. |
| OverlapRecurrence.Walk | src/cz/cuni/mff/peckam/bioinf/alignments/DynamicProgrammingProblem.java:150-158 | The walk from c collects cells first to last and ends with c. |
| OverlapRecurrence.WalkUnfold | src/cz/cuni/mff/peckam/bioinf/alignments/DynamicProgrammingProblem.java:155-157 | From a cell that does not stop, the walk continues at its backpointer; that cell is never (0, 0). |
| OverlapRecurrence.WalkStep | src/cz/cuni/mff/peckam/bioinf/alignments/DynamicProgrammingProblem.java:155-158 | Prepending `tracebackTable[coords]` keeps the collected list a suffix of the whole walk. |
| OverlapRecurrence.WalkDone | src/cz/cuni/mff/peckam/bioinf/alignments/DynamicProgrammingProblem.java:155-158 | When the loop stops, the collected list is the whole walk. |
| OverlapRecurrence.WalkShape | src/cz/cuni/mff/peckam/bioinf/alignments/DynamicProgrammingProblem.java:152-158 | The walk starts at the first stop cell (or null). Each later entry's backpointer is the entry before it. From (i, j) it has no null entry and at most i + j + 1 entries. |
| OverlapRecurrence.DropSentinel | src/cz/cuni/mff/peckam/bioinf/alignments/DynamicProgrammingProblem.java:161-162 | At most the leading element is removed, and nothing else changes. |
| OverlapRecurrence.TraceIsUnitPath | src/cz/cuni/mff/peckam/bioinf/alignments/DynamicProgrammingProblem.java:148-165 | The list `traceback(c)` returns has no null and runs through the table one unit step at a time. |
| OverlapRecurrence.Trace | src/cz/cuni/mff/peckam/bioinf/alignments/DynamicProgrammingProblem.java:148-165 | The coordinates of `traceback(c)`, entry for entry, form a unit path. |
| OverlapRecurrence.TraceEnds | src/cz/cuni/mff/peckam/bioinf/alignments/DynamicProgrammingProblem.java:148-165 | The trace ends at c and is empty exactly when c is (0, 0). Its first cell is a stop cell or follows (0, 0). |
| OverlapRecurrence.UnitPathChanges | src/cz/cuni/mff/peckam/bioinf/alignments/AlignmentProblem.java:62-86 | Along a unit path, each coordinate advances by one exactly when it changes, so the iterators read consecutive symbols. |
| OverlapRecurrence.StepLinesShape | src/cz/cuni/mff/peckam/bioinf/alignments/AlignmentProblem.java:65-87 | Each step from m on gives one three-character line, in order. |
| OverlapRecurrence.TraceLinesShape | src/cz/cuni/mff/peckam/bioinf/alignments/AlignmentProblem.java:56-90 | For a nonempty path the text is 3 characters per step. Line k is the line for the step from cell k to cell k + 1, and cell k is a predecessor of cell k + 1. |
| OverlapRecurrence.TracebackText | src/cz/cuni/mff/peckam/bioinf/alignments/AlignmentProblem.java:56-90 | `traceback()` fails with `IndexOutOfBounds` exactly when the best cell is (0, 0); otherwise it has 3 characters per step. |
| OverlapRecurrence.TraceByIteratorsByValue | src/cz/cuni/mff/peckam/bioinf/alignments/AlignmentProblem.java:62-87 | Compared by value, the two-iterator loop never runs out and prints exactly the traceback lines. |
| OverlapRecurrence.IdentityComparisonMisprints | src/cz/cuni/mff/peckam/bioinf/alignments/AlignmentProblem.java:72-82 | With `==` on `Integer` objects, the step from (0, 128) to (1, 128) prints a symbol instead of '-', or the iterator runs out. |
| OverlapRecurrence.TraceByIteratorsCached | src/cz/cuni/mff/peckam/bioinf/alignments/AlignmentProblem.java:72-82 | When every coordinate lies in -128..127, the identity comparison prints the same as the value comparison. |
| OverlapRecurrence.TracebackAsWrittenAgrees | src/cz/cuni/mff/peckam/bioinf/alignments/AlignmentProblem.java:56-90 | For sequences shorter than 128, `traceback()` as written equals the corrected text. |
| OverlapAlignment.OverlapAlignmentProblem.constructor | src/cz/cuni/mff/peckam/bioinf/alignments/AlignmentProblem.java:30-38 | Both tables are (|seq1| + 1) x (|seq2| + 1) and all null. The matrix is linear with the given values, and there is no best cell yet. |
| OverlapAlignment.OverlapAlignmentProblem.Init | src/cz/cuni/mff/peckam/bioinf/alignments/OverlapAlignmentProblem.java:29-47 | The cells (i, 0) and (0, j) hold their recurrence values and backpointers. The best cell is (0, 0), and interior cells are untouched. |
| OverlapAlignment.OverlapAlignmentProblem.ComputeValueAndSaveTraceback | src/cz/cuni/mff/peckam/bioinf/alignments/OverlapAlignmentProblem.java:50-75 | Returns the cell's score and records its backpointer, changing no other backpointer. Moves the best cell here exactly when the score beats it strictly. |
| OverlapAlignment.OverlapAlignmentProblem.FindResult | src/cz/cuni/mff/peckam/bioinf/alignments/AlignmentProblem.java:92-97 | The result is the best cell's score. |
| OverlapAlignment.OverlapAlignmentProblem.Compute | src/cz/cuni/mff/peckam/bioinf/alignments/DynamicProgrammingProblem.java:50-72 | Fails with `ArithmeticException` exactly when both sides exceed 1 and `width * height` wraps to 0; it then has filled only cell (1, 1). Otherwise every cell is filled with its score and backpointer, in fill order. The result is then the best cell's score: at least 0 and every interior score, and 0 at (0, 0) when a sequence is empty. |
| OverlapAlignment.ComputeCanDivideByZero | src/cz/cuni/mff/peckam/bioinf/alignments/DynamicProgrammingProblem.java:58-65 | Sequences of 65535 symbols make `width * height` wrap to 0, so the failure of `compute` happens on real inputs. |
| OverlapAlignment.OverlapAlignmentProblem.ComputeCell | src/cz/cuni/mff/peckam/bioinf/alignments/DynamicProgrammingProblem.java:61-63 | One loop iteration keeps every cell before the next coordinates correct and the best cell up to date. |
| OverlapAlignment.OverlapAlignmentProblem.Traceback | src/cz/cuni/mff/peckam/bioinf/alignments/DynamicProgrammingProblem.java:148-165 | The returned list is the walk from the given cell with a leading null or (0, 0) removed. From null or (1, 1) this holds before `compute` too. |
| OverlapAlignment.OverlapAlignmentProblem.TracebackString | src/cz/cuni/mff/peckam/bioinf/alignments/AlignmentProblem.java:56-90 | Before `compute` the trace is empty and `get(0)` fails. Afterwards the string is `TracebackText` of the best cell. For sequences shorter than 128 it is exactly the code's identity-comparing loop. |
| OverlapAlignment.PrintSteps | src/cz/cuni/mff/peckam/bioinf/alignments/AlignmentProblem.java:65-87 | The loop over a nonempty trace prints exactly the traceback lines. |
| AlignmentResults.Contains | src/cz/cuni/mff/peckam/bioinf/alignments/AlignmentResult.java:72-89 | Fails exactly on an empty traceback. Otherwise true iff (start1 > 0 or start2 = 0) and (end1 < \|seq1\| - 1 or end2 = \|seq2\| - 1). |
| AlignmentResults.LeadingFacts | src/cz/cuni/mff/peckam/bioinf/alignments/AlignmentResult.java:152-163 | The first loop raises max(start1, start2) before-events. They contain exactly seq1's first start1 and seq2's first start2 symbols, and the merge takes nothing from them. |
| AlignmentResults.TrailingShape | src/cz/cuni/mff/peckam/bioinf/alignments/AlignmentResult.java:183-188 | The last loop raises max(remaining seq1, remaining seq2) after-events. |
| AlignmentResults.TrailingCollect | src/cz/cuni/mff/peckam/bioinf/alignments/AlignmentResult.java:183-188 | The last loop hands on exactly the rest of each sequence. |
| AlignmentResults.TrailingAppends | src/cz/cuni/mff/peckam/bioinf/alignments/AlignmentResult.java:111-115 | The merge handler collects seq2 from index p2 + (\|seq1\| - p1) on: the symbols that come after seq1 is used up. |
| AlignmentResults.NothingAppendedOutsideTrailing | src/cz/cuni/mff/peckam/bioinf/alignments/AlignmentResult.java:110-137 | Events outside the trailing phase add nothing to the merge. |
| AlignmentResults.AlignedStepsAppendNothing | src/cz/cuni/mff/peckam/bioinf/alignments/AlignmentResult.java:129-132 | The middle loop's events add nothing to the merge. |
| AlignmentResults.AlignedByValue | src/cz/cuni/mff/peckam/bioinf/alignments/AlignmentResult.java:165-188 | Along a unit path compared by value, the middle and last loops never run out. They raise the step events, then the trailing events from the traceback's last cell. |
| AlignmentResults.AlignedStepsShape | src/cz/cuni/mff/peckam/bioinf/alignments/AlignmentResult.java:175-178 | Step i's event carries the symbol at each coordinate that changes, and null otherwise. |
| AlignmentResults.AlignedStepsCollect | src/cz/cuni/mff/peckam/bioinf/alignments/AlignmentResult.java:165-181 | The middle loop hands on exactly each sequence between the start's and the end's coordinate. |
| AlignmentResults.WalkDecomposes | src/cz/cuni/mff/peckam/bioinf/alignments/AlignmentResult.java:148-191 | On a unit path the walk succeeds and is the leading, middle and trailing events in that order. |
| AlignmentResults.WalkSpellsSequences | src/cz/cuni/mff/peckam/bioinf/alignments/AlignmentResult.java:148-191 | The walk hands every symbol of seq1 and of seq2 to the handler exactly once, in order. |
| AlignmentResults.WalkEventCount | src/cz/cuni/mff/peckam/bioinf/alignments/AlignmentResult.java:148-191 | The walk raises max(start1, start2) + (steps) + max(\|seq1\| - end1, \|seq2\| - end2) events. |
| AlignmentResults.WalkAppendsTailOfSeq2 | src/cz/cuni/mff/peckam/bioinf/alignments/AlignmentResult.java:106-140 | The merge handler collects seq2 from index end2 + (\|seq1\| - end1) on. |
| AlignmentResults.WalkIdentityMisaligns | src/cz/cuni/mff/peckam/bioinf/alignments/AlignmentResult.java:175-176 | With `==` on `Integer` objects, at column 128 of seq2 a symbol gets paired with 'A' instead of a gap, and one event is lost. |
| AlignmentResults.AlignedEventsCached | src/cz/cuni/mff/peckam/bioinf/alignments/AlignmentResult.java:165-188 | When every coordinate lies in -128..127, the middle and last loops raise the same events by identity as by value. |
| AlignmentResults.ResultWalkCached | src/cz/cuni/mff/peckam/bioinf/alignments/AlignmentResult.java:148-191 | For a traceback inside -128..127 the code's walk equals the corrected walk. |
| AlignmentResults.MergeAppendsTailOfSeq2 | src/cz/cuni/mff/peckam/bioinf/alignments/AlignmentResult.java:100-143 | The merge succeeds and keeps seq1 as a prefix. It changes nothing when seq1 contains seq2, and otherwise appends exactly seq2's tail beyond the overlap. |
| AlignmentResults.RowStringShape | src/cz/cuni/mff/peckam/bioinf/alignments/AlignmentResult.java:216-244 | Each event appends exactly one character to each row. |
| AlignmentResults.MiddleRowMarks | src/cz/cuni/mff/peckam/bioinf/alignments/AlignmentResult.java:224-236 | The three rows have equal length. The middle row has ' ' exactly outside the alignment and '\|' exactly for equal symbols. It has 'x' exactly for different symbols and '-' exactly for a gap; the outer rows show the symbols. |
| AlignmentResults.LeadingLoop | src/cz/cuni/mff/peckam/bioinf/alignments/AlignmentResult.java:159-163 | The first loop computes `LeadingEvents`, or fails as an exhausted iterator does. |
| AlignmentResults.AlignedLoop | src/cz/cuni/mff/peckam/bioinf/alignments/AlignmentResult.java:165-188 | The middle and last loops, compared by value, compute `AlignedEvents`. |
| AlignmentResults.TrailingLoop | src/cz/cuni/mff/peckam/bioinf/alignments/AlignmentResult.java:183-188 | The last loop computes `TrailingEvents`. |
| AlignmentResults.AlignmentResult.constructor | src/cz/cuni/mff/peckam/bioinf/alignments/AlignmentResult.java:37-43 | Stores the four values, with no cached string. |
| AlignmentResults.AlignmentResult.WalkResult | src/cz/cuni/mff/peckam/bioinf/alignments/AlignmentResult.java:148-191 | Raises the events of the walk, or fails with `get(0)`'s or `next()`'s exception. With every coordinate in -128..127 this is exactly the code's identity-comparing walk. |
| AlignmentResults.AlignmentResult.MergeSeq2ToRightOfSeq1 | src/cz/cuni/mff/peckam/bioinf/alignments/AlignmentResult.java:100-143 | Returns the merge and leaves seq1 equal to it, appending in place. The cache is untouched. |
| AlignmentResults.AlignmentResult.ToString | src/cz/cuni/mff/peckam/bioinf/alignments/AlignmentResult.java:194-254 | Returns the cached string when there is one. Otherwise renders the score line and three rows and caches them, never changing seq1. |
| GenomeAssembly.GenomeRead.constructor | src/cz/cuni/mff/peckam/bioinf/superstring/GenomeRead.java:19-22 | The read holds the given symbols. |
| GenomeAssembly.Compare | src/cz/cuni/mff/peckam/bioinf/superstring/SimpleGenomeAssemblyStrategy.java:25-34 | Negative exactly for a longer first read, 0 exactly for equal lengths, positive exactly for a shorter one. |
| GenomeAssembly.CompareIsComparator | src/cz/cuni/mff/peckam/bioinf/superstring/SimpleGenomeAssemblyStrategy.java:25-34 | The comparator is antisymmetric, and both its order and its ties are transitive. |
| GenomeAssembly.SortByLengthSortedPermutation | src/cz/cuni/mff/peckam/bioinf/superstring/SimpleGenomeAssemblyStrategy.java:23-35 | The sorted list is a permutation of the input with no read followed by a longer one. |
| GenomeAssembly.SortByLengthStable | src/cz/cuni/mff/peckam/bioinf/superstring/SimpleGenomeAssemblyStrategy.java:23-35 | Reads of equal length keep their input order. |
| GenomeAssembly.SortByLengthUnique | src/cz/cuni/mff/peckam/bioinf/superstring/SimpleGenomeAssemblyStrategy.java:23-35 | Any sorted list with the same reads of each length, in the same order, is the sorted list. So every stable sort gives this result. |
| GenomeAssembly.RemoveFirstAbsent | src/cz/cuni/mff/peckam/bioinf/superstring/SimpleGenomeAssemblyStrategy.java:57-60 | Removing a read that is not in the list changes nothing. |
| GenomeAssembly.RemoveFirstAt | src/cz/cuni/mff/peckam/bioinf/superstring/SimpleGenomeAssemblyStrategy.java:57-60 | Only the first occurrence (by identity) is removed; the others keep their order. |
| GenomeAssembly.RemoveFirstPermutes | src/cz/cuni/mff/peckam/bioinf/superstring/SimpleGenomeAssemblyStrategy.java:57-60 | Exactly one copy of the read leaves the list, if there was one. |
| GenomeAssembly.RemoveFirstSorted | src/cz/cuni/mff/peckam/bioinf/superstring/SimpleGenomeAssemblyStrategy.java:57-60 | Removing a read keeps the list sorted. |
| GenomeAssembly.SimpleGenomeAssemblyStrategy.Init | src/cz/cuni/mff/peckam/bioinf/superstring/SimpleGenomeAssemblyStrategy.java:19-36 | Keeps the caller's list object and sorts it in place: sorted, a permutation, stable. A null list throws. |
| GenomeAssembly.SimpleGenomeAssemblyStrategy.GetFirstRead | src/cz/cuni/mff/peckam/bioinf/superstring/SimpleGenomeAssemblyStrategy.java:38-42 | Returns element 0, a longest read when sorted. Fails with `IndexOutOfBounds` exactly on an empty list, and with `NullPointer` before `init`. |
| GenomeAssembly.SimpleGenomeAssemblyStrategy.HasMoreReads | src/cz/cuni/mff/peckam/bioinf/superstring/SimpleGenomeAssemblyStrategy.java:50-54 | Succeeds exactly after `init`, with true exactly when the list is not empty; fails with `NullPointer` before `init`. |
| GenomeAssembly.SimpleGenomeAssemblyStrategy.ReadUsed | src/cz/cuni/mff/peckam/bioinf/superstring/SimpleGenomeAssemblyStrategy.java:56-60 | After `init` it always succeeds and removes the first occurrence of the read from the shared list in place, keeping it sorted. It fails with `NullPointer` before `init`. |

## Left out

- `System.gc()` and the progress percentages printed to stderr by `compute` (`DynamicProgrammingProblem.java:52, 65-66, 69`) are not modelled: they are output only. The division in the progress test is modelled, since it throws `ArithmeticException` when `width * height` wraps to 0.
- Handler callbacks: `walkResult` raises a list of events, and each handler folds that list. The callbacks run before an exception are not modelled; the walk is then only a `Failure`. The `init` and `completed` callbacks raise no event. The merge's `completed` (its `addAll`) is the final append in `Merged`.
- AlignmentResults.AlignmentResult.MergeSeq2ToRightOfSeq1: `seq1` is a value field of the result. That the `List` passed to the constructor is the same object, so its other holders see the append, is not modelled.
- AlignmentResults.AlignmentResult.WalkResult: compares coordinates by value, the corrected behaviour (see Findings). The code's identity comparison is `AlignmentResults.ResultWalk` with `identity` set. The two agree within -128..127 (`AlignmentResults.ResultWalkCached`). `AlignmentResults.AlignmentResult.MergeSeq2ToRightOfSeq1` and `AlignmentResults.AlignmentResult.ToString` use this walk, so they inherit the value comparison.
- OverlapAlignment.OverlapAlignmentProblem.TracebackString: compares coordinates by value (see Findings), like `OverlapAlignment.PrintSteps`. The code's comparison is `OverlapRecurrence.TraceByIterators` with `identity` set. The two agree for sequences shorter than 128 (`OverlapRecurrence.TracebackAsWrittenAgrees`). A call after a `compute` that threw is not modelled.
- OverlapAlignment.OverlapAlignmentProblem.Traceback: requires the tables computed, except from null or (1, 1), where `shouldTracebackStop` is true before any cell is read. The other calls before `compute` are not modelled. From any other cell Java would read a null value cell and throw `NullPointerException`, and out-of-table coordinates would throw `ArrayIndexOutOfBoundsException`. `TracebackString` before `compute` starts from the null best cell and is modelled: `get(0)` on the empty trace throws `IndexOutOfBoundsException`.
- OverlapAlignment.OverlapAlignmentProblem.FindResult: requires the tables computed. It is only called at the end of `compute`; before it, Java would dereference the null best cell.
- OverlapAlignment.OverlapAlignmentProblem.ComputeValueAndSaveTraceback: requires the three predecessors filled, as `compute`'s order guarantees. A call on an unfilled cell would unbox null in Java.
- OverlapAlignment.OverlapAlignmentProblem.constructor: requires both lengths below `Integer.MAX_VALUE`, so that `length + 1` is a valid array size.
- Java generics: `T extends Number` is `int`, and the symbol type is `char`. The three classes of the inheritance chain are one Dafny class, since `OverlapAlignmentProblem` is their only concrete subclass. The `ScoringMatrix`, `ResultWalkingEventHandler` and `GenomeAssemblyStrategy` interfaces are not modelled separately.
- The getters `getSeq1`, `getSeq2`, `getScore`, `getGapOpenPenalty`, `getGapExtendPenalty`, `getCoordsAfterInit`, `getTracebackLastCoords` and `getRemainingReads` are modelled as plain functions. They have no contracts of their own. That `getRemainingReads` returns the caller's own list object follows from `Init`'s `readList == list`.
- `Collections.sort`'s own algorithm (TimSort): modelled as a stable insertion sort. `GenomeAssembly.SortByLengthUnique` shows that every stable sort by this comparator gives the same list.
- Null elements in the read list and null read contents are not modelled: the comparator would throw on them.
- Null symbols in seq1 or seq2 are not modelled: a sequence is a `seq<char>`. In Java `LinearScoringMatrix.getScore` calls `elem1.equals(elem2)` (`LinearScoringMatrix.java:53`) and would throw `NullPointerException` on a null symbol of seq1, while a null symbol of seq2 would score as a mismatch.
- `List.size()` is modelled as an unbounded `nat`.
- The greedy assembly loop, `SuperstringFinder`, `RandomAssemblyDataGenerator` and `GenomeAssemblyInput` are not part of this model. They are a console demo, random data generation and file I/O.

## Findings

| source | as written | input that shows it | evidently intended | confidence | as-written member | corrected member |
|---|---|---|---|---|---|---|
| src/cz/cuni/mff/peckam/bioinf/alignments/AlignmentProblem.java:72-82 | The coordinates are compared with `==` on `Integer` objects. Outside the cache -128..127, two equal coordinates are distinct objects. | The printing loop run on a given trace: seq1 = "A", seq2 = 129 × 'C', trace (0, 128), (1, 128), a unit path in the table. It prints "AC" instead of "A-". With 128 × 'C' the seq2 iterator throws `NoSuchElementException`. That `compute` produces such a trace as the best cell's trace is not shown. | Compare the values (`equals` or `int` comparison). | high; not executed | OverlapRecurrence.IdentityComparisonMisprints | OverlapAlignment.PrintSteps |
| src/cz/cuni/mff/peckam/bioinf/alignments/AlignmentResult.java:175-176 | `walkResult` compares the coordinates with `==` on `Integer` objects in the same way. | seq1 = "A", seq2 = 129 × 'C', trace (0, 128), (1, 128): event 128 pairs 'A' with 'C' instead of a gap, and only 129 events are raised instead of 130. | Compare the values. | high; not executed | AlignmentResults.WalkIdentityMisaligns | AlignmentResults.AlignmentResult.WalkResult |

/**
 * The overlap-alignment recurrence as pure functions: the value and the
 * backpointer that `OverlapAlignmentProblem` stores in each cell of its
 * (|seq1| + 1) x (|seq2| + 1) tables, the cell `bestScoreCoords` ends on,
 * the walk `traceback` follows, and the text `AlignmentProblem.traceback()`
 * prints for it.
 */
module OverlapRecurrence {
  import opened JavaLang
  import opened Tuples
  import opened Scoring
  import opened DynamicProgramming

  /** The two sequences and the scoring matrix of one alignment problem. */
  datatype Instance = Instance(seq1: seq<char>, seq2: seq<char>, matrix: LinearScoringMatrix)

  function Width(p: Instance): int {
    |p.seq1| + 1
  }

  function Height(p: Instance): int {
    |p.seq2| + 1
  }

  predicate InTable(p: Instance, c: Coords) {
    InBounds(Width(p), Height(p), c)
  }

  function Gap(p: Instance): int32 {
    GetGapExtendPenalty(p.matrix)
  }

  /** The score of aligning seq1[i-1] with seq2[j-1]. */
  function PairScore(p: Instance, i: nat, j: nat): int32
    requires 1 <= i <= |p.seq1| && 1 <= j <= |p.seq2|
  {
    GetScore(p.matrix, p.seq1[i - 1], p.seq2[j - 1])
  }

  /** The three moves of the recurrence, in the order the code prefers them on ties. */
  datatype Move = Diagonal | Vertical | Horizontal

  function Max3(a: int32, b: int32, c: int32): (m: int32)
    ensures m >= a && m >= b && m >= c
    ensures m == a || m == b || m == c
  {
    if a >= b && a >= c then a else if b >= c then b else c
  }

  /**
   * The branch `computeValueAndSaveTraceback` takes: a move whose candidate
   * is maximal, the diagonal whenever it is maximal, and the vertical move
   * in preference to the horizontal one.
   */
  function ChooseMove(diag: int32, up: int32, left: int32): (m: Move)
    ensures m == Diagonal ==> diag == Max3(diag, up, left)
    ensures m == Vertical ==> up == Max3(diag, up, left) && diag < up
    ensures m == Horizontal ==> left == Max3(diag, up, left) && diag < left && up < left
    ensures diag == Max3(diag, up, left) ==> m == Diagonal
    ensures up == Max3(diag, up, left) ==> m != Horizontal
  {
    if diag >= up && diag >= left then Diagonal
    else if up >= diag && up >= left then Vertical
    else Horizontal
  }

  /** The cell a move comes from. */
  function Step(c: Coords, m: Move): (p: Coords)
    ensures IsPredecessor(p, c)
  {
    match m
    case Diagonal => Tuple(c.elem1 - 1, c.elem2 - 1)
    case Vertical => Tuple(c.elem1 - 1, c.elem2)
    case Horizontal => Tuple(c.elem1, c.elem2 - 1)
  }

  /**
   * The value of cell (i, j): (i, 0) is 0 (gaps before seq2 are free),
   * (0, j) adds one gap per step (which is j * gap by `ScoreBoundary`), and
   * every other cell is the best of its three candidates.
   */
  function Score(p: Instance, i: nat, j: nat): int32
    requires i <= |p.seq1| && j <= |p.seq2|
    decreases i + j, 1
  {
    if j == 0 then 0
    else if i == 0 then Add32(Score(p, 0, j - 1), Gap(p))
    else Max3(DiagCandidate(p, i, j), UpCandidate(p, i, j), LeftCandidate(p, i, j))
  }

  /** `seq1ToSeq2`: align seq1[i-1] with seq2[j-1]. */
  function DiagCandidate(p: Instance, i: nat, j: nat): int32
    requires 1 <= i <= |p.seq1| && 1 <= j <= |p.seq2|
    decreases i + j, 0
  {
    Add32(Score(p, i - 1, j - 1), PairScore(p, i, j))
  }

  /** `seq1ToGap`: seq1[i-1] against a gap. */
  function UpCandidate(p: Instance, i: nat, j: nat): int32
    requires 1 <= i <= |p.seq1| && 1 <= j <= |p.seq2|
    decreases i + j, 0
  {
    Add32(Score(p, i - 1, j), Gap(p))
  }

  /** `gapToSeq2`: a gap against seq2[j-1]. */
  function LeftCandidate(p: Instance, i: nat, j: nat): int32
    requires 1 <= i <= |p.seq1| && 1 <= j <= |p.seq2|
    decreases i + j, 0
  {
    Add32(Score(p, i, j - 1), Gap(p))
  }

  /** The backpointer of cell (i, j) other than (0, 0): towards (0, 0) on the boundary, the chosen move inside. */
  function Back(p: Instance, i: nat, j: nat): (b: Coords)
    requires i <= |p.seq1| && j <= |p.seq2| && (i, j) != (0, 0)
    ensures InTable(p, b) && IsPredecessor(b, Tuple(i, j))
  {
    if j == 0 then Tuple(i - 1, 0)
    else if i == 0 then Tuple(0, j - 1)
    else Step(Tuple(i, j), ChooseMove(DiagCandidate(p, i, j), UpCandidate(p, i, j), LeftCandidate(p, i, j)))
  }

  /**
   * The boundary that `init` writes: 0 at (i, 0) and `j * gap` in Java
   * `int` arithmetic at (0, j) (the exact product when it fits), each
   * pointing back towards (0, 0).
   */
  lemma {:induction false} ScoreBoundary(p: Instance, i: nat, j: nat)
    requires i <= |p.seq1| && j <= |p.seq2|
    ensures Score(p, i, 0) == 0 && (i > 0 ==> Back(p, i, 0) == Tuple(i - 1, 0))
    ensures Score(p, 0, j) == Wrap32(j * Gap(p))
    ensures j > 0 ==> Back(p, 0, j) == Tuple(0, j - 1)
    ensures INT_MIN <= j * Gap(p) <= INT_MAX ==> Score(p, 0, j) == j * Gap(p)
  {
    if j > 0 {
      ScoreBoundary(p, i, j - 1);
      var g := Gap(p);
      Wrap32AddStep((j - 1) * g, g);
      assert (j - 1) * g + g == j * g;
    }
  }

  /**
   * An interior cell holds the best of its three candidates, and its
   * backpointer records a move reaching that value: the diagonal exactly
   * when the diagonal candidate is best, the vertical one only when it beats
   * the diagonal, the horizontal one only when it beats both.
   */
  lemma ScoreIsBestCandidate(p: Instance, i: nat, j: nat)
    requires 1 <= i <= |p.seq1| && 1 <= j <= |p.seq2|
    ensures Score(p, i, j) >= DiagCandidate(p, i, j)
    ensures Score(p, i, j) >= UpCandidate(p, i, j)
    ensures Score(p, i, j) >= LeftCandidate(p, i, j)
    ensures Back(p, i, j) == Tuple(i - 1, j - 1) <==> Score(p, i, j) == DiagCandidate(p, i, j)
    ensures Back(p, i, j) == Tuple(i - 1, j) ==>
      Score(p, i, j) == UpCandidate(p, i, j) && Score(p, i, j) > DiagCandidate(p, i, j)
    ensures Back(p, i, j) == Tuple(i, j - 1) ==>
      Score(p, i, j) == LeftCandidate(p, i, j) && Score(p, i, j) > DiagCandidate(p, i, j) && Score(p, i, j) > UpCandidate(p, i, j)
  {
  }

  /**
   * The branches of `computeValueAndSaveTraceback`, applied to the values
   * stored for the three predecessors of (i, j): each yields the score and
   * backpointer of (i, j).
   */
  lemma CellFromPredecessors(p: Instance, i: nat, j: nat, vd: int32, vu: int32, vl: int32)
    requires 1 <= i <= |p.seq1| && 1 <= j <= |p.seq2|
    requires vd == Score(p, i - 1, j - 1) && vu == Score(p, i - 1, j) && vl == Score(p, i, j - 1)
    ensures var d, u, l := Add32(vd, PairScore(p, i, j)), Add32(vu, Gap(p)), Add32(vl, Gap(p));
      && (d >= u && d >= l ==> Score(p, i, j) == d && Back(p, i, j) == Tuple(i - 1, j - 1))
      && (!(d >= u && d >= l) && u >= d && u >= l ==> Score(p, i, j) == u && Back(p, i, j) == Tuple(i - 1, j))
      && (!(d >= u && d >= l) && !(u >= d && u >= l) ==> Score(p, i, j) == l && Back(p, i, j) == Tuple(i, j - 1))
  {
  }

  /** Cell (i, j) is before `next` in fill order. */
  predicate CellBefore(i: int, j: int, next: Coords) {
    Before(Tuple(i, j), next)
  }

  /**
   * Cell b is what `bestScoreCoords` holds once the cells before `next` are
   * computed: (0, 0), or one of those cells with a positive score; its score
   * is at least that of each of them and strictly above that of each cell
   * before b, so b is the first cell reaching the maximum.
   */
  ghost predicate BestSoFar(p: Instance, b: Coords, next: Coords) {
    && InTable(p, b)
    && (b == Tuple(0, 0) || (Interior(Width(p), Height(p), b) && Before(b, next) && Score(p, b.elem1, b.elem2) > 0))
    && (forall i: nat, j: nat {:trigger Score(p, i, j)} ::
          1 <= i <= |p.seq1| && 1 <= j <= |p.seq2| && CellBefore(i, j, next) ==> Score(p, i, j) <= Score(p, b.elem1, b.elem2))
    && (forall i: nat, j: nat {:trigger Score(p, i, j)} ::
          1 <= i <= |p.seq1| && 1 <= j <= |p.seq2| && CellBefore(i, j, b) ==> Score(p, i, j) < Score(p, b.elem1, b.elem2))
  }

  /** The cell `bestScoreCoords` holds after `compute()`: the best after every interior cell is computed. */
  ghost predicate IsBestCell(p: Instance, b: Coords) {
    BestSoFar(p, b, Tuple(1, Height(p)))
  }

  /** `init` sets (0, 0), and no cell is computed before (1, 1). */
  lemma BestSoFarInit(p: Instance)
    ensures BestSoFar(p, Tuple(0, 0), Tuple(1, 1))
  {
  }

  /** The update `if (max > best) bestScoreCoords = coords` keeps the first maximum. */
  lemma BestSoFarStep(p: Instance, b: Coords, c: Coords)
    requires Interior(Width(p), Height(p), c) && BestSoFar(p, b, c)
    ensures BestSoFar(p, if Score(p, c.elem1, c.elem2) > Score(p, b.elem1, b.elem2) then c else b, NextCoords(Width(p), c))
  {
    var next := NextCoords(Width(p), c);
    var b' := if Score(p, c.elem1, c.elem2) > Score(p, b.elem1, b.elem2) then c else b;
    forall i: nat, j: nat | 1 <= i <= |p.seq1| && 1 <= j <= |p.seq2| && CellBefore(i, j, next)
      ensures Score(p, i, j) <= Score(p, b'.elem1, b'.elem2)
    {
      BeforeNextCoords(Width(p), c, Tuple(i, j));
    }
  }

  /** The fill loop leaves at (1, height) with every interior cell before it. */
  lemma BestSoFarExit(p: Instance, b: Coords, c: Coords)
    requires BestSoFar(p, b, c)
    requires 1 <= c.elem1 && c.elem2 == Height(p) && c.elem1 == 1
    ensures IsBestCell(p, b)
  {
  }

  /** There is a single best cell. */
  lemma IsBestCellUnique(p: Instance, b1: Coords, b2: Coords)
    requires IsBestCell(p, b1) && IsBestCell(p, b2)
    ensures b1 == b2
  {
  }

  /**
   * The best cell's score is the maximum of 0 and every interior score, and
   * the best cell is (0, 0) exactly when no interior score is positive.
   */
  lemma {:induction false} IsBestCellMaximal(p: Instance, b: Coords)
    requires IsBestCell(p, b)
    ensures Score(p, b.elem1, b.elem2) >= 0
    ensures forall i: nat, j: nat :: 1 <= i <= |p.seq1| && 1 <= j <= |p.seq2| ==> Score(p, i, j) <= Score(p, b.elem1, b.elem2)
    ensures b == Tuple(0, 0) <==> forall i: nat, j: nat :: 1 <= i <= |p.seq1| && 1 <= j <= |p.seq2| ==> Score(p, i, j) <= 0
  {
    forall i: nat, j: nat | 1 <= i <= |p.seq1| && 1 <= j <= |p.seq2|
      ensures Score(p, i, j) <= Score(p, b.elem1, b.elem2)
    {
      assert CellBefore(i, j, Tuple(1, Height(p)));
    }
    if b != Tuple(0, 0) {
      assert Score(p, b.elem1, b.elem2) > 0;
    }
    assert Score(p, 0, 0) == 0;
  }

  /** `shouldTracebackStop`: a null cell, (1, 1), or a cell of score 0. */
  predicate ShouldStop(p: Instance, c: Nullable<Coords>)
    requires c.Null? || InTable(p, c.value)
  {
    c.Null? || c.value == Tuple(1, 1) || Score(p, c.value.elem1, c.value.elem2) == 0
  }

  /** The cells `traceback(c)` collects, first to last: follow backpointers from c until a stop cell. */
  function Walk(p: Instance, c: Nullable<Coords>): (w: seq<Nullable<Coords>>)
    requires c.Null? || InTable(p, c.value)
    ensures |w| >= 1 && w[|w| - 1] == c
    decreases if c.Null? then 0 else c.value.elem1 + c.value.elem2 + 1
  {
    if ShouldStop(p, c) then [c]
    else Walk(p, NonNull(Back(p, c.value.elem1, c.value.elem2))) + [c]
  }

  /** One step of the walk: from a cell that does not stop, the walk continues at its backpointer. */
  lemma WalkUnfold(p: Instance, c: Coords)
    requires InTable(p, c) && !ShouldStop(p, NonNull(c))
    ensures c != Tuple(0, 0)
    ensures Walk(p, NonNull(c)) == Walk(p, NonNull(Back(p, c.elem1, c.elem2))) + [NonNull(c)]
  {
  }

  /**
   * One step of the loop of `traceback(last)`: the cells collected so far,
   * `walk`, start at a cell c that does not stop and complete the walk from
   * c to the whole walk `target`; prepending c's backpointer keeps that so.
   */
  lemma WalkStep(p: Instance, target: seq<Nullable<Coords>>, walk: seq<Nullable<Coords>>, c: Coords)
    requires InTable(p, c) && !ShouldStop(p, NonNull(c))
    requires |walk| > 0 && walk[0] == NonNull(c) && target == Walk(p, NonNull(c)) + walk[1..]
    ensures c != Tuple(0, 0)
    ensures target == Walk(p, NonNull(Back(p, c.elem1, c.elem2))) + ([NonNull(Back(p, c.elem1, c.elem2))] + walk)[1..]
  {
    WalkUnfold(p, c);
    var b := Back(p, c.elem1, c.elem2);
    SeqStep(Walk(p, NonNull(b)), NonNull(b), walk);
  }

  /** The sequence algebra of one traceback step. */
  lemma SeqStep<T>(v: seq<T>, b: T, walk: seq<T>)
    requires |walk| > 0
    ensures (v + [walk[0]]) + walk[1..] == v + ([b] + walk)[1..]
  {
    assert ([b] + walk)[1..] == walk;
    assert walk == [walk[0]] + walk[1..];
  }

  /** When the loop of `traceback(last)` stops at cell c, the cells collected are the walk from `last`. */
  lemma WalkDone(p: Instance, target: seq<Nullable<Coords>>, walk: seq<Nullable<Coords>>, c: Nullable<Coords>)
    requires c.Null? || InTable(p, c.value)
    requires ShouldStop(p, c)
    requires |walk| > 0 && walk[0] == c && target == Walk(p, c) + walk[1..]
    ensures walk == target
  {
    assert walk == [c] + walk[1..];
  }

  /**
   * Consecutive entries of a walk are linked by backpointers: every entry
   * after the first is a cell of the table other than (0, 0) that is not a
   * stop cell, and its backpointer is the entry before it.
   */
  ghost predicate Linked(p: Instance, w: seq<Nullable<Coords>>) {
    && (forall k :: 1 <= k < |w| ==>
          w[k].NonNull? && InTable(p, w[k].value) && w[k].value != Tuple(0, 0) && !ShouldStop(p, w[k]))
    && (forall k :: 0 <= k < |w| - 1 ==> w[k] == NonNull(Back(p, w[k + 1].value.elem1, w[k + 1].value.elem2)))
  }

  lemma LinkedSnoc(p: Instance, v: seq<Nullable<Coords>>, c: Coords)
    requires Linked(p, v) && |v| > 0
    requires InTable(p, c) && c != Tuple(0, 0) && !ShouldStop(p, NonNull(c))
    requires v[|v| - 1] == NonNull(Back(p, c.elem1, c.elem2))
    ensures Linked(p, v + [NonNull(c)])
  {
    var w := v + [NonNull(c)];
    forall k | 0 <= k < |w| - 1
      ensures w[k] == NonNull(Back(p, w[k + 1].value.elem1, w[k + 1].value.elem2))
    {
      assert w[k] == v[k];
    }
  }

  /**
   * The walk starts at a stop cell (or null) and is linked by backpointers;
   * from a cell (i, j) it has no null entry and at most i + j + 1 entries.
   */
  lemma {:induction false} WalkShape(p: Instance, c: Nullable<Coords>)
    requires c.Null? || InTable(p, c.value)
    ensures Linked(p, Walk(p, c))
    ensures Walk(p, c)[0].Null? || InTable(p, Walk(p, c)[0].value)
    ensures ShouldStop(p, Walk(p, c)[0])
    ensures c.NonNull? ==> Walk(p, c)[0].NonNull?
    ensures c.NonNull? ==> |Walk(p, c)| <= c.value.elem1 + c.value.elem2 + 1
    decreases if c.Null? then 0 else c.value.elem1 + c.value.elem2 + 1
  {
    if !ShouldStop(p, c) {
      var b := NonNull(Back(p, c.value.elem1, c.value.elem2));
      WalkShape(p, b);
      assert c.value != Tuple(0, 0) by {
        assert Score(p, c.value.elem1, c.value.elem2) != 0;
      }
      LinkedSnoc(p, Walk(p, b), c.value);
      assert Walk(p, c) == Walk(p, b) + [c];
      assert Walk(p, c)[0] == Walk(p, b)[0];
    }
  }

  /** The list `traceback(...)` returns, from the walk: a leading null or (0, 0) is dropped. */
  function DropSentinel(walk: seq<Nullable<Coords>>): (t: seq<Nullable<Coords>>)
    requires |walk| > 0
    ensures t == walk || t == walk[1..]
  {
    if walk[0].Null? || walk[0] == NonNull(Tuple(0, 0)) then walk[1..] else walk
  }

  /** The coordinates of a list none of whose entries is null. */
  function Unbox(t: seq<Nullable<Coords>>): (r: seq<Coords>)
    requires forall k :: 0 <= k < |t| ==> t[k].NonNull?
    ensures |r| == |t| && forall k :: 0 <= k < |t| ==> t[k] == NonNull(r[k])
  {
    seq(|t|, k requires 0 <= k < |t| => t[k].value)
  }

  /** A path through the table, each step advancing elem1, elem2 or both by one, inside [0, n1] x [0, n2]. */
  ghost predicate UnitPath(path: seq<Coords>, n1: int, n2: int) {
    && (forall k :: 0 <= k < |path| ==> 0 <= path[k].elem1 <= n1 && 0 <= path[k].elem2 <= n2)
    && (forall k :: 0 <= k < |path| - 1 ==> StepAt(path, k))
  }

  /** Element k of a path is one of the three predecessors of element k + 1. */
  predicate StepAt(path: seq<Coords>, k: int) {
    0 <= k < |path| - 1 && IsPredecessor(path[k], path[k + 1])
  }

  /** The traceback from cell c has no null entry, and it runs forward through the table one step at a time. */
  lemma TraceIsUnitPath(p: Instance, c: Coords)
    requires InTable(p, c)
    ensures forall k :: 0 <= k < |DropSentinel(Walk(p, NonNull(c)))| ==> DropSentinel(Walk(p, NonNull(c)))[k].NonNull?
    ensures UnitPath(Unbox(DropSentinel(Walk(p, NonNull(c)))), |p.seq1|, |p.seq2|)
  {
    var w := Walk(p, NonNull(c));
    WalkShape(p, NonNull(c));
    var t := DropSentinel(w);
    if t != w {
      LinkedDrop(p, w);
    }
    if |t| > 0 {
      assert t[0] == w[0] || t[0] == w[1];
      LinkedPath(p, t);
    }
  }

  lemma LinkedDrop(p: Instance, w: seq<Nullable<Coords>>)
    requires Linked(p, w) && |w| > 0
    ensures Linked(p, w[1..])
  {
    var t := w[1..];
    forall k | 0 <= k < |t| - 1
      ensures t[k] == NonNull(Back(p, t[k + 1].value.elem1, t[k + 1].value.elem2))
    {
      assert t[k] == w[k + 1] && t[k + 1] == w[k + 2];
    }
  }

  /** A linked list of cells that starts inside the table is a unit path through it. */
  lemma LinkedPath(p: Instance, t: seq<Nullable<Coords>>)
    requires Linked(p, t) && |t| > 0 && t[0].NonNull? && InTable(p, t[0].value)
    ensures forall k :: 0 <= k < |t| ==> t[k].NonNull?
    ensures UnitPath(Unbox(t), |p.seq1|, |p.seq2|)
  {
    var path := Unbox(t);
    forall k | 0 <= k < |path| - 1 ensures StepAt(path, k) {
      assert t[k] == NonNull(Back(p, t[k + 1].value.elem1, t[k + 1].value.elem2));
    }
  }

  /** The coordinates `traceback(c)` returns, with the sentinel dropped: a unit path through the table. */
  function Trace(p: Instance, c: Coords): (t: seq<Coords>)
    requires InTable(p, c)
    ensures UnitPath(t, |p.seq1|, |p.seq2|)
    ensures |t| == |DropSentinel(Walk(p, NonNull(c)))|
    ensures forall k :: 0 <= k < |t| ==> DropSentinel(Walk(p, NonNull(c)))[k] == NonNull(t[k])
  {
    TraceIsUnitPath(p, c);
    Unbox(DropSentinel(Walk(p, NonNull(c))))
  }

  /**
   * The trace from c ends at c, and it is empty exactly when c is (0, 0);
   * otherwise its first cell stops the walk or follows the sentinel (0, 0).
   */
  lemma TraceEnds(p: Instance, c: Coords)
    requires InTable(p, c)
    ensures |Trace(p, c)| == 0 <==> c == Tuple(0, 0)
    ensures |Trace(p, c)| > 0 ==> Trace(p, c)[|Trace(p, c)| - 1] == c
    ensures |Trace(p, c)| > 0 ==> ShouldStop(p, NonNull(Trace(p, c)[0])) || Back(p, Trace(p, c)[0].elem1, Trace(p, c)[0].elem2) == Tuple(0, 0)
  {
    var w := Walk(p, NonNull(c));
    WalkShape(p, NonNull(c));
    var t := Trace(p, c);
    if c == Tuple(0, 0) {
      assert Score(p, 0, 0) == 0;
      assert w == [NonNull(c)];
    } else {
      assert |DropSentinel(w)| > 0 by {
        if |w| == 1 {
          assert w[0] == NonNull(c);
        }
      }
      assert DropSentinel(w)[|t| - 1] == w[|w| - 1];
      if DropSentinel(w) != w {
        assert DropSentinel(w)[0] == w[1];
      }
    }
  }

  /** One line of `AlignmentProblem.traceback()`: a symbol or '-' for each sequence, then a newline. */
  function TraceLine(seq1: seq<char>, seq2: seq<char>, prev: Coords, cur: Coords): string
    requires 0 <= prev.elem1 && 0 <= prev.elem2
    requires cur.elem1 != prev.elem1 ==> prev.elem1 < |seq1|
    requires cur.elem2 != prev.elem2 ==> prev.elem2 < |seq2|
  {
    [if cur.elem1 == prev.elem1 then '-' else seq1[prev.elem1],
     if cur.elem2 == prev.elem2 then '-' else seq2[prev.elem2],
     '\n']
  }

  /** The lines for the steps of a path from its element m on. */
  function StepLines(seq1: seq<char>, seq2: seq<char>, path: seq<Coords>, m: nat): string
    requires UnitPath(path, |seq1|, |seq2|)
    decreases |path| - m
  {
    if m + 1 >= |path| then ""
    else
      assert StepAt(path, m);
      TraceLine(seq1, seq2, path[m], path[m + 1]) + StepLines(seq1, seq2, path, m + 1)
  }

  /** The lines for the steps of a path, the first element being the starting point only. */
  function TraceLines(seq1: seq<char>, seq2: seq<char>, path: seq<Coords>): string
    requires UnitPath(path, |seq1|, |seq2|)
  {
    StepLines(seq1, seq2, path, 0)
  }

  /** The number of steps among the first `k` of a path that advance elem1. */
  function Changes1(path: seq<Coords>, k: nat): nat
    requires k < |path|
  {
    if k == 0 then 0 else Changes1(path, k - 1) + (if path[k].elem1 != path[k - 1].elem1 then 1 else 0)
  }

  function Changes2(path: seq<Coords>, k: nat): nat
    requires k < |path|
  {
    if k == 0 then 0 else Changes2(path, k - 1) + (if path[k].elem2 != path[k - 1].elem2 then 1 else 0)
  }

  /** Along a unit path a coordinate advances by one each time it changes. */
  lemma {:induction false} UnitPathChanges(path: seq<Coords>, n1: int, n2: int, k: nat)
    requires UnitPath(path, n1, n2) && k < |path|
    ensures path[k].elem1 == path[0].elem1 + Changes1(path, k)
    ensures path[k].elem2 == path[0].elem2 + Changes2(path, k)
  {
    if k > 0 {
      UnitPathChanges(path, n1, n2, k - 1);
      assert StepAt(path, k - 1);
    }
  }

  /** Line k of a text made of three-character lines. */
  function Line(s: string, k: nat): string
    requires 3 * k + 3 <= |s|
  {
    s[3 * k..3 * k + 3]
  }

  /** Steps m.. of a path give one three-character line each, in order. */
  lemma {:induction false} StepLinesShape(seq1: seq<char>, seq2: seq<char>, path: seq<Coords>, m: nat)
    requires UnitPath(path, |seq1|, |seq2|) && m < |path|
    ensures |StepLines(seq1, seq2, path, m)| == 3 * (|path| - 1 - m)
    ensures forall d :: 0 <= d < |path| - 1 - m ==>
      StepAt(path, m + d) &&
      Line(StepLines(seq1, seq2, path, m), d) == TraceLine(seq1, seq2, path[m + d], path[m + d + 1])
    decreases |path| - m
  {
    if m + 1 < |path| {
      StepLinesShape(seq1, seq2, path, m + 1);
      var s, t := StepLines(seq1, seq2, path, m), StepLines(seq1, seq2, path, m + 1);
      assert StepAt(path, m);
      var line := TraceLine(seq1, seq2, path[m], path[m + 1]);
      assert s == line + t;
      forall d | 0 <= d < |path| - 1 - m
        ensures StepAt(path, m + d) && Line(s, d) == TraceLine(seq1, seq2, path[m + d], path[m + d + 1])
      {
        assert StepAt(path, m + d);
        if d > 0 {
          assert Line(s, d) == Line(t, d - 1);
          assert m + 1 + (d - 1) == m + d;
        }
      }
    }
  }

  /**
   * `traceback()` has one line of three characters per step after the first
   * path element; line k shows '-' where a coordinate stays, and otherwise the
   * symbol of that sequence the step consumes. By `UnitPathChanges` these are
   * read consecutively from index path[0].elem1 (resp. path[0].elem2).
   */
  lemma TraceLinesShape(seq1: seq<char>, seq2: seq<char>, path: seq<Coords>)
    requires UnitPath(path, |seq1|, |seq2|)
    ensures |path| > 0 ==> |TraceLines(seq1, seq2, path)| == 3 * (|path| - 1)
    ensures forall k :: 0 <= k < |path| - 1 ==>
      IsPredecessor(path[k], path[k + 1]) &&
      Line(TraceLines(seq1, seq2, path), k) == TraceLine(seq1, seq2, path[k], path[k + 1])
  {
    if |path| > 0 {
      StepLinesShape(seq1, seq2, path, 0);
      forall k | 0 <= k < |path| - 1
        ensures IsPredecessor(path[k], path[k + 1]) && Line(TraceLines(seq1, seq2, path), k) == TraceLine(seq1, seq2, path[k], path[k + 1])
      {
        assert StepAt(path, k);
        assert path[0 + k] == path[k] && path[0 + k + 1] == path[k + 1];
      }
    }
  }

  /**
   * What `AlignmentProblem.traceback()` returns for the trace from c, with
   * coordinates compared by value: `trace.get(0)` on an empty trace throws
   * `IndexOutOfBoundsException`, otherwise one line per step.
   */
  function TracebackText(p: Instance, c: Coords): (r: Result<string>)
    requires InTable(p, c)
    ensures r.Failure? <==> c == Tuple(0, 0)
    ensures r.Failure? ==> r.error == IndexOutOfBounds
    ensures r.Success? ==> |r.value| == 3 * (|Trace(p, c)| - 1)
  {
    TraceEnds(p, c);
    var t := Trace(p, c);
    if |t| == 0 then Failure(IndexOutOfBounds)
    else
      TraceLinesShape(p.seq1, p.seq2, t);
      Success(TraceLines(p.seq1, p.seq2, t))
  }

  /** Java `==` on two `Integer` objects boxed separately: the same object only for equal values in the cache -128..127. */
  predicate SameBoxedInteger(a: int, b: int) {
    a == b && -128 <= a <= 127
  }

  /**
   * The loop of `AlignmentProblem.traceback()` from step k, with the two list
   * iterators at positions p1 and p2. With `identity` the coordinates are
   * compared as the code compares them (`==` on `Integer` objects), otherwise
   * by value. `next()` past the end throws `NoSuchElementException`.
   */
  function TraceByIterators(seq1: seq<char>, seq2: seq<char>, path: seq<Coords>, k: nat, p1: nat, p2: nat,
                            identity: bool): Result<string>
    decreases |path| - k
  {
    if k + 1 >= |path| then Success("")
    else
      var prev, cur := path[k], path[k + 1];
      var stay1 := if identity then SameBoxedInteger(cur.elem1, prev.elem1) else cur.elem1 == prev.elem1;
      var stay2 := if identity then SameBoxedInteger(cur.elem2, prev.elem2) else cur.elem2 == prev.elem2;
      if !stay1 && p1 >= |seq1| then Failure(NoSuchElement)
      else if !stay2 && p2 >= |seq2| then Failure(NoSuchElement)
      else
        var line := [if stay1 then '-' else seq1[p1], if stay2 then '-' else seq2[p2], '\n'];
        var rest := TraceByIterators(seq1, seq2, path, k + 1, if stay1 then p1 else p1 + 1, if stay2 then p2 else p2 + 1, identity);
        if rest.Failure? then rest else Success(line + rest.value)
  }

  /**
   * Compared by value, the iterator loop started at the first cell's
   * coordinates never runs out and prints exactly `TraceLines`.
   */
  lemma {:induction false} TraceByIteratorsByValue(seq1: seq<char>, seq2: seq<char>, path: seq<Coords>, k: nat)
    requires UnitPath(path, |seq1|, |seq2|) && k < |path|
    ensures TraceByIterators(seq1, seq2, path, k, path[k].elem1, path[k].elem2, false) == Success(StepLines(seq1, seq2, path, k))
    ensures k == 0 ==> TraceByIterators(seq1, seq2, path, 0, path[0].elem1, path[0].elem2, false) == Success(TraceLines(seq1, seq2, path))
    decreases |path| - k
  {
    if k + 1 < |path| {
      TraceByIteratorsByValue(seq1, seq2, path, k + 1);
      assert StepAt(path, k);
    }
  }

  /** Every coordinate of the path lies in the `Integer` cache -128..127, where `==` on boxed values compares values. */
  predicate InIntegerCache(path: seq<Coords>) {
    forall k :: 0 <= k < |path| ==> -128 <= path[k].elem1 <= 127 && -128 <= path[k].elem2 <= 127
  }

  /** Within the `Integer` cache the code's identity comparison and the value comparison print the same. */
  lemma {:induction false} TraceByIteratorsCached(seq1: seq<char>, seq2: seq<char>, path: seq<Coords>, k: nat, p1: nat, p2: nat)
    requires InIntegerCache(path)
    ensures TraceByIterators(seq1, seq2, path, k, p1, p2, true) == TraceByIterators(seq1, seq2, path, k, p1, p2, false)
    decreases |path| - k
  {
    if k + 1 < |path| {
      var prev, cur := path[k], path[k + 1];
      var stay1, stay2 := cur.elem1 == prev.elem1, cur.elem2 == prev.elem2;
      assert SameBoxedInteger(cur.elem1, prev.elem1) == stay1;
      assert SameBoxedInteger(cur.elem2, prev.elem2) == stay2;
      TraceByIteratorsCached(seq1, seq2, path, k + 1, if stay1 then p1 else p1 + 1, if stay2 then p2 else p2 + 1);
    }
  }

  /**
   * `AlignmentProblem.traceback()` as written: the trace from c, `get(0)`
   * failing on an empty trace, and the iterator loop comparing coordinates
   * as `Integer` objects. Its `Math.max(0, ...)` is the identity here: trace
   * coordinates are never negative.
   */
  function TracebackAsWritten(p: Instance, c: Coords): Result<string>
    requires InTable(p, c)
  {
    var t := Trace(p, c);
    if |t| == 0 then Failure(IndexOutOfBounds)
    else TraceByIterators(p.seq1, p.seq2, t, 0, t[0].elem1, t[0].elem2, true)
  }

  /** For sequences shorter than 128 the code's `traceback()` is exactly the corrected one. */
  lemma TracebackAsWrittenAgrees(p: Instance, c: Coords)
    requires InTable(p, c) && |p.seq1| < 128 && |p.seq2| < 128
    ensures TracebackAsWritten(p, c) == TracebackText(p, c)
  {
    var t := Trace(p, c);
    if |t| > 0 {
      TraceByIteratorsByValue(p.seq1, p.seq2, t, 0);
      TraceByIteratorsCached(p.seq1, p.seq2, t, 0, t[0].elem1, t[0].elem2);
    }
  }

  /**
   * A step from (0, 128) to (1, 128), where the two `Integer` objects holding
   * elem2 are distinct: the code prints seq2[128] instead of '-', and with a
   * seq2 of length 128 the iterator runs out.
   */
  lemma IdentityComparisonMisprints()
    ensures var seq2 := seq(129, _ => 'C');
      var path := [Tuple(0, 128), Tuple(1, 128)];
      && UnitPath(path, 1, 129)
      && TraceLines("A", seq2, path) == "A-\n"
      && TraceByIterators("A", seq2, path, 0, 0, 128, false) == Success("A-\n")
      && TraceByIterators("A", seq2, path, 0, 0, 128, true) == Success("AC\n")
    ensures TraceByIterators("A", seq(128, _ => 'C'), [Tuple(0, 128), Tuple(1, 128)], 0, 0, 128, true) == Failure(NoSuchElement)
  {
    var seq2 := seq(129, _ => 'C');
    var path := [Tuple(0, 128), Tuple(1, 128)];
    assert !SameBoxedInteger(128, 128);
    assert TraceByIterators("A", seq2, path, 1, 1, 129, true) == Success("");
    assert TraceByIterators("A", seq2, path, 0, 0, 128, true) == Success(['A', seq2[128], '\n'] + "");
    assert seq2[128] == 'C';
    assert ['A', seq2[128], '\n'] + "" == "AC\n";
    assert StepLines("A", seq2, path, 1) == "";
    assert TraceLines("A", seq2, path) == TraceLine("A", seq2, path[0], path[1]) + "";
  }
}

/**
 * `LinearScoringMatrix`: a fixed bonus for matching symbols, a fixed
 * penalty for mismatching ones, and linear gap penalties.
 */
module Scoring {
  import opened JavaLang

  /** The four final fields; `gapOpen` is a Java `Integer` and may be null. */
  datatype LinearScoringMatrix = LinearScoringMatrix(
    matchValue: int32,
    mismatchValue: int32,
    gapOpen: Nullable<int32>,
    gapExt: int32)

  /** The three-argument constructor: one gap value, used as the extension penalty. */
  function NewLinearScoringMatrix(matchValue: int32, mismatchValue: int32, gapValue: int32): LinearScoringMatrix {
    LinearScoringMatrix(matchValue, mismatchValue, Null, gapValue)
  }

  /** The four-argument constructor: separate gap-open and gap-extension penalties. */
  function NewLinearScoringMatrixWithGapOpen(matchValue: int32, mismatchValue: int32, gapOpen: int32, gapExt: int32): LinearScoringMatrix {
    LinearScoringMatrix(matchValue, mismatchValue, NonNull(gapOpen), gapExt)
  }

  /** `getScore`: the match bonus for equal symbols, otherwise the mismatch penalty. */
  function GetScore<T(==)>(m: LinearScoringMatrix, elem1: T, elem2: T): int32 {
    if elem1 == elem2 then m.matchValue else m.mismatchValue
  }

  function GetGapOpenPenalty(m: LinearScoringMatrix): Nullable<int32> {
    m.gapOpen
  }

  function GetGapExtendPenalty(m: LinearScoringMatrix): int32 {
    m.gapExt
  }

  /** The score of a pair is the bonus exactly when the symbols are equal (given bonus and penalty differ). */
  lemma ScoreIsMatchIffEqual<T>(m: LinearScoringMatrix, a: T, b: T)
    ensures a == b ==> GetScore(m, a, b) == m.matchValue
    ensures a != b ==> GetScore(m, a, b) == m.mismatchValue
    ensures m.matchValue != m.mismatchValue ==> (GetScore(m, a, b) == m.matchValue <==> a == b)
  {
  }

  /** Scoring does not depend on the order of its arguments. */
  lemma ScoreSymmetric<T>(m: LinearScoringMatrix, a: T, b: T)
    ensures GetScore(m, a, b) == GetScore(m, b, a)
  {
  }

  /** After the three-argument constructor there is no gap-open penalty and the gap value is the extension penalty. */
  lemma ThreeArgumentConstructorGaps(matchValue: int32, mismatchValue: int32, gapValue: int32)
    ensures GetGapOpenPenalty(NewLinearScoringMatrix(matchValue, mismatchValue, gapValue)) == Null
    ensures GetGapExtendPenalty(NewLinearScoringMatrix(matchValue, mismatchValue, gapValue)) == gapValue
    ensures forall a: char, b: char ::
      GetScore(NewLinearScoringMatrix(matchValue, mismatchValue, gapValue), a, b)
        == (if a == b then matchValue else mismatchValue)
  {
  }

  /** The four-argument constructor stores both gap penalties as given and scores as the three-argument one. */
  lemma FourArgumentConstructorGaps(matchValue: int32, mismatchValue: int32, gapOpen: int32, gapExt: int32)
    ensures GetGapOpenPenalty(NewLinearScoringMatrixWithGapOpen(matchValue, mismatchValue, gapOpen, gapExt)) == NonNull(gapOpen)
    ensures GetGapExtendPenalty(NewLinearScoringMatrixWithGapOpen(matchValue, mismatchValue, gapOpen, gapExt)) == gapExt
    ensures NewLinearScoringMatrixWithGapOpen(matchValue, mismatchValue, gapOpen, gapExt)
      == NewLinearScoringMatrix(matchValue, mismatchValue, gapExt).(gapOpen := NonNull(gapOpen))
  {
  }
}

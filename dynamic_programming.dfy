/**
 * The parts of `DynamicProgrammingProblem` that do not depend on the
 * recurrence: the coordinates of its `width` x `height` tables, the
 * default traversal `nextCoords`, and the order in which `compute`
 * visits the cells when it starts from (1, 1).
 */
module DynamicProgramming {
  import opened Tuples

  /** Table coordinates (`Tuple<Integer>` with non-null components): elem1 indexes the width, elem2 the height. */
  type Coords = Tuple<int>

  /** Cell a is computed before cell b: rows of equal elem2 are filled one after another, elem1 varying fastest. */
  predicate Before(a: Coords, b: Coords) {
    a.elem2 < b.elem2 || (a.elem2 == b.elem2 && a.elem1 < b.elem1)
  }

  /** A cell the fill loop computes: neither elem1 nor elem2 is 0, the cells `init` fills. */
  predicate Interior(width: int, height: int, c: Coords) {
    1 <= c.elem1 < width && 1 <= c.elem2 < height
  }

  predicate InBounds(width: int, height: int, c: Coords) {
    0 <= c.elem1 < width && 0 <= c.elem2 < height
  }

  /** p is one of the three cells a traceback may step to from c: diagonal, vertical or horizontal. */
  predicate IsPredecessor(p: Coords, c: Coords) {
    p == Tuple(c.elem1 - 1, c.elem2 - 1) || p == Tuple(c.elem1 - 1, c.elem2) || p == Tuple(c.elem1, c.elem2 - 1)
  }

  /** `nextCoords`: advance elem1, or go back to elem1 = 1 with elem2 advanced (elem1 = 0 is filled by `init`). */
  function NextCoords(width: int, coords: Coords): Coords {
    if coords.elem1 + 1 < width then Tuple(coords.elem1 + 1, coords.elem2) else Tuple(1, coords.elem2 + 1)
  }

  /** From a cell with elem1 in 1..width-1, `nextCoords` gives the very next such cell in fill order. */
  lemma NextCoordsIsSuccessor(width: int, c: Coords)
    requires 1 <= c.elem1 < width
    ensures Before(c, NextCoords(width, c))
    ensures 1 <= NextCoords(width, c).elem1 < width
    ensures forall x: Coords :: 1 <= x.elem1 < width && Before(c, x) ==> x == NextCoords(width, c) || Before(NextCoords(width, c), x)
  {
  }

  /** A cell with elem1 in 1..width-1 before the successor of `c` is `c` or before it. */
  lemma BeforeNextCoords(width: int, c: Coords, x: Coords)
    requires 1 <= c.elem1 < width && 1 <= x.elem1 < width
    requires Before(x, NextCoords(width, c))
    ensures x == c || Before(x, c)
  {
  }

  /** The cells the fill loop of `compute` visits, in order, when it is at `c`. */
  function FillSequence(width: int, height: int, c: Coords): seq<Coords>
    requires 1 <= c.elem1
    decreases height - c.elem2, width - c.elem1
  {
    if c.elem1 < width && c.elem2 < height then [c] + FillSequence(width, height, NextCoords(width, c)) else []
  }

  /** The cells `compute` fills, in order, starting from `getCoordsAfterInit()` = (1, 1). */
  function FillOrder(width: int, height: int): seq<Coords> {
    FillSequence(width, height, Tuple(1, 1))
  }

  /** From `c` on, the loop visits exactly the interior cells at or after `c` in fill order. */
  lemma {:induction false} FillSequenceElements(width: int, height: int, c: Coords)
    requires 1 <= c.elem1 && 1 <= c.elem2
    requires c.elem1 < width || width <= 1
    ensures forall x :: x in FillSequence(width, height, c) <==> Interior(width, height, x) && !Before(x, c)
    decreases height - c.elem2, width - c.elem1
  {
    if c.elem1 < width && c.elem2 < height {
      var next := NextCoords(width, c);
      NextCoordsIsSuccessor(width, c);
      FillSequenceElements(width, height, next);
    }
  }

  /** The loop visits cells in strictly increasing fill order. */
  lemma {:induction false} FillSequenceIncreasing(width: int, height: int, c: Coords)
    requires 1 <= c.elem1 && 1 <= c.elem2
    requires c.elem1 < width || width <= 1
    ensures forall k, l :: 0 <= k < l < |FillSequence(width, height, c)| ==>
      Before(FillSequence(width, height, c)[k], FillSequence(width, height, c)[l])
    decreases height - c.elem2, width - c.elem1
  {
    if c.elem1 < width && c.elem2 < height {
      var next := NextCoords(width, c);
      NextCoordsIsSuccessor(width, c);
      FillSequenceIncreasing(width, height, next);
      FillSequenceElements(width, height, next);
      var s, t := FillSequence(width, height, c), FillSequence(width, height, next);
      assert s == [c] + t;
      forall k, l | 0 <= k < l < |s| ensures Before(s[k], s[l]) {
        if k > 0 {
          assert s[k] == t[k - 1] && s[l] == t[l - 1];
        } else {
          assert s[k] == c;
          assert s[l] == t[l - 1] && s[l] in t;
          assert s[l] == next || Before(next, s[l]);
        }
      }
    }
  }

  /**
   * Starting from (1, 1), the fill loop visits every interior cell exactly
   * once, elem1 varying fastest, and nothing else; hence not at all when
   * the table is one cell wide or high. When a cell is visited its three
   * predecessors are boundary cells or were visited before it.
   */
  lemma FillOrderFromStart(width: int, height: int)
    ensures forall x :: x in FillOrder(width, height) <==> Interior(width, height, x)
    ensures forall k, l :: 0 <= k < l < |FillOrder(width, height)| ==>
      Before(FillOrder(width, height)[k], FillOrder(width, height)[l]) && FillOrder(width, height)[k] != FillOrder(width, height)[l]
    ensures width <= 1 || height <= 1 ==> FillOrder(width, height) == []
    ensures forall k, p :: 0 <= k < |FillOrder(width, height)| && IsPredecessor(p, FillOrder(width, height)[k]) ==>
      p.elem1 == 0 || p.elem2 == 0 || p in FillOrder(width, height)[..k]
  {
    var s := FillOrder(width, height);
    if width > 1 {
      FillSequenceElements(width, height, Tuple(1, 1));
      FillSequenceIncreasing(width, height, Tuple(1, 1));
    }
    forall k, p | 0 <= k < |s| && IsPredecessor(p, s[k])
      ensures p.elem1 == 0 || p.elem2 == 0 || p in s[..k]
    {
      if p.elem1 != 0 && p.elem2 != 0 {
        assert s[k] in s;
        assert Interior(width, height, p);
        var l :| 0 <= l < |s| && s[l] == p;
        assert l < k;
        assert s[..k][l] == p;
      }
    }
  }
}

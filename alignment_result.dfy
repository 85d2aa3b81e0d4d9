/**
 * `AlignmentResult`: the two sequences, score and traceback of an
 * alignment; the containment test over the traceback's end points; the walk
 * (`walkResult`) that hands every symbol of both sequences to an event
 * handler; and the two handlers built on it, the merge of seq2 onto seq1 and
 * the three-row `toString`. The handler callbacks are modelled as the list
 * of events the walk produces, which the handlers then fold.
 */
module AlignmentResults {
  import opened JavaLang
  import opened Tuples
  import opened DynamicProgramming
  import OverlapRecurrence

  function Max(a: int, b: int): int {
    if a >= b then a else b
  }

  /** Which callback of `ResultWalkingEventHandler` an event goes to. */
  datatype Phase = BeforeAlignment | InAlignment | AfterAlignment

  /** One callback with its two `Character` arguments; null stands for "not begun", a gap, or "already ended". */
  datatype WalkEvent = WalkEvent(phase: Phase, char1: Nullable<char>, char2: Nullable<char>)

  /**
   * `doesSeq1ContainSeq2`: `get(0)` on an empty traceback throws. Otherwise
   * the four cases of the code come to one rule: on the left, seq1 starts
   * before the alignment or seq2 starts with it; on the right, seq1 goes on
   * after the alignment or seq2 ends with it.
   */
  function Contains(seq1: seq<char>, seq2: seq<char>, traceback: seq<Coords>): (r: Result<bool>)
    ensures r.Failure? <==> |traceback| == 0
    ensures r.Failure? ==> r.error == IndexOutOfBounds
    ensures r.Success? ==> (r.value <==>
      && (traceback[0].elem1 > 0 || traceback[0].elem2 == 0)
      && (traceback[|traceback| - 1].elem1 < |seq1| - 1 || traceback[|traceback| - 1].elem2 == |seq2| - 1))
  {
    if |traceback| == 0 then Failure(IndexOutOfBounds)
    else
      var start1, start2 := traceback[0].elem1, traceback[0].elem2;
      var end1, end2 := traceback[|traceback| - 1].elem1, traceback[|traceback| - 1].elem2;
      if end1 < |seq1| - 1 && start1 > 0 then Success(true)
      else if start1 > 0 then Success(end2 == |seq2| - 1)
      else if end1 < |seq1| - 1 then Success(start2 == 0)
      else Success(start2 == 0 && end2 == |seq2| - 1)
  }

  /** At step i of the leading loop: null for the first `pad` steps, then the sequence from its start. */
  function LeadChar(s: seq<char>, pad: int, i: int): Nullable<char> {
    if i < pad || i - pad >= |s| then Null else NonNull(s[i - pad])
  }

  /**
   * The first loop of `walkResult`: max(start1, start2) `beforeAlignment`
   * events, each sequence padded with nulls at the front so that its first
   * start symbols end with the loop. An iterator asked for more symbols
   * than its sequence has throws.
   */
  function LeadingEvents(seq1: seq<char>, seq2: seq<char>, start1: int, start2: int): Result<seq<WalkEvent>> {
    var m := Max(start1, start2);
    if start1 > |seq1| || start2 > |seq2| then Failure(NoSuchElement)
    else Success(seq(Max(m, 0), i => WalkEvent(BeforeAlignment, LeadChar(seq1, m - start1, i), LeadChar(seq2, m - start2, i))))
  }

  /** The last loop of `walkResult`, the iterators at p1 and p2: `afterAlignment` events until both sequences are used up. */
  function TrailingEvents(seq1: seq<char>, seq2: seq<char>, p1: nat, p2: nat): seq<WalkEvent>
    requires p1 <= |seq1| && p2 <= |seq2|
    decreases |seq1| - p1 + |seq2| - p2
  {
    if p1 == |seq1| && p2 == |seq2| then []
    else
      [WalkEvent(AfterAlignment, if p1 < |seq1| then NonNull(seq1[p1]) else Null, if p2 < |seq2| then NonNull(seq2[p2]) else Null)]
      + TrailingEvents(seq1, seq2, if p1 < |seq1| then p1 + 1 else p1, if p2 < |seq2| then p2 + 1 else p2)
  }

  /** A coordinate compared with `==`: as `Integer` objects boxed apart when `identity`, otherwise by value. */
  predicate SameCoordinate(a: int, b: int, identity: bool) {
    if identity then OverlapRecurrence.SameBoxedInteger(a, b) else a == b
  }

  function Prepend(events: seq<WalkEvent>, r: Result<seq<WalkEvent>>): Result<seq<WalkEvent>> {
    if r.Failure? then r else Success(events + r.value)
  }

  lemma PrependPrepend(a: seq<WalkEvent>, b: seq<WalkEvent>, r: Result<seq<WalkEvent>>)
    ensures Prepend(a, Prepend(b, r)) == Prepend(a + b, r)
  {
    if r.Success? {
      assert a + (b + r.value) == (a + b) + r.value;
    }
  }

  /**
   * The middle loop of `walkResult` from the step into `traceback[k]`, the
   * iterators at p1 and p2, followed by the last loop: one `inAlignment`
   * event per step, taking the next symbol of a sequence when its
   * coordinate changes and null otherwise.
   */
  function AlignedEvents(seq1: seq<char>, seq2: seq<char>, traceback: seq<Coords>, k: nat, p1: nat, p2: nat,
                         identity: bool): Result<seq<WalkEvent>>
    requires 1 <= k <= |traceback| && p1 <= |seq1| && p2 <= |seq2|
    decreases |traceback| - k
  {
    if k == |traceback| then Success(TrailingEvents(seq1, seq2, p1, p2))
    else
      var stay1 := SameCoordinate(traceback[k].elem1, traceback[k - 1].elem1, identity);
      var stay2 := SameCoordinate(traceback[k].elem2, traceback[k - 1].elem2, identity);
      if !stay1 && p1 == |seq1| then Failure(NoSuchElement)
      else if !stay2 && p2 == |seq2| then Failure(NoSuchElement)
      else
        Prepend([WalkEvent(InAlignment, if stay1 then Null else NonNull(seq1[p1]), if stay2 then Null else NonNull(seq2[p2]))],
          AlignedEvents(seq1, seq2, traceback, k + 1, if stay1 then p1 else p1 + 1, if stay2 then p2 else p2 + 1, identity))
  }

  /** The events `walkResult` raises, or the exception it throws (the events raised before it are then irrelevant). */
  function ResultWalk(seq1: seq<char>, seq2: seq<char>, traceback: seq<Coords>, identity: bool): Result<seq<WalkEvent>> {
    if |traceback| == 0 then Failure(IndexOutOfBounds)
    else
      var lead := LeadingEvents(seq1, seq2, traceback[0].elem1, traceback[0].elem2);
      if lead.Failure? then lead
      else Prepend(lead.value, AlignedEvents(seq1, seq2, traceback, 1, Max(0, traceback[0].elem1), Max(0, traceback[0].elem2), identity))
  }

  /** Within the `Integer` cache the middle loop by identity raises the same events as by value. */
  lemma {:induction false} AlignedEventsCached(seq1: seq<char>, seq2: seq<char>, traceback: seq<Coords>, k: nat, p1: nat, p2: nat)
    requires OverlapRecurrence.InIntegerCache(traceback)
    requires 1 <= k <= |traceback| && p1 <= |seq1| && p2 <= |seq2|
    ensures AlignedEvents(seq1, seq2, traceback, k, p1, p2, true) == AlignedEvents(seq1, seq2, traceback, k, p1, p2, false)
    decreases |traceback| - k
  {
    if k < |traceback| {
      var stay1 := traceback[k].elem1 == traceback[k - 1].elem1;
      var stay2 := traceback[k].elem2 == traceback[k - 1].elem2;
      assert SameCoordinate(traceback[k].elem1, traceback[k - 1].elem1, true) == stay1;
      assert SameCoordinate(traceback[k].elem2, traceback[k - 1].elem2, true) == stay2;
      if !(!stay1 && p1 == |seq1|) && !(!stay2 && p2 == |seq2|) {
        AlignedEventsCached(seq1, seq2, traceback, k + 1, if stay1 then p1 else p1 + 1, if stay2 then p2 else p2 + 1);
      }
    }
  }

  /** For a traceback inside the `Integer` cache, the code's `walkResult` is exactly the corrected one. */
  lemma ResultWalkCached(seq1: seq<char>, seq2: seq<char>, traceback: seq<Coords>)
    requires OverlapRecurrence.InIntegerCache(traceback)
    ensures ResultWalk(seq1, seq2, traceback, true) == ResultWalk(seq1, seq2, traceback, false)
  {
    if |traceback| > 0 && LeadingEvents(seq1, seq2, traceback[0].elem1, traceback[0].elem2).Success? {
      AlignedEventsCached(seq1, seq2, traceback, 1, Max(0, traceback[0].elem1), Max(0, traceback[0].elem2));
    }
  }

  /** What a fold over the events collects: the symbols of seq1, those of seq2, or what the merge handler appends. */
  datatype Selection = Seq1Symbols | Seq2Symbols | AppendedSymbols

  function Picked(e: WalkEvent, sel: Selection): seq<char> {
    match sel
    case Seq1Symbols => if e.char1.NonNull? then [e.char1.value] else []
    case Seq2Symbols => if e.char2.NonNull? then [e.char2.value] else []
    case AppendedSymbols => if e.phase == AfterAlignment && e.char1.Null? && e.char2.NonNull? then [e.char2.value] else []
  }

  function Collect(events: seq<WalkEvent>, sel: Selection): seq<char>
    decreases |events|
  {
    if |events| == 0 then [] else Picked(events[0], sel) + Collect(events[1..], sel)
  }

  lemma {:induction false} CollectAppend(a: seq<WalkEvent>, b: seq<WalkEvent>, sel: Selection)
    ensures Collect(a + b, sel) == Collect(a, sel) + Collect(b, sel)
    decreases |a|
  {
    if |a| == 0 {
      assert a + b == b;
    } else {
      assert (a + b)[1..] == a[1..] + b;
      CollectAppend(a[1..], b, sel);
    }
  }

  lemma CollectSnoc(a: seq<WalkEvent>, e: WalkEvent, sel: Selection)
    ensures Collect(a + [e], sel) == Collect(a, sel) + Picked(e, sel)
  {
    CollectAppend(a, [e], sel);
    assert [e][1..] == [];
  }

  /** The merge handler appends nothing from events outside the trailing phase. */
  lemma {:induction false} NothingAppendedOutsideTrailing(events: seq<WalkEvent>)
    requires forall i :: 0 <= i < |events| ==> events[i].phase != AfterAlignment
    ensures Collect(events, AppendedSymbols) == []
    decreases |events|
  {
    if |events| > 0 {
      NothingAppendedOutsideTrailing(events[1..]);
    }
  }

  /** The leading loop, for a start inside both sequences, hands on exactly their first start1 and start2 symbols. */
  lemma {:induction false} LeadingSuffix(lead: seq<WalkEvent>, s: seq<char>, pad: int, sel: Selection, i: nat)
    requires sel != AppendedSymbols
    requires 0 <= pad <= |lead| && |lead| - pad <= |s| && i <= |lead|
    requires forall j :: 0 <= j < |lead| ==>
      (if sel == Seq1Symbols then lead[j].char1 else lead[j].char2) == LeadChar(s, pad, j)
    ensures Collect(lead[i..], sel) == s[Max(0, i - pad)..|lead| - pad]
    decreases |lead| - i
  {
    if i < |lead| {
      LeadingSuffix(lead, s, pad, sel, i + 1);
      assert lead[i..][1..] == lead[i + 1..];
      if i >= pad {
        assert s[i - pad..|lead| - pad] == [s[i - pad]] + s[i + 1 - pad..|lead| - pad];
      }
    }
  }

  lemma LeadingFacts(seq1: seq<char>, seq2: seq<char>, start1: int, start2: int)
    requires 0 <= start1 <= |seq1| && 0 <= start2 <= |seq2|
    ensures LeadingEvents(seq1, seq2, start1, start2).Success?
    ensures var lead := LeadingEvents(seq1, seq2, start1, start2).value;
      && |lead| == Max(start1, start2)
      && (forall i :: 0 <= i < |lead| ==> lead[i].phase == BeforeAlignment)
      && Collect(lead, Seq1Symbols) == seq1[..start1]
      && Collect(lead, Seq2Symbols) == seq2[..start2]
      && Collect(lead, AppendedSymbols) == []
  {
    var lead := LeadingEvents(seq1, seq2, start1, start2).value;
    var m := Max(start1, start2);
    assert lead[0..] == lead;
    LeadingSuffix(lead, seq1, m - start1, Seq1Symbols, 0);
    LeadingSuffix(lead, seq2, m - start2, Seq2Symbols, 0);
    NothingAppendedOutsideTrailing(lead);
  }

  /** The trailing loop raises as many events as the longer remainder has symbols, all of them `afterAlignment`. */
  lemma {:induction false} TrailingShape(seq1: seq<char>, seq2: seq<char>, p1: nat, p2: nat)
    requires p1 <= |seq1| && p2 <= |seq2|
    ensures |TrailingEvents(seq1, seq2, p1, p2)| == Max(|seq1| - p1, |seq2| - p2)
    ensures forall i :: 0 <= i < |TrailingEvents(seq1, seq2, p1, p2)| ==> TrailingEvents(seq1, seq2, p1, p2)[i].phase == AfterAlignment
    decreases |seq1| - p1 + |seq2| - p2
  {
    if !(p1 == |seq1| && p2 == |seq2|) {
      var q1 := if p1 < |seq1| then p1 + 1 else p1;
      var q2 := if p2 < |seq2| then p2 + 1 else p2;
      TrailingShape(seq1, seq2, q1, q2);
      var t, u := TrailingEvents(seq1, seq2, p1, p2), TrailingEvents(seq1, seq2, q1, q2);
      assert t == [t[0]] + u;
      forall i | 0 <= i < |t| ensures t[i].phase == AfterAlignment {
        if i > 0 {
          assert t[i] == u[i - 1];
        }
      }
    }
  }

  /**
   * The trailing loop from positions p1 and p2 hands on both remainders,
   * and the merge handler collects the symbols of seq2 that come after
   * seq1 is used up.
   */
  lemma {:induction false} TrailingCollect(seq1: seq<char>, seq2: seq<char>, p1: nat, p2: nat)
    requires p1 <= |seq1| && p2 <= |seq2|
    ensures Collect(TrailingEvents(seq1, seq2, p1, p2), Seq1Symbols) == seq1[p1..]
    ensures Collect(TrailingEvents(seq1, seq2, p1, p2), Seq2Symbols) == seq2[p2..]
    decreases |seq1| - p1 + |seq2| - p2
  {
    if !(p1 == |seq1| && p2 == |seq2|) {
      var q1 := if p1 < |seq1| then p1 + 1 else p1;
      var q2 := if p2 < |seq2| then p2 + 1 else p2;
      TrailingCollect(seq1, seq2, q1, q2);
      var t := TrailingEvents(seq1, seq2, p1, p2);
      assert t[1..] == TrailingEvents(seq1, seq2, q1, q2);
      if p1 < |seq1| {
        assert seq1[p1..] == [seq1[p1]] + seq1[q1..];
      }
      if p2 < |seq2| {
        assert seq2[p2..] == [seq2[p2]] + seq2[q2..];
      }
    }
  }

  /** The merge handler takes from the last loop the symbols of seq2 that come after seq1 is used up. */
  lemma {:induction false} TrailingAppends(seq1: seq<char>, seq2: seq<char>, p1: nat, p2: nat)
    requires p1 <= |seq1| && p2 <= |seq2|
    ensures Collect(TrailingEvents(seq1, seq2, p1, p2), AppendedSymbols)
      == (if p2 + (|seq1| - p1) < |seq2| then seq2[p2 + (|seq1| - p1)..] else [])
    decreases |seq1| - p1 + |seq2| - p2
  {
    if !(p1 == |seq1| && p2 == |seq2|) {
      var q1 := if p1 < |seq1| then p1 + 1 else p1;
      var q2 := if p2 < |seq2| then p2 + 1 else p2;
      TrailingAppends(seq1, seq2, q1, q2);
      var t := TrailingEvents(seq1, seq2, p1, p2);
      assert t[1..] == TrailingEvents(seq1, seq2, q1, q2);
      if p1 == |seq1| {
        assert seq2[p2..] == [seq2[p2]] + seq2[q2..];
      }
    }
  }

  /** The event of the middle loop for the step from `prev` to `cur`, the iterators at prev's coordinates. */
  function StepEvent(seq1: seq<char>, seq2: seq<char>, prev: Coords, cur: Coords): WalkEvent {
    WalkEvent(InAlignment,
      if cur.elem1 != prev.elem1 && 0 <= prev.elem1 < |seq1| then NonNull(seq1[prev.elem1]) else Null,
      if cur.elem2 != prev.elem2 && 0 <= prev.elem2 < |seq2| then NonNull(seq2[prev.elem2]) else Null)
  }

  /** The events of the middle loop from the step into `traceback[k]` on. */
  function AlignedSteps(seq1: seq<char>, seq2: seq<char>, traceback: seq<Coords>, k: nat): seq<WalkEvent>
    requires 1 <= k <= |traceback|
    decreases |traceback| - k
  {
    if k == |traceback| then [] else [StepEvent(seq1, seq2, traceback[k - 1], traceback[k])] + AlignedSteps(seq1, seq2, traceback, k + 1)
  }

  /**
   * Along a traceback that moves one cell at a time inside the table,
   * compared by value, the middle loop never runs out: it raises one step
   * event per step and leaves the iterators at the end cell's coordinates
   * for the last loop.
   */
  lemma {:induction false} AlignedByValue(seq1: seq<char>, seq2: seq<char>, traceback: seq<Coords>, k: nat)
    requires OverlapRecurrence.UnitPath(traceback, |seq1|, |seq2|) && 1 <= k <= |traceback|
    ensures AlignedEvents(seq1, seq2, traceback, k, traceback[k - 1].elem1, traceback[k - 1].elem2, false)
      == Success(AlignedSteps(seq1, seq2, traceback, k)
                 + TrailingEvents(seq1, seq2, traceback[|traceback| - 1].elem1, traceback[|traceback| - 1].elem2))
    decreases |traceback| - k
  {
    if k < |traceback| {
      assert OverlapRecurrence.StepAt(traceback, k - 1);
      AlignedByValue(seq1, seq2, traceback, k + 1);
      var prev, cur := traceback[k - 1], traceback[k];
      var e := StepEvent(seq1, seq2, prev, cur);
      var s := AlignedSteps(seq1, seq2, traceback, k + 1);
      assert AlignedEvents(seq1, seq2, traceback, k, prev.elem1, prev.elem2, false)
        == Prepend([e], AlignedEvents(seq1, seq2, traceback, k + 1, cur.elem1, cur.elem2, false));
      var t := TrailingEvents(seq1, seq2, traceback[|traceback| - 1].elem1, traceback[|traceback| - 1].elem2);
      assert [e] + (s + t) == ([e] + s) + t;
    } else {
      var t := TrailingEvents(seq1, seq2, traceback[k - 1].elem1, traceback[k - 1].elem2);
      assert [] + t == t;
    }
  }

  /** Step i of the middle loop from k passes the symbols at the coordinates that change, as `StepEvent` says. */
  lemma {:induction false} AlignedStepsShape(seq1: seq<char>, seq2: seq<char>, traceback: seq<Coords>, k: nat)
    requires 1 <= k <= |traceback|
    ensures |AlignedSteps(seq1, seq2, traceback, k)| == |traceback| - k
    ensures forall i :: 0 <= i < |traceback| - k ==>
      AlignedSteps(seq1, seq2, traceback, k)[i] == StepEvent(seq1, seq2, traceback[k + i - 1], traceback[k + i])
    decreases |traceback| - k
  {
    if k < |traceback| {
      AlignedStepsShape(seq1, seq2, traceback, k + 1);
      var s, u := AlignedSteps(seq1, seq2, traceback, k), AlignedSteps(seq1, seq2, traceback, k + 1);
      forall i | 0 <= i < |traceback| - k
        ensures s[i] == StepEvent(seq1, seq2, traceback[k + i - 1], traceback[k + i])
      {
        if i > 0 {
          assert s[i] == u[i - 1];
        }
      }
    }
  }

  /** The coordinate of a cell that indexes the sequence a selection takes its symbols from. */
  function Coord(c: Coords, sel: Selection): int {
    if sel == Seq1Symbols then c.elem1 else c.elem2
  }

  function SideOf(seq1: seq<char>, seq2: seq<char>, sel: Selection): seq<char> {
    if sel == Seq1Symbols then seq1 else seq2
  }

  /**
   * Along a traceback that moves one cell at a time, the middle loop hands
   * on the symbols of either sequence between the coordinates of its end
   * points.
   */
  lemma {:induction false} AlignedStepsCollect(seq1: seq<char>, seq2: seq<char>, traceback: seq<Coords>, k: nat, sel: Selection)
    requires OverlapRecurrence.UnitPath(traceback, |seq1|, |seq2|) && 1 <= k <= |traceback| && sel != AppendedSymbols
    ensures Coord(traceback[k - 1], sel) <= Coord(traceback[|traceback| - 1], sel) <= |SideOf(seq1, seq2, sel)|
    ensures Collect(AlignedSteps(seq1, seq2, traceback, k), sel)
      == SideOf(seq1, seq2, sel)[Coord(traceback[k - 1], sel)..Coord(traceback[|traceback| - 1], sel)]
    decreases |traceback| - k
  {
    var prev, last := traceback[k - 1], traceback[|traceback| - 1];
    var side := SideOf(seq1, seq2, sel);
    if k < |traceback| {
      var cur := traceback[k];
      assert OverlapRecurrence.StepAt(traceback, k - 1);
      AlignedStepsCollect(seq1, seq2, traceback, k + 1, sel);
      var s := AlignedSteps(seq1, seq2, traceback, k);
      assert s[1..] == AlignedSteps(seq1, seq2, traceback, k + 1);
      if Coord(cur, sel) != Coord(prev, sel) {
        assert side[Coord(prev, sel)..Coord(last, sel)] == [side[Coord(prev, sel)]] + side[Coord(cur, sel)..Coord(last, sel)];
      }
    }
  }

  /** A sequence is its parts before a, between a and b, and from b on. */
  lemma SplitThree(s: seq<char>, a: int, b: int)
    requires 0 <= a <= b <= |s|
    ensures s[..a] + (s[a..b] + s[b..]) == s
  {
  }

  /** Along a traceback that moves one cell at a time inside the table, the walk by value is its three loops' events. */
  lemma WalkDecomposes(seq1: seq<char>, seq2: seq<char>, traceback: seq<Coords>)
    requires OverlapRecurrence.UnitPath(traceback, |seq1|, |seq2|) && |traceback| > 0
    ensures LeadingEvents(seq1, seq2, traceback[0].elem1, traceback[0].elem2).Success?
    ensures ResultWalk(seq1, seq2, traceback, false)
      == Success(LeadingEvents(seq1, seq2, traceback[0].elem1, traceback[0].elem2).value
                 + (AlignedSteps(seq1, seq2, traceback, 1)
                    + TrailingEvents(seq1, seq2, traceback[|traceback| - 1].elem1, traceback[|traceback| - 1].elem2)))
  {
    AlignedByValue(seq1, seq2, traceback, 1);
  }

  /**
   * Along a traceback that moves one cell at a time inside the table, the
   * walk compared by value hands on every symbol of both sequences exactly
   * once and in order.
   */
  lemma WalkSpellsSequences(seq1: seq<char>, seq2: seq<char>, traceback: seq<Coords>)
    requires OverlapRecurrence.UnitPath(traceback, |seq1|, |seq2|) && |traceback| > 0
    ensures ResultWalk(seq1, seq2, traceback, false).Success?
    ensures Collect(ResultWalk(seq1, seq2, traceback, false).value, Seq1Symbols) == seq1
    ensures Collect(ResultWalk(seq1, seq2, traceback, false).value, Seq2Symbols) == seq2
  {
    var start, end := traceback[0], traceback[|traceback| - 1];
    WalkDecomposes(seq1, seq2, traceback);
    LeadingFacts(seq1, seq2, start.elem1, start.elem2);
    AlignedStepsCollect(seq1, seq2, traceback, 1, Seq1Symbols);
    AlignedStepsCollect(seq1, seq2, traceback, 1, Seq2Symbols);
    TrailingCollect(seq1, seq2, end.elem1, end.elem2);
    var lead := LeadingEvents(seq1, seq2, start.elem1, start.elem2).value;
    var steps := AlignedSteps(seq1, seq2, traceback, 1);
    var trail := TrailingEvents(seq1, seq2, end.elem1, end.elem2);
    forall sel: Selection ensures Collect(lead + (steps + trail), sel) == Collect(lead, sel) + (Collect(steps, sel) + Collect(trail, sel)) {
      CollectAppend(steps, trail, sel);
      CollectAppend(lead, steps + trail, sel);
    }
    SplitThree(seq1, start.elem1, end.elem1);
    SplitThree(seq2, start.elem2, end.elem2);
  }

  /**
   * Along a traceback that moves one cell at a time inside the table, the
   * walk raises max(start1, start2) leading events, one aligned event per
   * step and max(|seq1| - end1, |seq2| - end2) trailing events.
   */
  lemma WalkEventCount(seq1: seq<char>, seq2: seq<char>, traceback: seq<Coords>)
    requires OverlapRecurrence.UnitPath(traceback, |seq1|, |seq2|) && |traceback| > 0
    ensures ResultWalk(seq1, seq2, traceback, false).Success?
    ensures |ResultWalk(seq1, seq2, traceback, false).value|
      == Max(traceback[0].elem1, traceback[0].elem2) + (|traceback| - 1)
         + Max(|seq1| - traceback[|traceback| - 1].elem1, |seq2| - traceback[|traceback| - 1].elem2)
  {
    var start, end := traceback[0], traceback[|traceback| - 1];
    WalkDecomposes(seq1, seq2, traceback);
    LeadingFacts(seq1, seq2, start.elem1, start.elem2);
    AlignedStepsShape(seq1, seq2, traceback, 1);
    TrailingShape(seq1, seq2, end.elem1, end.elem2);
  }

  /**
   * Along a traceback that moves one cell at a time inside the table, the
   * merge handler collects seq2 from index end2 + (|seq1| - end1) on: the
   * symbols of seq2 the walk meets after seq1 is used up.
   */
  lemma WalkAppendsTailOfSeq2(seq1: seq<char>, seq2: seq<char>, traceback: seq<Coords>)
    requires OverlapRecurrence.UnitPath(traceback, |seq1|, |seq2|) && |traceback| > 0
    ensures ResultWalk(seq1, seq2, traceback, false).Success?
    ensures var end := traceback[|traceback| - 1];
      Collect(ResultWalk(seq1, seq2, traceback, false).value, AppendedSymbols)
        == (if end.elem2 + (|seq1| - end.elem1) < |seq2| then seq2[end.elem2 + (|seq1| - end.elem1)..] else [])
  {
    var start, end := traceback[0], traceback[|traceback| - 1];
    WalkDecomposes(seq1, seq2, traceback);
    var lead := LeadingEvents(seq1, seq2, start.elem1, start.elem2).value;
    var steps := AlignedSteps(seq1, seq2, traceback, 1);
    var trail := TrailingEvents(seq1, seq2, end.elem1, end.elem2);
    NothingAppendedOutsideTrailing(lead);
    AlignedStepsAppendNothing(seq1, seq2, traceback, 1);
    TrailingAppends(seq1, seq2, end.elem1, end.elem2);
    CollectAppend(steps, trail, AppendedSymbols);
    CollectAppend(lead, steps + trail, AppendedSymbols);
  }

  /** Step events belong to the alignment, so the merge handler appends nothing from them. */
  lemma {:induction false} AlignedStepsAppendNothing(seq1: seq<char>, seq2: seq<char>, traceback: seq<Coords>, k: nat)
    requires 1 <= k <= |traceback|
    ensures Collect(AlignedSteps(seq1, seq2, traceback, k), AppendedSymbols) == []
    decreases |traceback| - k
  {
    if k < |traceback| {
      var e := StepEvent(seq1, seq2, traceback[k - 1], traceback[k]);
      var rest := AlignedSteps(seq1, seq2, traceback, k + 1);
      AlignedStepsAppendNothing(seq1, seq2, traceback, k + 1);
      assert AlignedSteps(seq1, seq2, traceback, k) == [e] + rest;
      assert ([e] + rest)[1..] == rest;
      assert Picked(e, AppendedSymbols) == [];
    }
  }

  /**
   * `walkResult` as written compares the coordinates with `==` on `Integer`
   * objects. On the step from (0, 128) to (1, 128) the two objects holding elem2
   * differ, so the walk takes seq2[128] although elem2 did not change: the
   * symbol is paired with 'A' instead of a gap, and the trailing loop that
   * would have handed it to the merge has nothing left.
   */
  lemma WalkIdentityMisaligns()
    ensures var seq2 := seq(129, _ => 'C');
      var path := [Tuple(0, 128), Tuple(1, 128)];
      && OverlapRecurrence.UnitPath(path, 1, 129)
      && ResultWalk("A", seq2, path, false).Success?
      && |ResultWalk("A", seq2, path, false).value| == 130
      && ResultWalk("A", seq2, path, false).value[128] == WalkEvent(InAlignment, NonNull('A'), Null)
      && ResultWalk("A", seq2, path, false).value[129] == WalkEvent(AfterAlignment, Null, NonNull('C'))
      && ResultWalk("A", seq2, path, true).Success?
      && |ResultWalk("A", seq2, path, true).value| == 129
      && ResultWalk("A", seq2, path, true).value[128] == WalkEvent(InAlignment, NonNull('A'), NonNull('C'))
  {
    var seq2 := seq(129, _ => 'C');
    var path := [Tuple(0, 128), Tuple(1, 128)];
    assert !OverlapRecurrence.SameBoxedInteger(128, 128);
    var lead := LeadingEvents("A", seq2, 0, 128);
    assert |lead.value| == 128;
    assert TrailingEvents("A", seq2, 1, 129) == [];
    assert TrailingEvents("A", seq2, 1, 128) == [WalkEvent(AfterAlignment, Null, NonNull(seq2[128]))] + TrailingEvents("A", seq2, 1, 129);
    assert AlignedEvents("A", seq2, path, 1, 0, 128, false) == Success([WalkEvent(InAlignment, NonNull('A'), Null)] + TrailingEvents("A", seq2, 1, 128));
    assert AlignedEvents("A", seq2, path, 1, 0, 128, true) == Success([WalkEvent(InAlignment, NonNull('A'), NonNull(seq2[128]))] + TrailingEvents("A", seq2, 1, 129));
  }

  /** `mergeSeq2ToRightOfSeq1` on values: seq1 as it is when contained, otherwise with what the merge handler collects appended. */
  function Merged(seq1: seq<char>, seq2: seq<char>, traceback: seq<Coords>): Result<seq<char>> {
    var contained := Contains(seq1, seq2, traceback);
    if contained.Failure? then Failure(contained.error)
    else if contained.value then Success(seq1)
    else
      var walk := ResultWalk(seq1, seq2, traceback, false);
      if walk.Failure? then Failure(walk.error)
      else Success(seq1 + Collect(walk.value, AppendedSymbols))
  }

  /**
   * Merging only appends: along a traceback that moves one cell at a time
   * inside the table, seq1 is returned as it is when it contains seq2, and
   * otherwise followed by seq2 from index end2 + (|seq1| - end1) on.
   */
  lemma MergeAppendsTailOfSeq2(seq1: seq<char>, seq2: seq<char>, traceback: seq<Coords>)
    requires OverlapRecurrence.UnitPath(traceback, |seq1|, |seq2|) && |traceback| > 0
    ensures Merged(seq1, seq2, traceback).Success?
    ensures var end := traceback[|traceback| - 1];
      var r := Merged(seq1, seq2, traceback).value;
      && |seq1| <= |r| && r[..|seq1|] == seq1
      && (Contains(seq1, seq2, traceback).value ==> r == seq1)
      && (!Contains(seq1, seq2, traceback).value ==>
            r == seq1 + (if end.elem2 + (|seq1| - end.elem1) < |seq2| then seq2[end.elem2 + (|seq1| - end.elem1)..] else []))
  {
    WalkAppendsTailOfSeq2(seq1, seq2, traceback);
  }

  /** The three rows of `toString`. */
  datatype Row = TopRow | MiddleRow | BottomRow

  /** The character an event appends to a row: a symbol, '-' for a gap, ' ' outside the alignment; the middle row marks matches. */
  function RowChar(e: WalkEvent, row: Row): char {
    var outside := e.phase != InAlignment;
    match row
    case TopRow => if e.char1.NonNull? then e.char1.value else if outside then ' ' else '-'
    case MiddleRow =>
      if outside then ' '
      else if e.char1.NonNull? && e.char2.NonNull? then (if e.char1.value == e.char2.value then '|' else 'x')
      else '-'
    case BottomRow => if e.char2.NonNull? then e.char2.value else if outside then ' ' else '-'
  }

  /** A row as its `StringBuilder` holds it after the events. */
  function RowString(events: seq<WalkEvent>, row: Row): string
    decreases |events|
  {
    if |events| == 0 then "" else RowString(events[..|events| - 1], row) + [RowChar(events[|events| - 1], row)]
  }

  function Rendering(score: int32, events: seq<WalkEvent>): string {
    "Score: " + IntToString(score) + "\n"
      + RowString(events, TopRow) + "\n"
      + RowString(events, MiddleRow) + "\n"
      + RowString(events, BottomRow)
  }

  /** What `toString` computes when nothing is cached. */
  function RenderedWalk(seq1: seq<char>, seq2: seq<char>, score: int32, traceback: seq<Coords>): Result<string> {
    var walk := ResultWalk(seq1, seq2, traceback, false);
    if walk.Failure? then Failure(walk.error) else Success(Rendering(score, walk.value))
  }

  /** Every event appends exactly one character to each row, so the three rows have the length of the walk. */
  lemma {:induction false} RowStringShape(events: seq<WalkEvent>, row: Row)
    ensures |RowString(events, row)| == |events|
    ensures forall k :: 0 <= k < |events| ==> RowString(events, row)[k] == RowChar(events[k], row)
    decreases |events|
  {
    if |events| > 0 {
      var init := events[..|events| - 1];
      RowStringShape(init, row);
      forall k | 0 <= k < |events| - 1
        ensures RowString(events, row)[k] == RowChar(events[k], row)
      {
        assert init[k] == events[k];
      }
    }
  }

  /**
   * The middle row has ' ' exactly outside the alignment, '|' exactly for
   * two equal symbols, 'x' exactly for two different ones and '-' exactly
   * for a gap; the outer rows show the symbols the events carry.
   */
  lemma MiddleRowMarks(events: seq<WalkEvent>)
    ensures var top, middle, bottom := RowString(events, TopRow), RowString(events, MiddleRow), RowString(events, BottomRow);
      && |top| == |middle| == |bottom| == |events|
      && forall k :: 0 <= k < |events| ==>
        && (events[k].char1.NonNull? ==> top[k] == events[k].char1.value)
        && (events[k].char2.NonNull? ==> bottom[k] == events[k].char2.value)
        && (middle[k] == ' ' <==> events[k].phase != InAlignment)
        && (middle[k] == '|' <==> events[k].phase == InAlignment && events[k].char1.NonNull? && events[k].char2.NonNull?
                                  && events[k].char1.value == events[k].char2.value)
        && (middle[k] == 'x' <==> events[k].phase == InAlignment && events[k].char1.NonNull? && events[k].char2.NonNull?
                                  && events[k].char1.value != events[k].char2.value)
        && (middle[k] == '-' <==> events[k].phase == InAlignment && (events[k].char1.Null? || events[k].char2.Null?))
  {
    RowStringShape(events, TopRow);
    RowStringShape(events, MiddleRow);
    RowStringShape(events, BottomRow);
  }

  /** The first loop of `walkResult`, from the start of both iterators. */
  method LeadingLoop(seq1: seq<char>, seq2: seq<char>, start1: int, start2: int) returns (r: Result<seq<WalkEvent>>)
    ensures r == LeadingEvents(seq1, seq2, start1, start2)
  {
    var maxStart := Max(start1, start2);
    var pad1, pad2 := maxStart - start1, maxStart - start2;
    var p1: nat, p2: nat := 0, 0;
    var events: seq<WalkEvent> := [];
    var i := 0;
    while i < maxStart
      invariant 0 <= i <= Max(maxStart, 0)
      invariant p1 == (if i <= pad1 then 0 else i - pad1) && p1 <= |seq1|
      invariant p2 == (if i <= pad2 then 0 else i - pad2) && p2 <= |seq2|
      invariant |events| == i
      invariant forall j :: 0 <= j < i ==>
        events[j] == WalkEvent(BeforeAlignment, LeadChar(seq1, pad1, j), LeadChar(seq2, pad2, j))
    {
      var c1: Nullable<char> := Null;
      if i >= pad1 {
        if p1 == |seq1| {
          return Failure(NoSuchElement);
        }
        c1 := NonNull(seq1[p1]);
        p1 := p1 + 1;
      }
      var c2: Nullable<char> := Null;
      if i >= pad2 {
        if p2 == |seq2| {
          return Failure(NoSuchElement);
        }
        c2 := NonNull(seq2[p2]);
        p2 := p2 + 1;
      }
      events := events + [WalkEvent(BeforeAlignment, c1, c2)];
      i := i + 1;
    }
    assert events == LeadingEvents(seq1, seq2, start1, start2).value;
    return Success(events);
  }

  /** The middle loop of `walkResult`, the iterators at p1 and p2 after the first, then the last loop. */
  method AlignedLoop(seq1: seq<char>, seq2: seq<char>, traceback: seq<Coords>, p1: nat, p2: nat) returns (r: Result<seq<WalkEvent>>)
    requires 1 <= |traceback| && p1 <= |seq1| && p2 <= |seq2|
    ensures r == AlignedEvents(seq1, seq2, traceback, 1, p1, p2, false)
  {
    var q1: nat, q2: nat := p1, p2;
    var events: seq<WalkEvent> := [];
    ghost var rest := AlignedEvents(seq1, seq2, traceback, 1, p1, p2, false);
    assert rest.Success? ==> [] + rest.value == rest.value;
    var k := 1;
    while k < |traceback|
      invariant 1 <= k <= |traceback| && q1 <= |seq1| && q2 <= |seq2|
      invariant AlignedEvents(seq1, seq2, traceback, 1, p1, p2, false)
        == Prepend(events, AlignedEvents(seq1, seq2, traceback, k, q1, q2, false))
    {
      var previous, coords := traceback[k - 1], traceback[k];
      var c1: Nullable<char> := Null;
      if coords.elem1 != previous.elem1 {
        if q1 == |seq1| {
          return Failure(NoSuchElement);
        }
        c1 := NonNull(seq1[q1]);
        q1 := q1 + 1;
      }
      var c2: Nullable<char> := Null;
      if coords.elem2 != previous.elem2 {
        if q2 == |seq2| {
          return Failure(NoSuchElement);
        }
        c2 := NonNull(seq2[q2]);
        q2 := q2 + 1;
      }
      PrependPrepend(events, [WalkEvent(InAlignment, c1, c2)], AlignedEvents(seq1, seq2, traceback, k + 1, q1, q2, false));
      events := events + [WalkEvent(InAlignment, c1, c2)];
      k := k + 1;
    }
    var trailing := TrailingLoop(seq1, seq2, q1, q2);
    return Success(events + trailing);
  }

  /** The last loop of `walkResult`: a symbol or null from each iterator until both are used up. */
  method TrailingLoop(seq1: seq<char>, seq2: seq<char>, p1: nat, p2: nat) returns (events: seq<WalkEvent>)
    requires p1 <= |seq1| && p2 <= |seq2|
    ensures events == TrailingEvents(seq1, seq2, p1, p2)
  {
    events := [];
    var q1: nat, q2: nat := p1, p2;
    while q1 < |seq1| || q2 < |seq2|
      invariant q1 <= |seq1| && q2 <= |seq2|
      invariant TrailingEvents(seq1, seq2, p1, p2) == events + TrailingEvents(seq1, seq2, q1, q2)
      decreases |seq1| - q1 + |seq2| - q2
    {
      var c1: Nullable<char> := if q1 < |seq1| then NonNull(seq1[q1]) else Null;
      var c2: Nullable<char> := if q2 < |seq2| then NonNull(seq2[q2]) else Null;
      var n1: nat, n2: nat := if q1 < |seq1| then q1 + 1 else q1, if q2 < |seq2| then q2 + 1 else q2;
      assert events + ([WalkEvent(AfterAlignment, c1, c2)] + TrailingEvents(seq1, seq2, n1, n2))
        == (events + [WalkEvent(AfterAlignment, c1, c2)]) + TrailingEvents(seq1, seq2, n1, n2);
      events := events + [WalkEvent(AfterAlignment, c1, c2)];
      q1, q2 := n1, n2;
    }
    assert events + [] == events;
  }

  class AlignmentResult {
    /** The first sequence; the merge appends to it in place. */
    var seq1: seq<char>
    const seq2: seq<char>
    const score: int32
    /** The path through the values table from the start of the alignment to its end. */
    const traceback: seq<Coords>
    /** What `toString` returned last, or null before its first successful call. */
    var toStringCached: Nullable<string>

    constructor (seq1: seq<char>, seq2: seq<char>, score: int32, traceback: seq<Coords>)
      ensures this.seq1 == seq1 && this.seq2 == seq2 && this.score == score && this.traceback == traceback
      ensures toStringCached == Null
    {
      this.seq1 := seq1;
      this.seq2 := seq2;
      this.score := score;
      this.traceback := traceback;
      toStringCached := Null;
    }

    function GetSeq1(): seq<char>
      reads this
    {
      seq1
    }

    function GetSeq2(): seq<char> {
      seq2
    }

    function GetScore(): int32 {
      score
    }

    function DoesSeq1ContainSeq2(): Result<bool>
      reads this
    {
      Contains(seq1, seq2, traceback)
    }

    /** `walkResult` with the coordinates compared by value: its three loops over the two iterators. */
    method WalkResult() returns (r: Result<seq<WalkEvent>>)
      ensures r == ResultWalk(seq1, seq2, traceback, false)
      ensures OverlapRecurrence.InIntegerCache(traceback) ==> r == ResultWalk(seq1, seq2, traceback, true)
    {
      if OverlapRecurrence.InIntegerCache(traceback) {
        ResultWalkCached(seq1, seq2, traceback);
      }
      if |traceback| == 0 {
        return Failure(IndexOutOfBounds);
      }
      var lead := LeadingLoop(seq1, seq2, traceback[0].elem1, traceback[0].elem2);
      if lead.Failure? {
        return lead;
      }
      var rest := AlignedLoop(seq1, seq2, traceback, Max(0, traceback[0].elem1), Max(0, traceback[0].elem2));
      return Prepend(lead.value, rest);
    }

    /**
     * `mergeSeq2ToRightOfSeq1`: nothing happens when seq1 contains seq2;
     * otherwise the walk's trailing seq2 symbols are appended to seq1 in
     * place. The cached `toString` is left as it was, stale or not.
     */
    method MergeSeq2ToRightOfSeq1() returns (r: Result<seq<char>>)
      modifies this
      ensures r == Merged(old(seq1), seq2, traceback)
      ensures seq1 == (if r.Success? then r.value else old(seq1))
      ensures toStringCached == old(toStringCached)
    {
      var contained := DoesSeq1ContainSeq2();
      if contained.Failure? {
        return Failure(contained.error);
      }
      if contained.value {
        return Success(seq1);
      }
      var walk := WalkResult();
      if walk.Failure? {
        return Failure(walk.error);
      }
      var events := walk.value;
      var toAppend: seq<char> := [];
      for k := 0 to |events|
        invariant toAppend == Collect(events[..k], AppendedSymbols)
        invariant seq1 == old(seq1) && toStringCached == old(toStringCached)
      {
        var e := events[k];
        assert events[..k + 1] == events[..k] + [e];
        CollectSnoc(events[..k], e, AppendedSymbols);
        if e.phase == AfterAlignment && e.char2.NonNull? && e.char1.Null? {
          toAppend := toAppend + [e.char2.value];
        }
      }
      assert events[..|events|] == events;
      seq1 := seq1 + toAppend;
      return Success(seq1);
    }

    /**
     * `toString`: the cached string if there is one; otherwise the score
     * line and the three rows built from the walk, which are cached.
     */
    method ToString() returns (r: Result<string>)
      modifies this
      ensures seq1 == old(seq1)
      ensures old(toStringCached).NonNull? ==> toStringCached == old(toStringCached) && r == Success(toStringCached.value)
      ensures old(toStringCached).Null? ==> r == RenderedWalk(seq1, seq2, score, traceback)
      ensures old(toStringCached).Null? ==> toStringCached == (if r.Success? then NonNull(r.value) else Null)
    {
      if toStringCached.NonNull? {
        return Success(toStringCached.value);
      }
      var walk := WalkResult();
      if walk.Failure? {
        return Failure(walk.error);
      }
      var events := walk.value;
      var top, middle, bottom := "", "", "";
      for k := 0 to |events|
        invariant top == RowString(events[..k], TopRow)
        invariant middle == RowString(events[..k], MiddleRow)
        invariant bottom == RowString(events[..k], BottomRow)
      {
        var e := events[k];
        assert events[..k + 1][..k] == events[..k];
        top := top + [if e.char1.NonNull? then e.char1.value else if e.phase == InAlignment then '-' else ' '];
        if e.phase != InAlignment {
          middle := middle + " ";
        } else if e.char1.NonNull? && e.char2.NonNull? {
          middle := middle + (if e.char1.value == e.char2.value then "|" else "x");
        } else {
          middle := middle + "-";
        }
        bottom := bottom + [if e.char2.NonNull? then e.char2.value else if e.phase == InAlignment then '-' else ' '];
      }
      assert events[..|events|] == events;
      var s := "Score: " + IntToString(score) + "\n" + top + "\n" + middle + "\n" + bottom;
      toStringCached := NonNull(s);
      return Success(s);
    }
  }
}

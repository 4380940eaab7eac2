/**
 * The stacked timeline (AccessGrantedTimeline.py, lines 16-35): the cycles
 * that reached safe access, each split into three consecutive intervals,
 * missing or negative ones drawn as zero, stacked left to right on one bar.
 * The drawing itself is not part of this model.
 */
module Timeline {
  import opened Wrappers
  import opened CycleRecords
  import CycleWindower

  /** The three segments of one bar, in seconds, bottom row first. */
  datatype Bar = Bar(part1: int, part2: int, part3: int)

  /** Line 16: the cycle reached `PREPARING to SAFE_ACCESS_GRANTED`. */
  predicate ReachedSafeAccess(rec: Record) {
    Cell(rec, SafeAccess).Some?
  }

  /** Lines 19-21: `(later - earlier).dt.total_seconds()`, missing (NaN) when either side is. */
  function Difference(earlier: Option<int>, later: Option<int>): (r: Option<int>)
    ensures r.Some? <==> earlier.Some? && later.Some?
    ensures r.Some? ==> earlier.value + r.value == later.value
  {
    if earlier.Some? && later.Some? then Some(later.value - earlier.value) else None
  }

  /** Lines 24-26: `fillna(0).clip(lower=0)`. */
  function FillAndClip(d: Option<int>): (r: int)
    ensures r >= 0
    ensures d.Some? && d.value >= 0 ==> r == d.value
    ensures d.None? || d.value <= 0 ==> r == 0
  {
    var filled := if d.Some? then d.value else 0;
    if filled < 0 then 0 else filled
  }

  /** One interval of a bar: the time from `earlier` to `later`, or zero when it is missing or negative. */
  function Part(earlier: Option<int>, later: Option<int>): (r: int)
    ensures r >= 0
    ensures earlier.Some? && later.Some? ==> r >= later.value - earlier.value
    ensures earlier.Some? && later.Some? && earlier.value <= later.value ==> r == later.value - earlier.value
    ensures earlier.None? || later.None? || later.value <= earlier.value ==> r == 0
  {
    FillAndClip(Difference(earlier, later))
  }

  /** Lines 19-26: request to gate closed, closed to preparing, preparing to safe access. */
  function BarOf(rec: Record): (b: Bar)
    ensures b.part1 >= 0 && b.part2 >= 0 && b.part3 >= 0
  {
    Bar(
      Part(Cell(rec, Request), Cell(rec, GateClosed)),
      Part(Cell(rec, GateClosed), Cell(rec, Localized)),
      Part(Cell(rec, Localized), Cell(rec, SafeAccess)))
  }

  /** Line 34: where the second segment starts. */
  function SecondLeft(b: Bar): int { b.part1 }

  /** Line 35: where the third segment starts. */
  function ThirdLeft(b: Bar): int { b.part1 + b.part2 }

  /** Line 35: where the bar ends. */
  function BarEnd(b: Bar): int { b.part1 + b.part2 + b.part3 }

  /**
   * Lines 33-35: the three segments of a bar are laid end to end from zero,
   * each where the previous one stops, so they never overlap and their
   * lengths add up to the whole bar.
   */
  lemma StackedSegments(b: Bar)
    requires b.part1 >= 0 && b.part2 >= 0 && b.part3 >= 0
    ensures 0 <= SecondLeft(b) <= ThirdLeft(b) <= BarEnd(b)
    ensures ThirdLeft(b) == SecondLeft(b) + b.part2 && BarEnd(b) == ThirdLeft(b) + b.part3
  {
  }

  /**
   * Lines 19-26: when the four timestamps are all present and in order, the
   * bar is exactly as long as the time from request to safe access.
   */
  lemma BarSpansCycle(rec: Record)
    requires Cell(rec, Request).Some? && Cell(rec, GateClosed).Some?
    requires Cell(rec, Localized).Some? && Cell(rec, SafeAccess).Some?
    requires Cell(rec, Request).value <= Cell(rec, GateClosed).value <= Cell(rec, Localized).value <= Cell(rec, SafeAccess).value
    ensures BarEnd(BarOf(rec)) == Cell(rec, SafeAccess).value - Cell(rec, Request).value
  {
  }

  /**
   * With all four timestamps present but out of order, the clipping can
   * only lengthen the bar: it never falls short of request to safe access.
   */
  lemma BarCoversCycle(rec: Record)
    requires Cell(rec, Request).Some? && Cell(rec, GateClosed).Some?
    requires Cell(rec, Localized).Some? && Cell(rec, SafeAccess).Some?
    ensures BarEnd(BarOf(rec)) >= Cell(rec, SafeAccess).value - Cell(rec, Request).value
  {
  }

  /** Line 16: the rows that reached safe access, in input order. */
  function ValidCycles(records: seq<Record>): (r: seq<Record>)
    ensures |r| <= |records|
  {
    CycleWindower.Filter(records, ReachedSafeAccess)
  }

  /** Lines 16-35: one bar per valid cycle; bar `i` is drawn at height `i`. */
  function Bars(records: seq<Record>): (r: seq<Bar>)
    requires forall i :: 0 <= i < |records| ==> HasColumns(records[i], TimelineColumns)
    ensures |r| == |ValidCycles(records)|
    ensures forall i :: 0 <= i < |r| ==> r[i] == BarOf(ValidCycles(records)[i])
  {
    var valid := ValidCycles(records);
    seq(|valid|, i requires 0 <= i < |valid| => BarOf(valid[i]))
  }

  /** The number of rows that reached safe access. */
  function CountReached(records: seq<Record>): nat {
    if records == [] then 0
    else CountReached(records[..|records| - 1]) + if ReachedSafeAccess(records[|records| - 1]) then 1 else 0
  }

  /**
   * Lines 16 and 28: the valid cycles are exactly the rows that reached safe
   * access, one per such row, and `N` counts them.
   */
  lemma {:induction false} ValidCyclesSpec(records: seq<Record>)
    ensures |ValidCycles(records)| == CountReached(records)
    ensures forall rec :: rec in ValidCycles(records) <==> rec in records && ReachedSafeAccess(rec)
  {
    CycleWindower.FilterMembers(records, ReachedSafeAccess);
    if records != [] {
      ValidCyclesSpec(records[..|records| - 1]);
    }
  }

  /** Line 16 keeps input order: the valid cycles of two stretches of rows follow one another. */
  lemma ValidCyclesAppend(a: seq<Record>, b: seq<Record>)
    ensures ValidCycles(a + b) == ValidCycles(a) + ValidCycles(b)
  {
    CycleWindower.FilterAppend(a, b, ReachedSafeAccess);
  }
}

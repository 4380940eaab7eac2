/**
 * The access-time table (table_access_time.py): for every cycle row, the
 * signed time from the request to four milestones, and the request start
 * to the minute. Instants are whole seconds.
 */
module TransitionDeltas {
  import opened Wrappers
  import opened CycleRecords
  import CycleWindower
  import EventParser

  /**
   * A delta cell: empty when the milestone is missing, NaN when the milestone
   * is present but the request is not (a timestamp minus `NaT`), otherwise
   * the signed number of seconds.
   */
  datatype Elapsed = Empty | NaN | Seconds(seconds: int)

  /** One output row, its fields in the order of the output columns. */
  datatype DeltaRow = DeltaRow(
    location: string,
    requestMinute: Option<int>,
    gateClosed: Elapsed,
    botsLocalized: Elapsed,
    safeAccess: Elapsed,
    emptyButton: Elapsed)

  /** The output columns, lines 39-44. */
  const OutputColumns := [
    "Location",
    "Request Start (YYYY-MM-DD HH:MM)",
    "Time from Request to Gate Closed (s)",
    "Time from Request to Bots Localized (s)",
    "Time from Request to Safe Access Granted (s)",
    "Time from Request to Access Granted via \"empty button\" (s)"
  ]

  /**
   * Lines 21, 25, 29 and 33: the time from `request` to `milestone`, not
   * clipped, so a milestone before the request gives a negative delta.
   */
  function Delta(request: Option<int>, milestone: Option<int>): (r: Elapsed)
    ensures r.Empty? <==> milestone.None?
    ensures r.NaN? <==> milestone.Some? && request.None?
    ensures r.Seconds? ==> request.Some? && milestone.Some? && request.value + r.seconds == milestone.value
    ensures r.Seconds? ==> (r.seconds < 0 <==> milestone.value < request.value)
  {
    if milestone.None? then Empty
    else if request.None? then NaN
    else Seconds(milestone.value - request.value)
  }

  /** Line 36: the request start, truncated to its minute; empty iff the request is. */
  function RequestMinute(request: Option<int>): (r: Option<int>)
    ensures r.None? <==> request.None?
    ensures r.Some? ==> r.value * 60 <= request.value < r.value * 60 + 60
  {
    if request.Some? then Some(request.value / 60) else None
  }

  /**
   * Lines 16-45: the output row of one cycle. Each delta reads the request
   * and its own milestone column: gate closed from `REQUESTED to CLOSED`,
   * bots localized from `CLOSED to PREPARING`, safe access from
   * `PREPARING to SAFE_ACCESS_GRANTED`, the empty button from
   * `CLOSED_EMPTY to ACCESS_GRANTED_EMPTY`.
   */
  function DeltaRowOf(rec: Record): (r: DeltaRow)
    ensures r.location == rec.location
    ensures r.requestMinute.None? <==> Cell(rec, Request).None?
  {
    var request := Cell(rec, Request);
    DeltaRow(
      rec.location,
      RequestMinute(request),
      Delta(request, Cell(rec, GateClosed)),
      Delta(request, Cell(rec, Localized)),
      Delta(request, Cell(rec, SafeAccess)),
      Delta(request, Cell(rec, EmptyGranted)))
  }

  /** Lines 14-47: one output row per input row, in input order. */
  method ComputeTransitionDeltas(records: seq<Record>) returns (rows: seq<DeltaRow>)
    requires forall i :: 0 <= i < |records| ==> HasColumns(records[i], DeltaColumns)
    ensures |rows| == |records|
    ensures forall i :: 0 <= i < |records| ==> rows[i] == DeltaRowOf(records[i])
  {
    rows := [];
    for i := 0 to |records|
      invariant |rows| == i
      invariant forall k :: 0 <= k < i ==> rows[k] == DeltaRowOf(records[k])
    {
      var rec := records[i];
      assert HasColumns(rec, DeltaColumns);
      assert DeltaColumns[0] == Request && DeltaColumns[1] == GateClosed && DeltaColumns[2] == EmptyGranted;
      assert DeltaColumns[5] == SafeAccess && DeltaColumns[6] == Localized;
      var request := rec.cells[Request];
      var closed := Delta(request, rec.cells[GateClosed]);
      var accessEmpty := Delta(request, rec.cells[EmptyGranted]);
      var localized := Delta(request, rec.cells[Localized]);
      var safeAccess := Delta(request, rec.cells[SafeAccess]);
      var requestStart := RequestMinute(request);
      rows := rows + [DeltaRow(rec.location, requestStart, closed, localized, safeAccess, accessEmpty)];
    }
  }

  /**
   * Lines 19-33: each delta depends on the request and its own milestone
   * column only; two rows that agree there agree on that delta, whatever
   * their other columns hold.
   */
  lemma DeltaIndependence(a: Record, b: Record)
    requires Cell(a, Request) == Cell(b, Request)
    ensures Cell(a, GateClosed) == Cell(b, GateClosed) ==> DeltaRowOf(a).gateClosed == DeltaRowOf(b).gateClosed
    ensures Cell(a, Localized) == Cell(b, Localized) ==> DeltaRowOf(a).botsLocalized == DeltaRowOf(b).botsLocalized
    ensures Cell(a, SafeAccess) == Cell(b, SafeAccess) ==> DeltaRowOf(a).safeAccess == DeltaRowOf(b).safeAccess
    ensures Cell(a, EmptyGranted) == Cell(b, EmptyGranted) ==> DeltaRowOf(a).emptyButton == DeltaRowOf(b).emptyButton
  {
  }

  /**
   * A delta of a row with request `request`: empty exactly when the milestone
   * is, never NaN, and otherwise a positive time that adds back up to the
   * milestone.
   */
  predicate PositiveDelta(d: Elapsed, request: int, milestone: Option<int>) {
    && (d.Empty? <==> milestone.None?)
    && !d.NaN?
    && (d.Seconds? ==> d.seconds > 0 && request + d.seconds == milestone.value)
  }

  /** All four deltas of a windower row, once read back, are positive or empty. */
  predicate RowDeltasPositive(row: CycleWindower.Row) {
    var rec := AsRecord(row);
    var d := DeltaRowOf(rec);
    && d.requestMinute.Some?
    && PositiveDelta(d.gateClosed, row.start, Cell(rec, GateClosed))
    && PositiveDelta(d.botsLocalized, row.start, Cell(rec, Localized))
    && PositiveDelta(d.safeAccess, row.start, Cell(rec, SafeAccess))
    && PositiveDelta(d.emptyButton, row.start, Cell(rec, EmptyGranted))
  }

  /** A row whose milestones all come after its start has positive deltas. */
  lemma MilestonesAfterStartPositive(row: CycleWindower.Row)
    requires forall t :: t in row.milestones && row.milestones[t].Some? ==> row.start < row.milestones[t].value
    ensures RowDeltasPositive(row)
  {
    assert GateClosed[0] != Request[0] && Localized[0] != Request[0];
    assert SafeAccess[0] != Request[0] && EmptyGranted[0] != Request[0];
  }

  /**
   * On the windower's own table every row has a request, so no delta is NaN,
   * and every milestone comes after its request, so every delta present is
   * positive.
   */
  lemma TableDeltasPositive(lines: seq<string>, instant: string -> int)
    requires CycleWindower.Reshape(lines, instant).Success?
    ensures var rows := CycleWindower.Reshape(lines, instant).value.rows;
            forall i :: 0 <= i < |rows| ==> RowDeltasPositive(rows[i])
  {
    var entries := CycleWindower.Entries(EventParser.SkipHeader(lines).value, instant);
    var locs := CycleWindower.Distinct(CycleWindower.Locations(entries));
    CycleWindower.RowsForAfterStart(entries, locs);
    var rows := CycleWindower.Reshape(lines, instant).value.rows;
    assert rows == CycleWindower.RowsFor(entries, locs);
    forall i | 0 <= i < |rows| ensures RowDeltasPositive(rows[i]) {
      MilestonesAfterStartPositive(rows[i]);
    }
  }
}

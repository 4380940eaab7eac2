/**
 * The cycle table as the scripts after the windower read it back from its
 * CSV file: per row, the location and one cell per column, each cell an
 * instant or empty. Both readers name the columns they parse as dates, and
 * reading a file without one of them fails.
 */
module CycleRecords {
  import opened Wrappers
  import CycleWindower
  import EventParser

  const Request := "OPEN to REQUESTED"
  const GateClosed := "REQUESTED to CLOSED"
  const EmptyGranted := "CLOSED_EMPTY to ACCESS_GRANTED_EMPTY"
  const Localized := "CLOSED to PREPARING"
  const SafeAccess := "PREPARING to SAFE_ACCESS_GRANTED"

  /** One row of the table: its `Location` and its timestamp cells by column name. */
  datatype Record = Record(location: string, cells: map<string, Option<int>>)

  /** Every column of `cols` is present in the record. */
  predicate HasColumns(rec: Record, cols: seq<string>) {
    forall i :: 0 <= i < |cols| ==> cols[i] in rec.cells
  }

  /** `row[col]`: the cell, empty when the column is absent. */
  function Cell(rec: Record, col: string): Option<int> {
    if col in rec.cells then rec.cells[col] else None
  }

  /** A windower row as read back: the start in its own column beside the milestones. */
  function AsRecord(row: CycleWindower.Row): (rec: Record)
    ensures rec.location == row.location
    ensures Cell(rec, Request) == Some(row.start)
  {
    Record(row.location, row.milestones[Request := Some(row.start)])
  }

  /** A row whose milestones cover the catalog has, once read back, a column per catalog entry. */
  lemma ReadBackColumns(row: CycleWindower.Row, cols: seq<string>)
    requires forall t :: t in row.milestones <==> t in CycleWindower.Catalog && t != CycleWindower.Start
    requires forall i :: 0 <= i < |cols| ==> cols[i] in CycleWindower.Catalog
    ensures HasColumns(AsRecord(row), cols)
  {
  }

  /** The columns the access-time table parses (table_access_time.py, lines 5-12). */
  const DeltaColumns := [Request, GateClosed, EmptyGranted, "REQUESTED to ACCESS_GRANTED_EMPTY",
                         "CLOSED to ACCESS_GRANTED_EMPTY", SafeAccess, Localized]

  /** The columns the timeline parses (AccessGrantedTimeline.py, lines 8-13). */
  const TimelineColumns := [Request, GateClosed, Localized, SafeAccess]

  /** Every column either reader parses is one of the windower's catalog entries. */
  lemma ReadColumnsInCatalog()
    ensures forall i :: 0 <= i < |DeltaColumns| ==> DeltaColumns[i] in CycleWindower.Catalog
    ensures forall i :: 0 <= i < |TimelineColumns| ==> TimelineColumns[i] in CycleWindower.Catalog
  {
    var c := CycleWindower.Catalog;
    assert c[14] == Request && c[18] == GateClosed && c[9] == EmptyGranted;
    assert c[16] == "REQUESTED to ACCESS_GRANTED_EMPTY" && c[5] == "CLOSED to ACCESS_GRANTED_EMPTY";
    assert c[15] == SafeAccess && c[8] == Localized;
  }

  /** Every row of a table the windower builds reads back with all the columns either reader parses. */
  lemma TableReadBack(lines: seq<string>, instant: string -> int)
    requires CycleWindower.Reshape(lines, instant).Success?
    ensures var rows := CycleWindower.Reshape(lines, instant).value.rows;
            forall i :: 0 <= i < |rows| ==>
              HasColumns(AsRecord(rows[i]), DeltaColumns) && HasColumns(AsRecord(rows[i]), TimelineColumns)
  {
    var body := EventParser.SkipHeader(lines).value;
    var entries := CycleWindower.Entries(body, instant);
    var locs := CycleWindower.Distinct(CycleWindower.Locations(entries));
    CycleWindower.RowsForKeys(entries, locs);
    ReadColumnsInCatalog();
    var rows := CycleWindower.Reshape(lines, instant).value.rows;
    assert rows == CycleWindower.RowsFor(entries, locs);
    forall i | 0 <= i < |rows|
      ensures HasColumns(AsRecord(rows[i]), DeltaColumns) && HasColumns(AsRecord(rows[i]), TimelineColumns)
    {
      ReadBackColumns(rows[i], DeltaColumns);
      ReadBackColumns(rows[i], TimelineColumns);
    }
  }
}

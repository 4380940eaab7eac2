/**
 * The table step of reshape_list_to_table.py: the events of the parsed lines
 * are grouped by location; every `OPEN to REQUESTED` event of a location
 * opens a cycle; a cycle's window holds the location's events strictly after
 * its start and strictly before the next start (the last cycle has no upper
 * bound); and each catalog transition gets the earliest time it has in the
 * window, or null.
 */
module CycleWindower {
  import opened Wrappers
  import opened EventParser

  /** The transition that opens a cycle. */
  const Start := "OPEN to REQUESTED"

  /** `transitions_of_interest` (lines 44-84), with its three repeated entries. */
  const Catalog: seq<string> := [
    "ACCESS_GRANTED_EMPTY to GATE_CLOSED",
    "ACCESS_GRANTED_EMPTY to OPEN",
    "ACCESS_GRANTED_EMPTY to REQUESTED",
    "BYPASSED to OPEN",
    "BYPASSED to REQUESTED",
    "CLOSED to ACCESS_GRANTED_EMPTY",
    "CLOSED to CLOSED_EMPTY",
    "CLOSED to OPEN",
    "CLOSED to PREPARING",
    "CLOSED_EMPTY to ACCESS_GRANTED_EMPTY",
    "CLOSED_EMPTY to OPEN",
    "GATE_CLOSED to OPEN",
    "OPEN to BYPASSED",
    "OPEN to GATE_CLOSED",
    "OPEN to REQUESTED",
    "PREPARING to SAFE_ACCESS_GRANTED",
    "REQUESTED to ACCESS_GRANTED_EMPTY",
    "REQUESTED to BYPASSED",
    "REQUESTED to CLOSED",
    "REQUESTED to CLOSED_EMPTY",
    "REQUESTED to OPEN",
    "SAFE_ACCESS_GRANTED to OPEN",
    "SAFE_ACCESS_GRANTED to REQUESTED",
    "REQUESTED to OPEN",
    "SAFE_ACCESS_GRANTED to GATE_CLOSED",
    "GATE_CLOSED to OPEN",
    "OPEN to CLOSED",
    "CLOSED to SAFE_ACCESS_GRANTED",
    "PREPARING to OPEN",
    "CLOSED to OPEN",
    "PREPARING to GATE_CLOSED",
    "PREPARING to REQUESTED",
    "CLOSED to GATE_CLOSED",
    "CLOSED to REQUESTED"
  ]

  /**
   * One output row (the dict `row`, line 101): the location, the cycle's
   * start time, and one cell per catalog transition other than `Start`.
   */
  datatype Row = Row(location: string, start: int, milestones: map<string, Option<int>>)

  /** The output frame: its column names, in order, and its rows. */
  datatype Table = Table(columns: seq<string>, rows: seq<Row>)

  /** The elements of `xs` that `keep` accepts, in order: a boolean-mask selection of a frame. */
  function Filter<T>(xs: seq<T>, keep: T -> bool): (r: seq<T>)
    ensures |r| <= |xs|
  {
    if xs == [] then []
    else
      var init := Filter(xs[..|xs| - 1], keep);
      if keep(xs[|xs| - 1]) then init + [xs[|xs| - 1]] else init
  }

  /** The selection holds exactly the accepted elements. */
  lemma {:induction false} FilterMembers<T>(xs: seq<T>, keep: T -> bool)
    ensures forall x :: x in Filter(xs, keep) <==> x in xs && keep(x)
  {
    if xs != [] {
      FilterMembers(xs[..|xs| - 1], keep);
      assert xs == xs[..|xs| - 1] + [xs[|xs| - 1]];
    }
  }

  /** The results of `parse` on the lines it accepts, in line order. */
  function ParseAll(lines: seq<string>, parse: string -> Option<Event>): (r: seq<Event>)
    ensures |r| <= |lines|
  {
    if lines == [] then []
    else
      var init := ParseAll(lines[..|lines| - 1], parse);
      var parsed := parse(lines[|lines| - 1]);
      if parsed.Some? then init + [parsed.value] else init
  }

  /** The results are exactly those of the accepted lines. */
  lemma {:induction false} ParseAllMembers(lines: seq<string>, parse: string -> Option<Event>, e: Event)
    ensures e in ParseAll(lines, parse) <==> exists i :: 0 <= i < |lines| && parse(lines[i]) == Some(e)
  {
    if lines != [] {
      var init := lines[..|lines| - 1];
      ParseAllMembers(init, parse, e);
      assert forall i :: 0 <= i < |init| ==> lines[i] == init[i];
    }
  }

  /** The results of earlier lines come before those of later lines. */
  lemma {:induction false} ParseAllAppend(a: seq<string>, b: seq<string>, parse: string -> Option<Event>)
    ensures ParseAll(a + b, parse) == ParseAll(a, parse) + ParseAll(b, parse)
    decreases |b|
  {
    if b != [] {
      var b' := b[..|b| - 1];
      assert (a + b)[..|a + b| - 1] == a + b';
      ParseAllAppend(a, b', parse);
    } else {
      assert a + b == a;
    }
  }

  /** Lines 19-37: the events of the lines the pattern is found in, in line order. */
  function Entries(lines: seq<string>, instant: string -> int): (r: seq<Event>)
    ensures |r| <= |lines|
  {
    ParseAll(lines, (line: string) => ParseLine(line, instant))
  }

  /** The events are exactly those of the lines the pattern is found in. */
  lemma EntriesMembers(lines: seq<string>, instant: string -> int, e: Event)
    ensures e in Entries(lines, instant) <==> exists i :: 0 <= i < |lines| && ParseLine(lines[i], instant) == Some(e)
  {
    ParseAllMembers(lines, (line: string) => ParseLine(line, instant), e);
  }

  /** The events of earlier lines come before those of later lines. */
  lemma EntriesAppend(a: seq<string>, b: seq<string>, instant: string -> int)
    ensures Entries(a + b, instant) == Entries(a, instant) + Entries(b, instant)
  {
    ParseAllAppend(a, b, (line: string) => ParseLine(line, instant));
  }

  /** The `location` column. */
  function Locations(evs: seq<Event>): (r: seq<string>)
    ensures |r| == |evs|
  {
    seq(|evs|, i requires 0 <= i < |evs| => evs[i].location)
  }

  /** Index of the first occurrence of `x` in `xs`. */
  function IndexOf(xs: seq<string>, x: string): (i: nat)
    requires x in xs
    ensures i < |xs| && xs[i] == x
  {
    var init := xs[..|xs| - 1];
    if x in init then IndexOf(init, x) else |xs| - 1
  }

  /** `unique()` (line 87): the values of `xs` without repeats, in order of first appearance. */
  function Distinct(xs: seq<string>): (r: seq<string>)
    ensures |r| <= |xs|
  {
    if xs == [] then []
    else
      var init := Distinct(xs[..|xs| - 1]);
      if xs[|xs| - 1] in init then init else init + [xs[|xs| - 1]]
  }

  /** `unique()` keeps every value once, in order of first appearance. */
  lemma {:induction false} DistinctSpec(xs: seq<string>)
    ensures forall x :: x in Distinct(xs) <==> x in xs
    ensures forall i, j :: 0 <= i < j < |Distinct(xs)| ==> Distinct(xs)[i] != Distinct(xs)[j]
    ensures forall i, j :: 0 <= i < j < |Distinct(xs)| ==> IndexOf(xs, Distinct(xs)[i]) < IndexOf(xs, Distinct(xs)[j])
  {
    if xs != [] {
      var init := xs[..|xs| - 1];
      var last := xs[|xs| - 1];
      DistinctSpec(init);
      assert xs == init + [last];
      assert forall x :: x in init ==> IndexOf(xs, x) == IndexOf(init, x);
      if last !in Distinct(init) {
        assert IndexOf(xs, last) == |xs| - 1;
      }
    }
  }

  /** `df[df['location'] == location]` (line 88). */
  function AtLocation(evs: seq<Event>, loc: string): (r: seq<Event>)
    ensures |r| <= |evs|
  {
    Filter(evs, (e: Event) => e.location == loc)
  }

  /** An event that opens a cycle. */
  predicate IsStart(e: Event) {
    e.transition == Start
  }

  /** The `timestamp` column. */
  function Times(evs: seq<Event>): (r: seq<int>)
    ensures |r| == |evs|
  {
    seq(|evs|, i requires 0 <= i < |evs| => evs[i].time)
  }

  predicate Ascending(s: seq<int>) {
    forall i, j :: 0 <= i < j < |s| ==> s[i] <= s[j]
  }

  /** `x` put into an ascending sequence before the first element not below it. */
  function Insert(x: int, s: seq<int>): (r: seq<int>)
    ensures |r| == |s| + 1
  {
    if s == [] || x <= s[0] then [x] + s else [s[0]] + Insert(x, s[1..])
  }

  /** `sort_values` on integer times. */
  function SortAsc(s: seq<int>): (r: seq<int>)
    ensures |r| == |s|
  {
    if s == [] then [] else Insert(s[0], SortAsc(s[1..]))
  }

  /** An element not above the head of an ascending sequence goes in front. */
  lemma InsertFront(x: int, s: seq<int>)
    requires Ascending(s) && (s == [] || x <= s[0])
    ensures Ascending([x] + s)
  {
  }

  /** An element kept after the head: the head stays below everything behind it. */
  lemma InsertBehind(x: int, s: seq<int>, r: seq<int>)
    requires s != [] && s[0] < x && Ascending(s)
    requires Ascending(r) && multiset(r) == multiset(s[1..]) + multiset{x}
    ensures Ascending([s[0]] + r)
    ensures multiset([s[0]] + r) == multiset(s) + multiset{x}
  {
    forall j | 0 <= j < |r| ensures s[0] <= r[j] {
      assert r[j] in multiset(r);
      if r[j] != x {
        assert r[j] in s[1..];
      }
    }
    assert s == [s[0]] + s[1..];
  }

  lemma {:induction false} InsertSpec(x: int, s: seq<int>)
    requires Ascending(s)
    ensures Ascending(Insert(x, s))
    ensures multiset(Insert(x, s)) == multiset(s) + multiset{x}
    decreases |s|
  {
    if s == [] || x <= s[0] {
      InsertFront(x, s);
    } else {
      InsertSpec(x, s[1..]);
      InsertBehind(x, s, Insert(x, s[1..]));
    }
  }

  /** Sorting gives an ascending permutation. */
  lemma {:induction false} SortAscSpec(s: seq<int>)
    ensures Ascending(SortAsc(s))
    ensures multiset(SortAsc(s)) == multiset(s)
  {
    if s != [] {
      SortAscSpec(s[1..]);
      InsertSpec(s[0], SortAsc(s[1..]));
      assert s == [s[0]] + s[1..];
    }
  }

  /** Lines 88-90: the start times of a location's cycles, in ascending order. */
  function CycleStarts(evs: seq<Event>, loc: string): (r: seq<int>)
  {
    SortAsc(Times(Filter(AtLocation(evs, loc), IsStart)))
  }

  /** The upper bound of cycle `k`: the next start, if there is one (lines 94-95). */
  function NextStart(starts: seq<int>, k: nat): Option<int>
    requires k < |starts|
  {
    if k + 1 < |starts| then Some(starts[k + 1]) else None
  }

  /** Lines 97 and 99: both bounds of the window are strict. */
  predicate InWindow(t: int, start: int, next: Option<int>) {
    start < t && (next.Some? ==> t < next.value)
  }

  /** `df_window` (lines 94-99). */
  function Window(evs: seq<Event>, start: int, next: Option<int>): (r: seq<Event>)
    ensures |r| <= |evs|
  {
    Filter(evs, (e: Event) => InWindow(e.time, start, next))
  }

  /**
   * Lines 105-106: the time of the first event of the time-sorted window
   * carrying `transition`, which is the least such time; null when there is none.
   */
  function Earliest(w: seq<Event>, transition: string): (r: Option<int>)
  {
    if w == [] then None
    else
      var rest := Earliest(w[1..], transition);
      if w[0].transition != transition || (rest.Some? && rest.value < w[0].time) then rest
      else Some(w[0].time)
  }

  /** The earliest time is the least time of an event carrying the transition, and null iff there is none. */
  lemma {:induction false} EarliestSpec(w: seq<Event>, transition: string)
    ensures Earliest(w, transition).None? <==> forall e :: e in w ==> e.transition != transition
    ensures Earliest(w, transition).Some? ==>
              exists e :: e in w && e.transition == transition && e.time == Earliest(w, transition).value
    ensures Earliest(w, transition).Some? ==>
              forall e :: e in w && e.transition == transition ==> Earliest(w, transition).value <= e.time
  {
    if w != [] {
      EarliestSpec(w[1..], transition);
      assert w == [w[0]] + w[1..];
    }
  }

  /** Lines 102-106: one cell per transition of `labels` other than `Start`. */
  function Milestones(w: seq<Event>, labels: seq<string>): (r: map<string, Option<int>>)
  {
    if labels == [] then map[]
    else
      var init := Milestones(w, labels[..|labels| - 1]);
      var t := labels[|labels| - 1];
      if t == Start then init else init[t := Earliest(w, t)]
  }

  /** The cells are keyed by the catalog transitions other than `Start`, each holding its earliest time. */
  lemma {:induction false} MilestonesSpec(w: seq<Event>, labels: seq<string>)
    ensures forall t :: t in Milestones(w, labels) <==> t in labels && t != Start
    ensures forall t :: t in Milestones(w, labels) ==> Milestones(w, labels)[t] == Earliest(w, t)
  {
    if labels != [] {
      MilestonesSpec(w, labels[..|labels| - 1]);
      assert labels == labels[..|labels| - 1] + [labels[|labels| - 1]];
    }
  }

  /** Lines 93-107: the row of cycle `k` of a location. */
  function CycleRow(evs: seq<Event>, loc: string, starts: seq<int>, k: nat): Row
    requires k < |starts|
  {
    var w := Window(AtLocation(evs, loc), starts[k], NextStart(starts, k));
    Row(loc, starts[k], Milestones(w, Catalog))
  }

  /** Lines 88-107: the rows of one location, one per cycle, in ascending start order. */
  function LocationRows(evs: seq<Event>, loc: string): (r: seq<Row>)
    ensures |r| == |CycleStarts(evs, loc)|
  {
    var starts := CycleStarts(evs, loc);
    seq(|starts|, k requires 0 <= k < |starts| => CycleRow(evs, loc, starts, k))
  }

  /** Lines 87-107: the rows of the locations `locs`, location by location. */
  function RowsFor(evs: seq<Event>, locs: seq<string>): (r: seq<Row>)
  {
    if locs == [] then []
    else RowsFor(evs, locs[..|locs| - 1]) + LocationRows(evs, locs[|locs| - 1])
  }

  predicate NotStart(t: string) {
    t != Start
  }

  /**
   * Lines 109-111: the columns of the output frame. A frame built from no rows
   * has no columns; otherwise the list keeps the catalog's repeated entries.
   */
  function Columns(rows: seq<Row>): (r: seq<string>)
  {
    if rows == [] then [] else ["Location", Start] + Filter(Catalog, NotStart)
  }

  /**
   * `reshape_log_to_table`, lines 7-111: an empty file fails at line 9, and a
   * file where no line matches fails at line 40, where the `timestamp`
   * column is missing.
   */
  function Reshape(lines: seq<string>, instant: string -> int): (r: Result<Table, string>)
  {
    var body := SkipHeader(lines);
    if body.Failure? then Failure(body.error)
    else
      var entries := Entries(body.value, instant);
      if entries == [] then Failure("no column 'timestamp'")
      else
        var rows := RowsFor(entries, Distinct(Locations(entries)));
        Success(Table(Columns(rows), rows))
  }

  /** The starts of a row sequence. */
  function RowStarts(rows: seq<Row>): (r: seq<int>)
    ensures |r| == |rows|
  {
    seq(|rows|, k requires 0 <= k < |rows| => rows[k].start)
  }

  /** A selection of a concatenation is the concatenation of the selections. */
  lemma {:induction false} FilterAppend<T>(a: seq<T>, b: seq<T>, keep: T -> bool)
    ensures Filter(a + b, keep) == Filter(a, keep) + Filter(b, keep)
    decreases |b|
  {
    if b != [] {
      var b' := b[..|b| - 1];
      assert (a + b)[..|a + b| - 1] == a + b';
      FilterAppend(a, b', keep);
    } else {
      assert a + b == a;
    }
  }

  /** Selecting what every element satisfies keeps everything; what none satisfies, nothing. */
  lemma {:induction false} FilterAllOrNone<T>(xs: seq<T>, keep: T -> bool)
    ensures (forall k :: 0 <= k < |xs| ==> keep(xs[k])) ==> Filter(xs, keep) == xs
    ensures (forall k :: 0 <= k < |xs| ==> !keep(xs[k])) ==> Filter(xs, keep) == []
  {
    if xs != [] {
      FilterAllOrNone(xs[..|xs| - 1], keep);
      assert xs == xs[..|xs| - 1] + [xs[|xs| - 1]];
    }
  }

  /** The times of a selection are times of selected events. */
  lemma TimesMembers(evs: seq<Event>)
    ensures forall t :: t in Times(evs) <==> exists e :: e in evs && e.time == t
  {
    forall t | t in Times(evs) ensures exists e :: e in evs && e.time == t {
      var i :| 0 <= i < |evs| && Times(evs)[i] == t;
      assert evs[i] in evs;
    }
    forall t | exists e :: e in evs && e.time == t ensures t in Times(evs) {
      var e :| e in evs && e.time == t;
      var i :| 0 <= i < |evs| && evs[i] == e;
      assert Times(evs)[i] == t;
    }
  }

  /**
   * Lines 88-90: the cycle starts of a location are the times of its
   * `OPEN to REQUESTED` events, each as often as it occurs, in ascending order.
   */
  lemma CycleStartsSpec(evs: seq<Event>, loc: string)
    ensures Ascending(CycleStarts(evs, loc))
    ensures multiset(CycleStarts(evs, loc)) == multiset(Times(Filter(AtLocation(evs, loc), IsStart)))
    ensures forall t :: t in CycleStarts(evs, loc) <==>
              exists e :: e in evs && e.location == loc && IsStart(e) && e.time == t
  {
    var starts := Filter(AtLocation(evs, loc), IsStart);
    SortAscSpec(Times(starts));
    FilterMembers(evs, (e: Event) => e.location == loc);
    FilterMembers(AtLocation(evs, loc), IsStart);
    TimesMembers(starts);
    forall t ensures t in CycleStarts(evs, loc) <==> t in Times(starts) {
      assert t in CycleStarts(evs, loc) <==> t in multiset(CycleStarts(evs, loc));
    }
  }

  /**
   * Lines 87-107: one row per `OPEN to REQUESTED` event of the location, none
   * for a location without one; each row carries the location and the time
   * of its start event, and the rows run in ascending start order.
   */
  lemma LocationRowsSpec(evs: seq<Event>, loc: string)
    ensures |LocationRows(evs, loc)| == |Filter(AtLocation(evs, loc), IsStart)|
    ensures forall k :: 0 <= k < |LocationRows(evs, loc)| ==> LocationRows(evs, loc)[k].location == loc
    ensures Ascending(RowStarts(LocationRows(evs, loc)))
    ensures multiset(RowStarts(LocationRows(evs, loc))) == multiset(Times(Filter(AtLocation(evs, loc), IsStart)))
  {
    CycleStartsSpec(evs, loc);
    assert RowStarts(LocationRows(evs, loc)) == CycleStarts(evs, loc);
  }

  /** The window of cycle `k` holds the location's events strictly between its start and the next. */
  lemma WindowMembers(evs: seq<Event>, loc: string, start: int, next: Option<int>)
    ensures forall e :: e in Window(AtLocation(evs, loc), start, next) <==>
              e in evs && e.location == loc && InWindow(e.time, start, next)
  {
    FilterMembers(evs, (e: Event) => e.location == loc);
    FilterMembers(AtLocation(evs, loc), (e: Event) => InWindow(e.time, start, next));
  }

  /**
   * Lines 93-106: the cell of transition `t` in the row of cycle `k` is the
   * least time of an event of the location carrying `t` strictly inside the
   * cycle's window, and null iff there is none.
   */
  lemma MilestoneSpec(evs: seq<Event>, loc: string, k: nat, t: string)
    requires k < |CycleStarts(evs, loc)| && t in Catalog && t != Start
    ensures var row := LocationRows(evs, loc)[k];
            var next := NextStart(CycleStarts(evs, loc), k);
            && t in row.milestones
            && (row.milestones[t].None? <==>
                  forall e :: e in evs && e.location == loc && e.transition == t ==> !InWindow(e.time, row.start, next))
            && (row.milestones[t].Some? ==>
                  exists e :: e in evs && e.location == loc && e.transition == t
                              && InWindow(e.time, row.start, next) && e.time == row.milestones[t].value)
            && (row.milestones[t].Some? ==>
                  forall e :: e in evs && e.location == loc && e.transition == t && InWindow(e.time, row.start, next)
                              ==> row.milestones[t].value <= e.time)
  {
    var starts := CycleStarts(evs, loc);
    var next := NextStart(starts, k);
    var w := Window(AtLocation(evs, loc), starts[k], next);
    assert LocationRows(evs, loc)[k] == Row(loc, starts[k], Milestones(w, Catalog));
    MilestonesSpec(w, Catalog);
    EarliestSpec(w, t);
    WindowMembers(evs, loc, starts[k], next);
  }

  /** The row of a cycle has one cell per catalog transition other than `Start`. */
  lemma CellKeys(evs: seq<Event>, loc: string, k: nat)
    requires k < |CycleStarts(evs, loc)|
    ensures forall t :: t in LocationRows(evs, loc)[k].milestones <==> t in Catalog && t != Start
  {
    var starts := CycleStarts(evs, loc);
    var w := Window(AtLocation(evs, loc), starts[k], NextStart(starts, k));
    assert LocationRows(evs, loc)[k].milestones == Milestones(w, Catalog);
    MilestonesSpec(w, Catalog);
  }

  /** Lines 97 and 99: a milestone lies strictly after its cycle's start and strictly before the next start. */
  lemma MilestoneInsideWindow(evs: seq<Event>, loc: string, k: nat, t: string)
    requires k < |CycleStarts(evs, loc)|
    requires t in LocationRows(evs, loc)[k].milestones && LocationRows(evs, loc)[k].milestones[t].Some?
    ensures var m := LocationRows(evs, loc)[k].milestones[t].value;
            && CycleStarts(evs, loc)[k] < m
            && (k + 1 < |CycleStarts(evs, loc)| ==> m < CycleStarts(evs, loc)[k + 1])
  {
    CellKeys(evs, loc, k);
    MilestoneSpec(evs, loc, k, t);
  }

  /**
   * No milestone is at or before the first start of its location, and none
   * falls exactly on any start time.
   */
  lemma MilestoneNeverAtStart(evs: seq<Event>, loc: string, k: nat, t: string)
    requires k < |CycleStarts(evs, loc)|
    requires t in LocationRows(evs, loc)[k].milestones && LocationRows(evs, loc)[k].milestones[t].Some?
    ensures var m := LocationRows(evs, loc)[k].milestones[t].value;
            && CycleStarts(evs, loc)[0] < m
            && forall j :: 0 <= j < |CycleStarts(evs, loc)| ==> CycleStarts(evs, loc)[j] != m
  {
    var starts := CycleStarts(evs, loc);
    MilestoneInsideWindow(evs, loc, k, t);
    CycleStartsSpec(evs, loc);
    var m := LocationRows(evs, loc)[k].milestones[t].value;
    forall j | 0 <= j < |starts| ensures starts[j] != m {
      if j <= k {
        assert starts[j] <= starts[k];
      } else {
        assert starts[k + 1] <= starts[j];
      }
    }
  }

  /** Two starts at the same time leave the first cycle an empty window: every cell of its row is null. */
  lemma EqualStartsEmptyWindow(evs: seq<Event>, loc: string, k: nat)
    requires k + 1 < |CycleStarts(evs, loc)| && CycleStarts(evs, loc)[k] == CycleStarts(evs, loc)[k + 1]
    ensures forall t :: t in LocationRows(evs, loc)[k].milestones ==> LocationRows(evs, loc)[k].milestones[t].None?
  {
    var starts := CycleStarts(evs, loc);
    var w := Window(AtLocation(evs, loc), starts[k], NextStart(starts, k));
    assert LocationRows(evs, loc)[k].milestones == Milestones(w, Catalog);
    MilestonesSpec(w, Catalog);
    WindowMembers(evs, loc, starts[k], NextStart(starts, k));
    forall t | t in Milestones(w, Catalog) ensures Milestones(w, Catalog)[t].None? {
      EarliestSpec(w, t);
    }
  }

  /** The rows for distinct locations come location by location, in the order of `locs`. */
  lemma {:induction false} RowsForOrder(evs: seq<Event>, locs: seq<string>)
    requires forall i, j :: 0 <= i < j < |locs| ==> locs[i] != locs[j]
    ensures forall i :: 0 <= i < |RowsFor(evs, locs)| ==> RowsFor(evs, locs)[i].location in locs
    ensures forall i, j :: 0 <= i < j < |RowsFor(evs, locs)| ==>
              IndexOf(locs, RowsFor(evs, locs)[i].location) <= IndexOf(locs, RowsFor(evs, locs)[j].location)
  {
    if locs != [] {
      var init := locs[..|locs| - 1];
      var last := locs[|locs| - 1];
      RowsForOrder(evs, init);
      var a := RowsFor(evs, init);
      var b := LocationRows(evs, last);
      assert forall k :: 0 <= k < |b| ==> b[k].location == last;
      assert RowsFor(evs, locs) == a + b;
      assert last !in init;
      assert IndexOf(locs, last) == |locs| - 1;
      assert forall x :: x in init ==> IndexOf(locs, x) == IndexOf(init, x);
    }
  }

  /** Selecting the rows of `loc` among the rows of `l` keeps all of them or none. */
  lemma LocationRowsSelected(evs: seq<Event>, l: string, loc: string)
    ensures Filter(LocationRows(evs, l), (r: Row) => r.location == loc) == if l == loc then LocationRows(evs, l) else []
  {
    assert forall k :: 0 <= k < |LocationRows(evs, l)| ==> LocationRows(evs, l)[k].location == l;
    FilterAllOrNone(LocationRows(evs, l), (r: Row) => r.location == loc);
  }

  /** The rows of one location in the whole table are exactly that location's rows. */
  lemma {:induction false} RowsForAt(evs: seq<Event>, locs: seq<string>, loc: string)
    requires forall i, j :: 0 <= i < j < |locs| ==> locs[i] != locs[j]
    ensures loc in locs ==> Filter(RowsFor(evs, locs), (r: Row) => r.location == loc) == LocationRows(evs, loc)
    ensures loc !in locs ==> Filter(RowsFor(evs, locs), (r: Row) => r.location == loc) == []
  {
    if locs != [] {
      var init, last := locs[..|locs| - 1], locs[|locs| - 1];
      assert locs == init + [last];
      RowsForAt(evs, init, loc);
      FilterAppend(RowsFor(evs, init), LocationRows(evs, last), (r: Row) => r.location == loc);
      LocationRowsSelected(evs, last, loc);
      if loc == last {
        assert last !in init;
      }
    }
  }

  /** A location without events has no rows. */
  lemma NoEventsNoRows(evs: seq<Event>, loc: string)
    requires loc !in Locations(evs)
    ensures LocationRows(evs, loc) == []
  {
    forall k | 0 <= k < |evs| ensures evs[k].location != loc {
      assert Locations(evs)[k] == evs[k].location;
    }
    FilterAllOrNone(evs, (e: Event) => e.location == loc);
    assert AtLocation(evs, loc) == [];
  }

  /**
   * Lines 87-107: the rows of the table come grouped by location, the
   * locations in order of their first appearance among the events.
   */
  lemma TableOrder(evs: seq<Event>)
    ensures var rows := RowsFor(evs, Distinct(Locations(evs)));
            && (forall i :: 0 <= i < |rows| ==> rows[i].location in Locations(evs))
            && (forall i, j :: 0 <= i < j < |rows| ==>
                  IndexOf(Locations(evs), rows[i].location) <= IndexOf(Locations(evs), rows[j].location))
  {
    var locs := Distinct(Locations(evs));
    DistinctSpec(Locations(evs));
    RowsForOrder(evs, locs);
    var rows := RowsFor(evs, locs);
    forall i, j | 0 <= i < j < |rows|
      ensures IndexOf(Locations(evs), rows[i].location) <= IndexOf(Locations(evs), rows[j].location)
    {
      var a := IndexOf(locs, rows[i].location);
      var b := IndexOf(locs, rows[j].location);
      assert locs[a] == rows[i].location && locs[b] == rows[j].location;
    }
  }

  /** The rows of one location in the whole table are exactly that location's cycle rows. */
  lemma TableRowsOfLocation(evs: seq<Event>, loc: string)
    ensures Filter(RowsFor(evs, Distinct(Locations(evs))), (r: Row) => r.location == loc) == LocationRows(evs, loc)
  {
    DistinctSpec(Locations(evs));
    RowsForAt(evs, Distinct(Locations(evs)), loc);
    if loc !in Locations(evs) {
      NoEventsNoRows(evs, loc);
    }
  }

  /** Every row of the table has a cell for each catalog entry but the start, and no other. */
  lemma {:induction false} RowsForKeys(evs: seq<Event>, locs: seq<string>)
    ensures forall i, t :: 0 <= i < |RowsFor(evs, locs)| ==>
              (t in RowsFor(evs, locs)[i].milestones <==> t in Catalog && t != Start)
  {
    if locs != [] {
      var init, last := locs[..|locs| - 1], locs[|locs| - 1];
      RowsForKeys(evs, init);
      var a, b := RowsFor(evs, init), LocationRows(evs, last);
      var rows: seq<Row> := a + b;
      assert RowsFor(evs, locs) == rows;
      forall i | |a| <= i < |rows|
        ensures forall t :: t in rows[i].milestones <==> t in Catalog && t != Start
      {
        assert rows[i] == b[i - |a|];
        CellKeys(evs, last, i - |a|);
      }
    }
  }

  /** In every row of the table, each milestone found comes after the row's start. */
  lemma {:induction false} RowsForAfterStart(evs: seq<Event>, locs: seq<string>)
    ensures forall i, t ::
              (0 <= i < |RowsFor(evs, locs)| && t in RowsFor(evs, locs)[i].milestones
               && RowsFor(evs, locs)[i].milestones[t].Some?) ==>
                 RowsFor(evs, locs)[i].start < RowsFor(evs, locs)[i].milestones[t].value
  {
    if locs != [] {
      var init, last := locs[..|locs| - 1], locs[|locs| - 1];
      RowsForAfterStart(evs, init);
      var a, b := RowsFor(evs, init), LocationRows(evs, last);
      var rows: seq<Row> := a + b;
      assert RowsFor(evs, locs) == rows;
      forall i, t | |a| <= i < |rows| && t in rows[i].milestones && rows[i].milestones[t].Some?
        ensures rows[i].start < rows[i].milestones[t].value
      {
        assert rows[i] == b[i - |a|];
        MilestoneInsideWindow(evs, last, i - |a|, t);
      }
    }
  }

  /** The catalog holds 34 entries, three of them twice (lines 66 and 71, 57 and 73, 53 and 77). */
  lemma CatalogRepeats()
    ensures |Catalog| == 34
    ensures Catalog[20] == Catalog[23] == "REQUESTED to OPEN"
    ensures Catalog[11] == Catalog[25] == "GATE_CLOSED to OPEN"
    ensures Catalog[7] == Catalog[29] == "CLOSED to OPEN"
  {
  }

  /**
   * Lines 109-111: a table without rows has no columns; otherwise the columns
   * are `Location`, `OPEN to REQUESTED`, then the catalog entries other than
   * `OPEN to REQUESTED`, in catalog order and with their repeats.
   */
  lemma ColumnsSpec(rows: seq<Row>)
    ensures rows == [] ==> Columns(rows) == []
    ensures rows != [] ==> |Columns(rows)| >= 2 && Columns(rows)[0] == "Location" && Columns(rows)[1] == Start
    ensures rows != [] ==> forall t :: t in Columns(rows)[2..] <==> t in Catalog && t != Start
  {
    FilterMembers(Catalog, NotStart);
    if rows != [] {
      assert Columns(rows)[2..] == Filter(Catalog, NotStart);
    }
  }

  /** The run fails exactly on an empty file and on a file none of whose lines match. */
  lemma ReshapeFailures(lines: seq<string>, instant: string -> int)
    ensures lines == [] ==> Reshape(lines, instant).Failure?
    ensures lines != [] ==>
              (Reshape(lines, instant).Failure? <==> Entries(SkipHeader(lines).value, instant) == [])
  {
  }

  /** Lines 19-37: collecting the events of the lines. */
  method ParseEntries(lines: seq<string>, instant: string -> int) returns (entries: seq<Event>)
    ensures entries == Entries(lines, instant)
  {
    entries := [];
    for j := 0 to |lines|
      invariant entries == Entries(lines[..j], instant)
    {
      assert lines[..j + 1][..j] == lines[..j];
      var parsed := ParseLine(lines[j], instant);
      if parsed.Some? {
        entries := entries + [parsed.value];
      }
    }
    assert lines[..|lines|] == lines;
  }

  /** Lines 101-106: the row of one cycle, given its window. */
  method BuildRow(loc: string, start: int, window: seq<Event>) returns (row: Row)
    ensures row == Row(loc, start, Milestones(window, Catalog))
  {
    var cells: map<string, Option<int>> := map[];
    for c := 0 to |Catalog|
      invariant cells == Milestones(window, Catalog[..c])
    {
      assert Catalog[..c + 1][..c] == Catalog[..c];
      var transition := Catalog[c];
      if transition != Start {
        cells := cells[transition := Earliest(window, transition)];
      }
    }
    assert Catalog[..|Catalog|] == Catalog;
    row := Row(loc, start, cells);
  }

  /** Lines 88-107: the rows of one location, cycle by cycle. */
  method CycleRowsAt(evs: seq<Event>, loc: string) returns (rows: seq<Row>)
    ensures rows == LocationRows(evs, loc)
  {
    var located := AtLocation(evs, loc);
    var starts := CycleStarts(evs, loc);
    rows := [];
    for k := 0 to |starts|
      invariant |rows| == k
      invariant forall i :: 0 <= i < k ==> rows[i] == CycleRow(evs, loc, starts, i)
    {
      var next := if k + 1 < |starts| then Some(starts[k + 1]) else None;
      var row := BuildRow(loc, starts[k], Window(located, starts[k], next));
      rows := rows + [row];
    }
  }

  /** `reshape_log_to_table`, lines 7-111, without the file reading and writing. */
  method ReshapeLogToTable(lines: seq<string>, instant: string -> int) returns (r: Result<Table, string>)
    ensures r == Reshape(lines, instant)
  {
    var body := SkipHeader(lines);
    if body.Failure? {
      return Failure(body.error);
    }
    var entries := ParseEntries(body.value, instant);
    if entries == [] {
      return Failure("no column 'timestamp'");
    }
    var rows := BuildRows(entries, Distinct(Locations(entries)));
    r := Success(Table(Columns(rows), rows));
  }

  /** Lines 86-107: the rows of the locations, location by location. */
  method BuildRows(entries: seq<Event>, locations: seq<string>) returns (rows: seq<Row>)
    ensures rows == RowsFor(entries, locations)
  {
    rows := [];
    for i := 0 to |locations|
      invariant rows == RowsFor(entries, locations[..i])
    {
      assert locations[..i + 1][..i] == locations[..i];
      var locationRows := CycleRowsAt(entries, locations[i]);
      rows := rows + locationRows;
    }
    assert locations[..|locations|] == locations;
  }
}

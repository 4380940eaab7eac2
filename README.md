# sas-access-metrics, modelled in Dafny

sas-access-metrics turns warehouse controller logs into measurements of how long
safe access to a driveway or aisle takes. Its scripts form a pipeline, and this
project models each stage as a Dafny module:

- **LogFilter** (`sasAccessTimeDataExtraction.py`). It keeps the log lines that
  name a safety-state keyword as a whole word and none of the excluded phrases.
  It strips each kept line and shortens `botguardianN.mservices.<host>` to
  `botguardianN`. The result is a one-column table under the header `Log Entry`.
  The host-name rewrite is the module **HostName**.
- **AisleFilter** (`superseded/intermediate_filter_log_entries_aisle.py`). This
  is the same kind of filter for the `Z1`–`Z3 aisle req/key` lines, with a lazy
  host-name rewrite.
- **AisleTransitions** (`superseded/detect_aisle_transitions.py`). Per zone, it
  follows the request bit strings. It keeps a request line when the bits change
  to a value holding a `1` after an all-zero value was seen. It then keeps the
  zone's next key line. The script's three dictionaries and output list are the
  fields of the class `AisleDetector`.
- **EventParser** and **CycleWindower** (`reshape_list_to_table.py`). The
  parser runs the transition regex on each line and yields location, time and
  `FROM to TO` label. The windower groups events by location and cuts them into
  cycles at every `OPEN to REQUESTED`. For each cycle it records the earliest
  time of each catalogued transition strictly inside the window.
- **CycleRecords**. The windower's rows as the later scripts read them back:
  a cell per column name.
- **TransitionDeltas** (`table_access_time.py`). For each cycle row, the signed
  time from request to four milestones and the request start to the minute.
- **Timeline** (`AccessGrantedTimeline.py`). The cycles that reached safe
  access, each drawn as three stacked, clipped intervals.

**Text** holds the character classes, `strip()`, substring and regex-boundary
predicates, and the leftmost regex search. **Wrappers** holds `Option` and
`Result`.

Timestamps are whole seconds. The conversion `pd.to_datetime` is a parameter
`instant: string -> int` of the parser. File contents are sequences of lines,
and a CSV table is a sequence of rows.

## Model

| member | source | states |
|---|---|---|
| Text.RunEndRun | reshape_list_to_table.py:13-16 | A `+`-quantified class run covers exactly the characters of the class from its start and stops at the first one outside it |
| Text.RunEndExact | reshape_list_to_table.py:13-16 | Any run of the class that ends where the class ends is the one found (greedy `+`) |
| Text.RunEndCovers | reshape_list_to_table.py:13-16 | The greedy run reaches past every class character that follows without a gap |
| Text.LeadingSpace | sasAccessTimeDataExtraction.py:31 | The count of leading whitespace: all counted characters are whitespace, and the next is not |
| Text.TrailingSpace | sasAccessTimeDataExtraction.py:31 | The count of trailing whitespace: all counted characters are whitespace, and the one before is not |
| Text.Strip | sasAccessTimeDataExtraction.py:31 | `strip()` yields a substring of the input with no whitespace at either end, and only whitespace is cut off on either side |
| Text.StripStripped | sasAccessTimeDataExtraction.py:31 | A string without whitespace at either end is its own `strip()` |
| Text.TrailingSpaceAppend | reshape_list_to_table.py:9 | Whitespace appended after a non-space character is counted as trailing whitespace in full |
| Text.StripLineEnding | reshape_list_to_table.py:9 | Stripping a line read back with its line ending gives the line as written |
| Text.OccursAtConcat | reshape_list_to_table.py:12-17 | Two texts occur side by side iff their concatenation occurs there |
| Text.LeftmostFind | reshape_list_to_table.py:21 | `re.search` reports an index at which the anchored pattern succeeds |
| Text.LeftmostFindFirst | reshape_list_to_table.py:21 | The pattern fails at every index before the one found, and everywhere when nothing is found |
| HostName.HostMatch | sasAccessTimeDataExtraction.py:31 | A match found has a group of `botguardian` plus digits and extends past `.mservices.` |
| HostName.HostMatchSound | sasAccessTimeDataExtraction.py:31 | A match found is a match of `(\bbotguardian\d+)\.mservices\.[^\s]+`, and it runs on to whitespace or the end |
| HostName.HostMatchComplete | sasAccessTimeDataExtraction.py:31 | Every match of the pattern at that point is found, with the same group and the longest end (greedy `+`) |
| HostName.CopyWithoutB | sasAccessTimeDataExtraction.py:31 | Text without the letter `b` holds no match start and is copied through `re.sub` unchanged |
| HostName.AgreeToFirstB | sasAccessTimeDataExtraction.py:31 | The rewrite leaves the text unchanged up to and including its first `b`, and leaves text without `b` entirely unchanged |
| HostName.NoMatchKept | sasAccessTimeDataExtraction.py:31 | Where the pattern does not match, it does not match in the rewritten text either |
| HostName.RewriteIdempotent | sasAccessTimeDataExtraction.py:31 | Rewriting twice gives the same text as rewriting once |
| HostName.ShortenHostIdempotent | sasAccessTimeDataExtraction.py:31 | The rewrite of a line is idempotent |
| HostName.NoDomainUnchanged | sasAccessTimeDataExtraction.py:31 | Text without `.mservices.` is left unchanged |
| HostName.RewriteKeepsEnds | sasAccessTimeDataExtraction.py:31 | The rewrite keeps the first character and never ends with whitespace the input did not end with |
| HostName.ShortenHostStripped | sasAccessTimeDataExtraction.py:31 | The rewrite of a stripped line is still stripped |
| HostName.WholeHostMatches | sasAccessTimeDataExtraction.py:31 | `botguardian<digits>.mservices.<host>` is a match of the pattern up to the end of the host |
| HostName.WholeHostMatched | sasAccessTimeDataExtraction.py:31 | Followed by whitespace or the end, that host name is matched whole, the group ending after the digits |
| HostName.ShortenHostDropsWholeHost | sasAccessTimeDataExtraction.py:31 | `botguardian<digits>.mservices.<host>` becomes `botguardian<digits>`, and the rest of the line is rewritten on its own |
| LogFilter.CollectAppend | sasAccessTimeDataExtraction.py:26-32 | Rows are appended in input order: the rows of two stretches of lines follow one another |
| LogFilter.CollectMembers | sasAccessTimeDataExtraction.py:28-32 | The rows are exactly the cleaned lines that pass the test |
| LogFilter.RowsStrippedAndShort | sasAccessTimeDataExtraction.py:31 | Every row is stripped, and shortening it again changes nothing |
| LogFilter.ConcatAppend | sasAccessTimeDataExtraction.py:26-28 | Reading the lines of two runs of files gives the first run's lines, then the second's |
| LogFilter.FilesInOrder | sasAccessTimeDataExtraction.py:26-32 | The rows of earlier files precede the rows of later files |
| LogFilter.FilterFile | sasAccessTimeDataExtraction.py:27-32 | Scanning one more file extends the rows to exactly the rows of all lines seen so far |
| LogFilter.ExtractAndFilterLogs | sasAccessTimeDataExtraction.py:25-39 | The table is the `Log Entry` header followed by the rows of all files, and the count is the number of rows under the header |
| LogFilter.KeptIgnoresCase | sasAccessTimeDataExtraction.py:22-30 | Two lines equal up to letter case are kept or dropped alike (both patterns ignore case) |
| LogFilter.EmbeddedKeywordNotIncluded | sasAccessTimeDataExtraction.py:22 | A keyword running on into a longer word does not qualify a line (`\b…\b`) |
| LogFilter.KeywordAnyCaseIncluded | sasAccessTimeDataExtraction.py:22 | A keyword in lower case, followed by punctuation, qualifies a line |
| AisleFilter.LazyMatch | superseded/intermediate_filter_log_entries_aisle.py:37 | A match found has a group of `botguardian` plus digits and ends after `.mservices.` before the end of the text |
| AisleFilter.LazyMatchSound | superseded/intermediate_filter_log_entries_aisle.py:37 | A match found is a match of `\b(botguardian\d+)\.mservices\..*?\b` whose lazy part stops at the first boundary |
| AisleFilter.NoBoundaryNoWord | superseded/intermediate_filter_log_entries_aisle.py:37 | With no word boundary after a non-word character, no word character follows (the lazy part skips only non-word characters) |
| AisleFilter.LazyMatchComplete | superseded/intermediate_filter_log_entries_aisle.py:37 | Every such match at that point is the one found |
| AisleFilter.LazyNoDomainUnchanged | superseded/intermediate_filter_log_entries_aisle.py:37 | Text without `.mservices.` passes the lazy clean-up unchanged |
| AisleFilter.DirectWordMatches | superseded/intermediate_filter_log_entries_aisle.py:37 | `botguardian<digits>.mservices.` followed by a word character matches, ending before that character |
| AisleFilter.LazyCleanupKeepsHost | superseded/intermediate_filter_log_entries_aisle.py:36-37 | When the host starts with a word character, the lazy clean-up removes only `.mservices.` and keeps the host |
| AisleFilter.LazyCleanupCounterexample | superseded/intermediate_filter_log_entries_aisle.py:36-37 | `botguardian12.mservices.h-c.s` becomes `botguardian12h-c.s`, not `botguardian12` |
| AisleFilter.MainCleanupExample | sasAccessTimeDataExtraction.py:31 | The main filter shortens the same line to `botguardian12` |
| AisleFilter.BotliftDropped | superseded/intermediate_filter_log_entries_aisle.py:23-35 | A line holding `botlift` in any case is dropped by both filters |
| AisleFilter.FilterAisleLog | superseded/intermediate_filter_log_entries_aisle.py:31-43 | The table is the `Log Entry` header followed by the cleaned kept lines, in order |
| EventParser.OccursAt3 | reshape_list_to_table.py:13-16 | Three texts occur side by side iff their concatenation occurs there |
| EventParser.WordRunSound | reshape_list_to_table.py:14-16 | A literal followed by a `\d+` or `\w+` group found is written at that index and the group is a non-empty run |
| EventParser.WordRunComplete | reshape_list_to_table.py:14-16 | A literal and a maximal run written at an index are found there |
| EventParser.DrivewayAtRuns | reshape_list_to_table.py:14 | A Driveway location found is its three number groups found one after the other |
| EventParser.DrivewayTextOccurs | reshape_list_to_table.py:25 | The Driveway location text is written iff its three parts are written side by side |
| EventParser.DrivewayAtSound | reshape_list_to_table.py:14 | A Driveway location found is valid and written from that index to the end index |
| EventParser.AisleTextOccurs | reshape_list_to_table.py:27 | The Aisle location text is written iff its two parts are written side by side |
| EventParser.AisleAtRuns | reshape_list_to_table.py:15 | An Aisle location found is its two number groups found one after the other |
| EventParser.AisleAtSound | reshape_list_to_table.py:15 | An Aisle location found is valid and written from that index to the end index |
| EventParser.LocationAtSound | reshape_list_to_table.py:14-15 | The location alternative found is valid and written from that index to the end index |
| EventParser.TailTextOccurs | reshape_list_to_table.py:16 | The tail ` transitioned from X to Y"` is written iff its parts are written side by side |
| EventParser.TailAtRuns | reshape_list_to_table.py:16 | A tail found is the two state groups found one after the other, then a quote |
| EventParser.TailAtSound | reshape_list_to_table.py:16 | The states found are word runs and the tail is written at that index |
| EventParser.ClauseAtParts | reshape_list_to_table.py:14-16 | A clause found is a location found followed by a tail found |
| EventParser.ClauseTextOccurs | reshape_list_to_table.py:14-16 | A location text followed by a tail text is the clause text |
| EventParser.ClauseAtSound | reshape_list_to_table.py:14-16 | The clause found is valid and written at that index |
| EventParser.LazyFind | reshape_list_to_table.py:13 | The lazy `.*?` stops at an index where what follows succeeds |
| EventParser.LazyFindFirst | reshape_list_to_table.py:13 | The lazy filler crosses no newline and stops at the first index where what follows succeeds |
| EventParser.LazyFindOnLine | reshape_list_to_table.py:13 | The lazy filler holds no newline |
| EventParser.LazyFindReaches | reshape_list_to_table.py:13 | A continuation written before the next newline is reached by the lazy filler |
| EventParser.MatchWithParts | reshape_list_to_table.py:12-17 | A match found is a quote, a timestamp group, a space, a filler without newline and a clause the clause finder accepts, at the first index after the space where it accepts one |
| EventParser.MatchWithFound | reshape_list_to_table.py:12-17 | The pattern succeeds at an index once the filler reaches a clause |
| EventParser.MatchPieces | reshape_list_to_table.py:12-17 | Those pieces assemble into a match of the whole pattern |
| EventParser.MatchAtParts | reshape_list_to_table.py:12-17 | A match found supplies a timestamp and a clause reached across no newline, and no clause starts between the space and that clause |
| EventParser.NoShorterFiller | reshape_list_to_table.py:13 | A filler that passes no index where a clause starts is the shortest filler with which the pattern matches there |
| EventParser.ShortestWithin | reshape_list_to_table.py:13 | The shortest filler ends no later than the first clause the lazy filler reaches |
| EventParser.ShortestClauseFound | reshape_list_to_table.py:13-16 | The clause after the shortest filler is the first clause the lazy filler reaches |
| EventParser.MatchAtSound | reshape_list_to_table.py:12-17 | A match found is a match of the pattern at the same index, with the same timestamp and clause, and with the shortest filler that matches there (the lazy `.*?`) |
| EventParser.DrivewayAtComplete | reshape_list_to_table.py:14 | A written Driveway location followed by a non-digit is the one found |
| EventParser.DrivewayAtFromRuns | reshape_list_to_table.py:14 | Three number groups found one after the other are a Driveway location found |
| EventParser.AisleAtComplete | reshape_list_to_table.py:15 | A written Aisle location followed by a non-digit is the one found |
| EventParser.NoDrivewayAtAisle | reshape_list_to_table.py:14-15 | Where `Aisle ` is written, the Driveway alternative fails |
| EventParser.LocationAtComplete | reshape_list_to_table.py:14-15 | A written location followed by a non-digit is the one the alternative finds |
| EventParser.TailAtComplete | reshape_list_to_table.py:16 | A written tail with word states is the one found |
| EventParser.ClauseAtFromParts | reshape_list_to_table.py:14-16 | A location found followed by a tail found is a clause found |
| EventParser.ClauseTextSplits | reshape_list_to_table.py:14-16 | A written clause text is a location text, then a tail text starting with a space |
| EventParser.ClauseAtComplete | reshape_list_to_table.py:14-16 | A written valid clause is the one found |
| EventParser.StampChars | reshape_list_to_table.py:13 | Every character of a valid timestamp belongs to the timestamp class |
| EventParser.StampRun | reshape_list_to_table.py:13 | The timestamp group of a match is the whole run of timestamp characters after the quote, and a space follows |
| EventParser.MatchPiecesFound | reshape_list_to_table.py:13 | A match of the pattern supplies the timestamp pieces the search looks for |
| EventParser.MatchAtComplete | reshape_list_to_table.py:12-17 | A match of the pattern at an index is found there, with the same timestamp. When no shorter filler matches, it is found with the same clause as well |
| EventParser.MatchAtStamp | reshape_list_to_table.py:12-17 | A match of the pattern at an index is found there, with the same timestamp |
| EventParser.ShortestMatchAt | reshape_list_to_table.py:13-16 | The match found at an index carries the clause written after the shortest filler |
| EventParser.FillerReachesClause | reshape_list_to_table.py:13 | A clause written after a filler without newline is reached by the lazy filler |
| EventParser.ClauseFoundAfter | reshape_list_to_table.py:13 | A clause written before the next newline is reached |
| EventParser.MatchAtFound | reshape_list_to_table.py:12-17 | The pattern is found once the lazy filler reaches a clause |
| EventParser.ParseLineMatches | reshape_list_to_table.py:21-37 | A line yields an event iff the pattern matches in it. The event is built from the leftmost match, taken with its shortest filler: location text, parsed time and `FROM to TO` label |
| EventParser.ParseLineLeftmostShortest | reshape_list_to_table.py:21-37 | Any match with no match to its left and no shorter filler fixes the event the line yields |
| EventParser.NoMatchBefore | reshape_list_to_table.py:21 | No match of the pattern starts left of the one found |
| EventParser.NoMatchAnywhere | reshape_list_to_table.py:21-22 | When the search finds nothing, the pattern matches nowhere in the line |
| EventParser.MatchNeedsDrivewayOrAisle | reshape_list_to_table.py:14-15 | A match writes `Driveway ` or `Aisle ` in the line |
| EventParser.ParseNeedsDrivewayOrAisle | reshape_list_to_table.py:24-29 | A line yields an event only if it writes `Driveway ` or `Aisle ` (the `continue` branch is unreachable) |
| EventParser.SkipHeader | reshape_list_to_table.py:7-10 | An empty file fails (`lines[0]`). Otherwise exactly the first line is dropped iff, stripped and lower-cased, it starts with `log entry` |
| EventParser.FilterHeaderSkipped | reshape_list_to_table.py:9-10 | The header the filter writes, read back with any line ending, is skipped |
| CycleWindower.FilterMembers | reshape_list_to_table.py:88 | A boolean-mask selection holds exactly the accepted elements |
| CycleWindower.ParseAllMembers | reshape_list_to_table.py:19-37 | The collected results are exactly those of the accepted lines |
| CycleWindower.ParseAllAppend | reshape_list_to_table.py:19-37 | Results of earlier lines come before results of later lines |
| CycleWindower.EntriesMembers | reshape_list_to_table.py:19-37 | The entries are exactly the events of the lines the pattern is found in |
| CycleWindower.EntriesAppend | reshape_list_to_table.py:19-37 | Entries keep line order |
| CycleWindower.IndexOf | reshape_list_to_table.py:87 | The index of a present value holds that value |
| CycleWindower.DistinctSpec | reshape_list_to_table.py:87 | `unique()` keeps every value, each once, in order of first appearance |
| CycleWindower.InsertSpec | reshape_list_to_table.py:88 | Inserting into an ascending sequence keeps it ascending and adds exactly the element |
| CycleWindower.SortAscSpec | reshape_list_to_table.py:88 | `sort_values` gives an ascending permutation of the times |
| CycleWindower.EarliestSpec | reshape_list_to_table.py:105-106 | The cell is null iff no window event carries the transition, and otherwise it is the least time of such an event |
| CycleWindower.MilestonesSpec | reshape_list_to_table.py:102-106 | A row has a cell for each catalog transition other than `OPEN to REQUESTED`, holding its earliest time in the window |
| CycleWindower.FilterAppend | reshape_list_to_table.py:88 | Selection keeps order: a selection of a concatenation is the concatenation of the selections |
| CycleWindower.FilterAllOrNone | reshape_list_to_table.py:88 | Selecting what all elements satisfy keeps everything; what none satisfy, nothing |
| CycleWindower.TimesMembers | reshape_list_to_table.py:88-90 | The times are exactly the times of the events |
| CycleWindower.CycleStartsSpec | reshape_list_to_table.py:88-90 | A location's cycle starts are ascending and are exactly the times of its `OPEN to REQUESTED` events, with multiplicity |
| CycleWindower.LocationRowsSpec | reshape_list_to_table.py:88-107 | One row per start event of the location, each carrying the location, with ascending start times forming a permutation of those events' times |
| CycleWindower.WindowMembers | reshape_list_to_table.py:94-99 | The window holds exactly the location's events strictly between the start and the next start (or after the start, for the last cycle) |
| CycleWindower.MilestoneSpec | reshape_list_to_table.py:94-106 | A row's cell for a transition is null iff no event of it lies in the window, and otherwise it is the earliest such time |
| CycleWindower.CellKeys | reshape_list_to_table.py:101-106 | A cycle row has one cell per catalog transition other than `OPEN to REQUESTED` |
| CycleWindower.MilestoneInsideWindow | reshape_list_to_table.py:97-99 | A milestone lies strictly after its cycle's start and strictly before the next start |
| CycleWindower.MilestoneNeverAtStart | reshape_list_to_table.py:97-99 | No milestone falls on any cycle start time of its location |
| CycleWindower.EqualStartsEmptyWindow | reshape_list_to_table.py:94-97 | Two starts at the same instant leave the first cycle with every cell null |
| CycleWindower.RowsForOrder | reshape_list_to_table.py:87-107 | For distinct locations, rows come location by location in the given order |
| CycleWindower.LocationRowsSelected | reshape_list_to_table.py:101 | Selecting the rows of one location among another location's rows keeps all of them when the two are the same, and none otherwise |
| CycleWindower.RowsForAt | reshape_list_to_table.py:87-107 | The rows of one location in the table are exactly its cycle rows |
| CycleWindower.NoEventsNoRows | reshape_list_to_table.py:87-91 | A location without events has no rows |
| CycleWindower.TableOrder | reshape_list_to_table.py:87-107 | The table's locations occur in the log and appear in order of their first appearance |
| CycleWindower.TableRowsOfLocation | reshape_list_to_table.py:87-107 | The rows of a location in the full table are exactly that location's cycle rows |
| CycleWindower.RowsForKeys | reshape_list_to_table.py:101-106 | Every row has a cell for each catalog transition but the start, and no other |
| CycleWindower.RowsForAfterStart | reshape_list_to_table.py:97-99 | In every row, each milestone found comes after the row's start |
| CycleWindower.CatalogRepeats | reshape_list_to_table.py:44-84 | The catalog holds 34 entries, three of them twice |
| CycleWindower.ColumnsSpec | reshape_list_to_table.py:109-111 | An empty table has no columns. Otherwise the columns are `Location`, `OPEN to REQUESTED`, then exactly the other catalog transitions |
| CycleWindower.ReshapeFailures | reshape_list_to_table.py:9-40 | Of the failures that do not depend on parsing timestamps, the run fails exactly on an empty file and on a file none of whose lines match (the frame then has no `timestamp` column) |
| CycleWindower.ParseEntries | reshape_list_to_table.py:19-37 | The loop collects exactly the entries of the lines |
| CycleWindower.BuildRow | reshape_list_to_table.py:101-106 | The row holds the location, the start and the earliest time of each catalogued transition in the window |
| CycleWindower.CycleRowsAt | reshape_list_to_table.py:88-107 | The loop over a location's starts builds exactly that location's cycle rows |
| CycleWindower.BuildRows | reshape_list_to_table.py:86-107 | The loop over the locations builds exactly the table rows |
| CycleWindower.ReshapeLogToTable | reshape_list_to_table.py:7-111 | The run returns exactly the table the specification defines, or its failure |
| CycleRecords.AsRecord | table_access_time.py:15-17 | A row read back keeps its location and holds its start in the `OPEN to REQUESTED` column |
| CycleRecords.ReadBackColumns | reshape_list_to_table.py:109-112 | A row with a cell for every catalog transition reads back with any catalogued columns present |
| CycleRecords.ReadColumnsInCatalog | table_access_time.py:5-12 | Every column either reader parses is a catalog entry of the windower |
| CycleRecords.TableReadBack | AccessGrantedTimeline.py:8-13 | Every row of a table the windower builds has all the columns both readers parse |
| TransitionDeltas.Delta | table_access_time.py:20-33 | A delta is empty iff the milestone is, NaN iff only the request is missing, and otherwise the signed seconds from request to milestone |
| TransitionDeltas.RequestMinute | table_access_time.py:36 | The request start is empty iff the request is, and otherwise the minute that holds the request |
| TransitionDeltas.DeltaRowOf | table_access_time.py:15-45 | The output row keeps the location and has a request minute iff the request is present |
| TransitionDeltas.ComputeTransitionDeltas | table_access_time.py:14-45 | One output row per input row, in input order, each the row of that cycle |
| TransitionDeltas.DeltaIndependence | table_access_time.py:19-33 | Each delta depends only on the request and its own milestone column |
| TransitionDeltas.MilestonesAfterStartPositive | table_access_time.py:19-36 | A row whose milestones all follow its start has a request minute, no NaN, and positive deltas that add back up to the milestones |
| TransitionDeltas.TableDeltasPositive | table_access_time.py:14-36 | On any table the windower builds, every delta is empty or positive and never NaN |
| Timeline.Difference | AccessGrantedTimeline.py:19-21 | A difference is present iff both instants are, and then it adds back up to the later one |
| Timeline.FillAndClip | AccessGrantedTimeline.py:24-26 | Missing values become zero, negative values become zero, and others are kept |
| Timeline.Part | AccessGrantedTimeline.py:19-26 | An interval is never negative, is exact when both ends are present and in order, and is zero otherwise |
| Timeline.BarOf | AccessGrantedTimeline.py:19-26 | All three segments are non-negative |
| Timeline.StackedSegments | AccessGrantedTimeline.py:33-35 | The segments are laid end to end from zero without overlap and add up to the bar |
| Timeline.BarSpansCycle | AccessGrantedTimeline.py:19-35 | With all four instants present and in order, the bar is exactly request to safe access |
| Timeline.BarCoversCycle | AccessGrantedTimeline.py:19-35 | With all four instants present, the bar is never shorter than request to safe access |
| Timeline.Bars | AccessGrantedTimeline.py:16-35 | One bar per valid cycle, bar `i` built from valid cycle `i` |
| Timeline.ValidCyclesSpec | AccessGrantedTimeline.py:16-29 | The valid cycles are exactly the rows with safe access, one per such row, and `N` counts them |
| Timeline.ValidCyclesAppend | AccessGrantedTimeline.py:16 | The selection keeps input order |
| AisleTransitions.GroupAt | superseded/detect_aisle_transitions.py:27 | The anchored pattern `tag\s+(.*)` succeeds iff the tag is followed by whitespace |
| AisleTransitions.RemoveSpaces | superseded/detect_aisle_transitions.py:29 | The result holds no space and, with the same multiplicity, every other character of the input. A text without spaces is unchanged |
| AisleTransitions.RemoveSpacesAppend | superseded/detect_aisle_transitions.py:29 | Spaces are removed piece by piece, so the characters kept stay in input order |
| AisleTransitions.BitStringSpec | superseded/detect_aisle_transitions.py:27-29 | Bits are found iff the tag followed by whitespace occurs. They are then the text from after the whitespace to the next newline or the end, without spaces, at the leftmost occurrence |
| AisleTransitions.BitsOnlyOnRequestLines | superseded/detect_aisle_transitions.py:26-28 | A line that yields bits holds the request tag |
| AisleTransitions.ZoneStepSpec | superseded/detect_aisle_transitions.py:26-50 | The first request only seeds the bits. A later request is kept iff its bits changed, hold a `1` and a zero was seen. Other lines are kept iff they hold the key tag while the zone is armed. Seen-zero never resets, and consistency is kept |
| AisleTransitions.UntaggedLineIgnored | superseded/detect_aisle_transitions.py:26-50 | A line without either tag of a zone leaves that zone alone |
| AisleTransitions.ZoneRunConsistent | superseded/detect_aisle_transitions.py:10-50 | Every state a zone reaches from its initial entries is consistent |
| AisleTransitions.SeenZeroMonotone | superseded/detect_aisle_transitions.py:35-45 | Seen-zero, once set, stays set |
| AisleTransitions.OneKeyPerEdge | superseded/detect_aisle_transitions.py:42-50 | Without request lines, a zone keeps at most one key line, only if armed, and is then disarmed |
| AisleTransitions.LineKeptStripped | superseded/detect_aisle_transitions.py:41-49 | What one line contributes is copies of that line, stripped |
| AisleTransitions.ZonesIndependent | superseded/detect_aisle_transitions.py:22-50 | Each zone's entries after a scan are those of that zone scanned alone |
| AisleTransitions.RunKeepsStrippedLines | superseded/detect_aisle_transitions.py:20-50 | Every kept line is one of the input lines, stripped |
| AisleTransitions.AisleDetector.constructor | superseded/detect_aisle_transitions.py:9-14 | Every zone starts with no bits, no zero seen, not armed, and no lines are kept |
| AisleTransitions.AisleDetector.HandleRequest | superseded/detect_aisle_transitions.py:30-46 | Only that zone's entries change, as the request step says, and the line is appended stripped iff the step keeps it |
| AisleTransitions.AisleDetector.HandleZone | superseded/detect_aisle_transitions.py:23-50 | Only that zone's entries change, as its step says, and the line is appended stripped iff the step keeps it |
| AisleTransitions.AisleDetector.HandleLine | superseded/detect_aisle_transitions.py:22-50 | Every zone takes its step in turn, and the kept copies are appended in zone order |
| AisleTransitions.DetectAisleTransitions | superseded/detect_aisle_transitions.py:16-56 | An empty file fails at the header skip. Otherwise the output is the `Log Entry` header followed by the lines the scan keeps |

## Left out

- File reading and writing, CSV quoting, `print` calls and the output file names are not modelled. Input files are sequences of lines, and the CSV the filters write is read back as the sequence of its first fields.
- `pd.to_datetime` is the parameter `instant` of the parser. The model does not parse timestamps, so time zones and fractional seconds are whatever that function makes of them.
- Timestamps are whole seconds, so `total_seconds()` is integer subtraction. `strftime('%Y-%m-%d %H:%M')` is the start truncated to its minute (seconds divided by 60), without calendar formatting.
- `\w`, `\d`, `str.lower()` and `re.IGNORECASE` are restricted to ASCII, so Unicode letters, digits and case folding are not modelled. `\s` and `str.strip()` use Python's full whitespace set.
- `row[0]` on an empty CSV row (an `IndexError` in the aisle transition scan) is not modelled, because each row is given as its first field.
- Plotting in `AccessGrantedTimeline.py` (figure, bar drawing, labels, saving) is left out; only the bar geometry it draws is modelled. `histogram.py`, `main.py`, `unzip_gz_logs.py` and the scripts under `julio's scripts/` and `Method 1 using snapshots/` are not part of this model.
- Timeline.Bars: requires every row to hold the columns the timeline parses. `read_csv` with `parse_dates` fails on a missing column, and that failure is not modelled.
- CycleWindower.ReshapeFailures: does not model the `ValueError` that `pd.to_datetime` (reshape_list_to_table.py:40) raises on a timestamp that fits the pattern but is no date, such as `2024-13-45T99:99:99+00:00`, or on a column that mixes UTC offsets. `instant` is total, so every matched timestamp converts.
- TransitionDeltas.ComputeTransitionDeltas: requires every row to hold the columns the script parses, for the same reason.
- CycleWindower.ColumnsSpec: states which columns follow `Location` and `OPEN to REQUESTED`, but not the positions at which the three repeated catalog entries appear.
- `sort_values` is an insertion sort of the start times. Ties are irrelevant because only the times are kept.

## Findings

| source | as written | input that shows it | evidently intended | confidence | as-written member | corrected member |
|---|---|---|---|---|---|---|
| superseded/intermediate_filter_log_entries_aisle.py:36-37 | The lazy `.*?\b` after `.mservices.` stops at the first word boundary, which is before the first word character of the host, so the host stays in the line | `botguardian12.mservices.h-c.s` becomes `botguardian12h-c.s` | The whole host name is removed, as the comment on line 36 shows (`botguardianX.mservices.xxx → botguardianX`) and as the main filter does | not executed | AisleFilter.LazyCleanupCounterexample | HostName.ShortenHostDropsWholeHost |

The aisle filter model keeps the regex as written, because the later aisle stages read what it produced. The corrected behaviour is the greedy `[^\s]+` rewrite of the main filter (`HostName.ShortenHost`). `AisleFilter.MainCleanupExample` shows that rewrite on the same line.

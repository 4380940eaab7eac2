/**
 * The parse phase of `reshape_log_to_table`: the header skip and the line
 * regular expression
 *
 *   "(?P<timestamp>[\d\-:T\.]+[+-]\d{2}:\d{2}) .*?
 *   ((Driveway (\d+), Zone (\d+), Cell (\d+))|(Aisle (\d+), Zone (\d+)))
 *    transitioned from (\w+) to ([\w_]+)"
 *
 * searched in each line, which turns a matching line into one event.
 * Timestamps are handed to a parameter `instant`, which stands for
 * `pd.to_datetime` and yields an instant as an integer.
 *
 * Each matcher is a function with a light contract; beside it, a soundness
 * lemma says that what it finds is written in the line as the pattern
 * requires, and a completeness lemma says that what is written is found.
 */
module EventParser {
  import opened Text
  import opened Wrappers
  import LogFilter

  datatype Location =
    | Driveway(driveway: string, zone: string, cell: string)
    | Aisle(aisle: string, azone: string)

  /** One parsed line: where, when, and which `FROM to TO` transition. */
  datatype Event = Event(location: string, time: int, transition: string)

  /** The groups of the pattern after the lazy filler: the location alternative and the two states. */
  datatype Clause = Clause(location: Location, from: string, to: string)

  /** A match of the whole pattern: its timestamp group and its clause. */
  datatype Match = Match(stamp: string, clause: Clause)

  const Transitioned := " transitioned from "
  const To := " to "

  const DrivewayWord := "Driveway "
  const AisleWord := "Aisle "
  const ZoneWord := ", Zone "
  const CellWord := ", Cell "

  /** `f"Driveway {d}, Zone {z}, Cell {c}"` and `f"Aisle {a}, Zone {z}"` (lines 25 and 27). */
  function LocationText(l: Location): string {
    match l
    case Driveway(d, z, c) => (DrivewayWord + d) + (ZoneWord + z) + (CellWord + c)
    case Aisle(a, z) => (AisleWord + a) + (ZoneWord + z)
  }

  /** `f"{from_state} to {to_state}"` (line 32). */
  function TransitionLabel(from: string, to: string): string {
    from + To + to
  }

  /** `g` is a non-empty run of characters of class `cls`, as `\d+` or `\w+` match. */
  predicate IsRun(g: string, cls: char -> bool) {
    g != [] && forall k :: 0 <= k < |g| ==> cls(g[k])
  }

  predicate ValidLocation(l: Location) {
    match l
    case Driveway(d, z, c) => IsRun(d, IsDigit) && IsRun(z, IsDigit) && IsRun(c, IsDigit)
    case Aisle(a, z) => IsRun(a, IsDigit) && IsRun(z, IsDigit)
  }

  /** `[\d\-:T\.]` */
  predicate IsStampChar(c: char) {
    IsDigit(c) || c == '-' || c == ':' || c == 'T' || c == '.'
  }

  /** `[\d\-:T\.]+[+-]\d{2}:\d{2}` matches all of `r`. */
  predicate ValidStamp(r: string) {
    && |r| >= 7
    && (forall k :: 0 <= k < |r| - 6 ==> IsStampChar(r[k]))
    && (r[|r| - 6] == '+' || r[|r| - 6] == '-')
    && IsDigit(r[|r| - 5]) && IsDigit(r[|r| - 4]) && r[|r| - 3] == ':'
    && IsDigit(r[|r| - 2]) && IsDigit(r[|r| - 1])
  }

  /** A character the timestamp group can hold. */
  predicate InStamp(c: char) {
    IsStampChar(c) || c == '+'
  }

  /** The text from ` transitioned` to the closing quote. */
  function TailText(from: string, to: string): string {
    (Transitioned + from) + (To + to) + "\""
  }

  /** The text of the location alternative and the tail. */
  function ClauseText(c: Clause): string {
    LocationText(c.location) + TailText(c.from, c.to)
  }

  predicate ValidClause(c: Clause) {
    ValidLocation(c.location) && IsRun(c.from, IsWordChar) && IsRun(c.to, IsWordChar)
  }

  /**
   * The pattern matches `s` at index `i` with these groups, `filler` being the
   * text `.*?` consumes: a quote, the timestamp, a space, the filler, then the
   * location and the tail.
   */
  ghost predicate RegexMatchAt(s: string, i: nat, stamp: string, filler: string, c: Clause) {
    && i < |s| && s[i] == '"'
    && OccursAt(s, stamp, i + 1) && ValidStamp(stamp)
    && OccursAt(s, " ", i + 1 + |stamp|)
    && OccursAt(s, filler, i + 2 + |stamp|) && '\n' !in filler
    && OccursAt(s, ClauseText(c), i + 2 + |stamp| + |filler|) && ValidClause(c)
  }

  /** Three texts written side by side. */
  lemma OccursAt3(s: string, a: string, b: string, c: string, p: nat)
    ensures OccursAt(s, a + b + c, p) <==> OccursAt(s, a, p) && OccursAt(s, b, p + |a|) && OccursAt(s, c, p + |a| + |b|)
  {
    OccursAtConcat(s, a + b, c, p);
    OccursAtConcat(s, a, b, p);
  }

  /**
   * The word `w` at index `p`, then a greedy, non-empty run of characters of
   * class `cls` (`\d+` or `\w+`): the run and the index where it ends.
   */
  function WordRun(s: string, p: nat, w: string, cls: char -> bool): (r: Option<(string, nat)>)
    ensures r.Some? ==> r.value.1 <= |s|
  {
    if OccursAt(s, w, p) then
      var j := p + |w|;
      var e := RunEnd(s, j, cls);
      if j < e then Some((s[j..e], e)) else None
    else None
  }

  /** The run found is a run of the class, written right after the word. */
  lemma WordRunSound(s: string, p: nat, w: string, cls: char -> bool, g: string, e: nat)
    requires WordRun(s, p, w, cls) == Some((g, e))
    ensures IsRun(g, cls) && OccursAt(s, w + g, p) && e == p + |w| + |g|
  {
    var j := p + |w|;
    RunEndRun(s, j, cls);
    assert forall k :: 0 <= k < |g| ==> g[k] == s[j + k];
    assert OccursAt(s, g, j);
    OccursAtConcat(s, w, g, p);
  }

  /** A word and a run written at `p`, the run ending where the class ends, are found. */
  lemma WordRunComplete(s: string, p: nat, w: string, g: string, cls: char -> bool)
    requires IsRun(g, cls) && OccursAt(s, w + g, p)
    requires p + |w| + |g| == |s| || !cls(s[p + |w| + |g|])
    ensures WordRun(s, p, w, cls) == Some((g, p + |w| + |g|))
  {
    OccursAtConcat(s, w, g, p);
    var j := p + |w|;
    assert forall k :: j <= k < j + |g| ==> s[k] == g[k - j];
    RunEndExact(s, j, j + |g|, cls);
    assert s[j..j + |g|] == g;
  }

  /** `Driveway (\d+), Zone (\d+), Cell (\d+)` at index `p`, and where it ends. */
  function DrivewayAt(s: string, p: nat): Option<(Location, nat)> {
    match WordRun(s, p, DrivewayWord, IsDigit)
    case None => None
    case Some((d, e1)) =>
      match WordRun(s, e1, ZoneWord, IsDigit)
      case None => None
      case Some((z, e2)) =>
        match WordRun(s, e2, CellWord, IsDigit)
        case None => None
        case Some((c, e3)) => Some((Driveway(d, z, c), e3))
  }

  /** `Aisle (\d+), Zone (\d+)` at index `p`, and where it ends. */
  function AisleAt(s: string, p: nat): Option<(Location, nat)> {
    match WordRun(s, p, AisleWord, IsDigit)
    case None => None
    case Some((a, e1)) =>
      match WordRun(s, e1, ZoneWord, IsDigit)
      case None => None
      case Some((z, e2)) => Some((Aisle(a, z), e2))
  }

  /** The location alternative at index `p`: Driveway is tried first. */
  function LocationAt(s: string, p: nat): Option<(Location, nat)> {
    match DrivewayAt(s, p)
    case Some(r) => Some(r)
    case None => AisleAt(s, p)
  }

  /** A Driveway location found is three runs found one after the other. */
  lemma DrivewayAtRuns(s: string, p: nat, l: Location, e: nat) returns (e1: nat, e2: nat)
    requires DrivewayAt(s, p) == Some((l, e))
    ensures l.Driveway?
    ensures WordRun(s, p, DrivewayWord, IsDigit) == Some((l.driveway, e1))
    ensures WordRun(s, e1, ZoneWord, IsDigit) == Some((l.zone, e2))
    ensures WordRun(s, e2, CellWord, IsDigit) == Some((l.cell, e))
  {
    e1 := WordRun(s, p, DrivewayWord, IsDigit).value.1;
    e2 := WordRun(s, e1, ZoneWord, IsDigit).value.1;
  }

  /** The text of a Driveway location is the texts of its three parts, side by side. */
  lemma DrivewayTextOccurs(s: string, p: nat, d: string, z: string, c: string)
    ensures OccursAt(s, LocationText(Driveway(d, z, c)), p) <==>
              OccursAt(s, DrivewayWord + d, p) && OccursAt(s, ZoneWord + z, p + 9 + |d|)
              && OccursAt(s, CellWord + c, p + 16 + |d| + |z|)
  {
    OccursAt3(s, DrivewayWord + d, ZoneWord + z, CellWord + c, p);
  }

  /** The Driveway location found is valid and written from `p` to the end index. */
  lemma DrivewayAtSound(s: string, p: nat, l: Location, e: nat)
    requires DrivewayAt(s, p) == Some((l, e))
    ensures ValidLocation(l) && OccursAt(s, LocationText(l), p) && e == p + |LocationText(l)|
  {
    var e1, e2 := DrivewayAtRuns(s, p, l, e);
    WordRunSound(s, p, DrivewayWord, IsDigit, l.driveway, e1);
    WordRunSound(s, e1, ZoneWord, IsDigit, l.zone, e2);
    WordRunSound(s, e2, CellWord, IsDigit, l.cell, e);
    DrivewayTextOccurs(s, p, l.driveway, l.zone, l.cell);
  }

  /** The text of an Aisle location is the texts of its two parts, side by side. */
  lemma AisleTextOccurs(s: string, p: nat, a: string, z: string)
    ensures OccursAt(s, LocationText(Aisle(a, z)), p) <==>
              OccursAt(s, AisleWord + a, p) && OccursAt(s, ZoneWord + z, p + 6 + |a|)
  {
    OccursAtConcat(s, AisleWord + a, ZoneWord + z, p);
  }

  /** An Aisle location found is two runs found one after the other. */
  lemma AisleAtRuns(s: string, p: nat, l: Location, e: nat) returns (e1: nat)
    requires AisleAt(s, p) == Some((l, e))
    ensures l.Aisle?
    ensures WordRun(s, p, AisleWord, IsDigit) == Some((l.aisle, e1))
    ensures WordRun(s, e1, ZoneWord, IsDigit) == Some((l.azone, e))
  {
    e1 := WordRun(s, p, AisleWord, IsDigit).value.1;
  }

  /** The Aisle location found is valid and written from `p` to the end index. */
  lemma AisleAtSound(s: string, p: nat, l: Location, e: nat)
    requires AisleAt(s, p) == Some((l, e))
    ensures ValidLocation(l) && OccursAt(s, LocationText(l), p) && e == p + |LocationText(l)|
  {
    var e1 := AisleAtRuns(s, p, l, e);
    WordRunSound(s, p, AisleWord, IsDigit, l.aisle, e1);
    WordRunSound(s, e1, ZoneWord, IsDigit, l.azone, e);
    AisleTextOccurs(s, p, l.aisle, l.azone);
  }

  /** The location found is one the pattern allows, and it is written from `p` to the end index. */
  lemma LocationAtSound(s: string, p: nat, l: Location, e: nat)
    requires LocationAt(s, p) == Some((l, e))
    ensures ValidLocation(l) && OccursAt(s, LocationText(l), p) && e == p + |LocationText(l)|
  {
    if DrivewayAt(s, p).Some? {
      DrivewayAtSound(s, p, l, e);
    } else {
      AisleAtSound(s, p, l, e);
    }
  }

  /** ` transitioned from (\w+) to ([\w_]+)"` at index `q`: the two state groups. */
  function TailAt(s: string, q: nat): Option<(string, string)> {
    match WordRun(s, q, Transitioned, IsWordChar)
    case None => None
    case Some((from, e1)) =>
      match WordRun(s, e1, To, IsWordChar)
      case None => None
      case Some((to, e2)) => if e2 < |s| && s[e2] == '"' then Some((from, to)) else None
  }

  /** The tail text is the two state texts and the closing quote, side by side. */
  lemma TailTextOccurs(s: string, q: nat, from: string, to: string)
    ensures OccursAt(s, TailText(from, to), q) <==>
              OccursAt(s, Transitioned + from, q) && OccursAt(s, To + to, q + 19 + |from|)
              && OccursAt(s, "\"", q + 23 + |from| + |to|)
  {
    OccursAt3(s, Transitioned + from, To + to, "\"", q);
  }

  /** A tail found is two runs found one after the other, then a quote. */
  lemma TailAtRuns(s: string, q: nat, from: string, to: string) returns (e1: nat, e2: nat)
    requires TailAt(s, q) == Some((from, to))
    ensures WordRun(s, q, Transitioned, IsWordChar) == Some((from, e1))
    ensures WordRun(s, e1, To, IsWordChar) == Some((to, e2))
    ensures e2 < |s| && s[e2] == '"'
  {
    e1 := WordRun(s, q, Transitioned, IsWordChar).value.1;
    e2 := WordRun(s, e1, To, IsWordChar).value.1;
  }

  /** The states found are words, and the tail is written at `q`. */
  lemma TailAtSound(s: string, q: nat, from: string, to: string)
    requires TailAt(s, q) == Some((from, to))
    ensures IsRun(from, IsWordChar) && IsRun(to, IsWordChar) && OccursAt(s, TailText(from, to), q)
  {
    var e1, e2 := TailAtRuns(s, q, from, to);
    WordRunSound(s, q, Transitioned, IsWordChar, from, e1);
    WordRunSound(s, e1, To, IsWordChar, to, e2);
    assert OccursAt(s, "\"", e2) by { assert s[e2..e2 + 1] == "\""; }
    TailTextOccurs(s, q, from, to);
  }

  /** Location and tail at index `p`. */
  function ClauseAt(s: string, p: nat): Option<Clause> {
    match LocationAt(s, p)
    case None => None
    case Some((l, e)) =>
      match TailAt(s, e)
      case None => None
      case Some((from, to)) => Some(Clause(l, from, to))
  }

  /** A clause found is a location found followed by a tail found. */
  lemma ClauseAtParts(s: string, p: nat, c: Clause) returns (e: nat)
    requires ClauseAt(s, p) == Some(c)
    ensures LocationAt(s, p) == Some((c.location, e)) && TailAt(s, e) == Some((c.from, c.to))
  {
    e := LocationAt(s, p).value.1;
  }

  /** A location followed by a tail is written as the clause text. */
  lemma ClauseTextOccurs(s: string, p: nat, c: Clause)
    requires OccursAt(s, LocationText(c.location), p)
    requires OccursAt(s, TailText(c.from, c.to), p + |LocationText(c.location)|)
    ensures OccursAt(s, ClauseText(c), p)
  {
    OccursAtConcat(s, LocationText(c.location), TailText(c.from, c.to), p);
  }

  /** The clause found is one the pattern allows, and it is written at `p`. */
  lemma ClauseAtSound(s: string, p: nat, c: Clause)
    requires ClauseAt(s, p) == Some(c)
    ensures ValidClause(c) && OccursAt(s, ClauseText(c), p)
  {
    var e := ClauseAtParts(s, p, c);
    LocationAtSound(s, p, c.location, e);
    TailAtSound(s, e, c.from, c.to);
    ClauseTextOccurs(s, p, c);
  }

  /**
   * A lazy `.*?` from index `p`: the first index, reached without crossing a
   * newline, where `find` succeeds, and what it found there.
   */
  function LazyFind<T>(s: string, p: nat, find: (string, nat) -> Option<T>): (r: Option<(nat, T)>)
    requires p <= |s|
    ensures r.Some? ==> p <= r.value.0 <= |s| && find(s, r.value.0) == Some(r.value.1)
    decreases |s| - p
  {
    match find(s, p)
    case Some(x) => Some((p, x))
    case None => if p < |s| && s[p] != '\n' then LazyFind(s, p + 1, find) else None
  }

  /** The lazy filler crosses no newline and stops at the first index where `find` succeeds. */
  lemma {:induction false} LazyFindFirst<T>(s: string, p: nat, find: (string, nat) -> Option<T>)
    requires p <= |s| && LazyFind(s, p, find).Some?
    ensures forall k :: p <= k < LazyFind(s, p, find).value.0 ==> s[k] != '\n' && find(s, k).None?
    decreases |s| - p
  {
    if find(s, p).None? {
      LazyFindFirst(s, p + 1, find);
    }
  }

  /** The lazy filler crosses no newline: it stops at `q` with none in between. */
  lemma LazyFindOnLine<T>(s: string, p: nat, find: (string, nat) -> Option<T>, q: nat)
    requires p <= |s| && LazyFind(s, p, find).Some? && LazyFind(s, p, find).value.0 == q
    ensures forall k :: p <= k < q ==> s[k] != '\n'
  {
    LazyFindFirst(s, p, find);
  }

  /** The lazy filler reaches an index where `find` succeeds before the next newline. */
  lemma {:induction false} LazyFindReaches<T>(s: string, p: nat, p0: nat, find: (string, nat) -> Option<T>)
    requires p <= p0 <= |s| && find(s, p0).Some?
    requires forall k :: p <= k < p0 ==> s[k] != '\n'
    ensures LazyFind(s, p, find).Some?
    decreases p0 - p
  {
    if p < p0 && find(s, p).None? {
      LazyFindReaches(s, p + 1, p0, find);
    }
  }

  /** The pattern anchored at index `i`, with `clauseAt` finding the clause after the lazy filler. */
  function MatchWith(s: string, i: nat, clauseAt: (string, nat) -> Option<Clause>): Option<Match> {
    if i < |s| && s[i] == '"' then
      var j := RunEnd(s, i + 1, InStamp);
      if ValidStamp(s[i + 1..j]) && j < |s| && s[j] == ' ' then
        match LazyFind(s, j + 1, clauseAt)
        case Some((_, c)) => Some(Match(s[i + 1..j], c))
        case None => None
      else None
    else None
  }

  /** The pattern anchored at index `i`. */
  function MatchAt(s: string, i: nat): Option<Match> {
    MatchWith(s, i, ClauseAt)
  }

  /** What `MatchWith` found: a timestamp and, after it, the clause the lazy filler reached. */
  lemma MatchWithParts(s: string, i: nat, clauseAt: (string, nat) -> Option<Clause>, m: Match) returns (j: nat, p: nat)
    requires MatchWith(s, i, clauseAt) == Some(m)
    ensures i < j < |s| && s[i] == '"' && ValidStamp(s[i + 1..j]) && s[j] == ' ' && m.stamp == s[i + 1..j]
    ensures j + 1 <= p <= |s| && clauseAt(s, p) == Some(m.clause)
    ensures forall k :: j + 1 <= k < p ==> s[k] != '\n' && clauseAt(s, k).None?
  {
    j := RunEnd(s, i + 1, InStamp);
    p := LazyFind(s, j + 1, clauseAt).value.0;
    LazyFindFirst(s, j + 1, clauseAt);
  }

  /** `MatchWith` succeeds once the lazy filler reaches a clause. */
  lemma MatchWithFound(s: string, i: nat, j: nat, clauseAt: (string, nat) -> Option<Clause>)
    requires i < j < |s| && s[i] == '"' && RunEnd(s, i + 1, InStamp) == j
    requires ValidStamp(s[i + 1..j]) && s[j] == ' '
    requires LazyFind(s, j + 1, clauseAt).Some?
    ensures MatchWith(s, i, clauseAt) == Some(Match(s[i + 1..j], LazyFind(s, j + 1, clauseAt).value.1))
  {
  }

  /** The pieces `MatchAt` finds assemble into a match of the pattern. */
  lemma MatchPieces(s: string, i: nat, j: nat, p: nat, c: Clause)
    requires i < j < p <= |s| && s[i] == '"' && ValidStamp(s[i + 1..j]) && s[j] == ' '
    requires forall k :: j + 1 <= k < p ==> s[k] != '\n'
    requires ValidClause(c) && OccursAt(s, ClauseText(c), p)
    ensures RegexMatchAt(s, i, s[i + 1..j], s[j + 1..p], c)
  {
    var filler := s[j + 1..p];
    assert '\n' !in filler by {
      forall k | 0 <= k < |filler| ensures filler[k] != '\n' { assert filler[k] == s[j + 1 + k]; }
    }
    assert OccursAt(s, " ", j) by { assert s[j..j + 1] == " "; }
  }

  /**
   * No shorter filler lets the pattern match at `i` with this timestamp: the
   * lazy `.*?` takes the first clause it reaches.
   */
  ghost predicate ShortestFiller(s: string, i: nat, stamp: string, filler: string) {
    forall filler', c' :: |filler'| < |filler| ==> !RegexMatchAt(s, i, stamp, filler', c')
  }

  /** A filler that passes no index where a clause starts is the shortest one. */
  lemma NoShorterFiller(s: string, i: nat, j: nat, p: nat)
    requires i < j && j + 1 <= p <= |s|
    requires forall k :: j + 1 <= k < p ==> ClauseAt(s, k).None?
    ensures ShortestFiller(s, i, s[i + 1..j], s[j + 1..p])
  {
    var stamp := s[i + 1..j];
    assert i + 2 + |stamp| == j + 1;
    forall filler': string, c': Clause | |filler'| < p - j - 1
      ensures !RegexMatchAt(s, i, stamp, filler', c')
    {
      if RegexMatchAt(s, i, stamp, filler', c') {
        ClauseAtComplete(s, i + 2 + |stamp| + |filler'|, c');
        assert false;
      }
    }
  }

  /** A match found supplies a timestamp and, after it, a clause found by the lazy filler. */
  lemma MatchAtParts(s: string, i: nat, m: Match) returns (j: nat, p: nat)
    requires MatchAt(s, i) == Some(m)
    ensures i < j < |s| && s[i] == '"' && ValidStamp(s[i + 1..j]) && s[j] == ' ' && m.stamp == s[i + 1..j]
    ensures j + 1 <= p <= |s| && ClauseAt(s, p) == Some(m.clause)
    ensures forall k :: j + 1 <= k < p ==> s[k] != '\n' && ClauseAt(s, k).None?
  {
    j, p := MatchWithParts(s, i, ClauseAt, m);
  }

  /**
   * A match found is a match of the pattern at the same index, with the same
   * timestamp and clause, and with the shortest filler that matches there.
   */
  lemma MatchAtSound(s: string, i: nat, m: Match)
    requires MatchAt(s, i) == Some(m)
    ensures exists filler :: RegexMatchAt(s, i, m.stamp, filler, m.clause) && ShortestFiller(s, i, m.stamp, filler)
  {
    var j, p := MatchAtParts(s, i, m);
    ClauseAtSound(s, p, m.clause);
    MatchPieces(s, i, j, p, m.clause);
    NoShorterFiller(s, i, j, p);
  }

  /** Lines 21-37: the event a line yields, if the pattern is found in it. */
  function ParseLine(line: string, instant: string -> int): Option<Event> {
    match LeftmostFind(line, 0, MatchAt)
    case None => None
    case Some((_, Match(stamp, c))) =>
      Some(Event(LocationText(c.location), instant(stamp), TransitionLabel(c.from, c.to)))
  }

  /** A written Driveway location followed by a non-digit is the one `DrivewayAt` finds. */
  lemma DrivewayAtComplete(s: string, p: nat, l: Location)
    requires l.Driveway? && ValidLocation(l) && OccursAt(s, LocationText(l), p)
    requires p + |LocationText(l)| == |s| || !IsDigit(s[p + |LocationText(l)|])
    ensures DrivewayAt(s, p) == Some((l, p + |LocationText(l)|))
  {
    var Driveway(d, z, c) := l;
    var e1 := p + |DrivewayWord + d|;
    var e2 := e1 + |ZoneWord + z|;
    DrivewayTextOccurs(s, p, d, z, c);
    OccursHead(s, ZoneWord + z, e1);
    OccursHead(s, CellWord + c, e2);
    WordRunComplete(s, p, DrivewayWord, d, IsDigit);
    WordRunComplete(s, e1, ZoneWord, z, IsDigit);
    WordRunComplete(s, e2, CellWord, c, IsDigit);
    DrivewayAtFromRuns(s, p, d, z, c, e1, e2, e2 + |CellWord + c|);
  }

  /** The first character of an occurrence. */
  lemma OccursHead(s: string, a: string, p: nat)
    requires OccursAt(s, a, p) && a != []
    ensures s[p] == a[0]
  {
    assert s[p] == s[p..p + |a|][0];
  }

  /** Three runs found one after the other are a Driveway location found. */
  lemma DrivewayAtFromRuns(s: string, p: nat, d: string, z: string, c: string, e1: nat, e2: nat, e3: nat)
    requires WordRun(s, p, DrivewayWord, IsDigit) == Some((d, e1))
    requires WordRun(s, e1, ZoneWord, IsDigit) == Some((z, e2))
    requires WordRun(s, e2, CellWord, IsDigit) == Some((c, e3))
    ensures DrivewayAt(s, p) == Some((Driveway(d, z, c), e3))
  {
  }

  /** A written Aisle location followed by a non-digit is the one `AisleAt` finds. */
  lemma AisleAtComplete(s: string, p: nat, l: Location)
    requires l.Aisle? && ValidLocation(l) && OccursAt(s, LocationText(l), p)
    requires p + |LocationText(l)| == |s| || !IsDigit(s[p + |LocationText(l)|])
    ensures AisleAt(s, p) == Some((l, p + |LocationText(l)|))
  {
    var Aisle(a, z) := l;
    var e1 := p + |AisleWord + a|;
    AisleTextOccurs(s, p, a, z);
    OccursHead(s, ZoneWord + z, e1);
    WordRunComplete(s, p, AisleWord, a, IsDigit);
    WordRunComplete(s, e1, ZoneWord, z, IsDigit);
  }

  /** Where `Aisle ` is written, the Driveway alternative fails. */
  lemma NoDrivewayAtAisle(s: string, p: nat)
    requires OccursAt(s, AisleWord, p)
    ensures DrivewayAt(s, p).None?
  {
    assert s[p] == s[p..p + 6][0] == 'A';
    assert !OccursAt(s, DrivewayWord, p) by {
      assert p + 9 <= |s| ==> s[p..p + 9][0] == s[p];
    }
  }

  /** A written location followed by a non-digit is the one `LocationAt` finds. */
  lemma LocationAtComplete(s: string, p: nat, l: Location)
    requires ValidLocation(l) && OccursAt(s, LocationText(l), p)
    requires p + |LocationText(l)| == |s| || !IsDigit(s[p + |LocationText(l)|])
    ensures LocationAt(s, p) == Some((l, p + |LocationText(l)|))
  {
    if l.Driveway? {
      DrivewayAtComplete(s, p, l);
    } else {
      OccursPrefix(s, LocationText(l), AisleWord, p);
      NoDrivewayAtAisle(s, p);
      AisleAtComplete(s, p, l);
    }
  }

  /** A written tail is the one `TailAt` finds. */
  lemma TailAtComplete(s: string, q: nat, from: string, to: string)
    requires IsRun(from, IsWordChar) && IsRun(to, IsWordChar) && OccursAt(s, TailText(from, to), q)
    ensures TailAt(s, q) == Some((from, to))
  {
    var e1 := q + |Transitioned + from|;
    var e2 := e1 + |To + to|;
    TailTextOccurs(s, q, from, to);
    OccursHead(s, To + to, e1);
    OccursHead(s, "\"", e2);
    WordRunComplete(s, q, Transitioned, from, IsWordChar);
    WordRunComplete(s, e1, To, to, IsWordChar);
  }

  /** A location found followed by a tail found is a clause found. */
  lemma ClauseAtFromParts(s: string, p: nat, c: Clause, e: nat)
    requires LocationAt(s, p) == Some((c.location, e)) && TailAt(s, e) == Some((c.from, c.to))
    ensures ClauseAt(s, p) == Some(c)
  {
  }

  /** The clause text splits into a location text and a tail text that starts with a space. */
  lemma ClauseTextSplits(s: string, p: nat, c: Clause)
    requires OccursAt(s, ClauseText(c), p)
    ensures OccursAt(s, LocationText(c.location), p)
    ensures OccursAt(s, TailText(c.from, c.to), p + |LocationText(c.location)|)
    ensures s[p + |LocationText(c.location)|] == ' '
  {
    var lt := LocationText(c.location);
    var tt := TailText(c.from, c.to);
    OccursAtConcat(s, lt, tt, p);
    assert s[p + |lt|] == s[p + |lt|..p + |lt| + |tt|][0] == tt[0];
  }

  /** A written clause is the one `ClauseAt` finds. */
  lemma ClauseAtComplete(s: string, p: nat, c: Clause)
    requires ValidClause(c) && OccursAt(s, ClauseText(c), p)
    ensures ClauseAt(s, p) == Some(c)
  {
    ClauseTextSplits(s, p, c);
    var e := p + |LocationText(c.location)|;
    LocationAtComplete(s, p, c.location);
    TailAtComplete(s, e, c.from, c.to);
    ClauseAtFromParts(s, p, c, e);
  }

  /** Every character of a timestamp belongs to the timestamp class. */
  lemma StampChars(stamp: string)
    requires ValidStamp(stamp)
    ensures forall m :: 0 <= m < |stamp| ==> InStamp(stamp[m])
  {
    forall m | 0 <= m < |stamp| ensures InStamp(stamp[m]) {
      if m >= |stamp| - 6 {
        assert m == |stamp| - 6 || IsDigit(stamp[m]) || m == |stamp| - 3;
      }
    }
  }

  /** The timestamp group of a match is the whole run of timestamp characters after the quote. */
  lemma StampRun(s: string, i: nat, stamp: string, filler: string, c: Clause)
    requires RegexMatchAt(s, i, stamp, filler, c)
    ensures RunEnd(s, i + 1, InStamp) == i + 1 + |stamp| && s[i + 1..i + 1 + |stamp|] == stamp
    ensures s[i + 1 + |stamp|] == ' '
  {
    var j := i + 1 + |stamp|;
    StampChars(stamp);
    assert forall k :: i + 1 <= k < j ==> InStamp(s[k]) by {
      forall k | i + 1 <= k < j ensures InStamp(s[k]) { assert s[k] == stamp[k - i - 1]; }
    }
    assert s[j] == s[j..j + 1][0] == ' ';
    RunEndExact(s, i + 1, j, InStamp);
  }

  /** A match of the pattern at `i` supplies the pieces `MatchAt` looks for. */
  lemma MatchPiecesFound(s: string, i: nat, stamp: string, filler: string, c: Clause) returns (j: nat)
    requires RegexMatchAt(s, i, stamp, filler, c)
    ensures j == i + 1 + |stamp| && j < |s| && s[i] == '"' && RunEnd(s, i + 1, InStamp) == j
    ensures s[i + 1..j] == stamp && ValidStamp(stamp) && s[j] == ' '
  {
    StampRun(s, i, stamp, filler, c);
    j := i + 1 + |stamp|;
  }

  /**
   * A match of the pattern at `i` is found there, with the same timestamp;
   * when its filler is the shortest one, with the same clause too.
   */
  lemma MatchAtComplete(s: string, i: nat, stamp: string, filler: string, c: Clause)
    requires RegexMatchAt(s, i, stamp, filler, c)
    ensures MatchAt(s, i).Some? && MatchAt(s, i).value.stamp == stamp
    ensures ShortestFiller(s, i, stamp, filler) ==> MatchAt(s, i) == Some(Match(stamp, c))
  {
    MatchAtStamp(s, i, stamp, filler, c);
    if ShortestFiller(s, i, stamp, filler) {
      ShortestMatchAt(s, i, MatchAt(s, i).value, stamp, filler, c);
    }
  }

  /** A match of the pattern at `i` makes the lazy filler reach a clause, after the same timestamp. */
  lemma MatchAtStamp(s: string, i: nat, stamp: string, filler: string, c: Clause)
    requires RegexMatchAt(s, i, stamp, filler, c)
    ensures MatchAt(s, i).Some? && MatchAt(s, i).value.stamp == stamp
  {
    var j := MatchPiecesFound(s, i, stamp, filler, c);
    FillerReachesClause(s, j + 1, filler, c);
    MatchAtFound(s, i, j);
  }

  /** A match whose filler is the shortest one is reported with its own clause. */
  lemma ShortestMatchAt(s: string, i: nat, m: Match, stamp: string, filler: string, c: Clause)
    requires MatchAt(s, i) == Some(m) && m.stamp == stamp
    requires ValidClause(c) && OccursAt(s, ClauseText(c), i + 2 + |stamp| + |filler|)
    requires ShortestFiller(s, i, stamp, filler)
    ensures m.clause == c
  {
    var j, p := MatchAtParts(s, i, m);
    ShortestClauseFound(s, i, stamp, filler, c, j, p, m.clause);
  }

  /** The clause found after the shortest filler is the first clause the lazy filler reaches. */
  lemma ShortestClauseFound(s: string, i: nat, stamp: string, filler: string, c: Clause, j: nat, p: nat, c0: Clause)
    requires ValidClause(c) && OccursAt(s, ClauseText(c), i + 2 + |stamp| + |filler|) && ShortestFiller(s, i, stamp, filler)
    requires i < j < p <= |s| && s[i] == '"' && ValidStamp(s[i + 1..j]) && s[j] == ' ' && stamp == s[i + 1..j]
    requires ClauseAt(s, p) == Some(c0)
    requires forall k :: j + 1 <= k < p ==> s[k] != '\n' && ClauseAt(s, k).None?
    ensures c0 == c
  {
    var q := i + 2 + |stamp| + |filler|;
    assert ClauseAt(s, q) == Some(c) by { ClauseAtComplete(s, q, c); }
    ShortestWithin(s, i, stamp, filler, j, p, c0);
    assert q == p;
  }

  /** The shortest filler ends no later than the first clause the lazy filler reaches. */
  lemma ShortestWithin(s: string, i: nat, stamp: string, filler: string, j: nat, p: nat, c0: Clause)
    requires ShortestFiller(s, i, stamp, filler)
    requires i < j < p <= |s| && s[i] == '"' && ValidStamp(s[i + 1..j]) && s[j] == ' ' && stamp == s[i + 1..j]
    requires ClauseAt(s, p) == Some(c0)
    requires forall k :: j + 1 <= k < p ==> s[k] != '\n'
    ensures j + 1 + |filler| <= p
  {
    ClauseAtSound(s, p, c0);
    MatchPieces(s, i, j, p, c0);
    NotShorter(s, i, stamp, filler, s[j + 1..p], c0);
  }

  /** Every filler that matches at `i` is at least as long as the shortest one. */
  lemma NotShorter(s: string, i: nat, stamp: string, filler: string, filler': string, c': Clause)
    requires ShortestFiller(s, i, stamp, filler) && RegexMatchAt(s, i, stamp, filler', c')
    ensures |filler'| >= |filler|
  {
  }

  /** A clause written after a filler without a newline is reached by the lazy filler. */
  lemma FillerReachesClause(s: string, q: nat, filler: string, c: Clause)
    requires OccursAt(s, filler, q) && '\n' !in filler
    requires OccursAt(s, ClauseText(c), q + |filler|) && ValidClause(c)
    ensures LazyFind(s, q, ClauseAt).Some?
  {
    var p0 := q + |filler|;
    assert forall k :: q <= k < p0 ==> s[k] != '\n' by {
      forall k | q <= k < p0 ensures s[k] != '\n' { assert s[k] == filler[k - q]; }
    }
    ClauseAtComplete(s, p0, c);
    ClauseFoundAfter(s, q, p0);
  }

  /** A clause written before the next newline is reached by the lazy filler. */
  lemma ClauseFoundAfter(s: string, p: nat, p0: nat)
    requires p <= p0 <= |s| && ClauseAt(s, p0).Some?
    requires forall k :: p <= k < p0 ==> s[k] != '\n'
    ensures LazyFind(s, p, ClauseAt).Some?
  {
    LazyFindReaches(s, p, p0, ClauseAt);
  }

  /** The pattern is found at `i` once the lazy filler reaches a clause. */
  lemma MatchAtFound(s: string, i: nat, j: nat)
    requires i < j < |s| && s[i] == '"' && RunEnd(s, i + 1, InStamp) == j
    requires ValidStamp(s[i + 1..j]) && s[j] == ' '
    requires LazyFind(s, j + 1, ClauseAt).Some?
    ensures MatchAt(s, i) == Some(Match(s[i + 1..j], LazyFind(s, j + 1, ClauseAt).value.1))
  {
    MatchWithFound(s, i, j, ClauseAt);
  }

  /**
   * A line yields an event iff the pattern matches somewhere in it; the event
   * is built from the groups of a match that starts left of every other
   * match: the canonical location text, the parsed timestamp and the
   * `FROM to TO` label.
   */
  lemma ParseLineMatches(line: string, instant: string -> int)
    ensures ParseLine(line, instant).Some? <==>
              exists k: nat, stamp, filler, c :: RegexMatchAt(line, k, stamp, filler, c)
    ensures ParseLine(line, instant).Some? ==>
              exists k: nat, stamp, filler, c ::
                && RegexMatchAt(line, k, stamp, filler, c)
                && ShortestFiller(line, k, stamp, filler)
                && ParseLine(line, instant).value == Event(LocationText(c.location), instant(stamp), TransitionLabel(c.from, c.to))
                && forall k': nat, stamp', filler', c' :: k' < k ==> !RegexMatchAt(line, k', stamp', filler', c')
  {
    var r := LeftmostFind(line, 0, MatchAt);
    if r.Some? {
      var (k, m) := r.value;
      MatchAtSound(line, k, m);
      var filler :| RegexMatchAt(line, k, m.stamp, filler, m.clause) && ShortestFiller(line, k, m.stamp, filler);
      NoMatchBefore(line, k);
    } else {
      NoMatchAnywhere(line);
    }
  }

  /**
   * The leftmost match, taken with its shortest filler, fixes the event: its
   * timestamp and clause are the ones the line yields.
   */
  lemma ParseLineLeftmostShortest(line: string, instant: string -> int, k: nat, stamp: string, filler: string, c: Clause)
    requires RegexMatchAt(line, k, stamp, filler, c) && ShortestFiller(line, k, stamp, filler)
    requires forall k': nat, stamp', filler', c' :: k' < k ==> !RegexMatchAt(line, k', stamp', filler', c')
    ensures ParseLine(line, instant) == Some(Event(LocationText(c.location), instant(stamp), TransitionLabel(c.from, c.to)))
  {
    MatchAtComplete(line, k, stamp, filler, c);
    var r := LeftmostFind(line, 0, MatchAt);
    if r.None? || r.value.0 > k {
      LeftmostFindFirst(line, 0, MatchAt, k);
      assert false;
    } else if r.value.0 < k {
      MatchAtSound(line, r.value.0, r.value.1);
      assert false;
    }
  }

  /** No match of the pattern starts left of the one the scan finds. */
  lemma NoMatchBefore(line: string, k: nat)
    requires LeftmostFind(line, 0, MatchAt).Some? && k == LeftmostFind(line, 0, MatchAt).value.0
    ensures forall k': nat, stamp', filler', c' :: k' < k ==> !RegexMatchAt(line, k', stamp', filler', c')
  {
    forall k': nat, stamp', filler', c' | k' < k ensures !RegexMatchAt(line, k', stamp', filler', c') {
      if RegexMatchAt(line, k', stamp', filler', c') {
        MatchAtComplete(line, k', stamp', filler', c');
        LeftmostFindFirst(line, 0, MatchAt, k');
        assert false;
      }
    }
  }

  /** When the scan finds nothing, the pattern matches nowhere. */
  lemma NoMatchAnywhere(line: string)
    requires LeftmostFind(line, 0, MatchAt).None?
    ensures forall k: nat, stamp, filler, c :: !RegexMatchAt(line, k, stamp, filler, c)
  {
    forall k: nat, stamp, filler, c ensures !RegexMatchAt(line, k, stamp, filler, c) {
      if RegexMatchAt(line, k, stamp, filler, c) {
        MatchAtComplete(line, k, stamp, filler, c);
        LeftmostFindFirst(line, 0, MatchAt, k);
        assert false;
      }
    }
  }

  /** An occurrence of `a` is an occurrence of each prefix of `a`. */
  lemma OccursPrefix(s: string, a: string, b: string, p: nat)
    requires OccursAt(s, a, p) && StartsWith(a, b)
    ensures OccursAt(s, b, p)
  {
    assert s[p..p + |b|] == s[p..p + |a|][..|b|];
  }

  /** A match of the pattern writes `Driveway ` or `Aisle ` in the line. */
  lemma MatchNeedsDrivewayOrAisle(s: string, k: nat, stamp: string, filler: string, c: Clause)
    requires RegexMatchAt(s, k, stamp, filler, c)
    ensures Contains(s, "Driveway ") || Contains(s, "Aisle ")
  {
    var p := k + 2 + |stamp| + |filler|;
    ClauseTextSplits(s, p, c);
    var lt := LocationText(c.location);
    if c.location.Driveway? {
      OccursPrefix(s, lt, DrivewayWord, p);
    } else {
      OccursPrefix(s, lt, AisleWord, p);
    }
  }

  /**
   * Only the Driveway and Aisle forms are recognised: a line without either
   * (a Level line, say) yields no event.
   */
  lemma ParseNeedsDrivewayOrAisle(line: string, instant: string -> int)
    ensures ParseLine(line, instant).Some? ==> Contains(line, "Driveway ") || Contains(line, "Aisle ")
  {
    ParseLineMatches(line, instant);
    if ParseLine(line, instant).Some? {
      var k: nat, stamp, filler, c :| RegexMatchAt(line, k, stamp, filler, c);
      MatchNeedsDrivewayOrAisle(line, k, stamp, filler, c);
    }
  }

  /** The first line after `str.strip().lower()` begins with `log entry`. */
  predicate IsHeader(line: string) {
    StartsWith(LowerStr(Strip(line)), "log entry")
  }

  /**
   * Lines 9-10: the lines after dropping a header line; an empty file is an
   * error (the source fails on `lines[0]`).
   */
  function SkipHeader(lines: seq<string>): (r: Result<seq<string>, string>)
    ensures r.Failure? <==> lines == []
    ensures r.Success? ==> |lines| - 1 <= |r.value| <= |lines| && r.value == lines[|lines| - |r.value|..]
    ensures r.Success? ==> (|r.value| < |lines| <==> IsHeader(lines[0]))
  {
    if lines == [] then Failure("empty file")
    else if IsHeader(lines[0]) then Success(lines[1..])
    else Success(lines)
  }

  /** The header the filter writes, read back with its line ending, is skipped. */
  lemma FilterHeaderSkipped(ending: string)
    requires forall k :: 0 <= k < |ending| ==> IsSpace(ending[k])
    ensures IsHeader(LogFilter.Header + ending)
  {
    assert !IsSpace(LogFilter.Header[0]) && !IsSpace(LogFilter.Header[8]);
    StripLineEnding(LogFilter.Header, ending);
    assert LowerStr(LogFilter.Header) == "log entry";
  }
}

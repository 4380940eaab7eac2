/**
 * The superseded aisle edge detector (superseded/detect_aisle_transitions.py).
 * For each of the zones `Z1`, `Z2`, `Z3` it follows the request bits written
 * after `<zone> aisle req`, keeps a request line where the bits change to a
 * pattern with a `1` once an all-zero pattern has been seen, and then keeps
 * the next `<zone> aisle key` line.
 *
 * `ZoneStep` is one zone's automaton on one line, stated by its properties;
 * `Run` is the whole scan. The class `AisleDetector` holds the three
 * dictionaries of the script and is proved to compute `Run`.
 */
module AisleTransitions {
  import opened Wrappers
  import opened Text
  import LogFilter

  const Zones: seq<string> := ["Z1", "Z2", "Z3"]

  /** Line 23 */
  function ReqTag(zone: string): string { zone + " aisle req" }

  /** Line 24 */
  function KeyTag(zone: string): string { zone + " aisle key" }

  /** Line 26: `req_tag in line`. */
  predicate IsRequestLine(line: string, zone: string) {
    Contains(line, ReqTag(zone))
  }

  /** A character `.` matches. */
  predicate NotNewline(c: char) { c != '\n' }

  /** The tag at `i`, followed by at least one whitespace character. */
  predicate TagThenSpace(line: string, tag: string, i: nat) {
    OccursAt(line, tag, i) && i + |tag| < |line| && IsSpace(line[i + |tag|])
  }

  /** `tag\s+(.*)` anchored at `i`: group 1 if the pattern matches there. */
  function GroupAt(line: string, tag: string, i: nat): (r: Option<string>)
    ensures r.Some? <==> TagThenSpace(line, tag, i)
  {
    if TagThenSpace(line, tag, i) then
      var g := RunEnd(line, i + |tag|, IsSpace);
      Some(line[g..RunEnd(line, g, NotNewline)])
    else None
  }

  /** Line 29: `.replace(' ', '')`. */
  function RemoveSpaces(s: string): (r: string)
    ensures |r| <= |s|
    ensures ' ' !in r
    ensures forall c :: c != ' ' ==> (c in r <==> c in s)
    ensures multiset(r) == multiset(s)[' ' := 0]
    ensures ' ' !in s ==> r == s
  {
    if s == [] then []
    else
      var last := s[|s| - 1];
      assert s == s[..|s| - 1] + [last];
      RemoveSpaces(s[..|s| - 1]) + if last == ' ' then [] else [last]
  }

  /** Removing spaces keeps the order of what is left: it works piece by piece. */
  lemma {:induction false} RemoveSpacesAppend(a: string, b: string)
    ensures RemoveSpaces(a + b) == RemoveSpaces(a) + RemoveSpaces(b)
    decreases |b|
  {
    if b != [] {
      var b', last := b[..|b| - 1], b[|b| - 1];
      assert (a + b)[..|a + b| - 1] == a + b';
      RemoveSpacesAppend(a, b');
    } else {
      assert a + b == a;
    }
  }

  /** Lines 27-29: the bit string of a request line of `zone`, if the pattern is found. */
  function BitString(line: string, zone: string): (r: Option<string>)
  {
    match LeftmostFind(line, 0, (s: string, i: nat) => GroupAt(s, ReqTag(zone), i))
    case None => None
    case Some((_, group)) => Some(RemoveSpaces(group))
  }

  /**
   * The request pattern of `zone` matched in `line` with its tag at `i`
   * and no match before it, the whitespace run after the tag ending at `g`
   * and the group running from `g` up to the end of that line of text at `e`.
   */
  predicate MatchAt(line: string, zone: string, i: nat, g: nat, e: nat) {
    && i + |ReqTag(zone)| < g <= e <= |line|
    && TagThenSpace(line, ReqTag(zone), i)
    && (forall k :: 0 <= k < i ==> !TagThenSpace(line, ReqTag(zone), k))
    && (forall k :: i + |ReqTag(zone)| <= k < g ==> IsSpace(line[k]))
    && (g == |line| || !IsSpace(line[g]))
    && (forall k :: g <= k < e ==> line[k] != '\n')
    && (e == |line| || line[e] == '\n')
  }

  /**
   * Lines 27-29: the search finds the leftmost place where the tag is
   * followed by whitespace; the bits are the rest of that line of text after
   * the whole whitespace run, with the spaces taken out.
   */
  lemma BitStringSpec(line: string, zone: string)
    ensures BitString(line, zone).None? <==> forall i :: 0 <= i < |line| ==> !TagThenSpace(line, ReqTag(zone), i)
    ensures BitString(line, zone).Some? ==>
              exists i: nat, g: nat, e: nat :: MatchAt(line, zone, i, g, e) && BitString(line, zone).value == RemoveSpaces(line[g..e])
  {
    var tag := ReqTag(zone);
    var at := (s: string, i: nat) => GroupAt(s, ReqTag(zone), i);
    var found := LeftmostFind(line, 0, at);
    forall k | 0 <= k < |line| && (found.Some? ==> k < found.value.0)
      ensures !TagThenSpace(line, tag, k)
    {
      LeftmostFindFirst(line, 0, at, k);
    }
    if found.Some? {
      var i := found.value.0;
      var g := RunEnd(line, i + |tag|, IsSpace);
      var e := RunEnd(line, g, NotNewline);
      RunEndRun(line, i + |tag|, IsSpace);
      RunEndRun(line, g, NotNewline);
      assert TagThenSpace(line, tag, i);
      assert found.value.1 == line[g..e];
      assert MatchAt(line, zone, i, g, e);
    }
  }

  /** A line that yields bits holds the request tag. */
  lemma BitsOnlyOnRequestLines(line: string, zone: string)
    ensures BitString(line, zone).Some? ==> IsRequestLine(line, zone)
  {
    BitStringSpec(line, zone);
    if BitString(line, zone).Some? {
      var i :| 0 <= i < |line| && TagThenSpace(line, ReqTag(zone), i);
      assert 0 <= i <= |line| - |ReqTag(zone)| && OccursAt(line, ReqTag(zone), i);
    }
  }

  /**
   * One zone's entries of the three dictionaries: `prev_req_bits`,
   * `has_seen_valid_zero` and `capture_next_key`.
   */
  datatype ZoneState = ZoneState(prev: Option<string>, seenZero: bool, armed: bool)

  /** Lines 10-12: the entries before the first line. */
  const Idle := ZoneState(None, false, false)

  /** What every reachable state satisfies: nothing is set before the first request, and arming needs a zero seen. */
  predicate Consistent(z: ZoneState) {
    && (z.prev.None? ==> !z.seenZero && !z.armed)
    && (z.armed ==> z.seenZero)
  }

  /**
   * Lines 30-46: a request of the zone carrying `bits`, and whether it keeps
   * the line. The first request only seeds the previous bits; a later one
   * with the same bits does nothing.
   */
  function RequestStep(z: ZoneState, bits: string): (ZoneState, bool)
  {
    if z.prev.None? then
      (ZoneState(Some(bits), z.seenZero || '1' !in bits, z.armed), false)
    else if bits != z.prev.value then
      var keep := z.seenZero && '1' in bits;
      (ZoneState(Some(bits), z.seenZero || '1' !in bits, z.armed || keep), keep)
    else (z, false)
  }

  /**
   * Lines 23-50: one zone's step on one line, and whether it keeps the line.
   * A request line whose pattern is not found does nothing, and then the key
   * branch is not tried either.
   */
  function ZoneStep(z: ZoneState, zone: string, line: string): (ZoneState, bool)
  {
    if IsRequestLine(line, zone) then
      match BitString(line, zone)
      case None => (z, false)
      case Some(bits) => RequestStep(z, bits)
    else if Contains(line, KeyTag(zone)) && z.armed then
      (z.(armed := false), true)
    else (z, false)
  }

  /**
   * Lines 26-50, property by property: what one step of a zone does with
   * its entries and whether it keeps the line.
   */
  lemma ZoneStepSpec(z: ZoneState, zone: string, line: string)
    // lines 32-36: the first request only seeds `prev`, and sets seen-zero iff its bits hold no `1`
    ensures var (next, kept) := ZoneStep(z, zone, line);
            var bits := BitString(line, zone);
            IsRequestLine(line, zone) && bits.Some? && z.prev.None? ==>
              && !kept && next.prev == bits && next.armed == z.armed
              && next.seenZero == (z.seenZero || '1' !in bits.value)
    // lines 38-42: a later request is kept iff the bits changed, hold a `1`, and a zero was seen
    ensures var (next, kept) := ZoneStep(z, zone, line);
            var bits := BitString(line, zone);
            IsRequestLine(line, zone) && bits.Some? && z.prev.Some? ==>
              (kept <==> bits != z.prev && '1' in bits.value && z.seenZero)
    // line 38: unchanged bits change nothing
    ensures IsRequestLine(line, zone) && BitString(line, zone) == z.prev ==> ZoneStep(z, zone, line) == (z, false)
    // line 46: changed bits always overwrite `prev`
    ensures IsRequestLine(line, zone) && BitString(line, zone).Some? ==> ZoneStep(z, zone, line).0.prev == BitString(line, zone)
    // lines 26-28: a request line without the pattern does nothing, and the key branch is not tried
    ensures IsRequestLine(line, zone) && BitString(line, zone).None? ==> ZoneStep(z, zone, line) == (z, false)
    // lines 48-50: any other line is kept iff it holds the key tag and the zone is armed; keeping it disarms the zone
    ensures var (next, kept) := ZoneStep(z, zone, line);
            !IsRequestLine(line, zone) ==>
              && (kept <==> Contains(line, KeyTag(zone)) && z.armed)
              && next == (if kept then z.(armed := false) else z)
    // lines 35 and 44-45: seen-zero never goes back, and only bits without a `1` set it
    ensures var (next, kept) := ZoneStep(z, zone, line);
            && (z.seenZero ==> next.seenZero)
            && (next.seenZero && !z.seenZero ==> IsRequestLine(line, zone) && '1' !in BitString(line, zone).value)
    // line 42: a kept request line arms the zone, and arming or disarming always keeps the line
    ensures var (next, kept) := ZoneStep(z, zone, line);
            && (IsRequestLine(line, zone) && kept ==> next.armed)
            && (next.armed != z.armed ==> kept)
    ensures Consistent(z) ==> Consistent(ZoneStep(z, zone, line).0)
  {
  }

  /** A line holding neither tag of a zone leaves that zone alone. */
  lemma UntaggedLineIgnored(z: ZoneState, zone: string, line: string)
    requires !IsRequestLine(line, zone) && !Contains(line, KeyTag(zone))
    ensures ZoneStep(z, zone, line) == (z, false)
  {
  }

  /** One zone on its own over `lines` from state `start`: its final state and how many lines it kept. */
  function ZoneRun(start: ZoneState, zone: string, lines: seq<string>): (r: (ZoneState, nat))
    ensures r.1 <= |lines|
  {
    if lines == [] then (start, 0)
    else
      var (z, n) := ZoneRun(start, zone, lines[..|lines| - 1]);
      var (z', kept) := ZoneStep(z, zone, lines[|lines| - 1]);
      (z', n + if kept then 1 else 0)
  }

  /** Every state a zone reaches from its initial entries is consistent. */
  lemma {:induction false} ZoneRunConsistent(start: ZoneState, zone: string, lines: seq<string>)
    requires Consistent(start)
    ensures Consistent(ZoneRun(start, zone, lines).0)
  {
    if lines != [] {
      ZoneRunConsistent(start, zone, lines[..|lines| - 1]);
      ZoneStepSpec(ZoneRun(start, zone, lines[..|lines| - 1]).0, zone, lines[|lines| - 1]);
    }
  }

  /** Seen-zero, once set, stays set over any run of lines. */
  lemma {:induction false} SeenZeroMonotone(start: ZoneState, zone: string, lines: seq<string>)
    requires start.seenZero
    ensures ZoneRun(start, zone, lines).0.seenZero
  {
    if lines != [] {
      SeenZeroMonotone(start, zone, lines[..|lines| - 1]);
      ZoneStepSpec(ZoneRun(start, zone, lines[..|lines| - 1]).0, zone, lines[|lines| - 1]);
    }
  }

  /**
   * Lines 48-50: without a request line of the zone in between, at most one
   * key line is kept, and only if the zone was armed by the edge before.
   */
  lemma {:induction false} OneKeyPerEdge(start: ZoneState, zone: string, lines: seq<string>)
    requires forall k :: 0 <= k < |lines| ==> !IsRequestLine(lines[k], zone)
    ensures var (z, n) := ZoneRun(start, zone, lines);
            && n <= 1
            && (n == 1 ==> start.armed && !z.armed)
            && (n == 0 ==> z == start)
  {
    if lines != [] {
      OneKeyPerEdge(start, zone, lines[..|lines| - 1]);
      ZoneStepSpec(ZoneRun(start, zone, lines[..|lines| - 1]).0, zone, lines[|lines| - 1]);
    }
  }

  /** The entries of all zones, zone `Zones[k]` at index `k`. */
  type States = s: seq<ZoneState> | |s| == |Zones| witness [Idle, Idle, Idle]

  /** Lines 10-12: the entries before the first line. */
  const Initial: States := [Idle, Idle, Idle]

  /** Lines 22-50 on one line: each of the first `n` zones, in turn, keeps a stripped copy of the line if its step says so. */
  function LineKept(states: States, line: string, n: nat): (r: seq<string>)
    requires n <= |Zones|
    ensures |r| <= n
  {
    if n == 0 then []
    else LineKept(states, line, n - 1) + if ZoneStep(states[n - 1], Zones[n - 1], line).1 then [Strip(line)] else []
  }

  /** The entries after one line: each zone takes its own step. */
  function AfterLine(states: States, line: string): States {
    seq(|Zones|, k requires 0 <= k < |Zones| => ZoneStep(states[k], Zones[k], line).0)
  }

  /** Zone by zone, the entries after one line replace those before it. */
  lemma AfterLineStep(before: States, line: string, i: nat)
    requires i < |Zones|
    ensures AfterLine(before, line)[..i + 1] + before[i + 1..]
         == (AfterLine(before, line)[..i] + before[i..])[i := ZoneStep(before[i], Zones[i], line).0]
  {
  }

  /** Lines 20-50: the entries of all zones and the kept lines after a scan of `lines`. */
  function Run(lines: seq<string>): (States, seq<string>) {
    if lines == [] then (Initial, [])
    else
      var (states, kept) := Run(lines[..|lines| - 1]);
      var line := lines[|lines| - 1];
      (AfterLine(states, line), kept + LineKept(states, line, |Zones|))
  }

  /**
   * Lines 9-12 and 22-50: the zones do not interfere; the entries of a zone
   * after the scan are those of the zone run on its own.
   */
  lemma {:induction false} ZonesIndependent(lines: seq<string>, k: nat)
    requires k < |Zones|
    ensures Run(lines).0[k] == ZoneRun(Idle, Zones[k], lines).0
  {
    if lines != [] {
      ZonesIndependent(lines[..|lines| - 1], k);
    }
  }

  /** What one line contributes is copies of the stripped line. */
  lemma {:induction false} LineKeptStripped(states: States, line: string, n: nat)
    requires n <= |Zones|
    ensures forall k :: 0 <= k < |LineKept(states, line, n)| ==> LineKept(states, line, n)[k] == Strip(line)
  {
    if n > 0 {
      LineKeptStripped(states, line, n - 1);
    }
  }

  /** `x` is one of `lines`, stripped. */
  predicate StrippedFrom(x: string, lines: seq<string>) {
    exists j :: 0 <= j < |lines| && x == Strip(lines[j])
  }

  /**
   * Lines 22, 41 and 49: every kept line is a stripped input line, kept once
   * per zone that keeps it, in input order.
   */
  lemma {:induction false} RunKeepsStrippedLines(lines: seq<string>)
    ensures forall k :: 0 <= k < |Run(lines).1| ==> StrippedFrom(Run(lines).1[k], lines)
  {
    if lines != [] {
      var init, line := lines[..|lines| - 1], lines[|lines| - 1];
      RunKeepsStrippedLines(init);
      var states, kept := Run(init).0, Run(init).1;
      var added := LineKept(states, line, |Zones|);
      LineKeptStripped(states, line, |Zones|);
      var out := Run(lines).1;
      assert out == kept + added;
      forall k | 0 <= k < |out| ensures StrippedFrom(out[k], lines) {
        if k < |kept| {
          assert StrippedFrom(kept[k], init);
          var j :| 0 <= j < |init| && kept[k] == Strip(init[j]);
          assert out[k] == kept[k] && lines[j] == init[j];
        } else {
          assert out[k] == added[k - |kept|] == Strip(lines[|lines| - 1]);
        }
      }
    }
  }

  /** The three zone names differ. */
  lemma ZonesDistinct()
    ensures forall a, b :: 0 <= a < b < |Zones| ==> Zones[a] != Zones[b]
  {
    assert Zones[0][1] == '1' && Zones[1][1] == '2' && Zones[2][1] == '3';
  }

  /** The script's per-zone dictionaries and its list of kept lines. */
  class AisleDetector {
    var prevReqBits: map<string, Option<string>>
    var hasSeenValidZero: map<string, bool>
    var captureNextKey: map<string, bool>
    var filteredLines: seq<string>

    /** Every dictionary has an entry for every zone. */
    predicate Valid()
      reads this
    {
      forall k :: 0 <= k < |Zones| ==> Zones[k] in prevReqBits && Zones[k] in hasSeenValidZero && Zones[k] in captureNextKey
    }

    /** The entries of one zone. */
    function State(zone: string): ZoneState
      reads this
      requires zone in prevReqBits && zone in hasSeenValidZero && zone in captureNextKey
    {
      ZoneState(prevReqBits[zone], hasSeenValidZero[zone], captureNextKey[zone])
    }

    /** The entries of all zones. */
    function AllStates(): States
      reads this
      requires Valid()
    {
      [State(Zones[0]), State(Zones[1]), State(Zones[2])]
    }

    /** Lines 9-14 */
    constructor()
      ensures Valid() && AllStates() == Initial && filteredLines == []
    {
      prevReqBits := map z | z in Zones :: None;
      hasSeenValidZero := map z | z in Zones :: false;
      captureNextKey := map z | z in Zones :: false;
      filteredLines := [];
    }

    /** Lines 30-46: the handling of a request of zone `Zones[i]` carrying `bitString`. */
    method HandleRequest(line: string, i: nat, bitString: string)
      requires Valid() && i < |Zones|
      modifies this
      ensures Valid()
      ensures AllStates() == old(AllStates())[i := RequestStep(old(AllStates())[i], bitString).0]
      ensures filteredLines == old(filteredLines) + if RequestStep(old(AllStates())[i], bitString).1 then [Strip(line)] else []
    {
      ZonesDistinct();
      var zone := Zones[i];
      if prevReqBits[zone].None? {
        prevReqBits := prevReqBits[zone := Some(bitString)];
        if '1' !in bitString {
          hasSeenValidZero := hasSeenValidZero[zone := true];
        }
        return;
      }
      if Some(bitString) != prevReqBits[zone] {
        if hasSeenValidZero[zone] && '1' in bitString {
          filteredLines := filteredLines + [Strip(line)];
          captureNextKey := captureNextKey[zone := true];
        }
        if '1' !in bitString {
          hasSeenValidZero := hasSeenValidZero[zone := true];
        }
        prevReqBits := prevReqBits[zone := Some(bitString)];
      }
    }

    /** Lines 23-50: the handling of zone `Zones[i]` for one line; the other zones' entries stay as they were. */
    method HandleZone(line: string, i: nat)
      requires Valid() && i < |Zones|
      modifies this
      ensures Valid()
      ensures AllStates() == old(AllStates())[i := ZoneStep(old(AllStates())[i], Zones[i], line).0]
      ensures filteredLines == old(filteredLines) + if ZoneStep(old(AllStates())[i], Zones[i], line).1 then [Strip(line)] else []
    {
      ZonesDistinct();
      var zone := Zones[i];
      if IsRequestLine(line, zone) {
        var found := BitString(line, zone);
        if found.Some? {
          HandleRequest(line, i, found.value);
        }
      } else if Contains(line, KeyTag(zone)) && captureNextKey[zone] {
        filteredLines := filteredLines + [Strip(line)];
        captureNextKey := captureNextKey[zone := false];
      }
    }

    /** Line 22: every zone, in order, handles the line. */
    method HandleLine(line: string)
      requires Valid()
      modifies this
      ensures Valid()
      ensures AllStates() == AfterLine(old(AllStates()), line)
      ensures filteredLines == old(filteredLines) + LineKept(old(AllStates()), line, |Zones|)
    {
      ghost var before := AllStates();
      for i := 0 to |Zones|
        invariant Valid()
        invariant AllStates() == AfterLine(before, line)[..i] + before[i..]
        invariant filteredLines == old(filteredLines) + LineKept(before, line, i)
      {
        ghost var mid := AllStates();
        assert mid[i] == before[i];
        ghost var step := ZoneStep(before[i], Zones[i], line);
        HandleZone(line, i);
        assert LineKept(before, line, i + 1) == LineKept(before, line, i) + if step.1 then [Strip(line)] else [];
        AfterLineStep(before, line, i);
      }
    }
  }

  /**
   * Lines 16-56: the first row of the file is its header and is skipped; the
   * output is a `Log Entry` header and the kept lines. A file without any
   * row stops the script at `next(reader)`.
   */
  method DetectAisleTransitions(rows: seq<string>) returns (r: Result<seq<string>, string>)
    ensures rows == [] <==> r.Failure?
    ensures r.Success? ==> r.value == [LogFilter.Header] + Run(rows[1..]).1
  {
    if rows == [] {
      return Failure("StopIteration: no header row");
    }
    var lines := rows[1..];
    var detector := new AisleDetector();
    for j := 0 to |lines|
      invariant detector.Valid()
      invariant detector.AllStates() == Run(lines[..j]).0
      invariant detector.filteredLines == Run(lines[..j]).1
    {
      assert lines[..j + 1][..j] == lines[..j];
      detector.HandleLine(lines[j]);
    }
    assert lines[..|lines|] == lines;
    return Success([LogFilter.Header] + detector.filteredLines);
  }
}

/**
 * The superseded aisle filter: keeps the lines tagged `Z1`..`Z3 aisle req`
 * or `aisle key` that hold none of the noise phrases, and cleans the
 * `botguardian` hostname with a lazy regular expression,
 * `re.sub(r'\b(botguardian\d+)\.mservices\..*?\b', r'\1', line.strip())`.
 */
module AisleFilter {
  import opened Text
  import opened Wrappers
  import opened HostName
  import opened LogFilter

  const AisleTags: seq<string> := [
    "Z1 aisle req", "Z1 aisle key",
    "Z2 aisle req", "Z2 aisle key",
    "Z3 aisle req", "Z3 aisle key"
  ]

  /** The test at line 35; the exclude phrases are the same ten as the main filter's. */
  predicate AisleKept(line: string) {
    IncludedBy(AisleTags, line) && !Excluded(line)
  }

  /** A character `.*?` passes over before the next `\b`: neither a word character nor a newline. */
  predicate Skippable(c: char) { !IsWordChar(c) && c != '\n' }

  /**
   * The lazy pattern matches `t[..k]`, with group 1 equal to `t[..d]`: `.*?`
   * (which does not cross a newline) stops at the first `\b` after `.mservices.`.
   */
  ghost predicate LazyMatchesAt(prevWord: bool, t: string, d: nat, k: nat) {
    && !prevWord
    && 11 < d && d + 11 <= k <= |t|
    && StartsWith(t, Prefix)
    && (forall i :: 11 <= i < d ==> IsDigit(t[i]))
    && OccursAt(t, Domain, d)
    && (forall i :: d + 11 <= i < k ==> t[i] != '\n')
    && Boundary(t, k)
    && (forall i :: d + 11 <= i < k ==> !Boundary(t, i))
  }

  /** The match the regex engine finds at the head of `t`, if any. */
  function LazyMatch(prevWord: bool, t: string): (r: Option<(nat, nat)>)
    ensures r.Some? ==> 11 < r.value.0 && r.value.0 + 11 <= r.value.1 < |t|
  {
    if !prevWord && StartsWith(t, Prefix) then
      var d := RunEnd(t, 11, IsDigit);
      if 11 < d && OccursAt(t, Domain, d) then
        var k := RunEnd(t, d + 11, Skippable);
        if k < |t| && IsWordChar(t[k]) then Some((d, k)) else None
      else None
    else None
  }

  /** The match found is a match of the lazy pattern. */
  lemma LazyMatchSound(prevWord: bool, t: string)
    requires LazyMatch(prevWord, t).Some?
    ensures LazyMatchesAt(prevWord, t, LazyMatch(prevWord, t).value.0, LazyMatch(prevWord, t).value.1)
  {
    var (d, k) := LazyMatch(prevWord, t).value;
    RunEndRun(t, 11, IsDigit);
    RunEndRun(t, d + 11, Skippable);
    assert t[d + 10] == t[d..d + 11][10];
    forall i | d + 11 <= i < k ensures !Boundary(t, i) {
      assert Skippable(t[i]) && !IsWordChar(t[i - 1]);
    }
  }

  /** Between `j` and `k`, with a non-word character before `j` and no boundary, there is no word character. */
  lemma {:induction false} NoBoundaryNoWord(t: string, j: nat, k: nat)
    requires 0 < j <= k <= |t| && !IsWordChar(t[j - 1])
    requires forall i :: j <= i < k ==> !Boundary(t, i)
    ensures forall i :: j <= i < k ==> !IsWordChar(t[i])
    decreases k - j
  {
    if j < k {
      assert !Boundary(t, j);
      NoBoundaryNoWord(t, j + 1, k);
    }
  }

  /** Every match of the pattern at the head of `t` is the one found. */
  lemma LazyMatchComplete(prevWord: bool, t: string, d: nat, k: nat)
    requires LazyMatchesAt(prevWord, t, d, k)
    ensures LazyMatch(prevWord, t) == Some((d, k))
  {
    assert t[d] == t[d..d + 11][0] == '.';
    assert t[d + 10] == t[d..d + 11][10] == '.';
    RunEndExact(t, 11, d, IsDigit);
    NoBoundaryNoWord(t, d + 11, k);
    assert forall i :: d + 11 <= i < k ==> Skippable(t[i]);
    assert !IsWordChar(t[k - 1]);
    assert k < |t| && IsWordChar(t[k]);
    RunEndExact(t, d + 11, k, Skippable);
  }

  /** Line 37 applied to the rest `t` of a line, given whether the character before `t` is a word character. */
  function LazyRewrite(prevWord: bool, t: string): (r: string)
    ensures |r| <= |t|
    decreases |t|
  {
    if t == [] then []
    else if LazyMatch(prevWord, t).Some? then
      var (d, k) := LazyMatch(prevWord, t).value;
      t[..d] + LazyRewrite(IsWordChar(t[k - 1]), t[k..])
    else [t[0]] + LazyRewrite(IsWordChar(t[0]), t[1..])
  }

  /** Line 37: the cleaned text of a kept line. */
  function LazyCleaned(line: string): (r: string)
    ensures |r| <= |line|
  {
    LazyRewrite(false, Strip(line))
  }

  /** Text without `.mservices.` passes the lazy clean-up unchanged. */
  lemma {:induction false} LazyNoDomainUnchanged(prevWord: bool, t: string)
    requires !Contains(t, Domain)
    ensures LazyRewrite(prevWord, t) == t
    decreases |t|
  {
    if t != [] {
      assert LazyMatch(prevWord, t).None?;
      assert !Contains(t[1..], Domain) by {
        forall i | 0 <= i <= |t[1..]| - |Domain| ensures !OccursAt(t[1..], Domain, i) {
          assert t[1..][i..i + |Domain|] == t[i + 1..i + 1 + |Domain|];
          assert !OccursAt(t, Domain, i + 1);
        }
      }
      LazyNoDomainUnchanged(IsWordChar(t[0]), t[1..]);
    }
  }

  /** One step of the lazy clean-up where the pattern matches at the head. */
  lemma LazyUnfoldMatch(prevWord: bool, t: string)
    requires t != [] && LazyMatch(prevWord, t).Some?
    ensures var (d, k) := LazyMatch(prevWord, t).value;
            LazyRewrite(prevWord, t) == t[..d] + LazyRewrite(IsWordChar(t[k - 1]), t[k..])
  {
  }

  /** `botguardian<digits>.mservices.` followed by a word character matches, ending before that character. */
  lemma DirectWordMatches(digits: string, host: string)
    requires digits != [] && forall i :: 0 <= i < |digits| ==> IsDigit(digits[i])
    requires host != [] && IsWordChar(host[0])
    ensures LazyMatchesAt(false, Prefix + digits + Domain + host, 11 + |digits|, 22 + |digits|)
  {
    var t := Prefix + digits + Domain + host;
    var d := 11 + |digits|;
    assert t[..11] == Prefix;
    assert t[d..d + 11] == Domain;
    assert forall i :: 11 <= i < d ==> t[i] == digits[i - 11];
    assert t[d + 10] == '.';
    assert t[d + 11] == host[0];
  }

  /**
   * When a word character follows `.mservices.` directly, the lazy clean-up
   * removes `.mservices.` alone and keeps the rest of the host name.
   */
  lemma LazyCleanupKeepsHost(digits: string, host: string)
    requires digits != [] && forall i :: 0 <= i < |digits| ==> IsDigit(digits[i])
    requires host != [] && IsWordChar(host[0])
    ensures LazyRewrite(false, Prefix + digits + Domain + host) == Prefix + digits + LazyRewrite(false, host)
  {
    var t := Prefix + digits + Domain + host;
    var d := 11 + |digits|;
    DirectWordMatches(digits, host);
    LazyMatchComplete(false, t, d, d + 11);
    LazyUnfoldMatch(false, t);
    assert t[..d] == Prefix + digits;
    assert t[d + 11..] == host;
    assert t[d + 10] == '.';
  }

  /**
   * The input that shows the lazy clean-up falling short of the comment at
   * line 36: in `botguardian12.mservices.h-c.s` the host name after
   * `.mservices.` survives.
   */
  lemma LazyCleanupCounterexample()
    ensures LazyCleaned(Prefix + "12" + Domain + "h-c.s") == Prefix + "12" + "h-c.s"
  {
    var digits, host := "12", "h-c.s";
    var line := Prefix + digits + Domain + host;
    assert IsDigit(digits[0]) && IsDigit(digits[1]);
    assert !IsSpace(line[0]) && !IsSpace(line[|line| - 1]);
    StripStripped(line);
    LazyCleanupKeepsHost(digits, host);
    LazyNoDomainUnchanged(false, host);
  }

  /** The main filter's rewrite drops the whole host name of the same line. */
  lemma MainCleanupExample()
    ensures Cleaned(Prefix + "12" + Domain + "h-c.s") == Prefix + "12"
  {
    var digits, host := "12", "h-c.s";
    var line := Prefix + digits + Domain + host;
    assert IsDigit(digits[0]) && IsDigit(digits[1]);
    assert forall k :: 0 <= k < |host| ==> !IsSpace(host[k]);
    assert !IsSpace(line[0]) && !IsSpace(line[|line| - 1]);
    StripStripped(line);
    assert line + "" == line;
    ShortenHostDropsWholeHost(digits, host, "");
  }

  /** The rows of the aisle log, in order. */
  function AisleRows(lines: seq<string>): (r: seq<string>)
    ensures |r| <= |lines|
  {
    Collect(AisleKept, LazyCleaned, lines)
  }

  /** A line holding `botlift` in any case is dropped, whatever tags it carries. */
  lemma BotliftDropped(line: string)
    requires Contains(LowerStr(line), "botlift")
    ensures !AisleKept(line)
    ensures !Kept(line)
  {
    assert LowerStr(ExcludePhrases[7]) == "botlift";
    assert ContainsIgnoringCase(LowerStr(line), ExcludePhrases[7]) by {
      var l := LowerStr(line);
      assert LowerStr(l) == l;
    }
  }

  /** Lines 31-43: the header row, then one row per kept line of the log. */
  method FilterAisleLog(lines: seq<string>) returns (table: seq<string>)
    ensures table == [Header] + AisleRows(lines)
  {
    var filtered: seq<string> := [];
    for j := 0 to |lines|
      invariant filtered == AisleRows(lines[..j])
    {
      assert lines[..j + 1][..j] == lines[..j];
      if AisleKept(lines[j]) {
        filtered := filtered + [LazyCleaned(lines[j])];
      }
    }
    assert lines[..|lines|] == lines;
    table := [Header] + filtered;
  }
}

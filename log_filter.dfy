/**
 * `extract_and_filter_logs`: keeps the log lines that mention a safety
 * keyword as a whole word and none of the noise phrases, strips them,
 * shortens their `botguardian` hostnames and collects them, file after
 * file, under a `Log Entry` header.
 */
module LogFilter {
  import opened Text
  import opened HostName

  const IncludeKeywords: seq<string> := ["LockedSetSafetyIOContext", "LockedSetSafeAccessState"]

  /** Phrases that drop a line wherever they occur, in any case. */
  const ExcludePhrases: seq<string> := [
    "bot id requested", "requested to renew lease",
    "Accountant requested codeplate", "Vendor-Class-ID requested", "Options requested",
    "SafetyTimeManager", "_botLift_", "Botlift", "Unsafe level", "Unsafe cell"
  ]

  const Header := "Log Entry"

  /** `re.search(r'\b(?:k1|k2|...)\b', line, re.IGNORECASE)` succeeds. */
  predicate IncludedBy(keywords: seq<string>, line: string) {
    exists k :: 0 <= k < |keywords| && ContainsWord(line, keywords[k])
  }

  /** The exclude pattern, searched in `line.lower()`, succeeds. */
  predicate Excluded(line: string) {
    exists k :: 0 <= k < |ExcludePhrases| && ContainsIgnoringCase(LowerStr(line), ExcludePhrases[k])
  }

  /** The test at line 30 of the script. */
  predicate Kept(line: string) {
    IncludedBy(IncludeKeywords, line) && !Excluded(line)
  }

  /** The row text of a kept line (line 31). */
  function Cleaned(line: string): (r: string)
    ensures |r| <= |line|
  {
    ShortenHost(Strip(line))
  }

  /** The lines of all files, file after file. */
  function Concat(files: seq<seq<string>>): (r: seq<string>)
    ensures files == [] ==> r == []
  {
    if files == [] then [] else Concat(files[..|files| - 1]) + files[|files| - 1]
  }

  /** The rows a filter loop appends: `clean(line)` for each line passing `kept`, in order. */
  function Collect(kept: string -> bool, clean: string -> string, lines: seq<string>): (r: seq<string>)
    ensures |r| <= |lines|
  {
    if lines == [] then []
    else
      var init := Collect(kept, clean, lines[..|lines| - 1]);
      if kept(lines[|lines| - 1]) then init + [clean(lines[|lines| - 1])] else init
  }

  /** Collecting distributes over concatenation: output order is input order. */
  lemma {:induction false} CollectAppend(kept: string -> bool, clean: string -> string, a: seq<string>, b: seq<string>)
    ensures Collect(kept, clean, a + b) == Collect(kept, clean, a) + Collect(kept, clean, b)
    decreases |b|
  {
    if b != [] {
      var b' := b[..|b| - 1];
      assert (a + b)[..|a + b| - 1] == a + b';
      CollectAppend(kept, clean, a, b');
    } else {
      assert a + b == a;
    }
  }

  /** The rows are exactly the cleaned lines that pass the test. */
  lemma {:induction false} CollectMembers(kept: string -> bool, clean: string -> string, lines: seq<string>, x: string)
    ensures x in Collect(kept, clean, lines) <==> exists i :: 0 <= i < |lines| && kept(lines[i]) && x == clean(lines[i])
  {
    if lines != [] {
      var init := lines[..|lines| - 1];
      CollectMembers(kept, clean, init, x);
      assert forall i :: 0 <= i < |init| ==> lines[i] == init[i];
    }
  }

  /** The rows collected from the lines of the log files (line 30 decides, line 31 cleans). */
  function FilterLines(lines: seq<string>): (r: seq<string>)
    ensures |r| <= |lines|
  {
    Collect(Kept, Cleaned, lines)
  }

  /** One more line adds its row when it is kept, and nothing otherwise. */
  lemma FilterLinesStep(seen: seq<string>, line: string)
    ensures FilterLines(seen + [line]) == FilterLines(seen) + if Kept(line) then [Cleaned(line)] else []
  {
    assert (seen + [line])[..|seen|] == seen;
  }

  /** Every row is stripped, and shortening it again changes nothing. */
  lemma RowsStrippedAndShort(lines: seq<string>)
    ensures forall x :: x in FilterLines(lines) ==> Strip(x) == x && ShortenHost(x) == x
  {
    forall x | x in FilterLines(lines) ensures Strip(x) == x && ShortenHost(x) == x {
      CollectMembers(Kept, Cleaned, lines, x);
      var i :| 0 <= i < |lines| && Kept(lines[i]) && x == Cleaned(lines[i]);
      var s := Strip(lines[i]);
      StripStripped(s);
      ShortenHostStripped(s);
      ShortenHostIdempotent(s);
    }
  }

  /** Concatenating the lines of two runs of files. */
  lemma {:induction false} ConcatAppend(a: seq<seq<string>>, b: seq<seq<string>>)
    ensures Concat(a + b) == Concat(a) + Concat(b)
    decreases |b|
  {
    if b != [] {
      var b' := b[..|b| - 1];
      assert (a + b)[..|a + b| - 1] == a + b';
      ConcatAppend(a, b');
    } else {
      assert a + b == a;
    }
  }

  /** The rows of earlier files precede the rows of later files. */
  lemma FilesInOrder(a: seq<seq<string>>, b: seq<seq<string>>)
    ensures FilterLines(Concat(a + b)) == FilterLines(Concat(a)) + FilterLines(Concat(b))
  {
    ConcatAppend(a, b);
    CollectAppend(Kept, Cleaned, Concat(a), Concat(b));
  }

  /** Lines 28-32: the rows of one more file, appended to the rows of the lines `seen` before it. */
  method FilterFile(filtered: seq<string>, ghost seen: seq<string>, file: seq<string>) returns (r: seq<string>)
    requires filtered == FilterLines(seen)
    ensures r == FilterLines(seen + file)
  {
    r := filtered;
    assert seen + file[..0] == seen;
    for j := 0 to |file|
      invariant r == FilterLines(seen + file[..j])
    {
      var line := file[j];
      assert seen + file[..j + 1] == (seen + file[..j]) + [line];
      FilterLinesStep(seen + file[..j], line);
      if Kept(line) {
        r := r + [Cleaned(line)];
      }
    }
    assert file[..|file|] == file;
  }

  /** Lines 25-39: the header row, then one row per kept line of every file, and the row count. */
  method ExtractAndFilterLogs(logFiles: seq<seq<string>>) returns (table: seq<string>, count: nat)
    ensures table == [Header] + FilterLines(Concat(logFiles))
    ensures count == |table| - 1
  {
    var filtered: seq<string> := [];
    for i := 0 to |logFiles|
      invariant filtered == FilterLines(Concat(logFiles[..i]))
    {
      assert logFiles[..i + 1][..i] == logFiles[..i];
      filtered := FilterFile(filtered, Concat(logFiles[..i]), logFiles[i]);
    }
    assert logFiles[..|logFiles|] == logFiles;
    table := [Header] + filtered;
    count := |filtered|;
  }

  /** Lower-casing a slice is slicing the lower-cased string. */
  lemma LowerSlice(s: string, i: nat, j: nat)
    requires i <= j <= |s|
    ensures LowerStr(s[i..j]) == LowerStr(s)[i..j]
  {
  }

  /** Two lines that agree once lower-cased are kept or dropped alike. */
  lemma KeptIgnoresCase(s: string, s': string)
    requires LowerStr(s) == LowerStr(s')
    ensures Kept(s) <==> Kept(s')
  {
    assert |s| == |LowerStr(s)| == |s'|;
    assert forall c :: IsWordChar(Lower(c)) == IsWordChar(c);
    forall k | 0 <= k < |s| ensures IsWordChar(s[k]) == IsWordChar(s'[k]) {
      assert Lower(s[k]) == LowerStr(s)[k] == LowerStr(s')[k] == Lower(s'[k]);
    }
    forall w, i: nat | i + |w| <= |s| ensures WordAt(s, w, i) <==> WordAt(s', w, i) {
      LowerSlice(s, i, i + |w|);
      LowerSlice(s', i, i + |w|);
    }
  }

  /** A keyword that runs on into a longer word does not qualify a line. */
  lemma EmbeddedKeywordNotIncluded()
    ensures !IncludedBy(IncludeKeywords, "LockedSetSafeAccessStateX")
  {
    var s := "LockedSetSafeAccessStateX";
    forall k, i | 0 <= k < 2 && 0 <= i <= |s| - |IncludeKeywords[k]| ensures !WordAt(s, IncludeKeywords[k], i) {
      assert i == 0 || i == 1;
      assert IsWordChar(s[0]) && IsWordChar(s[1]) && IsWordChar(s[23]) && IsWordChar(s[24]);
    }
  }

  /** A keyword in another case, followed by punctuation, qualifies a line. */
  lemma KeywordAnyCaseIncluded()
    ensures IncludedBy(IncludeKeywords, "lockedsetsafeaccessstate: X")
  {
    var t := "lockedsetsafeaccessstate: X";
    assert LowerStr(t[0..24]) == LowerStr(IncludeKeywords[1]);
    assert WordAt(t, IncludeKeywords[1], 0);
  }
}

/**
 * Character classes and string predicates used by the regular expressions
 * of the log scripts. Character classes follow Python's `re` module on `str`
 * patterns, restricted to what the logs contain: `\d` and `\w` are the ASCII
 * digits and word characters, `\s` and `str.strip()` use Python's whitespace
 * set, and case-insensitive comparison folds ASCII letters.
 */
module Text {
  import opened Wrappers

  /** `\d` */
  predicate IsDigit(c: char) { '0' <= c <= '9' }

  /** `\w`: letters, digits and the underscore */
  predicate IsWordChar(c: char) {
    IsDigit(c) || 'a' <= c <= 'z' || 'A' <= c <= 'Z' || c == '_'
  }

  /** `\s`, and the characters `str.strip()` removes */
  predicate IsSpace(c: char) {
    || c == ' ' || c == '\t' || c == '\n' || c == '\r' || c == '\U{000B}' || c == '\U{000C}'
    || '\U{001C}' <= c <= '\U{001F}' || c == '\U{0085}' || c == '\U{00A0}' || c == '\U{1680}'
    || '\U{2000}' <= c <= '\U{200A}' || c == '\U{2028}' || c == '\U{2029}' || c == '\U{202F}'
    || c == '\U{205F}' || c == '\U{3000}'
  }

  /** End of the run of characters of class `cls` that starts at index `j` of `s`. */
  function RunEnd(s: string, j: nat, cls: char -> bool): (e: nat)
    requires j <= |s|
    ensures j <= e <= |s|
    decreases |s| - j
  {
    if j < |s| && cls(s[j]) then RunEnd(s, j + 1, cls) else j
  }

  /** `RunEnd` stops at the first character, from `j` on, outside the class. */
  lemma {:induction false} RunEndRun(s: string, j: nat, cls: char -> bool)
    requires j <= |s|
    ensures forall k :: j <= k < RunEnd(s, j, cls) ==> cls(s[k])
    ensures RunEnd(s, j, cls) == |s| || !cls(s[RunEnd(s, j, cls)])
    decreases |s| - j
  {
    if j < |s| && cls(s[j]) {
      RunEndRun(s, j + 1, cls);
    }
  }

  /** A run of class `cls` that ends where the class ends is the one `RunEnd` finds. */
  lemma RunEndExact(s: string, j: nat, e: nat, cls: char -> bool)
    requires j <= e <= |s|
    requires forall k :: j <= k < e ==> cls(s[k])
    requires e == |s| || !cls(s[e])
    ensures RunEnd(s, j, cls) == e
  {
    RunEndRun(s, j, cls);
    var r := RunEnd(s, j, cls);
    assert r == |s| || !cls(s[r]);
  }

  /** The run `RunEnd` finds reaches past every character of the class that follows `j` without a gap. */
  lemma RunEndCovers(s: string, j: nat, e: nat, cls: char -> bool)
    requires j <= e <= |s|
    requires forall k :: j <= k < e ==> cls(s[k])
    ensures e <= RunEnd(s, j, cls)
  {
    RunEndRun(s, j, cls);
  }

  /** `str.lower()` on one character (ASCII letters only) */
  function Lower(c: char): char {
    if 'A' <= c <= 'Z' then (c as int + 32) as char else c
  }

  /** `str.lower()` */
  function LowerStr(s: string): string {
    seq(|s|, i requires 0 <= i < |s| => Lower(s[i]))
  }

  /** Number of whitespace characters at the start of `s`. */
  function LeadingSpace(s: string): (n: nat)
    ensures n <= |s|
    ensures forall k :: 0 <= k < n ==> IsSpace(s[k])
    ensures n == |s| || !IsSpace(s[n])
  {
    if |s| > 0 && IsSpace(s[0]) then 1 + LeadingSpace(s[1..]) else 0
  }

  /** Number of whitespace characters at the end of `s`. */
  function TrailingSpace(s: string): (n: nat)
    ensures n <= |s|
    ensures forall k :: |s| - n <= k < |s| ==> IsSpace(s[k])
    ensures n == |s| || !IsSpace(s[|s| - n - 1])
  {
    if |s| > 0 && IsSpace(s[|s| - 1]) then 1 + TrailingSpace(s[..|s| - 1]) else 0
  }

  /** `str.strip()`: `s` without its leading and trailing whitespace. */
  function Strip(s: string): (r: string)
    ensures r == [] || (!IsSpace(r[0]) && !IsSpace(r[|r| - 1]))
    ensures exists a: nat :: OccursAt(s, r, a)
                        && (forall k :: 0 <= k < a ==> IsSpace(s[k]))
                        && (forall k :: a + |r| <= k < |s| ==> IsSpace(s[k]))
  {
    var a := LeadingSpace(s);
    var b := TrailingSpace(s[a..]);
    assert s[a..][..|s| - a - b] == s[a..|s| - b];
    assert OccursAt(s, s[a..|s| - b], a);
    s[a..|s| - b]
  }

  /** A string that neither starts nor ends with whitespace is its own `strip()`. */
  lemma StripStripped(s: string)
    requires s == [] || (!IsSpace(s[0]) && !IsSpace(s[|s| - 1]))
    ensures Strip(s) == s
  {
    if s != [] {
      assert LeadingSpace(s) == 0;
      assert TrailingSpace(s) == 0;
    }
  }

  /** Whitespace appended after a non-space character is all trailing whitespace. */
  lemma {:induction false} TrailingSpaceAppend(core: string, ending: string)
    requires core != [] && !IsSpace(core[|core| - 1])
    requires forall k :: 0 <= k < |ending| ==> IsSpace(ending[k])
    ensures TrailingSpace(core + ending) == |ending|
    decreases |ending|
  {
    if ending != [] {
      var shorter := ending[..|ending| - 1];
      assert (core + ending)[..|core + ending| - 1] == core + shorter;
      TrailingSpaceAppend(core, shorter);
    } else {
      assert core + ending == core;
    }
  }

  /** Stripping a line with its line ending gives back the line. */
  lemma StripLineEnding(core: string, ending: string)
    requires core != [] && !IsSpace(core[0]) && !IsSpace(core[|core| - 1])
    requires forall k :: 0 <= k < |ending| ==> IsSpace(ending[k])
    ensures Strip(core + ending) == core
  {
    var s := core + ending;
    assert LeadingSpace(s) == 0;
    assert s[0..] == s;
    TrailingSpaceAppend(core, ending);
    assert s[..|s| - |ending|] == core;
  }

  /** `p` occurs in `s` starting at index `i`. */
  predicate OccursAt(s: string, p: string, i: nat) {
    i + |p| <= |s| && s[i..i + |p|] == p
  }

  /** Python's `p in s`. */
  predicate Contains(s: string, p: string) {
    exists i :: 0 <= i <= |s| - |p| && OccursAt(s, p, i)
  }

  /** `str.startswith` */
  predicate StartsWith(s: string, p: string) {
    OccursAt(s, p, 0)
  }

  /** The regex assertion `\b` at index `i` of `s`. */
  predicate Boundary(s: string, i: nat)
    requires i <= |s|
  {
    (i > 0 && IsWordChar(s[i - 1])) != (i < |s| && IsWordChar(s[i]))
  }

  /** `\bw\b` matches at index `i` of `s`, ignoring case. */
  predicate WordAt(s: string, w: string, i: nat) {
    i + |w| <= |s| && LowerStr(s[i..i + |w|]) == LowerStr(w)
    && Boundary(s, i) && Boundary(s, i + |w|)
  }

  /** `re.search(r'\bw\b', s, re.IGNORECASE)` succeeds. */
  predicate ContainsWord(s: string, w: string) {
    exists i :: 0 <= i <= |s| - |w| && WordAt(s, w, i)
  }

  /** `re.search(re.escape(p), s, re.IGNORECASE)` succeeds. */
  predicate ContainsIgnoringCase(s: string, p: string) {
    Contains(LowerStr(s), LowerStr(p))
  }

  /** Appending two occurrences side by side gives an occurrence of the concatenation. */
  lemma OccursAtConcat(s: string, a: string, b: string, i: nat)
    ensures OccursAt(s, a + b, i) <==> OccursAt(s, a, i) && OccursAt(s, b, i + |a|)
  {
    if OccursAt(s, a, i) && OccursAt(s, b, i + |a|) {
      assert s[i..i + |a + b|] == s[i..i + |a|] + s[i + |a|..i + |a| + |b|];
    }
    if OccursAt(s, a + b, i) {
      assert s[i..i + |a|] == (a + b)[..|a|];
      assert s[i + |a|..i + |a| + |b|] == (a + b)[|a|..];
    }
  }

  /**
   * The leftmost index at or after `i` where `at` succeeds, and what it found
   * there: the scan of `re.search`.
   */
  function LeftmostFind<T>(s: string, i: nat, at: (string, nat) -> Option<T>): (r: Option<(nat, T)>)
    requires i <= |s|
    ensures r.Some? ==> i <= r.value.0 < |s| && at(s, r.value.0) == Some(r.value.1)
    decreases |s| - i
  {
    if i == |s| then None
    else match at(s, i)
      case Some(x) => Some((i, x))
      case None => LeftmostFind(s, i + 1, at)
  }

  /** `at` fails at every index the scan passes over: before the one found, or everywhere. */
  lemma {:induction false} LeftmostFindFirst<T>(s: string, i: nat, at: (string, nat) -> Option<T>, k: nat)
    requires i <= k < |s|
    requires LeftmostFind(s, i, at).Some? ==> k < LeftmostFind(s, i, at).value.0
    ensures at(s, k).None?
    decreases k - i
  {
    if at(s, i).None? && i < k {
      LeftmostFindFirst(s, i + 1, at, k);
    }
  }
}

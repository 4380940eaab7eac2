/**
 * The hostname rewrite applied to every kept log line:
 * `re.sub(r'(\bbotguardian\d+)\.mservices\.[^\s]+', r'\1', line)`.
 * A word-initial `botguardian<digits>.mservices.<non-space run>` becomes
 * `botguardian<digits>`; the scan resumes after the replaced text.
 */
module HostName {
  import opened Text
  import opened Wrappers

  const Prefix := "botguardian"
  const Domain := ".mservices."

  /** `[^\s]` */
  predicate NotSpace(c: char) { !IsSpace(c) }

  /**
   * The pattern matches `t[..e]`, with group 1 equal to `t[..d]`; `prevWord`
   * tells whether the character before `t` is a word character (so `\b` fails).
   */
  ghost predicate MatchesAt(prevWord: bool, t: string, d: nat, e: nat) {
    && !prevWord
    && 11 < d && d + 11 < e <= |t|
    && StartsWith(t, Prefix)
    && (forall k :: 11 <= k < d ==> IsDigit(t[k]))
    && OccursAt(t, Domain, d)
    && (forall k :: d + 11 <= k < e ==> !IsSpace(t[k]))
  }

  /** The match the regex engine finds at the head of `t`: group end and match end. */
  function HostMatch(prevWord: bool, t: string): (r: Option<(nat, nat)>)
    ensures r.Some? ==> 11 < r.value.0 && r.value.0 + 11 < r.value.1 <= |t|
  {
    if !prevWord && StartsWith(t, Prefix) then
      var d := RunEnd(t, 11, IsDigit);
      if 11 < d && OccursAt(t, Domain, d) then
        var e := RunEnd(t, d + 11, NotSpace);
        if d + 11 < e then Some((d, e)) else None
      else None
    else None
  }

  /** The match found is a match of the pattern, and it runs on to the next whitespace. */
  lemma HostMatchSound(prevWord: bool, t: string)
    requires HostMatch(prevWord, t).Some?
    ensures MatchesAt(prevWord, t, HostMatch(prevWord, t).value.0, HostMatch(prevWord, t).value.1)
    ensures var e := HostMatch(prevWord, t).value.1; e == |t| || IsSpace(t[e])
  {
    var d := RunEnd(t, 11, IsDigit);
    RunEndRun(t, 11, IsDigit);
    RunEndRun(t, d + 11, NotSpace);
  }

  /** Every match of the pattern at the head of `t` is found, with the greedy (longest) end. */
  lemma HostMatchComplete(prevWord: bool, t: string, d: nat, e: nat)
    requires MatchesAt(prevWord, t, d, e)
    ensures HostMatch(prevWord, t).Some?
    ensures HostMatch(prevWord, t).value.0 == d && HostMatch(prevWord, t).value.1 >= e
  {
    assert t[d] == t[d..d + 11][0] == '.';
    RunEndExact(t, 11, d, IsDigit);
    RunEndCovers(t, d + 11, e, NotSpace);
  }

  /** The rewrite of `t`, given whether the character before `t` is a word character. */
  function Rewrite(prevWord: bool, t: string): (r: string)
    ensures |r| <= |t|
    decreases |t|
  {
    if t == [] then []
    else if HostMatch(prevWord, t).Some? then
      var (d, e) := HostMatch(prevWord, t).value;
      t[..d] + Rewrite(IsWordChar(t[e - 1]), t[e..])
    else [t[0]] + Rewrite(IsWordChar(t[0]), t[1..])
  }

  /** sasAccessTimeDataExtraction.py line 31 applied to a whole (stripped) line. */
  function ShortenHost(line: string): (r: string)
    ensures |r| <= |line|
  {
    Rewrite(false, line)
  }

  /** One step of the rewrite where the pattern matches at the head. */
  lemma UnfoldMatch(prevWord: bool, t: string, d: nat, e: nat)
    requires t != [] && HostMatch(prevWord, t) == Some((d, e))
    ensures Rewrite(prevWord, t) == t[..d] + Rewrite(IsWordChar(t[e - 1]), t[e..])
  {
    assert HostMatch(prevWord, t).value == (d, e);
  }

  /** One step of the rewrite where the pattern does not match at the head. */
  lemma UnfoldCopy(prevWord: bool, t: string)
    requires t != [] && HostMatch(prevWord, t).None?
    ensures Rewrite(prevWord, t) == [t[0]] + Rewrite(IsWordChar(t[0]), t[1..])
  {
  }

  /** Text that starts with whitespace (or is empty) is rewritten the same way after any character. */
  lemma SpaceHead(a: bool, b: bool, t: string)
    requires t != [] ==> IsSpace(t[0])
    ensures Rewrite(a, t) == Rewrite(b, t)
    ensures t != [] ==> Rewrite(a, t) == [t[0]] + Rewrite(false, t[1..])
  {
    if t != [] {
      assert !StartsWith(t, Prefix) by { assert t[0] != Prefix[0]; }
      SpaceHeadTail(IsWordChar(t[0]), t[1..]);
    }
  }

  /** The flag passed after a whitespace character is irrelevant for the rest of the text. */
  lemma SpaceHeadTail(a: bool, t: string)
    ensures Rewrite(IsWordChar(' '), t) == Rewrite(false, t)
  {
  }

  /** No match starts at a character other than `b`. */
  lemma NoMatchWithoutB(prevWord: bool, t: string)
    requires t != [] && t[0] != 'b'
    ensures HostMatch(prevWord, t).None?
  {
    assert !StartsWith(t, Prefix) by { assert Prefix[0] == 'b'; }
  }

  /** Putting the head of `u` back in front of its tail and more text. */
  lemma ConsAppend(u: string, x: string)
    requires u != []
    ensures [u[0]] + (u[1..] + x) == u + x
  {
  }

  /** A first character other than `b` is copied. */
  lemma CopyHead(prevWord: bool, u: string, v: string)
    requires |u| > 0 && u[0] != 'b'
    ensures Rewrite(prevWord, u + v) == [u[0]] + Rewrite(IsWordChar(u[0]), u[1..] + v)
  {
    var t := u + v;
    assert t[0] == u[0] && t[1..] == u[1..] + v;
    NoMatchWithoutB(prevWord, t);
    UnfoldCopy(prevWord, t);
  }

  /** A piece of text without the letter `b` holds no match start and is copied. */
  lemma {:induction false} CopyWithoutB(prevWord: bool, u: string, v: string)
    requires |u| > 0 && 'b' !in u
    ensures Rewrite(prevWord, u + v) == u + Rewrite(IsWordChar(u[|u| - 1]), v)
    decreases |u|
  {
    CopyHead(prevWord, u, v);
    var w := u[1..];
    if w == [] {
      ConsAppend(u, Rewrite(IsWordChar(u[0]), v));
    } else {
      assert 'b' !in w by { forall k | 0 <= k < |w| ensures w[k] != 'b' { assert w[k] == u[k + 1]; } }
      assert w[|w| - 1] == u[|u| - 1];
      CopyWithoutB(IsWordChar(u[0]), w, v);
      var x := Rewrite(IsWordChar(u[|u| - 1]), v);
      ConsAppend(u, x);
      assert Rewrite(prevWord, u + v) == [u[0]] + (w + x);
    }
  }

  /** The rewrite keeps the input unchanged up to and including its first `b`. */
  lemma {:induction false} PrefixKept(prevWord: bool, u: string, k: nat)
    requires k < |u| && 'b' !in u[..k]
    ensures k < |Rewrite(prevWord, u)| && Rewrite(prevWord, u)[..k + 1] == u[..k + 1]
    decreases |u|
  {
    if HostMatch(prevWord, u).Some? {
      var (d, e) := HostMatch(prevWord, u).value;
      UnfoldMatch(prevWord, u, d, e);
      assert u[0] == 'b' by { assert u[0] == u[..11][0] == Prefix[0]; }
      assert k == 0;
      assert Rewrite(prevWord, u)[0] == u[..d][0];
    } else {
      UnfoldCopy(prevWord, u);
      if k > 0 {
        assert u[0] in u[..k];
        assert u[1..][..k - 1] == u[1..k];
        assert 'b' !in u[1..][..k - 1] by {
          forall c | c in u[1..k] ensures c != 'b' { assert c in u[..k]; }
        }
        PrefixKept(IsWordChar(u[0]), u[1..], k - 1);
        var o := Rewrite(IsWordChar(u[0]), u[1..]);
        assert Rewrite(prevWord, u)[..k + 1] == [u[0]] + o[..k];
        assert u[..k + 1] == [u[0]] + u[1..][..k];
      }
    }
  }

  /** `botguardian<digits>` followed by whitespace or nothing holds no match. */
  lemma NoMatchAfterShortened(prevWord: bool, t: string, d: nat, r: string)
    requires 11 < d <= |t| && StartsWith(t, Prefix)
    requires forall k :: 11 <= k < d ==> IsDigit(t[k])
    requires r != [] ==> IsSpace(r[0])
    ensures HostMatch(prevWord, t[..d] + r) == None
  {
    var o := t[..d] + r;
    if !prevWord && StartsWith(o, Prefix) {
      assert forall k :: 11 <= k < d ==> IsDigit(o[k]);
      assert d < |o| ==> o[d] == r[0];
      RunEndExact(o, 11, d, IsDigit);
      assert !OccursAt(o, Domain, d) by {
        if d + 11 <= |o| { assert o[d..d + 11][0] == o[d]; }
      }
    }
  }

  lemma PrefixTailHasNoB()
    ensures 'b' !in Prefix[1..] && 'b' !in Domain
  {
  }

  /** Index of the first `b` in `u`, or `|u|` when there is none. */
  function FirstB(u: string): (f: nat)
    ensures f <= |u| && 'b' !in u[..f] && (f < |u| ==> u[f] == 'b')
  {
    if u == [] then 0
    else if u[0] == 'b' then 0
    else
      var f := 1 + FirstB(u[1..]);
      assert u[..f] == [u[0]] + u[1..][..f - 1];
      f
  }

  /** The rewrite copies its input up to and including the first `b`. */
  lemma AgreeToFirstB(prevWord: bool, u: string)
    ensures FirstB(u) < |u| ==>
              FirstB(u) < |Rewrite(prevWord, u)| && Rewrite(prevWord, u)[..FirstB(u) + 1] == u[..FirstB(u) + 1]
    ensures FirstB(u) == |u| ==> Rewrite(prevWord, u) == u
  {
    var f := FirstB(u);
    if f < |u| {
      PrefixKept(prevWord, u, f);
    } else if u != [] {
      assert u[..f] == u;
      CopyWithoutB(prevWord, u, []);
      assert u + [] == u;
    }
  }

  /** A match depends only on the text up to one character past `.mservices.`. */
  lemma MatchByPrefix(prevWord: bool, x: string, t: string, d: nat, e: nat)
    requires MatchesAt(prevWord, x, d, e)
    requires d + 12 <= |t| && x[..d + 12] == t[..d + 12]
    ensures MatchesAt(prevWord, t, d, d + 12)
  {
    assert t[..11] == x[..d + 12][..11] == x[..11];
    forall k | 11 <= k < d ensures IsDigit(t[k]) { assert t[k] == x[..d + 12][k] == x[k]; }
    assert t[d..d + 11] == x[..d + 12][d..d + 11] == x[d..d + 11];
    assert t[d + 11] == x[..d + 12][d + 11] == x[d + 11];
  }

  /** A match holds no `b` between its first character and the end of `.mservices.`. */
  lemma NoBInMatch(prevWord: bool, x: string, d: nat, e: nat)
    requires MatchesAt(prevWord, x, d, e)
    ensures 'b' !in x[1..d + 11]
  {
    PrefixTailHasNoB();
    forall j | 1 <= j < d + 11 ensures x[j] != 'b' {
      if j < 11 {
        assert x[j] == x[..11][j] == Prefix[j];
        assert Prefix[j] in Prefix[1..];
      } else if j < d {
        assert IsDigit(x[j]);
      } else {
        assert x[j] == x[d..d + 11][j - d] == Domain[j - d];
      }
    }
  }

  /** Where the rewritten text has no `b` in its first `n` characters, it agrees with its input one character further. */
  lemma AgreeBeforeB(prevWord: bool, u: string, n: nat)
    requires n < |Rewrite(prevWord, u)| && 'b' !in Rewrite(prevWord, u)[..n]
    ensures n < |u| && Rewrite(prevWord, u)[..n + 1] == u[..n + 1]
  {
    var o := Rewrite(prevWord, u);
    AgreeToFirstB(prevWord, u);
    var f := FirstB(u);
    if f < |u| {
      assert o[f] == o[..f + 1][f] == u[..f + 1][f] == 'b';
      assert forall j :: 0 <= j < n ==> o[..n][j] == o[j];
      assert f >= n;
      assert o[..n + 1] == o[..f + 1][..n + 1];
      assert u[..n + 1] == u[..f + 1][..n + 1];
    }
  }

  /**
   * The text produced by copying `t[0]` and rewriting the rest agrees with `t`
   * wherever it holds a match, up to one character past `.mservices.`.
   */
  lemma MatchTransfers(prevWord: bool, t: string, d: nat, e: nat)
    requires t != []
    requires MatchesAt(prevWord, [t[0]] + Rewrite(IsWordChar(t[0]), t[1..]), d, e)
    ensures d + 12 <= |t| && ([t[0]] + Rewrite(IsWordChar(t[0]), t[1..]))[..d + 12] == t[..d + 12]
  {
    var u := t[1..];
    var o := Rewrite(IsWordChar(t[0]), u);
    var x := [t[0]] + o;
    NoBInMatch(prevWord, x, d, e);
    assert o[..d + 10] == x[1..d + 11];
    AgreeBeforeB(IsWordChar(t[0]), u, d + 10);
    assert x[..d + 12] == [t[0]] + o[..d + 11];
    assert t[..d + 12] == [t[0]] + u[..d + 11];
  }

  /** Where the regex found no match, it finds none in the rewritten text either. */
  lemma NoMatchKept(prevWord: bool, t: string)
    requires t != [] && HostMatch(prevWord, t) == None
    ensures HostMatch(prevWord, [t[0]] + Rewrite(IsWordChar(t[0]), t[1..])) == None
  {
    var x := [t[0]] + Rewrite(IsWordChar(t[0]), t[1..]);
    if HostMatch(prevWord, x).Some? {
      var (d, e) := HostMatch(prevWord, x).value;
      HostMatchSound(prevWord, x);
      MatchTransfers(prevWord, t, d, e);
      MatchByPrefix(prevWord, x, t, d, e);
      HostMatchComplete(prevWord, t, d, d + 12);
      assert false;
    }
  }

  /** Dropping the first element of a prefix followed by more text. */
  lemma DropFirst(t: string, d: nat, r: string)
    requires 0 < d <= |t|
    ensures (t[..d] + r)[0] == t[0]
    ensures (t[..d] + r)[1..] == t[1..d] + r
    ensures [t[0]] + (t[1..d] + r) == t[..d] + r
  {
  }

  /** `botguardian<digits>` holds no `b` after its first character. */
  lemma NoBAfterFirst(t: string, d: nat)
    requires 11 < d <= |t| && StartsWith(t, Prefix)
    requires forall k :: 11 <= k < d ==> IsDigit(t[k])
    ensures 'b' !in t[1..d] && t[0] == 'b'
  {
    PrefixTailHasNoB();
    assert t[0] == t[..11][0];
    forall j | 1 <= j < d ensures t[j] != 'b' {
      if j < 11 {
        assert t[j] == t[..11][j] == Prefix[j];
        assert Prefix[j] in Prefix[1..];
      } else {
        assert IsDigit(t[j]);
      }
    }
  }

  /** The step of the idempotence proof where the pattern matches at the head of `t`. */
  lemma IdempotentMatchStep(prevWord: bool, t: string, d: nat, e: nat, w: bool)
    requires t != [] && HostMatch(prevWord, t) == Some((d, e)) && w == IsWordChar(t[e - 1])
    requires Rewrite(w, Rewrite(w, t[e..])) == Rewrite(w, t[e..])
    ensures Rewrite(prevWord, Rewrite(prevWord, t)) == Rewrite(prevWord, t)
  {
    var r := Rewrite(w, t[e..]);
    var o := t[..d] + r;
    HostMatchSound(prevWord, t);
    UnfoldMatch(prevWord, t, d, e);
    assert Rewrite(prevWord, t) == o;
    SpaceHead(w, w, t[e..]);
    NoMatchAfterShortened(prevWord, t, d, r);
    NoBAfterFirst(t, d);
    DropFirst(t, d, r);
    UnfoldCopy(prevWord, o);
    assert Rewrite(prevWord, o) == [t[0]] + Rewrite(true, t[1..d] + r);
    CopyWithoutB(true, t[1..d], r);
    SpaceHead(IsWordChar(t[d - 1]), w, r);
    assert Rewrite(true, t[1..d] + r) == t[1..d] + r;
  }

  /** The step of the idempotence proof where `t[0]` is copied. */
  lemma IdempotentCopyStep(prevWord: bool, t: string)
    requires t != [] && HostMatch(prevWord, t).None?
    requires var w := IsWordChar(t[0]);
             Rewrite(w, Rewrite(w, t[1..])) == Rewrite(w, t[1..])
    ensures Rewrite(prevWord, Rewrite(prevWord, t)) == Rewrite(prevWord, t)
  {
    UnfoldCopy(prevWord, t);
    NoMatchKept(prevWord, t);
    var o := Rewrite(prevWord, t);
    UnfoldCopy(prevWord, o);
    assert o[1..] == Rewrite(IsWordChar(t[0]), t[1..]);
  }

  /** Rewriting twice gives the same text as rewriting once. */
  lemma {:induction false} RewriteIdempotent(prevWord: bool, t: string)
    ensures Rewrite(prevWord, Rewrite(prevWord, t)) == Rewrite(prevWord, t)
    decreases |t|
  {
    if t == [] {
    } else if HostMatch(prevWord, t).Some? {
      var (d, e) := HostMatch(prevWord, t).value;
      RewriteIdempotent(IsWordChar(t[e - 1]), t[e..]);
      IdempotentMatchStep(prevWord, t, d, e, IsWordChar(t[e - 1]));
    } else {
      RewriteIdempotent(IsWordChar(t[0]), t[1..]);
      IdempotentCopyStep(prevWord, t);
    }
  }

  /** Applying the line rewrite twice gives the same result as applying it once. */
  lemma ShortenHostIdempotent(line: string)
    ensures ShortenHost(ShortenHost(line)) == ShortenHost(line)
  {
    RewriteIdempotent(false, line);
  }

  /** Text without `.mservices.` is left unchanged. */
  lemma {:induction false} NoDomainUnchanged(prevWord: bool, t: string)
    requires !Contains(t, Domain)
    ensures Rewrite(prevWord, t) == t
    decreases |t|
  {
    if t != [] {
      match HostMatch(prevWord, t)
      case Some((d, e)) =>
        assert false;
      case None =>
        UnfoldCopy(prevWord, t);
        assert !Contains(t[1..], Domain) by {
          if Contains(t[1..], Domain) {
            var i :| 0 <= i <= |t[1..]| - |Domain| && OccursAt(t[1..], Domain, i);
            assert t[i + 1..i + 1 + |Domain|] == t[1..][i..i + |Domain|];
            assert OccursAt(t, Domain, i + 1);
          }
        }
        NoDomainUnchanged(IsWordChar(t[0]), t[1..]);
    }
  }

  /** `r` starts with the first character of `t`, and ends with a non-space character when `t` does. */
  predicate EndsKept(t: string, r: string)
    requires t != []
  {
    r != [] && r[0] == t[0] && (!IsSpace(t[|t| - 1]) ==> !IsSpace(r[|r| - 1]))
  }

  /** The step of `RewriteKeepsEnds` where the pattern matches at the head of `t`. */
  lemma KeepsEndsMatchStep(prevWord: bool, t: string, d: nat, e: nat)
    requires t != [] && HostMatch(prevWord, t) == Some((d, e))
    requires e < |t| ==> EndsKept(t[e..], Rewrite(IsWordChar(t[e - 1]), t[e..]))
    ensures EndsKept(t, Rewrite(prevWord, t))
  {
    var rest := Rewrite(IsWordChar(t[e - 1]), t[e..]);
    HostMatchSound(prevWord, t);
    UnfoldMatch(prevWord, t, d, e);
    var r := t[..d] + rest;
    assert r[0] == t[0];
    if e < |t| {
      assert r[|r| - 1] == rest[|rest| - 1];
      assert t[e..][|t[e..]| - 1] == t[|t| - 1];
    } else {
      assert rest == [];
      assert r[|r| - 1] == t[d - 1];
      assert IsDigit(t[d - 1]);
    }
  }

  /** The step of `RewriteKeepsEnds` where `t[0]` is copied. */
  lemma KeepsEndsCopyStep(prevWord: bool, t: string)
    requires t != [] && HostMatch(prevWord, t).None?
    requires |t| > 1 ==> EndsKept(t[1..], Rewrite(IsWordChar(t[0]), t[1..]))
    ensures EndsKept(t, Rewrite(prevWord, t))
  {
    var rest := Rewrite(IsWordChar(t[0]), t[1..]);
    UnfoldCopy(prevWord, t);
    var r := [t[0]] + rest;
    if |t| > 1 {
      assert r[|r| - 1] == rest[|rest| - 1];
      assert t[1..][|t[1..]| - 1] == t[|t| - 1];
    }
  }

  /** The rewrite keeps the first character and never ends the text with whitespace it did not end with. */
  lemma {:induction false} RewriteKeepsEnds(prevWord: bool, t: string)
    requires t != []
    ensures EndsKept(t, Rewrite(prevWord, t))
    decreases |t|
  {
    if HostMatch(prevWord, t).Some? {
      var (d, e) := HostMatch(prevWord, t).value;
      if e < |t| {
        RewriteKeepsEnds(IsWordChar(t[e - 1]), t[e..]);
      }
      KeepsEndsMatchStep(prevWord, t, d, e);
    } else {
      if |t| > 1 {
        RewriteKeepsEnds(IsWordChar(t[0]), t[1..]);
      }
      KeepsEndsCopyStep(prevWord, t);
    }
  }

  /**
   * A stripped line stays stripped: the rewrite neither exposes leading nor
   * trailing whitespace.
   */
  lemma ShortenHostStripped(line: string)
    requires Strip(line) == line
    ensures Strip(ShortenHost(line)) == ShortenHost(line)
  {
    if line != [] {
      RewriteKeepsEnds(false, line);
    }
    StripStripped(ShortenHost(line));
  }

  /** `botguardian<digits>.mservices.<host>` is a match of the pattern, up to the end of the host. */
  lemma WholeHostMatches(digits: string, host: string, rest: string)
    requires digits != [] && forall k :: 0 <= k < |digits| ==> IsDigit(digits[k])
    requires host != [] && forall k :: 0 <= k < |host| ==> !IsSpace(host[k])
    ensures MatchesAt(false, Prefix + digits + Domain + host + rest, 11 + |digits|, 22 + |digits| + |host|)
  {
    var t := Prefix + digits + Domain + host + rest;
    var d := 11 + |digits|;
    var e := d + 11 + |host|;
    assert StartsWith(t, Prefix) by { assert t[..11] == Prefix; }
    assert OccursAt(t, Domain, d) by { assert t[d..d + 11] == Domain; }
    assert forall k :: 11 <= k < d ==> IsDigit(t[k]) by {
      forall k | 11 <= k < d ensures IsDigit(t[k]) { assert t[k] == digits[k - 11]; }
    }
    assert forall k :: d + 11 <= k < e ==> !IsSpace(t[k]) by {
      forall k | d + 11 <= k < e ensures !IsSpace(t[k]) { assert t[k] == host[k - d - 11]; }
    }
  }

  /** `botguardian<digits>.mservices.<host>` followed by whitespace or nothing is matched whole. */
  lemma WholeHostMatched(digits: string, host: string, rest: string)
    requires digits != [] && forall k :: 0 <= k < |digits| ==> IsDigit(digits[k])
    requires host != [] && forall k :: 0 <= k < |host| ==> !IsSpace(host[k])
    requires rest != [] ==> IsSpace(rest[0])
    ensures HostMatch(false, Prefix + digits + Domain + host + rest) == Some((11 + |digits|, 22 + |digits| + |host|))
  {
    var t := Prefix + digits + Domain + host + rest;
    var d := 11 + |digits|;
    var e := d + 11 + |host|;
    WholeHostMatches(digits, host, rest);
    HostMatchComplete(false, t, d, e);
    HostMatchSound(false, t);
    if rest != [] {
      assert t[e] == rest[0];
    }
  }

  /**
   * The whole host name after `botguardian<digits>` is dropped, up to the next
   * whitespace, whatever characters it holds.
   */
  lemma ShortenHostDropsWholeHost(digits: string, host: string, rest: string)
    requires digits != [] && forall k :: 0 <= k < |digits| ==> IsDigit(digits[k])
    requires host != [] && forall k :: 0 <= k < |host| ==> !IsSpace(host[k])
    requires rest != [] ==> IsSpace(rest[0])
    ensures ShortenHost(Prefix + digits + Domain + host + rest) == Prefix + digits + ShortenHost(rest)
  {
    var t := Prefix + digits + Domain + host + rest;
    var d := 11 + |digits|;
    var e := d + 11 + |host|;
    WholeHostMatched(digits, host, rest);
    assert t[..d] == Prefix + digits;
    assert t[e..] == rest;
    UnfoldMatch(false, t, d, e);
    SpaceHead(IsWordChar(t[e - 1]), false, rest);
  }
}

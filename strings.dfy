/** String helpers shared by the bot and the summarizer: JavaScript's
    `startsWith`, `includes`, `indexOf`, single-occurrence `replace` with a
    string pattern, and the character classes the source's regular
    expressions use. */
module Strings {
  import opened Options

  /** JavaScript's `\s` class: the ASCII white space characters, the Unicode
      space separators, the line and paragraph separators and the BOM. */
  predicate IsWs(c: char) {
    var n := c as int;
    n == 0x20 || (0x09 <= n <= 0x0D) || n == 0xA0 || n == 0x1680
    || (0x2000 <= n <= 0x200A) || n == 0x2028 || n == 0x2029
    || n == 0x202F || n == 0x205F || n == 0x3000 || n == 0xFEFF
  }

  /** The characters JavaScript's `.` does not match. */
  predicate IsLineTerminator(c: char) {
    c == '\n' || c == '\r' || c as int == 0x2028 || c as int == 0x2029
  }

  /** `s.startsWith(p)` */
  predicate StartsWith(s: string, p: string) {
    |p| <= |s| && s[..|p|] == p
  }

  /** `pat` occurs in `s` starting at index `i`. */
  predicate OccursAt(s: string, pat: string, i: nat) {
    i + |pat| <= |s| && s[i..i + |pat|] == pat
  }

  /** `s.indexOf(pat)`, with `None` for -1: the first index where `pat` occurs. */
  function IndexOf(s: string, pat: string): (r: Option<nat>)
    ensures r.Some? ==> OccursAt(s, pat, r.value)
    ensures r.Some? ==> forall j: nat :: j < r.value ==> !OccursAt(s, pat, j)
    ensures r.None? ==> forall j: nat :: !OccursAt(s, pat, j)
    decreases |s|
  {
    if StartsWith(s, pat) then Some(0)
    else if s == [] then None
    else
      var rest := IndexOf(s[1..], pat);
      assert forall j: nat :: OccursAt(s, pat, j + 1) == OccursAt(s[1..], pat, j) by {
        forall j: nat ensures OccursAt(s, pat, j + 1) == OccursAt(s[1..], pat, j) {
          OccursAtShift(s, pat, j);
        }
      }
      match rest
      case Some(i) =>
        assert forall j: nat :: j < i + 1 ==> !OccursAt(s, pat, j) by {
          forall j: nat | j < i + 1 ensures !OccursAt(s, pat, j) {
            if j > 0 { assert !OccursAt(s[1..], pat, j - 1); }
          }
        }
        Some(i + 1)
      case None =>
        assert forall j: nat :: !OccursAt(s, pat, j) by {
          forall j: nat ensures !OccursAt(s, pat, j) {
            if j > 0 { assert !OccursAt(s[1..], pat, j - 1); }
          }
        }
        None
  }

  lemma OccursAtShift(s: string, pat: string, j: nat)
    requires s != []
    ensures OccursAt(s, pat, j + 1) == OccursAt(s[1..], pat, j)
  {
    if j + 1 + |pat| <= |s| {
      assert s[j + 1..j + 1 + |pat|] == s[1..][j..j + |pat|];
    }
  }

  /** `s.includes(pat)`: `pat` occurs somewhere in `s`. */
  function Contains(s: string, pat: string): (b: bool)
    ensures b <==> exists i: nat :: OccursAt(s, pat, i)
  {
    IndexOf(s, pat).Some?
  }

  /** `s.replace(pat, rep)` with a string pattern: only the first occurrence
      is replaced. */
  function ReplaceFirst(s: string, pat: string, rep: string): (r: string)
    ensures !Contains(s, pat) ==> r == s
    ensures Contains(s, pat) ==> |r| == |s| - |pat| + |rep|
  {
    match IndexOf(s, pat)
    case None => s
    case Some(i) => s[..i] + rep + s[i + |pat|..]
  }

  lemma ContainsAt(s: string, pat: string, i: nat)
    requires OccursAt(s, pat, i)
    ensures Contains(s, pat)
  {
  }

  /** Replacing the first occurrence puts `rep` where `pat` first was and
      leaves what comes before and after that occurrence alone. */
  lemma ReplaceFirstFound(s: string, pat: string, rep: string)
    requires Contains(s, pat)
    ensures var i := IndexOf(s, pat).value;
      var r := ReplaceFirst(s, pat, rep);
      && OccursAt(r, rep, i)
      && r[..i] == s[..i]
      && r[i + |rep|..] == s[i + |pat|..]
  {
    var i := IndexOf(s, pat).value;
    var r := ReplaceFirst(s, pat, rep);
    assert r[i..i + |rep|] == rep;
    assert r[i + |rep|..] == s[i + |pat|..];
  }

  /** When `pat` cannot start inside a prefix `p` of `s`, replacing its first
      occurrence keeps that prefix. */
  lemma ReplaceFirstKeepsPrefix(s: string, pat: string, rep: string, p: string)
    requires StartsWith(s, p)
    requires forall j: nat :: j < |p| ==> !OccursAt(s, pat, j)
    ensures StartsWith(ReplaceFirst(s, pat, rep), p)
  {
    if Contains(s, pat) {
      ReplaceFirstFound(s, pat, rep);
      var i := IndexOf(s, pat).value;
      assert i >= |p|;
      var r := ReplaceFirst(s, pat, rep);
      assert r[..|p|] == r[..i][..|p|] == s[..i][..|p|] == s[..|p|];
    }
  }

  /** The length of the longest prefix of `s` that does not contain `stop`
      (the greedy `[^stop]+` of a regular expression). */
  function Span(s: string, stop: char): (n: nat)
    ensures n <= |s|
    ensures forall i :: 0 <= i < n ==> s[i] != stop
    ensures n < |s| ==> s[n] == stop
  {
    if s == [] || s[0] == stop then 0 else 1 + Span(s[1..], stop)
  }

  /** The longest prefix of `s` none of whose characters is in `stops`. */
  function TakeUntil(s: string, stops: set<char>): (r: string)
    ensures StartsWith(s, r)
    ensures forall i :: 0 <= i < |r| ==> r[i] !in stops
    ensures |r| < |s| ==> s[|r|] in stops
  {
    if s == [] || s[0] in stops then [] else [s[0]] + TakeUntil(s[1..], stops)
  }
}

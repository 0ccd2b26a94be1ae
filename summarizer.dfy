/** The pure text steps of the content summarizer
    (bots/components/ai-summarizer.ts): whitespace tokenisation with a token
    cap, removal of Markdown links, and the strip-then-cap tail that turns
    extracted article Markdown into the text sent for summarisation. */
module Summarizer {
  import opened Options
  import opened Strings
  import MarkdownText

  /** The token cap applied to extracted article text before summarisation. */
  const MaxContentTokens: nat := 2500

  // ---------------------------------------------------------------------
  // str.split(/\s+/)

  /** `w` holds no white space. */
  predicate NoWs(w: string) {
    forall i :: 0 <= i < |w| ==> !IsWs(w[i])
  }

  /** The longest prefix of `s` holding no white space. */
  function Word(s: string): (w: string)
    ensures StartsWith(s, w)
    ensures NoWs(w)
    ensures |w| < |s| ==> IsWs(s[|w|])
  {
    if s == [] || IsWs(s[0]) then [] else [s[0]] + Word(s[1..])
  }

  /** `s` without its leading run of white space. */
  function SkipWs(s: string): (r: string)
    ensures |r| <= |s|
    ensures r != [] ==> !IsWs(r[0])
    ensures s != [] && IsWs(s[0]) ==> |r| < |s|
  {
    if s != [] && IsWs(s[0]) then SkipWs(s[1..]) else s
  }

  /** `s.split(/\s+/)`: the pieces between maximal runs of white space. A
      leading (trailing) run yields an empty first (last) piece, and the empty
      string yields one empty piece. */
  function Split(s: string): (ts: seq<string>)
    ensures |ts| >= 1
    decreases |s|
  {
    var w := Word(s);
    if |w| == |s| then [w] else [w] + Split(SkipWs(s[|w|..]))
  }

  /** `ts.join(" ")` */
  function Join(ts: seq<string>): (r: string)
    ensures |ts| >= 1 ==> StartsWith(r, ts[0])
    ensures |ts| >= 2 ==> |r| > |ts[0]| && r[|ts[0]|] == ' '
    ensures |ts| == 0 ==> r == ""
  {
    if |ts| == 0 then "" else if |ts| == 1 then ts[0] else ts[0] + " " + Join(ts[1..])
  }

  /** `xs.slice(0, n)` for a non-negative `n`: a prefix of `xs`, of length
      `n` unless `xs` is shorter. */
  function Take<T>(xs: seq<T>, n: nat): (r: seq<T>)
    ensures r <= xs
    ensures |r| == if n <= |xs| then n else |xs|
  {
    if n <= |xs| then xs[..n] else xs
  }

  /** `truncateStringToTokenCount(str, num)`: the first `num` pieces of the
      white-space split, joined by single spaces. */
  function TruncateToTokenCount(s: string, num: nat): (r: string)
    ensures num == 0 ==> r == ""
    ensures s == "" ==> r == ""
    ensures |r| <= |s|
  {
    TakeJoinShorter(s, num);
    Join(Take(Split(s), num))
  }

  // ---------------------------------------------------------------------
  // Facts about Split and Join

  /** Token lists that `Split` can produce: no piece holds white space and
      only the first and the last piece may be empty. */
  ghost predicate WellFormedTokens(ts: seq<string>) {
    && |ts| >= 1
    && (forall k :: 0 <= k < |ts| ==> NoWs(ts[k]))
    && (forall k :: 0 < k < |ts| - 1 ==> ts[k] != "")
  }

  lemma {:induction false} SplitWellFormed(s: string)
    ensures WellFormedTokens(Split(s))
    decreases |s|
  {
    var w := Word(s);
    if |w| < |s| {
      var rest := SkipWs(s[|w|..]);
      SplitWellFormed(rest);
      if |Split(rest)| > 1 {
        // a later piece that is not the last one is never empty
        assert rest != [];
        assert Word(rest) != [];
      }
    }
  }

  lemma WordOfWordThenSpace(a: string, b: string)
    requires NoWs(a)
    requires b != [] && IsWs(b[0])
    ensures Word(a + b) == a
  {
    if a != [] {
      assert (a + b)[1..] == a[1..] + b;
      WordOfWordThenSpace(a[1..], b);
    } else {
      assert (a + b) == b;
    }
  }

  lemma WordOfWord(a: string)
    requires NoWs(a)
    ensures Word(a) == a
  {
  }

  /** Splitting a well-formed token list's join gives the list back. */
  lemma {:induction false} SplitJoin(ts: seq<string>)
    requires WellFormedTokens(ts)
    ensures Split(Join(ts)) == ts
    decreases |ts|
  {
    if |ts| == 1 {
      WordOfWord(ts[0]);
    } else {
      var rest := ts[1..];
      var j := Join(rest);
      var s := Join(ts);
      assert s == ts[0] + (" " + j);
      WordOfWordThenSpace(ts[0], " " + j);
      assert |Word(s)| < |s|;
      assert s[|ts[0]|..] == " " + j;
      assert Split(s) == [ts[0]] + Split(SkipWs(" " + j));
      WellFormedTail(ts);
      SkipSingleSpace(rest);
      SplitJoin(rest);
    }
  }

  lemma WellFormedTail(ts: seq<string>)
    requires WellFormedTokens(ts) && |ts| >= 2
    ensures WellFormedTokens(ts[1..])
    ensures |ts| >= 3 ==> ts[1] != ""
  {
    var rest := ts[1..];
    forall k | 0 <= k < |rest| ensures NoWs(rest[k]) && (0 < k < |rest| - 1 ==> rest[k] != "") {
      assert rest[k] == ts[k + 1];
    }
  }

  lemma SkipSingleSpace(ts: seq<string>)
    requires WellFormedTokens(ts)
    requires |ts| >= 2 ==> ts[0] != ""
    ensures SkipWs(" " + Join(ts)) == Join(ts)
  {
    var j := Join(ts);
    assert (" " + j)[1..] == j;
    assert SkipWs(" " + j) == SkipWs(j);
    if ts[0] != "" {
      JoinHead(ts);
      assert NoWs(ts[0]);
      assert !IsWs(ts[0][0]);
    } else {
      assert j == "";
    }
  }

  lemma JoinHead(ts: seq<string>)
    requires |ts| >= 1 && ts[0] != ""
    ensures Join(ts) != [] && Join(ts)[0] == ts[0][0]
  {
    if |ts| > 1 {
      assert Join(ts) == ts[0] + (" " + Join(ts[1..]));
    }
  }

  lemma TakeWellFormed(ts: seq<string>, n: nat)
    requires WellFormedTokens(ts) && n >= 1
    ensures WellFormedTokens(Take(ts, n))
  {
  }

  /** The first `n` tokens, joined, are never longer than the text they come
      from. */
  lemma {:induction false} TakeJoinShorter(s: string, n: nat)
    ensures |Join(Take(Split(s), n))| <= |s|
    decreases |s|
  {
    var w := Word(s);
    var ts := Split(s);
    if n == 0 {
    } else if |w| == |s| {
      assert Take(ts, n) == [w];
    } else {
      var rest := SkipWs(s[|w|..]);
      assert ts == [w] + Split(rest);
      if n == 1 {
        assert Take(ts, n) == [w];
      } else {
        TakeJoinShorter(rest, n - 1);
        var tail := Take(Split(rest), n - 1);
        assert Take(ts, n) == [w] + tail;
        assert Join(Take(ts, n)) == w + " " + Join(tail);
      }
    }
  }

  /** The tokens of a truncation are the first `num` tokens of the input
      (all of them when there are fewer). */
  lemma TruncationTokens(s: string, num: nat)
    requires num >= 1
    ensures Split(TruncateToTokenCount(s, num)) == Take(Split(s), num)
    ensures |Split(TruncateToTokenCount(s, num))| <= num
  {
    SplitWellFormed(s);
    TakeWellFormed(Split(s), num);
    SplitJoin(Take(Split(s), num));
  }

  /** A word, one space and text not starting with white space split into
      that word followed by the split of the text. */
  lemma SplitWords(w: string, rest: string)
    requires NoWs(w)
    requires rest == [] || !IsWs(rest[0])
    ensures Split(w + " " + rest) == [w] + Split(rest)
  {
    var tail := " " + rest;
    var s := w + tail;
    assert w + " " + rest == s;
    WordOfWordThenSpace(w, tail);
    assert s[|w|..] == tail;
    assert SkipWs(tail) == SkipWs(tail[1..]);
    assert tail[1..] == rest;
  }

  /** Text whose only white space is single `' '` characters. */
  predicate SingleSpaced(s: string) {
    && (forall i :: 0 <= i < |s| ==> IsWs(s[i]) ==> s[i] == ' ')
    && (forall i :: 0 <= i < |s| - 1 ==> !(s[i] == ' ' && s[i + 1] == ' '))
  }

  lemma SingleSpacedSuffix(s: string, k: nat)
    requires SingleSpaced(s) && k <= |s|
    ensures SingleSpaced(s[k..])
  {
    var r := s[k..];
    forall i | 0 <= i < |r| ensures r[i] == s[k + i] { }
  }

  /** Joining the split of single-spaced text gives the text back. */
  lemma {:induction false} JoinSplit(s: string)
    requires SingleSpaced(s)
    ensures Join(Split(s)) == s
    decreases |s|
  {
    var w := Word(s);
    if |w| < |s| {
      var k := |w|;
      var rest := s[k + 1..];
      assert s[k] == ' ';
      assert rest != [] ==> rest[0] == s[k + 1];
      assert s == w + " " + rest by {
        assert s == s[..k] + [s[k]] + s[k + 1..];
      }
      SplitWords(w, rest);
      SingleSpacedSuffix(s, k + 1);
      JoinSplit(rest);
    }
  }

  /** Asking for at least as many tokens as single-spaced text has returns
      the text unchanged. */
  lemma TruncateKeepsShortText(s: string, num: nat)
    requires SingleSpaced(s) && num >= |Split(s)|
    ensures TruncateToTokenCount(s, num) == s
  {
    var ts := Split(s);
    assert Take(ts, num) == ts;
    JoinSplit(s);
  }

  // ---------------------------------------------------------------------
  // text.replace(/\[([^\]]+)]\(([^)]+)\)/g, "$1")

  /** The match of the link pattern at the start of `s`, if any: its text and
      the length of the whole `[text](url)`. The text may hold `[` but not `]`,
      the url may not hold `)`, and neither may be empty. */
  function LinkAt(s: string): (m: Option<(string, nat)>)
    ensures m.Some? ==> |m.value.0| + 5 <= m.value.1 <= |s|
  {
    if s == [] || s[0] != '[' then None
    else
      var t := Span(s[1..], ']');
      var close := 1 + t;
      if t == 0 || close + 1 >= |s| || s[close + 1] != '(' then None
      else
        var u := Span(s[close + 2..], ')');
        var end := close + 2 + u;
        if u == 0 || end >= |s| then None
        else Some((s[1..close], end + 1))
  }

  /** Whatever the link matcher accepts really is a link at the front of
      `s`, and the reported text is the link's text. */
  lemma LinkAtSound(s: string)
    ensures LinkAt(s).Some? ==> IsLink(s[..LinkAt(s).value.1], LinkAt(s).value.0)
  {
    if LinkAt(s).Some? {
      var t := Span(s[1..], ']');
      var close := 1 + t;
      var u := Span(s[close + 2..], ')');
      var end := close + 2 + u;
      var text := s[1..close];
      var url := s[close + 2..end];
      assert LinkAt(s).value == (text, end + 1);
      assert ']' !in text by {
        forall i | 0 <= i < |text| ensures text[i] != ']' {
          assert text[i] == s[1..][i];
        }
      }
      assert ')' !in url by {
        forall i | 0 <= i < |url| ensures url[i] != ')' {
          assert url[i] == s[close + 2..][i];
        }
      }
      assert s[end] == ')' by {
        assert s[close + 2..][u] == s[end];
      }
      var l := s[..end + 1];
      assert l == "[" + text + "](" + url + ")";
      assert l[|text| + 3..|l| - 1] == url;
    }
  }

  /** `l` is exactly `[text](url)` with `text` non-empty and free of `]`,
      and the url non-empty and free of `)`: what the link pattern accepts. */
  ghost predicate IsLink(l: string, text: string) {
    && |l| >= |text| + 5
    && text != [] && ']' !in text
    && var url := l[|text| + 3..|l| - 1];
      && url != [] && ')' !in url
      && l == "[" + text + "](" + url + ")"
  }

  /** `removeLinksFromMarkdown(text)`: scanning left to right, a link at the
      current position is replaced by its text and scanning resumes after it;
      otherwise one character is copied. */
  function RemoveLinks(s: string): (r: string)
    ensures |r| <= |s|
    decreases |s|
  {
    if s == [] then []
    else
      match LinkAt(s)
      case Some((text, n)) => text + RemoveLinks(s[n..])
      case None => [s[0]] + RemoveLinks(s[1..])
  }

  /** Some position of `s` starts a link. */
  ghost predicate HasLink(s: string) {
    exists i :: 0 <= i < |s| && LinkAt(s[i..]).Some?
  }

  /** A well-formed `[text](url)` at the front is matched whole. */
  lemma LinkAtLink(t: string, u: string, rest: string)
    requires t != [] && ']' !in t && u != [] && ')' !in u
    ensures LinkAt("[" + t + "](" + u + ")" + rest) == Some((t, |t| + |u| + 4))
  {
    var s := "[" + t + "](" + u + ")" + rest;
    var afterText := "](" + u + ")" + rest;
    var afterUrl := ")" + rest;
    assert s[1..] == t + afterText;
    SpanOf(t, ']', afterText);
    assert s[|t| + 3..] == u + afterUrl;
    SpanOf(u, ')', afterUrl);
    assert s[1..1 + |t|] == t;
  }

  lemma SpanOf(a: string, stop: char, b: string)
    requires stop !in a && b != [] && b[0] == stop
    ensures Span(a + b, stop) == |a|
  {
    if a != [] {
      assert (a + b)[1..] == a[1..] + b;
      SpanOf(a[1..], stop, b);
    } else {
      assert a + b == b;
    }
  }

  /** A link is replaced by its text. */
  lemma RemoveLinksAtLink(t: string, u: string, rest: string)
    requires t != [] && ']' !in t && u != [] && ')' !in u
    ensures RemoveLinks("[" + t + "](" + u + ")" + rest) == t + RemoveLinks(rest)
  {
    var s := "[" + t + "](" + u + ")" + rest;
    LinkAtLink(t, u, rest);
    assert s[|t| + |u| + 4..] == rest;
  }

  /** Text without `[` is copied unchanged. */
  lemma {:induction false} RemoveLinksPlain(a: string, b: string)
    requires '[' !in a
    ensures RemoveLinks(a + b) == a + RemoveLinks(b)
  {
    if a != [] {
      assert (a + b)[1..] == a[1..] + b;
      RemoveLinksPlain(a[1..], b);
    } else {
      assert a + b == b;
    }
  }

  /** `removeLinksFromMarkdown` changes its input exactly when some position
      starts a link, and then it makes the text strictly shorter. */
  lemma {:induction false} RemoveLinksChangesIffLink(s: string)
    ensures !HasLink(s) ==> RemoveLinks(s) == s
    ensures HasLink(s) ==> |RemoveLinks(s)| < |s|
    decreases |s|
  {
    if s != [] {
      match LinkAt(s)
      case Some((text, n)) =>
        assert LinkAt(s[0..]).Some?;
        assert HasLink(s);
      case None =>
        RemoveLinksChangesIffLink(s[1..]);
        if HasLink(s) {
          var i :| 0 <= i < |s| && LinkAt(s[i..]).Some?;
          assert i > 0 by { assert s[0..] == s; }
          assert s[1..][i - 1..] == s[i..];
          assert HasLink(s[1..]);
        } else {
          forall i | 0 <= i < |s[1..]| ensures LinkAt(s[1..][i..]).None? {
            assert s[1..][i..] == s[i + 1..];
          }
        }
    }
  }

  /** Plain text, then a link, then more text: the plain text is kept, the
      link becomes its text, and scanning goes on after the link. */
  lemma RemoveLinksAfterText(a: string, t: string, u: string, rest: string)
    requires '[' !in a && t != [] && ']' !in t && u != [] && ')' !in u
    ensures RemoveLinks(a + ("[" + t + "](" + u + ")" + rest)) == a + (t + RemoveLinks(rest))
  {
    RemoveLinksAtLink(t, u, rest);
    RemoveLinksPlain(a, "[" + t + "](" + u + ")" + rest);
  }

  /** Text without links passes through unchanged. */
  lemma RemoveLinksNoLinks(s: string)
    requires s == "This is a test string" || s == ""
    ensures RemoveLinks(s) == s
  {
    RemoveLinksPlain(s, "");
    assert s + "" == s;
  }

  // ---------------------------------------------------------------------
  // The pure tail of fetchContentFromURL

  /** The text `fetchContentFromURL` returns for extracted article Markdown
      `md`: links stripped first, then capped at 2500 tokens. */
  function ContentText(md: string): (r: string)
    ensures |r| <= |md|
    ensures |Split(r)| <= MaxContentTokens
    ensures Split(r) == Take(Split(RemoveLinks(md)), MaxContentTokens)
  {
    var r := TruncateToTokenCount(RemoveLinks(md), MaxContentTokens);
    TruncationTokens(RemoveLinks(md), MaxContentTokens);
    r
  }

  // ---------------------------------------------------------------------
  // Split, Join and white-space collapsing

  lemma {:induction false} SkipWsIsLeadingWs(x: string)
    ensures SkipWs(x) == x[MarkdownText.LeadingWs(x)..]
  {
    if x != [] && IsWs(x[0]) {
      SkipWsIsLeadingWs(x[1..]);
      assert x[1..][MarkdownText.LeadingWs(x[1..])..] == x[1 + MarkdownText.LeadingWs(x[1..])..];
    }
  }

  lemma {:induction false} CollapseAfterWord(s: string)
    ensures MarkdownText.CollapseWhitespace(s) == Word(s) + MarkdownText.CollapseWhitespace(s[|Word(s)|..])
  {
    if s != [] && !IsWs(s[0]) {
      CollapseAfterWord(s[1..]);
      assert s[1..][|Word(s[1..])|..] == s[1 + |Word(s[1..])|..];
    }
  }

  lemma CollapseAtWs(x: string)
    requires x != [] && IsWs(x[0])
    ensures MarkdownText.CollapseWhitespace(x) == " " + MarkdownText.CollapseWhitespace(SkipWs(x))
  {
    SkipWsIsLeadingWs(x);
  }

  lemma JoinCons(w: string, rest: seq<string>)
    requires |rest| >= 1
    ensures Join([w] + rest) == w + (" " + Join(rest))
  {
    assert ([w] + rest)[1..] == rest;
    assert w + " " + Join(rest) == w + (" " + Join(rest));
  }

  /** Splitting on white space and rejoining with single spaces is the same
      as replacing every white-space run by one space. */
  lemma {:induction false} JoinSplitIsCollapse(s: string)
    ensures Join(Split(s)) == MarkdownText.CollapseWhitespace(s)
    decreases |s|
  {
    var w := Word(s);
    CollapseAfterWord(s);
    if |w| == |s| {
      assert s[|w|..] == [];
    } else {
      var x := s[|w|..];
      var y := SkipWs(x);
      CollapseAtWs(x);
      JoinSplitIsCollapse(y);
      JoinCons(w, Split(y));
      assert Split(s) == [w] + Split(y);
    }
  }
}

/** Escaping of item text for Telegram's MarkdownV2 dialect
    (`cleanTextForMarkdown` in bots/delphi-clerk.ts): four global
    replacements applied in order. */
module MarkdownText {
  import opened Strings

  /** The characters the first replacement backslash-escapes. */
  predicate IsSpecial(c: char) {
    || c == '-' || c == '_' || c == '*' || c == '[' || c == ',' || c == ']'
    || c == '(' || c == ')' || c == '~' || c == '`' || c == '>' || c == '#'
    || c == '+' || c == '=' || c == '|' || c == '{' || c == '}' || c == '.'
    || c == '!'
  }

  /** The full-width commercial at that replaces `@`. */
  const FullwidthAt: char := '\U{FF20}'

  /** `.replace(/([-_*[,\]()~`>#+=|{}.!])/g, '\\$1')` */
  function EscapeSpecials(s: string): (r: string)
    ensures forall i :: 0 <= i < |r| && IsSpecial(r[i]) ==> i > 0 && r[i - 1] == '\\'
    ensures r != [] ==> !IsSpecial(r[0])
    ensures '\n' in r ==> '\n' in s
    ensures '@' in r ==> '@' in s
    ensures forall i :: 0 <= i < |r| ==> r[i] == '\\' || r[i] in s
  {
    if s == [] then []
    else
      var rest := EscapeSpecials(s[1..]);
      var head := if IsSpecial(s[0]) then ['\\', s[0]] else [s[0]];
      var r := head + rest;
      assert forall i :: |head| <= i < |r| ==> r[i] == rest[i - |head|];
      r
  }

  /** `.replace(/\n/g, ' ')` */
  function NewlinesToSpaces(s: string): (r: string)
    ensures '\n' !in r
    ensures |r| == |s|
    ensures forall i :: 0 <= i < |s| && s[i] != '\n' ==> r[i] == s[i]
    ensures forall i :: 0 <= i < |s| && s[i] == '\n' ==> r[i] == ' '
  {
    seq(|s|, i requires 0 <= i < |s| => if s[i] == '\n' then ' ' else s[i])
  }

  /** `.replace(/\s+/g, ' ')`: every maximal run of white space becomes one space. */
  function CollapseWhitespace(s: string): (r: string)
    ensures |r| <= |s|
    ensures r == [] <==> s == []
    decreases |s|
  {
    if s == [] then []
    else if IsWs(s[0]) then [' '] + CollapseWhitespace(s[LeadingWs(s)..])
    else [s[0]] + CollapseWhitespace(s[1..])
  }

  /** The length of the run of white space at the start of `s`. */
  function LeadingWs(s: string): (n: nat)
    ensures n <= |s|
    ensures forall i :: 0 <= i < n ==> IsWs(s[i])
    ensures n < |s| ==> !IsWs(s[n])
  {
    if s != [] && IsWs(s[0]) then 1 + LeadingWs(s[1..]) else 0
  }

  /** `.replace(/@/g, '＠')` */
  function ReplaceAtSigns(s: string): (r: string)
    ensures '@' !in r
    ensures |r| == |s|
    ensures forall i :: 0 <= i < |s| && s[i] != '@' ==> r[i] == s[i]
    ensures forall i :: 0 <= i < |s| && s[i] == '@' ==> r[i] == FullwidthAt
  {
    seq(|s|, i requires 0 <= i < |s| => if s[i] == '@' then FullwidthAt else s[i])
  }

  /** `cleanTextForMarkdown(str)` */
  function CleanTextForMarkdown(s: string): (r: string)
    ensures '\n' !in r && '@' !in r
  {
    var b := NewlinesToSpaces(EscapeSpecials(s));
    CollapseChars(b, '\n');
    ReplaceAtSigns(CollapseWhitespace(b))
  }

  /** Removes the backslash in front of every special character: the
      inverse of `EscapeSpecials`. */
  function Unescape(r: string): string
    decreases |r|
  {
    if r == [] then []
    else if |r| >= 2 && r[0] == '\\' && IsSpecial(r[1]) then [r[1]] + Unescape(r[2..])
    else [r[0]] + Unescape(r[1..])
  }

  // ---------------------------------------------------------------------
  // Properties

  /** Every special character is immediately preceded by a backslash. */
  ghost predicate Escaped(s: string) {
    forall i :: 0 <= i < |s| && IsSpecial(s[i]) ==> i > 0 && s[i - 1] == '\\'
  }

  /** Every special character after the first position is escaped. */
  ghost predicate InnerEscaped(s: string) {
    forall i :: 1 <= i < |s| && IsSpecial(s[i]) ==> s[i - 1] == '\\'
  }

  /** `Escaped` for a piece of text that follows the character `prev`. */
  ghost predicate EscapedAfter(prev: char, s: string) {
    && (s != [] && IsSpecial(s[0]) ==> prev == '\\')
    && InnerEscaped(s)
  }

  /** No two adjacent characters are both white space. */
  ghost predicate NoDoubleWhitespace(s: string) {
    forall i :: 0 <= i < |s| - 1 ==> !(IsWs(s[i]) && IsWs(s[i + 1]))
  }

  lemma EscapedAfterSuffix(prev: char, s: string, k: nat)
    requires EscapedAfter(prev, s) && 0 < k <= |s|
    ensures EscapedAfter(s[k - 1], s[k..])
  {
    var t := s[k..];
    if t != [] {
      assert t[0] == s[k];
    }
    forall i | 1 <= i < |t| && IsSpecial(t[i]) ensures t[i - 1] == '\\' {
      assert t[i] == s[k + i] && t[i - 1] == s[k + i - 1];
    }
  }

  /** Collapsing white space keeps every escape. */
  lemma {:induction false} CollapseKeepsEscapes(prev: char, s: string)
    requires EscapedAfter(prev, s)
    ensures EscapedAfter(prev, CollapseWhitespace(s))
    decreases |s|
  {
    if s != [] {
      var r := CollapseWhitespace(s);
      var c := if IsWs(s[0]) then ' ' else s[0];
      var t := if IsWs(s[0]) then s[LeadingWs(s)..] else s[1..];
      if IsWs(s[0]) {
        EscapedAfterSuffix(prev, s, LeadingWs(s));
      } else {
        EscapedAfterSuffix(prev, s, 1);
      }
      assert EscapedAfter(c, t);
      CollapseKeepsEscapes(c, t);
      var rest := CollapseWhitespace(t);
      assert r == [c] + rest;
      assert r[0] == c;
      forall i | 1 <= i < |r| && IsSpecial(r[i]) ensures r[i - 1] == '\\' {
        assert r[i] == rest[i - 1];
        if i > 1 { assert r[i - 1] == rest[i - 2]; }
      }
    }
  }

  /** Collapsing white space leaves no two white space characters side by
      side and keeps a first character that is not white space. */
  lemma {:induction false} CollapseNoDoubleWhitespace(s: string)
    ensures NoDoubleWhitespace(CollapseWhitespace(s))
    ensures s != [] && !IsWs(s[0]) ==> CollapseWhitespace(s)[0] == s[0]
    decreases |s|
  {
    if s != [] {
      var r := CollapseWhitespace(s);
      var t := if IsWs(s[0]) then s[LeadingWs(s)..] else s[1..];
      CollapseNoDoubleWhitespace(t);
      var rest := CollapseWhitespace(t);
      assert r == [if IsWs(s[0]) then ' ' else s[0]] + rest;
      assert IsWs(s[0]) && rest != [] ==> !IsWs(rest[0]);
      forall i | 0 <= i < |r| - 1 ensures !(IsWs(r[i]) && IsWs(r[i + 1])) {
        if i > 0 { assert r[i] == rest[i - 1] && r[i + 1] == rest[i]; }
      }
    }
  }

  /** Collapsing white space introduces no character but the space. */
  lemma {:induction false} CollapseChars(s: string, c: char)
    requires c != ' ' && c !in s
    ensures c !in CollapseWhitespace(s)
    decreases |s|
  {
    if s != [] {
      var t := if IsWs(s[0]) then s[LeadingWs(s)..] else s[1..];
      assert forall i :: 0 <= i < |t| ==> t[i] in s;
      CollapseChars(t, c);
    }
  }

  /** Turning newlines into spaces and `@` into its full-width form keep
      escapes and single spacing, since none of the three characters
      involved is special or a backslash and white space stays white space. */
  lemma NewlinesKeepEscapes(a: string)
    requires Escaped(a)
    ensures EscapedAfter(' ', NewlinesToSpaces(a))
  {
    var b := NewlinesToSpaces(a);
    if b != [] {
      assert b[0] == a[0] || b[0] == ' ';
    }
    forall i | 1 <= i < |b| && IsSpecial(b[i]) ensures b[i - 1] == '\\' {
      assert b[i] == a[i] && b[i - 1] == a[i - 1];
    }
  }

  lemma AtSignsKeepShape(c: string)
    requires EscapedAfter(' ', c) && NoDoubleWhitespace(c) && '\n' !in c
    ensures var r := ReplaceAtSigns(c);
      Escaped(r) && NoDoubleWhitespace(r) && '\n' !in r && '@' !in r
  {
    var r := ReplaceAtSigns(c);
    forall i | 0 <= i < |r| && IsSpecial(r[i]) ensures i > 0 && r[i - 1] == '\\' {
      assert r[i] == c[i];
      if i > 0 { assert r[i - 1] == c[i - 1]; }
    }
    forall i | 0 <= i < |r| - 1 ensures !(IsWs(r[i]) && IsWs(r[i + 1])) {
      assert IsWs(r[i]) == IsWs(c[i]) && IsWs(r[i + 1]) == IsWs(c[i + 1]);
    }
  }

  /** What `cleanTextForMarkdown` guarantees of its output: no newline, no
      `@`, no two adjacent white space characters, and every MarkdownV2
      special character escaped by the backslash right before it. */
  lemma CleanTextIsSafe(s: string)
    ensures var r := CleanTextForMarkdown(s);
      && '\n' !in r
      && '@' !in r
      && NoDoubleWhitespace(r)
      && Escaped(r)
  {
    var b := NewlinesToSpaces(EscapeSpecials(s));
    NewlinesKeepEscapes(EscapeSpecials(s));
    CollapseKeepsEscapes(' ', b);
    CollapseNoDoubleWhitespace(b);
    CollapseChars(b, '\n');
    AtSignsKeepShape(CollapseWhitespace(b));
  }

  /** Text with nothing to escape, no `@` and single spaces between words
      is left exactly as it is. */
  lemma CleanPlainTextUnchanged(s: string)
    requires forall i :: 0 <= i < |s| ==> !IsSpecial(s[i]) && s[i] != '@'
    requires forall i :: 0 <= i < |s| ==> IsWs(s[i]) ==> s[i] == ' '
    requires forall i :: 0 <= i < |s| - 1 ==> !(s[i] == ' ' && s[i + 1] == ' ')
    ensures CleanTextForMarkdown(s) == s
  {
    EscapePlain(s);
    assert NewlinesToSpaces(s) == s;
    CollapsePlain(s);
    assert ReplaceAtSigns(s) == s;
  }

  lemma {:induction false} EscapePlain(s: string)
    requires forall i :: 0 <= i < |s| ==> !IsSpecial(s[i])
    ensures EscapeSpecials(s) == s
  {
    if s != [] {
      EscapePlain(s[1..]);
    }
  }

  lemma {:induction false} CollapsePlain(s: string)
    requires forall i :: 0 <= i < |s| ==> IsWs(s[i]) ==> s[i] == ' '
    requires forall i :: 0 <= i < |s| - 1 ==> !(s[i] == ' ' && s[i + 1] == ' ')
    ensures CollapseWhitespace(s) == s
    decreases |s|
  {
    if s != [] {
      var k := if IsWs(s[0]) then LeadingWs(s) else 1;
      if IsWs(s[0]) {
        assert k == 1 by {
          if |s| > 1 { assert !(s[0] == ' ' && s[1] == ' '); }
        }
      }
      var t := s[k..];
      assert forall i :: 0 <= i < |t| ==> t[i] == s[i + 1];
      CollapsePlain(t);
    }
  }

  /** Escaping loses nothing: dropping the added backslashes gives the
      text back. */
  lemma {:induction false} EscapeRoundTrip(s: string)
    ensures Unescape(EscapeSpecials(s)) == s
  {
    if s != [] {
      var rest := EscapeSpecials(s[1..]);
      EscapeRoundTrip(s[1..]);
      if IsSpecial(s[0]) {
        var r := ['\\', s[0]] + rest;
        assert r[2..] == rest;
      } else {
        var r := [s[0]] + rest;
        assert r[1..] == rest;
        assert |r| >= 2 ==> r[1] == rest[0];
      }
    }
  }

  /** No two adjacent characters are both spaces. */
  ghost predicate NoDoubleSpace(s: string) {
    forall i :: 0 <= i < |s| - 1 ==> !(s[i] == ' ' && s[i + 1] == ' ')
  }

  /** Every white-space character is a plain space. */
  ghost predicate SpacesOnly(s: string) {
    forall i :: 0 <= i < |s| ==> IsWs(s[i]) ==> s[i] == ' '
  }

  /** Escaping adds only backslashes, so it never puts two spaces side by side. */
  lemma {:induction false} EscapeKeepsSingleSpacing(s: string)
    requires NoDoubleSpace(s)
    ensures NoDoubleSpace(EscapeSpecials(s))
    ensures EscapeSpecials(s) != [] ==> EscapeSpecials(s)[0] in {s[0], '\\'}
  {
    if s != [] {
      var t := s[1..];
      assert NoDoubleSpace(t) by {
        forall i | 0 <= i < |t| - 1 ensures !(t[i] == ' ' && t[i + 1] == ' ') {
          assert t[i] == s[i + 1] && t[i + 1] == s[i + 2];
        }
      }
      EscapeKeepsSingleSpacing(t);
      var rest := EscapeSpecials(t);
      var head := if IsSpecial(s[0]) then ['\\', s[0]] else [s[0]];
      var r := head + rest;
      assert r == EscapeSpecials(s);
      forall i | 0 <= i < |r| - 1 ensures !(r[i] == ' ' && r[i + 1] == ' ') {
        if i >= |head| {
          assert r[i] == rest[i - |head|] && r[i + 1] == rest[i + 1 - |head|];
        } else if i == |head| - 1 {
          assert r[i] == s[0] && r[i + 1] == rest[0];
          assert |s| >= 2 && t[0] == s[1];
        }
      }
    }
  }

  /** Escaping adds no white space. */
  lemma EscapeKeepsSpacesOnly(s: string)
    requires SpacesOnly(s)
    ensures SpacesOnly(EscapeSpecials(s))
  {
    var r := EscapeSpecials(s);
    forall i | 0 <= i < |r| && IsWs(r[i]) ensures r[i] == ' ' {
      assert r[i] in s;
    }
  }

  /** For single-spaced text with no `@`, cleaning is exactly escaping:
      with `EscapeRoundTrip` this pins the cleaned text's content. */
  lemma CleanSingleSpacedIsEscape(s: string)
    requires SpacesOnly(s) && NoDoubleSpace(s)
    requires '@' !in s
    ensures CleanTextForMarkdown(s) == EscapeSpecials(s)
  {
    var e := EscapeSpecials(s);
    EscapeKeepsSingleSpacing(s);
    EscapeKeepsSpacesOnly(s);
    assert IsWs('\n');
    assert '\n' !in e;
    assert NewlinesToSpaces(e) == e;
    CollapsePlain(e);
    assert '@' !in e;
    assert ReplaceAtSigns(e) == e;
  }
}

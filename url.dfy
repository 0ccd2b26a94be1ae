/** URL normalisation for submitted links (`normalizeUrl` in
    bots/delphi-clerk.ts): add a scheme when there is none, force https,
    rewrite the first Twitter host spelling to x.com, and cut the query and
    fragment from any URL that then contains "x.com". */
module UrlNormalizer {
  import opened Options
  import opened Strings

  predicate IsLetter(c: char) {
    ('a' <= c <= 'z') || ('A' <= c <= 'Z')
  }

  predicate IsSchemeChar(c: char) {
    IsLetter(c) || ('0' <= c <= '9') || c == '+' || c == '-' || c == '.'
  }

  /** A URL scheme: a letter followed by letters, digits, `+`, `-` or `.`. */
  predicate IsScheme(s: string) {
    |s| > 0 && IsLetter(s[0]) && forall i :: 0 <= i < |s| ==> IsSchemeChar(s[i])
  }

  /** `new URL(u).origin + new URL(u).pathname`, for the simplified URL shape
      scheme "://" authority path [?query] [#fragment]: the authority runs to
      the first `/`, `?` or `#`, the path to the first `?` or `#`, and an
      empty path reads as "/". `None` is the constructor throwing. */
  function OriginAndPath(u: string): (r: Option<string>)
    ensures r.Some? ==> '?' !in r.value && '#' !in r.value && r.value != []
  {
    match IndexOf(u, "://")
    case None => None
    case Some(k) =>
      var scheme := u[..k];
      var rest := u[k + 3..];
      var host := TakeUntil(rest, {'/', '?', '#'});
      if !IsScheme(scheme) || host == [] then None
      else
        var path := TakeUntil(rest[|host|..], {'?', '#'});
        var pathname := if path == [] then "/" else path;
        assert '?' !in scheme && '#' !in scheme by {
          forall i | 0 <= i < |scheme| ensures scheme[i] != '?' && scheme[i] != '#' {
            assert IsSchemeChar(scheme[i]);
          }
        }
        assert '?' !in pathname && '#' !in pathname;
        Some(scheme + "://" + host + pathname)
  }

  /** Step 1: prefix "https://" unless the input starts with "http". */
  function WithScheme(url: string): string {
    if StartsWith(url, "http") then url else "https://" + url
  }

  /** Step 2: the first "http://" becomes "https://". */
  function ForceHttps(u: string): string {
    ReplaceFirst(u, "http://", "https://")
  }

  /** Step 3: the first "vxtwitter.com", then the first "twitter.com",
      becomes "x.com". */
  function CanonicalTwitter(u: string): string {
    ReplaceFirst(ReplaceFirst(u, "vxtwitter.com", "x.com"), "twitter.com", "x.com")
  }

  /** The URL after the three rewriting steps, before the query cut. */
  function Rewritten(url: string): string {
    CanonicalTwitter(ForceHttps(WithScheme(url)))
  }

  /** The normalised URL; `None` when the URL constructor throws. Only a
      rewritten URL containing "x.com" loses its query and fragment; every
      other URL comes back exactly as rewritten. */
  function NormalForm(url: string): (r: Option<string>)
    ensures Contains(Rewritten(url), "x.com") && r.Some? ==> '?' !in r.value && '#' !in r.value
    ensures !Contains(Rewritten(url), "x.com") ==> r == Some(Rewritten(url))
    ensures r.Some? ==> r.value != []
  {
    var u := Rewritten(url);
    if Contains(u, "x.com") then OriginAndPath(u) else Some(u)
  }

  /** `normalizeUrl(url)`: reassigns the working copy step by step, as the
      source does. */
  method NormalizeUrl(url: string) returns (r: Option<string>)
    ensures r == NormalForm(url)
  {
    var cleanUrl := url;
    if !StartsWith(cleanUrl, "http") {
      cleanUrl := "https://" + cleanUrl;
    }
    // the first http:// becomes https://
    cleanUrl := ReplaceFirst(cleanUrl, "http://", "https://");
    // the first twitter host becomes x.com
    cleanUrl := ReplaceFirst(cleanUrl, "vxtwitter.com", "x.com");
    cleanUrl := ReplaceFirst(cleanUrl, "twitter.com", "x.com");
    // an x.com link keeps only origin and path
    if Contains(cleanUrl, "x.com") {
      r := OriginAndPath(cleanUrl);
    } else {
      r := Some(cleanUrl);
    }
  }

  // ---------------------------------------------------------------------
  // Properties

  lemma OccursAtChars(s: string, pat: string, j: nat, m: nat)
    requires OccursAt(s, pat, j) && m < |pat|
    ensures s[j + m] == pat[m]
  {
    assert s[j..j + |pat|][m] == s[j + m];
  }

  lemma PrefixChar(s: string, p: string, j: nat)
    requires StartsWith(s, p) && j < |p|
    ensures s[j] == p[j]
  {
    assert s[..|p|][j] == s[j];
  }

  /** None of the patterns the normaliser replaces can start inside a
      leading "https://", so every step keeps that prefix. */
  lemma HttpsPrefixSurvives(s: string, pat: string, rep: string)
    requires StartsWith(s, "https://")
    requires pat == "http://" || pat == "vxtwitter.com" || pat == "twitter.com"
    ensures StartsWith(ReplaceFirst(s, pat, rep), "https://")
  {
    forall j: nat | j < 8 ensures !OccursAt(s, pat, j) {
      if OccursAt(s, pat, j) {
        OccursAtChars(s, pat, j, 0);
        PrefixChar(s, "https://", j);
        if pat == "http://" {
          assert j == 0;
          OccursAtChars(s, pat, j, 4);
          PrefixChar(s, "https://", 4);
        } else if pat == "twitter.com" {
          assert j == 1 || j == 2;
          OccursAtChars(s, pat, j, 1);
          PrefixChar(s, "https://", j + 1);
        }
      }
    }
    ReplaceFirstKeepsPrefix(s, pat, rep, "https://");
  }

  lemma HttpsOrigin(u: string)
    requires StartsWith(u, "https://")
    ensures OriginAndPath(u).Some? ==> StartsWith(OriginAndPath(u).value, "https://")
  {
    assert OccursAt(u, "://", 5) by {
      assert u[5..8] == u[..8][5..8];
    }
    forall j: nat | j < 5 ensures !OccursAt(u, "://", j) {
      if OccursAt(u, "://", j) {
        OccursAtChars(u, "://", j, 0);
        PrefixChar(u, "https://", j);
      }
    }
    assert IndexOf(u, "://") == Some(5);
    assert u[..5] == "https" by {
      assert u[..5] == u[..8][..5];
    }
  }

  /** A URL without a scheme, an http URL and an https URL all come out
      starting with "https://". */
  lemma NormalFormIsHttps(url: string)
    requires !StartsWith(url, "http") || StartsWith(url, "http://") || StartsWith(url, "https://")
    ensures StartsWith(Rewritten(url), "https://")
    ensures NormalForm(url).Some? ==> StartsWith(NormalForm(url).value, "https://")
  {
    var a := WithScheme(url);
    var b := ForceHttps(a);
    if StartsWith(a, "http://") {
      assert OccursAt(a, "http://", 0) by { assert a[0..7] == a[..7]; }
      assert IndexOf(a, "http://") == Some(0);
      assert b == "https://" + a[7..];
      assert StartsWith(b, "https://") by { assert b[..8] == "https://"; }
    } else {
      if !StartsWith(url, "http") {
        assert a == "https://" + url;
        assert StartsWith(a, "https://") by { assert a[..8] == "https://"; }
      } else {
        assert StartsWith(url, "https://");
      }
      HttpsPrefixSurvives(a, "http://", "https://");
    }
    var c := ReplaceFirst(b, "vxtwitter.com", "x.com");
    HttpsPrefixSurvives(b, "vxtwitter.com", "x.com");
    HttpsPrefixSurvives(c, "twitter.com", "x.com");
    HttpsOrigin(Rewritten(url));
  }

  lemma VxContainsTwitter(s: string)
    requires Contains(s, "vxtwitter.com")
    ensures Contains(s, "twitter.com")
  {
    var i := IndexOf(s, "vxtwitter.com").value;
    assert s[i + 2..i + 2 + 11] == s[i..i + 13][2..13];
    assert "vxtwitter.com"[2..13] == "twitter.com";
    ContainsAt(s, "twitter.com", i + 2);
  }

  /** Only Twitter links are touched by the host rewrite, and every Twitter
      link (any spelling) ends up containing "x.com", so its query is cut. */
  lemma TwitterRewrite(url: string)
    ensures var f := ForceHttps(WithScheme(url));
      (!Contains(f, "twitter.com") ==> Rewritten(url) == f)
      && (Contains(f, "twitter.com") ==> Contains(Rewritten(url), "x.com"))
  {
    var f := ForceHttps(WithScheme(url));
    var c := ReplaceFirst(f, "vxtwitter.com", "x.com");
    if !Contains(f, "twitter.com") {
      if Contains(f, "vxtwitter.com") { VxContainsTwitter(f); }
    } else if Contains(c, "twitter.com") {
      ReplaceFirstFound(c, "twitter.com", "x.com");
      ContainsAt(Rewritten(url), "x.com", IndexOf(c, "twitter.com").value);
    } else {
      if !Contains(f, "vxtwitter.com") {
        assert false;
      }
      ReplaceFirstFound(f, "vxtwitter.com", "x.com");
      ContainsAt(c, "x.com", IndexOf(f, "vxtwitter.com").value);
    }
  }

  /** The "x.com" test is a substring test: an https URL that contains
      "x.com" anywhere (a netflix.com link, say) and no Twitter host loses
      its query and fragment like an x.com link. */
  lemma SubstringXComIsStripped(url: string)
    requires StartsWith(url, "https://") && !Contains(url, "http://")
    requires Contains(url, "x.com") && !Contains(url, "twitter.com")
    ensures NormalForm(url) == OriginAndPath(url)
  {
    assert WithScheme(url) == url by { assert StartsWith(url, "http") by { assert url[..4] == url[..8][..4]; } }
    TwitterRewrite(url);
  }

  /** A URL that is already https, has no "http://" inside it and names no
      Twitter host or "x.com" comes out exactly as it went in. */
  lemma PlainHttpsIsFixed(url: string)
    requires StartsWith(url, "https://") && !Contains(url, "http://")
    requires !Contains(url, "twitter.com") && !Contains(url, "x.com")
    ensures NormalForm(url) == Some(url)
  {
    assert WithScheme(url) == url by { assert StartsWith(url, "http") by { assert url[..4] == url[..8][..4]; } }
    TwitterRewrite(url);
  }

  lemma {:induction false} TakeUntilConcat(a: string, b: string, stops: set<char>)
    requires forall i :: 0 <= i < |a| ==> a[i] !in stops
    requires b == [] || b[0] in stops
    ensures TakeUntil(a + b, stops) == a
  {
    if a != [] {
      assert (a + b)[1..] == a[1..] + b;
      TakeUntilConcat(a[1..], b, stops);
    } else {
      assert a + b == b;
    }
  }

  /** The first "://" of a URL whose scheme is well formed ends the scheme. */
  lemma SchemeEndsAtFirstSeparator(scheme: string, tail: string)
    requires IsScheme(scheme)
    ensures IndexOf(scheme + "://" + tail, "://") == Some(|scheme|)
  {
    var v := scheme + "://" + tail;
    assert v[|scheme|..|scheme| + 3] == "://";
    forall j: nat | j < |scheme| ensures !OccursAt(v, "://", j) {
      if OccursAt(v, "://", j) {
        OccursAtChars(v, "://", j, 0);
        assert false;
      }
    }
    var r := IndexOf(v, "://");
    assert OccursAt(v, "://", |scheme|);
    assert !(r.value < |scheme|);
    assert !(r.value > |scheme|);
  }

  /** The cut keeps scheme, host and path and drops whatever query or
      fragment follows them; an empty path becomes "/". */
  lemma OriginAndPathCut(scheme: string, host: string, path: string, tail: string)
    requires IsScheme(scheme) && host != []
    requires forall i :: 0 <= i < |host| ==> host[i] !in {'/', '?', '#'}
    requires path == [] || path[0] == '/'
    requires forall i :: 0 <= i < |path| ==> path[i] !in {'?', '#'}
    requires tail == [] || tail[0] in {'?', '#'}
    ensures OriginAndPath(scheme + "://" + host + path + tail)
      == Some(scheme + "://" + host + (if path == [] then "/" else path))
  {
    var rest := host + (path + tail);
    UrlParts(scheme, rest);
    assert scheme + "://" + host + path + tail == scheme + "://" + rest;
    TakeUntilConcat(host, path + tail, {'/', '?', '#'});
    assert rest[|host|..] == path + tail;
    TakeUntilConcat(path, tail, {'?', '#'});
  }

  /** A well-formed scheme, "://" and the rest split back into the two. */
  lemma UrlParts(scheme: string, rest: string)
    requires IsScheme(scheme)
    ensures var v := scheme + "://" + rest;
      IndexOf(v, "://") == Some(|scheme|) && v[..|scheme|] == scheme && v[|scheme| + 3..] == rest
  {
    SchemeEndsAtFirstSeparator(scheme, rest);
    var v := scheme + "://" + rest;
    assert v[..|scheme|] == scheme;
    assert v[|scheme| + 3..] == rest;
  }

  /** A URL already in origin-and-path form is its own origin and path. */
  lemma OriginAndPathOfShape(scheme: string, host: string, pathname: string)
    requires IsScheme(scheme) && host != []
    requires forall i :: 0 <= i < |host| ==> host[i] !in {'/', '?', '#'}
    requires pathname != [] && pathname[0] == '/'
    requires forall i :: 0 <= i < |pathname| ==> pathname[i] !in {'?', '#'}
    ensures OriginAndPath(scheme + "://" + host + pathname) == Some(scheme + "://" + host + pathname)
  {
    OriginAndPathCut(scheme, host, pathname, []);
    assert scheme + "://" + host + pathname + [] == scheme + "://" + host + pathname;
  }

  /** Cutting the query and fragment a second time changes nothing: the
      origin-and-path form is a fixed point of the cut. */
  lemma OriginAndPathIdempotent(u: string)
    requires OriginAndPath(u).Some?
    ensures OriginAndPath(OriginAndPath(u).value) == OriginAndPath(u)
  {
    var k := IndexOf(u, "://").value;
    var rest := u[k + 3..];
    var host := TakeUntil(rest, {'/', '?', '#'});
    var path := TakeUntil(rest[|host|..], {'?', '#'});
    var pathname := if path == [] then "/" else path;
    assert OriginAndPath(u) == Some(u[..k] + "://" + host + pathname);
    PathAfterHost(rest);
    OriginAndPathOfShape(u[..k], host, pathname);
  }

  /** A non-empty path starts at the '/' that ends the host. */
  lemma PathAfterHost(rest: string)
    ensures var host := TakeUntil(rest, {'/', '?', '#'});
      var path := TakeUntil(rest[|host|..], {'?', '#'});
      path != [] ==> path[0] == '/'
  {
    var host := TakeUntil(rest, {'/', '?', '#'});
    var path := TakeUntil(rest[|host|..], {'?', '#'});
    if path != [] {
      PrefixChar(rest[|host|..], path, 0);
      assert rest[|host|..][0] == rest[|host|];
    }
  }

  /** Normalising twice gives the result of normalising once whenever the
      first result is https with no "http://" and no "twitter.com" left in
      it: an x.com link is cut once more, which is a fixed point, and any
      other link is left alone. */
  lemma NormalFormIdempotentWithoutTwitterHost(url: string)
    requires NormalForm(url).Some?
    requires var u := NormalForm(url).value;
      StartsWith(u, "https://") && !Contains(u, "http://") && !Contains(u, "twitter.com")
    ensures NormalForm(NormalForm(url).value) == NormalForm(url)
  {
    var u := NormalForm(url).value;
    RewrittenFixed(u);
    if Contains(Rewritten(url), "x.com") {
      assert NormalForm(url) == OriginAndPath(Rewritten(url));
      OriginAndPathIdempotent(Rewritten(url));
      if Contains(u, "x.com") {
        assert NormalForm(u) == OriginAndPath(u);
      } else {
        assert NormalForm(u) == Some(u);
      }
    } else {
      assert u == Rewritten(url);
      assert NormalForm(u) == Some(u);
    }
  }

  /** The rewriting steps leave alone an https URL with no "http://" and no
      "twitter.com" in it. */
  lemma RewrittenFixed(u: string)
    requires StartsWith(u, "https://") && !Contains(u, "http://") && !Contains(u, "twitter.com")
    ensures Rewritten(u) == u
  {
    assert WithScheme(u) == u by { assert StartsWith(u, "http") by { assert u[..4] == u[..8][..4]; } }
    TwitterRewrite(u);
  }

  /** A pattern holding a character that `s` lacks does not occur in `s`. */
  lemma NotContainsChar(s: string, pat: string, c: char)
    requires c in pat && c !in s
    ensures !Contains(s, pat)
  {
  }

  /** With no Twitter host and no "x.com" in it, the rewritten URL is the
      normal form. */
  lemma NoTwitterHostIsKept(url: string, u: string)
    requires ForceHttps(WithScheme(url)) == u && 'm' !in u
    ensures NormalForm(url) == Some(u)
  {
    NotContainsChar(u, "vxtwitter.com", 'm');
    NotContainsChar(u, "twitter.com", 'm');
    NotContainsChar(u, "x.com", 'm');
  }

  lemma FirstPassForcesHttps()
    ensures ForceHttps(WithScheme("http://http://a")) == "https://http://a"
  {
    var pat := "http://";
    var a := "http://http://a";
    assert WithScheme(a) == a by { assert a[..4] == "http"; }
    assert IndexOf(a, pat) == Some(0) by { assert a[..7] == pat; }
    assert a[7..] == "http://a";
  }

  /** One mismatching character rules out an occurrence. */
  lemma MismatchAt(s: string, pat: string, j: nat, k: nat)
    requires k < |pat| && j + k < |s| && s[j + k] != pat[k]
    ensures !OccursAt(s, pat, j)
  {
  }

  /** An occurrence with none before it is the one `IndexOf` finds. */
  lemma FirstOccurrence(s: string, pat: string, i: nat)
    requires OccursAt(s, pat, i)
    requires forall j: nat :: j < i ==> !OccursAt(s, pat, j)
    ensures IndexOf(s, pat) == Some(i)
  {
  }

  /** After an "https://" scheme, the first "http://" is the one that
      follows it. */
  lemma HttpAfterScheme(q: string)
    requires StartsWith(q, "http://")
    ensures IndexOf("https://" + q, "http://") == Some(8)
  {
    var pat := "http://";
    var b := "https://" + q;
    assert OccursAt(b, pat, 8) by { assert b[8..15] == q[..7]; }
    MismatchAt(b, pat, 0, 4);
    MismatchAt(b, pat, 1, 0);
    MismatchAt(b, pat, 2, 0);
    MismatchAt(b, pat, 3, 0);
    MismatchAt(b, pat, 4, 0);
    MismatchAt(b, pat, 5, 0);
    MismatchAt(b, pat, 6, 0);
    MismatchAt(b, pat, 7, 0);
    FirstOccurrence(b, pat, 8);
  }

  lemma ForceHttpsAfterScheme(q: string)
    requires StartsWith(q, "http://")
    ensures ForceHttps("https://" + q) == "https://https://" + q[7..]
  {
    var b := "https://" + q;
    HttpAfterScheme(q);
    assert b[..8] == "https://" && b[15..] == q[7..];
  }

  lemma SecondPassForcesHttps()
    ensures ForceHttps(WithScheme("https://http://a")) == "https://https://a"
  {
    var b := "https://http://a";
    assert WithScheme(b) == b by { assert b[..4] == "http"; }
    var q := "http://a";
    assert b == "https://" + q;
    ForceHttpsAfterScheme(q);
    assert q[7..] == "a";
  }

  /** Normalisation is not idempotent once an "http://" is left after the
      first pass: the next pass forces that one to https as well. */
  lemma LeftoverHttpIsRewrittenAgain()
    ensures NormalForm("http://http://a") == Some("https://http://a")
    ensures NormalForm("https://http://a") == Some("https://https://a")
  {
    FirstPassForcesHttps();
    NoTwitterHostIsKept("http://http://a", "https://http://a");
    SecondPassForcesHttps();
    NoTwitterHostIsKept("https://http://a", "https://https://a");
  }

  /** An occurrence that starts after `a` is an occurrence in `b`. */
  lemma OccursInSuffix(a: string, b: string, pat: string, j: nat)
    requires |a| <= j && OccursAt(a + b, pat, j)
    ensures OccursAt(b, pat, j - |a|)
  {
    assert (a + b)[j..j + |pat|] == b[j - |a|..j - |a| + |pat|];
  }

  /** "https://twitter.com" then `p`: no "http://" starts in the literal
      part, so one occurs only if it occurs in `p`. */
  lemma NoHttpInTweetUrl(p: string)
    requires !Contains(p, "http://")
    ensures !Contains("https://twitter.com" + p, "http://")
  {
    forall j: nat ensures !OccursAt("https://twitter.com" + p, "http://", j) {
      NoHttpAt(p, j);
    }
  }

  lemma NoHttpAt(p: string, j: nat)
    requires !Contains(p, "http://")
    ensures !OccursAt("https://twitter.com" + p, "http://", j)
  {
    var a := "https://twitter.com";
    var s := a + p;
    if j == 0 {
      MismatchAt(s, "http://", 0, 4);
    } else if j < |a| {
      MismatchAt(s, "http://", j, 0);
    } else if OccursAt(s, "http://", j) {
      OccursInSuffix(a, p, "http://", j);
    }
  }

  lemma NoTwitterBeforeHost(p: string, j: nat)
    requires j < 8
    ensures !OccursAt("https://twitter.com" + p, "twitter.com", j)
  {
    var s := "https://twitter.com" + p;
    if j == 1 || j == 2 {
      MismatchAt(s, "twitter.com", j, 1);
    } else {
      MismatchAt(s, "twitter.com", j, 0);
    }
  }

  /** The first "twitter.com" of "https://twitter.com" then `p` is the host. */
  lemma TwitterHostFirst(p: string)
    ensures IndexOf("https://twitter.com" + p, "twitter.com") == Some(8)
  {
    var s := "https://twitter.com" + p;
    var pat := "twitter.com";
    assert OccursAt(s, pat, 8) by { assert s[8..19] == pat; }
    forall j: nat | j < 8 ensures !OccursAt(s, pat, j) {
      NoTwitterBeforeHost(p, j);
    }
    FirstOccurrence(s, pat, 8);
  }

  lemma TweetUrlForcedHttps(p: string)
    requires !Contains(p, "http://")
    ensures ForceHttps(WithScheme("https://twitter.com" + p)) == "https://twitter.com" + p
  {
    var s := "https://twitter.com" + p;
    assert WithScheme(s) == s by { assert s[..4] == "http"; }
    NoHttpInTweetUrl(p);
  }

  lemma NoVxInTweetUrl(p: string)
    requires 'v' !in p
    ensures ReplaceFirst("https://twitter.com" + p, "vxtwitter.com", "x.com") == "https://twitter.com" + p
  {
    var s := "https://twitter.com" + p;
    assert 'v' !in s by { assert 'v' !in "https://twitter.com"; }
    NotContainsChar(s, "vxtwitter.com", 'v');
  }

  lemma TweetHostReplaced(p: string)
    ensures ReplaceFirst("https://twitter.com" + p, "twitter.com", "x.com") == "https://x.com" + p
  {
    var s := "https://twitter.com" + p;
    TwitterHostFirst(p);
    assert s[..8] == "https://" && s[19..] == p;
  }

  /** "https://twitter.com" then `p` is rewritten to "https://x.com" then
      `p`, when `p` brings no "http://" and no 'v'. */
  lemma TweetUrlRewritten(p: string)
    requires !Contains(p, "http://") && 'v' !in p
    ensures Rewritten("https://twitter.com" + p) == "https://x.com" + p
  {
    TweetUrlForcedHttps(p);
    NoVxInTweetUrl(p);
    TweetHostReplaced(p);
  }

  lemma ConcatAssoc(a: string, b: string, c: string)
    ensures a + b + c == a + (b + c)
  {
  }

  lemma XComHostContained(p: string)
    ensures Contains("https://x.com" + p, "x.com")
  {
    var u := "https://x.com" + p;
    assert OccursAt(u, "x.com", 8) by { assert u[8..13] == "x.com"; }
    ContainsAt(u, "x.com", 8);
  }

  lemma HttpsIsScheme()
    ensures IsScheme("https")
  {
  }

  lemma XComIsHost()
    ensures forall i :: 0 <= i < |"x.com"| ==> "x.com"[i] !in {'/', '?', '#'}
  {
  }

  lemma XComUrlCut(path: string, tail: string)
    requires path == [] || path[0] == '/'
    requires forall i :: 0 <= i < |path| ==> path[i] !in {'?', '#'}
    requires tail == [] || tail[0] in {'?', '#'}
    ensures OriginAndPath("https://x.com" + (path + tail))
      == Some("https://x.com" + (if path == [] then "/" else path))
  {
    HttpsIsScheme();
    XComIsHost();
    OriginAndPathCut("https", "x.com", path, tail);
    XComSpelledOut(path, tail);
    XComSpelledOut(if path == [] then "/" else path, []);
  }

  lemma XComSpelledOut(path: string, tail: string)
    ensures "https" + "://" + "x.com" + path + tail == "https://x.com" + (path + tail)
    ensures "https" + "://" + "x.com" + path == "https://x.com" + path
  {
    assert "https" + "://" + "x.com" == "https://x.com";
  }

  /** A tweet link keeps scheme, host and path, with the host rewritten to
      x.com, and loses its query and fragment. */
  lemma TweetIsCutToOriginAndPath(path: string, tail: string)
    requires path == [] || path[0] == '/'
    requires forall i :: 0 <= i < |path| ==> path[i] !in {'?', '#'}
    requires tail == [] || tail[0] in {'?', '#'}
    requires !Contains(path + tail, "http://") && 'v' !in path + tail
    ensures NormalForm("https://twitter.com" + path + tail)
      == Some("https://x.com" + (if path == [] then "/" else path))
  {
    ConcatAssoc("https://twitter.com", path, tail);
    TweetUrlRewritten(path + tail);
    XComHostContained(path + tail);
    XComUrlCut(path, tail);
  }

  lemma SharedTweetSpelledOut()
    ensures "https://twitter.com" + "/u/status/1" + "?s=20" == "https://twitter.com/u/status/1?s=20"
    ensures "https://x.com" + "/u/status/1" == "https://x.com/u/status/1"
  {
  }

  lemma SharedTweetPathChars()
    ensures forall i :: 0 <= i < |"/u/status/1"| ==> "/u/status/1"[i] !in {'?', '#'}
    ensures 'h' !in "/u/status/1" + "?s=20" && 'v' !in "/u/status/1" + "?s=20"
  {
  }

  /** The link of a tweet shared with a tracking query. */
  lemma SharedTweetIsCut()
    ensures NormalForm("https://twitter.com/u/status/1?s=20") == Some("https://x.com/u/status/1")
  {
    SharedTweetSpelledOut();
    SharedTweetPathChars();
    NotContainsChar("/u/status/1" + "?s=20", "http://", 'h');
    TweetIsCutToOriginAndPath("/u/status/1", "?s=20");
  }
}

/** The pure helpers of bots/delphi-clerk.ts: truncation, option labels,
    default tags, the duplicate test, status classification, option menus
    and their callback data, and the cleaned preview of an item. */
module ClerkHelpers {
  import opened Options
  import opened Strings
  import opened MarkdownText
  import opened ClerkTypes

  // ---------------------------------------------------------------------
  // truncateString

  /** `str.length > maxLength ? str.substring(0, maxLength - 3) + "..." : str`.
      `substring` clamps a negative end to 0, so below 3 the result is "...". */
  function TruncateString(s: string, maxLength: nat): (r: string)
    ensures |s| <= maxLength ==> r == s
    ensures |s| > maxLength && maxLength >= 3 ==>
      |r| == maxLength && r[..maxLength - 3] == s[..maxLength - 3] && r[maxLength - 3..] == "..."
    ensures |s| > maxLength && maxLength < 3 ==> r == "..."
    ensures maxLength >= 3 ==> |r| <= maxLength
  {
    if |s| > maxLength then
      s[..if maxLength >= 3 then maxLength - 3 else 0] + "..."
    else
      s
  }

  /** Truncating twice to the same length is truncating once. */
  lemma TruncateStringIdempotent(s: string, maxLength: nat)
    ensures TruncateString(TruncateString(s, maxLength), maxLength) == TruncateString(s, maxLength)
  {
    var r := TruncateString(s, maxLength);
    if |s| > maxLength && maxLength < 3 {
      assert r == "...";
      assert r[..0] + "..." == r;
    }
  }

  // ---------------------------------------------------------------------
  // getOptionLabel

  /** `options.find(({ slug }) => slug === option)?.title`. */
  function GetOptionLabel(options: seq<OptionEntry>, slug: string): (r: Option<string>)
    ensures r.None? <==> forall i :: 0 <= i < |options| ==> options[i].slug != slug
    ensures r.Some? ==> exists i :: (0 <= i < |options| && options[i] == OptionEntry(slug, r.value)
      && forall j :: 0 <= j < i ==> options[j].slug != slug)
    decreases |options|
  {
    if options == [] then None
    else if options[0].slug == slug then
      assert options[0] == OptionEntry(slug, options[0].title);
      Some(options[0].title)
    else
      var r := GetOptionLabel(options[1..], slug);
      if r.Some? then
        var i :| 0 <= i < |options[1..]| && options[1..][i] == OptionEntry(slug, r.value)
          && forall j :: 0 <= j < i ==> options[1..][j].slug != slug;
        assert options[i + 1] == OptionEntry(slug, r.value);
        assert forall j :: 0 <= j < i + 1 ==> options[j].slug != slug by {
          forall j | 0 < j < i + 1 ensures options[j].slug != slug {
            assert options[j] == options[1..][j - 1];
          }
        }
        r
      else
        assert forall i :: 0 < i < |options| ==> options[i] == options[1..][i - 1];
        r
  }

  /** No two entries of a table share a slug. */
  ghost predicate DistinctSlugs(options: seq<OptionEntry>) {
    forall i, j :: 0 <= i < j < |options| ==> options[i].slug != options[j].slug
  }

  /** With distinct slugs, every entry's slug gets back its own title. */
  lemma LabelOfEntry(options: seq<OptionEntry>, i: nat)
    requires DistinctSlugs(options) && i < |options|
    ensures GetOptionLabel(options, options[i].slug) == Some(options[i].title)
  {
    var r := GetOptionLabel(options, options[i].slug);
    var k :| 0 <= k < |options| && options[k] == OptionEntry(options[i].slug, r.value)
      && forall j :: 0 <= j < k ==> options[j].slug != options[i].slug;
    assert k == i;
  }

  lemma TablesHaveDistinctSlugs()
    ensures DistinctSlugs(Sectors) && DistinctSlugs(Types)
  {
  }

  /** The label shown for the first selected slug, or the empty string. */
  function PreviewLabel(options: seq<OptionEntry>, slugs: seq<string>): string {
    if slugs == [] then "" else GetOptionLabel(options, slugs[0]).GetOr("")
  }

  // ---------------------------------------------------------------------
  // defaultTagsForUrl

  /** The index of the first table row whose domain occurs in `url`. */
  function FirstDomain(table: seq<(string, seq<string>)>, url: string): (r: Option<nat>)
    ensures r.Some? ==> (r.value < |table| && Contains(url, table[r.value].0)
      && forall j :: 0 <= j < r.value ==> !Contains(url, table[j].0))
    ensures r.None? ==> forall j :: 0 <= j < |table| ==> !Contains(url, table[j].0)
    decreases |table|
  {
    if table == [] then None
    else if Contains(url, table[0].0) then Some(0)
    else
      var r := FirstDomain(table[1..], url);
      assert forall j :: 0 < j < |table| ==> table[j] == table[1..][j - 1];
      if r.Some? then Some(r.value + 1) else None
  }

  /** `defaultTagsForUrl`: the tags of the first domain of the table that
      occurs anywhere in the url (a substring test), or none. */
  function DefaultTagsForUrl(url: string): (r: seq<string>)
    ensures |r| <= 1
  {
    match FirstDomain(DomainTags, url)
    case None => []
    case Some(j) => DomainTags[j].1
  }

  /** The tags are empty exactly when no domain of the table occurs in the
      url, and are otherwise those of the first domain that does. */
  lemma DefaultTagsForUrlFirstMatch(url: string)
    ensures var r := DefaultTagsForUrl(url);
      && (r == [] <==> forall j :: 0 <= j < |DomainTags| ==> !Contains(url, DomainTags[j].0))
      && (r != [] ==> exists j :: (0 <= j < |DomainTags| && r == DomainTags[j].1
            && Contains(url, DomainTags[j].0)
            && forall k :: 0 <= k < j ==> !Contains(url, DomainTags[k].0)))
  {
  }

  /** The substring test tags any url containing "netflix.com" as a tweet,
      unless an earlier domain of the table also occurs in it. */
  lemma NetflixIsTaggedAsTweet(url: string)
    requires Contains(url, "netflix.com")
    requires !Contains(url, "bloomberg.com") && !Contains(url, "medium.com") && !Contains(url, "spotify.com")
    ensures DefaultTagsForUrl(url) == ["tweets"]
  {
    var i := IndexOf(url, "netflix.com").value;
    assert url[i + 6..i + 11] == "netflix.com"[6..11];
    ContainsAt(url, "x.com", i + 6);
  }

  // ---------------------------------------------------------------------
  // ensureNonDuplicateLink

  /** `recent.filter(read => read.link === link)`. */
  function MatchingLinks(recent: seq<string>, link: string): (r: seq<string>)
    ensures |r| <= |recent|
    ensures forall i :: 0 <= i < |r| ==> r[i] == link
    ensures r == [] <==> link !in recent
  {
    if recent == [] then []
    else
      var rest := MatchingLinks(recent[1..], link);
      assert recent == [recent[0]] + recent[1..];
      if recent[0] == link then [recent[0]] + rest else rest
  }

  /** `matches.length` is non-zero: the link is a recent duplicate. */
  predicate IsDuplicateLink(link: string, recent: seq<string>) {
    |MatchingLinks(recent, link)| > 0
  }

  // ---------------------------------------------------------------------
  // postRead / postAfPost

  datatype PublishOutcome = Published | Unauthorized | DuplicateRead | UnknownError

  /** How `postRead` reads the status of the create-read request. */
  function ClassifyReadStatus(status: int): (r: PublishOutcome)
    ensures r == Published <==> status <= 201
    ensures r == Unauthorized <==> status == 403
    ensures r == DuplicateRead <==> status == 409
    ensures r == UnknownError <==> status > 201 && status != 403 && status != 409
  {
    if status == 403 then Unauthorized
    else if status == 409 then DuplicateRead
    else if status > 201 then UnknownError
    else Published
  }

  /** How `postAfPost` reads the status: it has no duplicate case. */
  function ClassifyAfStatus(status: int): (r: PublishOutcome)
    ensures r != DuplicateRead
    ensures r == Published <==> status <= 201
    ensures r == Unauthorized <==> status == 403
  {
    if status == 403 then Unauthorized
    else if status > 201 then UnknownError
    else Published
  }

  /** The two classifications differ exactly at 409. */
  lemma ClassificationsAgreeBut409(status: int)
    ensures status != 409 <==> ClassifyAfStatus(status) == ClassifyReadStatus(status)
    ensures ClassifyAfStatus(409) == UnknownError
  {
  }

  // ---------------------------------------------------------------------
  // displayOptionMenu

  datatype Button = Button(text: string, data: string)

  /** `Markup.button.callback(title, `${command}_${slug}`)` */
  function OptionButton(command: string, o: OptionEntry): Button {
    Button(o.title, command + "_" + o.slug)
  }

  /** The buttons of a run of options, one per option: each is titled by
      its option, and the action handler reads back the option's slug from
      it whenever the slug is on one line. */
  function Buttons(options: seq<OptionEntry>, command: string): (bs: seq<Button>)
    ensures |bs| == |options|
    ensures forall i :: 0 <= i < |options| ==> bs[i] == OptionButton(command, options[i])
    ensures forall i :: 0 <= i < |options| ==> bs[i].text == options[i].title
    ensures forall i :: 0 <= i < |options| && OnOneLine(options[i].slug) ==>
      ParseOptionAction(command, bs[i].data) == Some(options[i].slug)
  {
    ParseOptionButtons(command, options);
    seq(|options|, i requires 0 <= i < |options| => OptionButton(command, options[i]))
  }

  /** The menu layout: options in order, two buttons to a row. */
  function ButtonRows(options: seq<OptionEntry>, command: string): (rows: seq<seq<Button>>)
    ensures |rows| == (|options| + 1) / 2
    ensures forall r :: 0 <= r < |rows| ==> 1 <= |rows[r]| <= 2
    decreases |options|
  {
    if |options| <= 2 then
      if options == [] then [] else [Buttons(options, command)]
    else
      [Buttons(options[..2], command)] + ButtonRows(options[2..], command)
  }

  function Flatten<T>(rows: seq<seq<T>>): seq<T> {
    if rows == [] then [] else rows[0] + Flatten(rows[1..])
  }

  /** Every row holds one or two buttons, only the last can hold one, and
      there are half as many rows as options, rounded up. */
  lemma {:induction false} ButtonRowsShape(options: seq<OptionEntry>, command: string)
    ensures var rows := ButtonRows(options, command);
      && |rows| == (|options| + 1) / 2
      && (forall r :: 0 <= r < |rows| ==> 1 <= |rows[r]| <= 2)
      && (forall r :: 0 <= r < |rows| - 1 ==> |rows[r]| == 2)
    decreases |options|
  {
    if |options| > 2 {
      ButtonRowsShape(options[2..], command);
      var rows := ButtonRows(options, command);
      var rest := ButtonRows(options[2..], command);
      assert rows == [Buttons(options[..2], command)] + rest;
      assert forall r :: 0 < r < |rows| ==> rows[r] == rest[r - 1];
    }
  }

  /** Read row by row, the menu lists every option once, in table order. */
  lemma {:induction false} ButtonRowsFlatten(options: seq<OptionEntry>, command: string)
    ensures Flatten(ButtonRows(options, command)) == Buttons(options, command)
    decreases |options|
  {
    if |options| > 2 {
      ButtonRowsFlatten(options[2..], command);
      var rows := ButtonRows(options, command);
      assert rows[1..] == ButtonRows(options[2..], command);
      assert Buttons(options, command) == Buttons(options[..2], command) + Buttons(options[2..], command);
    } else if options != [] {
      var rows := ButtonRows(options, command);
      assert rows[1..] == [];
      assert Flatten(rows) == rows[0] + [];
    }
  }

  lemma {:induction false} ButtonRowsAppend(xs: seq<OptionEntry>, ys: seq<OptionEntry>, command: string)
    requires |xs| % 2 == 0
    ensures ButtonRows(xs + ys, command) == ButtonRows(xs, command) + ButtonRows(ys, command)
    decreases |xs|
  {
    if xs == [] {
      assert xs + ys == ys;
    } else {
      ButtonRowsAppend(xs[2..], ys, command);
      assert (xs + ys)[..2] == xs[..2];
      assert (xs + ys)[2..] == xs[2..] + ys;
      if |xs| == 2 {
        assert xs[..2] == xs && xs[2..] == [];
        assert ButtonRows(xs, command) == [Buttons(xs[..2], command)];
        if ys == [] {
          assert xs + ys == xs;
        }
      }
    }
  }

  /** The `for` loop of `displayOptionMenu`, stepping two options at a time. */
  method OptionRows(options: seq<OptionEntry>, command: string) returns (rows: seq<seq<Button>>)
    ensures rows == ButtonRows(options, command)
  {
    rows := [];
    var i := 0;
    while i < |options|
      invariant i % 2 == 0
      invariant i <= |options| + 1
      invariant rows == ButtonRows(options[..if i <= |options| then i else |options|], command)
      decreases |options| - i
    {
      var end := if i + 2 <= |options| then i + 2 else |options|;
      var chunk := options[i..end];
      var optionRowButtons := seq(|chunk|, k requires 0 <= k < |chunk| => OptionButton(command, chunk[k]));
      ButtonRowsAppend(options[..i], chunk, command);
      assert options[..i] + chunk == options[..end];
      assert ButtonRows(chunk, command) == [optionRowButtons];
      rows := rows + [optionRowButtons];
      i := i + 2;
    }
    assert options[..|options|] == options;
  }

  // ---------------------------------------------------------------------
  // The /setsector_(.+)/ and /settype_(.+)/ actions

  /** The length of the longest prefix of `s` free of line terminators
      (the greedy `.+` of a regular expression). */
  function LineRun(s: string): (n: nat)
    ensures n <= |s|
    ensures forall i :: 0 <= i < n ==> !IsLineTerminator(s[i])
    ensures n < |s| ==> IsLineTerminator(s[n])
  {
    if s == [] || IsLineTerminator(s[0]) then 0 else 1 + LineRun(s[1..])
  }

  /** A non-empty string free of line terminators. */
  predicate OnOneLine(s: string) {
    s != [] && forall i :: 0 <= i < |s| ==> !IsLineTerminator(s[i])
  }

  /** `pat(.+)` matches `data` at position `j`: `pat` occurs there and is
      followed by at least one character other than a line terminator. */
  predicate MatchesAt(data: string, pat: string, j: nat) {
    OccursAt(data, pat, j) && j + |pat| < |data| && !IsLineTerminator(data[j + |pat|])
  }

  /** The first position from `i` on where `pat(.+)` matches `data`. */
  function MatchFrom(data: string, pat: string, i: nat): (r: Option<nat>)
    ensures r.Some? ==> i <= r.value && MatchesAt(data, pat, r.value)
    ensures r.Some? ==> forall j: nat :: i <= j < r.value ==> !MatchesAt(data, pat, j)
    ensures r.None? ==> forall j: nat :: i <= j ==> !MatchesAt(data, pat, j)
    decreases |data| - i
  {
    if i + |pat| >= |data| then None
    else if OccursAt(data, pat, i) && !IsLineTerminator(data[i + |pat|]) then Some(i)
    else MatchFrom(data, pat, i + 1)
  }

  /** `ctx.match[1]` for the unanchored `${command}_(.+)`: the longest run
      of characters other than line terminators after the first match. */
  function ParseOptionAction(command: string, data: string): (r: Option<string>)
    ensures r.None? <==> forall j: nat :: !MatchesAt(data, command + "_", j)
    ensures r.Some? ==> OnOneLine(r.value)
    ensures r.Some? ==> exists j: nat ::
      && MatchesAt(data, command + "_", j)
      && (forall k: nat :: k < j ==> !MatchesAt(data, command + "_", k))
      && IsMaximalRunAt(data, j + |command| + 1, r.value)
  {
    var pat := command + "_";
    match MatchFrom(data, pat, 0)
    case None => None
    case Some(j) =>
      var rest := data[j + |pat|..];
      var v := rest[..LineRun(rest)];
      assert IsMaximalRunAt(data, j + |command| + 1, v) by {
        assert |pat| == |command| + 1;
        assert data[j + |pat|..j + |pat| + |v|] == v;
      }
      Some(v)
  }

  /** `v` sits in `data` at position `p` and runs up to the next line
      terminator or the end of `data`. */
  predicate IsMaximalRunAt(data: string, p: nat, v: string) {
    && p + |v| <= |data|
    && data[p..p + |v|] == v
    && (p + |v| == |data| || IsLineTerminator(data[p + |v|]))
  }

  /** A slug that is non-empty and on one line comes back out of the
      callback data of its button. */
  lemma ParseOptionButton(command: string, o: OptionEntry)
    requires OnOneLine(o.slug)
    ensures ParseOptionAction(command, OptionButton(command, o).data) == Some(o.slug)
  {
    var data := OptionButton(command, o).data;
    var pat := command + "_";
    assert data == pat + o.slug;
    assert data[..|pat|] == pat;
    assert data[|pat|] == o.slug[0];
    assert MatchFrom(data, pat, 0) == Some(0);
    var rest := data[|pat|..];
    assert rest == o.slug;
    assert forall i :: 0 <= i < |rest| ==> !IsLineTerminator(rest[i]);
    assert LineRun(rest) == |rest|;
    assert rest[..|rest|] == o.slug;
  }

  lemma ParseOptionButtons(command: string, options: seq<OptionEntry>)
    ensures forall i :: 0 <= i < |options| && OnOneLine(options[i].slug) ==>
      ParseOptionAction(command, OptionButton(command, options[i]).data) == Some(options[i].slug)
  {
    forall i | 0 <= i < |options| && OnOneLine(options[i].slug) {
      ParseOptionButton(command, options[i]);
    }
  }

  // ---------------------------------------------------------------------
  // getCleanItem and previewText

  /** The three conditions `cleanTextForMarkdown` establishes. */
  ghost predicate MarkdownSafe(s: string) {
    '\n' !in s && '@' !in s && NoDoubleWhitespace(s) && Escaped(s)
  }

  /** `getCleanItem`: title, description and image url are escaped for
      MarkdownV2, the link, sectors and tags are kept as they are. */
  function CleanItem(item: ReadsItem): (r: ReadsItem)
    ensures r.link == item.link && r.taxonomy == item.taxonomy && r.tags == item.tags
  {
    item.(title := CleanTextForMarkdown(item.title),
          description := CleanTextForMarkdown(item.description),
          image_url := CleanTextForMarkdown(item.image_url))
  }

  /** The three text fields of a cleaned item are safe to send as MarkdownV2. */
  lemma CleanItemIsSafe(item: ReadsItem)
    ensures var r := CleanItem(item);
      MarkdownSafe(r.title) && MarkdownSafe(r.description) && MarkdownSafe(r.image_url)
  {
    CleanTextIsSafe(item.title);
    CleanTextIsSafe(item.description);
    CleanTextIsSafe(item.image_url);
  }

  /** What `previewText` shows: the cleaned title and description and the
      labels of the first sector and the first type. */
  datatype Preview = Preview(title: string, description: string, sector: string, kind: string)

  function PreviewOf(item: ReadsItem): (p: Preview)
    ensures item.taxonomy == [] ==> p.sector == ""
    ensures item.tags == [] ==> p.kind == ""
  {
    var clean := CleanItem(item);
    Preview(clean.title, clean.description, PreviewLabel(Sectors, item.taxonomy), PreviewLabel(Types, item.tags))
  }

  /** The title and description the preview shows are safe to send as
      MarkdownV2. */
  lemma PreviewIsSafe(item: ReadsItem)
    ensures MarkdownSafe(PreviewOf(item).title) && MarkdownSafe(PreviewOf(item).description)
  {
    CleanItemIsSafe(item);
  }

  /** For a single-spaced title and description with no `@`, the preview
      shows them escaped and nothing else: removing the escapes gives back
      what the item holds. */
  lemma PreviewShowsItemText(item: ReadsItem)
    requires SpacesOnly(item.title) && NoDoubleSpace(item.title) && '@' !in item.title
    requires SpacesOnly(item.description) && NoDoubleSpace(item.description) && '@' !in item.description
    ensures Unescape(PreviewOf(item).title) == item.title
    ensures Unescape(PreviewOf(item).description) == item.description
  {
    CleanSingleSpacedIsEscape(item.title);
    EscapeRoundTrip(item.title);
    CleanSingleSpacedIsEscape(item.description);
    EscapeRoundTrip(item.description);
  }

  /** A sector chosen from the menu is shown by its title. */
  lemma PreviewShowsChosenSector(item: ReadsItem, i: nat)
    requires i < |Sectors| && item.taxonomy == [Sectors[i].slug]
    ensures PreviewOf(item).sector == Sectors[i].title
  {
    TablesHaveDistinctSlugs();
    LabelOfEntry(Sectors, i);
  }

  /** A type chosen from the menu is shown by its title. */
  lemma PreviewShowsChosenType(item: ReadsItem, i: nat)
    requires i < |Types| && item.tags == [Types[i].slug]
    ensures PreviewOf(item).kind == Types[i].title
  {
    TablesHaveDistinctSlugs();
    LabelOfEntry(Types, i);
  }
}

# Delphi clerk bot: a Dafny model of the session core

The Delphi clerk is a Telegram bot. It builds two kinds of submissions for
the Delphi API:

- a *read*: a link with a title, a description, a sector and a type;
- an *AF post*: a titled post assembled from transcribed voice memos.

This project models the bot's per-chat session and the pure text helpers
behind it, and proves what those promise.

- `options.dfy` (`Options`): the `Option` datatype.
- `strings.dfy` (`Strings`): the string primitives the source relies on.
  - `StartsWith`, `IndexOf` and `Contains`.
  - `ReplaceFirst`: JavaScript `replace` with a string pattern, which changes only the first occurrence.
  - `TakeUntil`, and the white space class `\s`.
- `summarizer.dfy` (`Summarizer`): the text steps of `bots/components/ai-summarizer.ts`.
  - `TruncateToTokenCount`: `split(/\s+/)`, then `slice`, then `join(" ")`.
  - `RemoveLinks`: a left-to-right scanner for the global `[text](url)` replacement.
  - `ContentText`: the strip-and-cap tail of `fetchContentFromURL`.
- `url.dfy` (`UrlNormalizer`): `normalizeUrl`.
  - `NormalForm` is the specification function.
  - `NormalizeUrl` is a method that reassigns its working copy step by step, as the source does.
  - `OriginAndPath` is a simplified `origin + pathname` split.
- `markdown.dfy` (`MarkdownText`): `cleanTextForMarkdown`, four global replacements in order.
- `clerk_types.dfy` (`ClerkTypes`): the session's data.
  - `BotState`; the source's state `none` is called `Idle` here.
  - `ReadsItem`, `AfPostItem` and the metadata record.
  - The sector, type and domain tables, in source order.
- `clerk_helpers.dfy` (`ClerkHelpers`): the pure helpers of `bots/delphi-clerk.ts`.
  - `truncateString`, `getOptionLabel`, `defaultTagsForUrl`.
  - The duplicate-link filter and the publish status classification.
  - The option-menu layout and its callback data, `getCleanItem` and the preview.
- `session.dfy` (`ClerkSession`): the session as a class `Session`.
  - Its fields are `state`, `readsItem` and `afPostItem`, plus `replies`, the log of what the bot sends (an enum, without wording).
  - Every handler is a method that changes these fields in place.
  - What the network answers comes in as parameters:
    - link metadata for a URL;
    - the recent reads list;
    - a summary for a URL;
    - the publish response.
  - `Valid()` is the invariant every handler keeps:
    - at most one sector and one type;
    - a description of at most 500 characters;
    - the read-building states are only entered with a link;
    - only non-empty transcripts are saved.

Some behaviour is reproduced as the code has it:

- The "x.com" test is a substring test, so a `netflix.com` URL counts as a
  tweet. The model shows this for query cutting
  (`SubstringXComIsStripped`) and for default tags (`NetflixIsTaggedAsTweet`).
- Text matching `/^https?\:/` starts a new read in every state.
- `handleUpdateAfPostTitle` leaves the state at `await_voice_title`.
- `handleSetAfPostTitle` sits behind the AF-post guard.
- The summarizer is asked about the URL as typed, not the normalised one.
- A failed metadata fetch skips the duplicate test, and a
  failed duplicate test is reported like a failed fetch.
- The `/publish` command reaches `postRead`, which reads
  `ctx.callbackQuery.from` before sending anything. There is no callback
  query for a command, so the publish fails with the generic message.
  `Session.Post` models this with `fromButton = false`.

The URL normaliser is sometimes described as idempotent. The code is not, and
the model follows the code. A second pass can change a first result in two
ways:

- Each pass rewrites the first "twitter.com" still in the URL, so one left
  in the path by the first pass is rewritten by the next.
- Each pass forces only the first "http://" to https. A URL holding two
  keeps the second after the first pass, and the next pass rewrites it.
  `LeftoverHttpIsRewrittenAgain` shows this on a concrete URL:
  `http://http://a` normalises to `https://http://a`, which normalises
  to `https://https://a`.

What does hold is `NormalFormIdempotentWithoutTwitterHost`. When the first
result starts with "https://" and contains neither "http://" nor
"twitter.com", a second pass gives the same result.

## Model

| member | source | states |
|---|---|---|
| Strings.IndexOf | bots/delphi-clerk.ts:182 | the position found is an occurrence of the pattern, with no occurrence before it; no position at all when none occurs |
| Strings.Contains | bots/delphi-clerk.ts:189 | `includes` holds exactly when the pattern occurs at some position |
| Strings.ReplaceFirst | bots/delphi-clerk.ts:182-186 | text without the pattern is unchanged; otherwise the length changes by the difference between replacement and pattern |
| Strings.ReplaceFirstFound | bots/delphi-clerk.ts:182-186 | when the pattern occurs, the replacement sits where its first occurrence was, and the text before and after that occurrence is kept |
| Strings.TakeUntil | bots/delphi-clerk.ts:190-191 | the longest prefix holding no stop character: it is a prefix, holds no stop, and the character after it is a stop |
| Summarizer.Split | bots/components/ai-summarizer.ts:8 | splitting on white-space runs always yields at least one piece |
| Summarizer.SplitWellFormed | bots/components/ai-summarizer.ts:8 | the pieces hold no white space and only the first and last may be empty (a leading or trailing run gives an empty piece) |
| Summarizer.TruncateToTokenCount | bots/components/ai-summarizer.ts:7-9 | a count of zero and an empty input both give ""; the result is never longer than the input |
| Summarizer.TruncationTokens | bots/components/ai-summarizer.ts:7-9 | for a positive count, the result's tokens are exactly the first `num` tokens of the input, so there are at most `num` of them |
| Summarizer.Join | bots/components/ai-summarizer.ts:8 | the join starts with the first token, and with two or more tokens a space follows it; no tokens give "" |
| Summarizer.Take | bots/components/ai-summarizer.ts:8 | `slice(0, n)` is a prefix of the list whose length is `n`, or the list's length when the list is shorter |
| Summarizer.JoinSplitIsCollapse | bots/components/ai-summarizer.ts:8 | splitting on white space and rejoining with spaces equals replacing every white-space run by one space (the `replace(/\s+/g, ' ')` of `cleanTextForMarkdown`) |
| Summarizer.SplitJoin | bots/components/ai-summarizer.ts:8 | splitting the single-space join of well-formed tokens gives the tokens back |
| Summarizer.JoinSplit | bots/components/ai-summarizer.ts:8 | single-spaced text split and rejoined is itself |
| Summarizer.TakeJoinShorter | bots/components/ai-summarizer.ts:8 | joining any prefix of the tokens is no longer than the text |
| Summarizer.SplitWords | bots/components/ai-summarizer.ts:8 | a word, a space and text not starting with white space split into that word followed by the rest's tokens |
| Summarizer.TruncateKeepsShortText | test/summarization-test.ts:25-28 | single-spaced text with no more tokens than the count comes back unchanged |
| Summarizer.LinkAt | bots/components/ai-summarizer.ts:12 | a link match covers at least its text plus the five delimiter and url characters, and stays inside the input |
| Summarizer.LinkAtSound | bots/components/ai-summarizer.ts:12 | whatever the matcher accepts is `[t](u)` at the front of the text, with `t` non-empty and free of `]`, `u` non-empty and free of `)`, and `t` is the text it reports |
| Summarizer.LinkAtLink | bots/components/ai-summarizer.ts:12 | a `[t](u)` with non-empty `t` free of `]` and non-empty `u` free of `)` is matched whole, with text `t` |
| Summarizer.RemoveLinks | bots/components/ai-summarizer.ts:10-16 | removing links never lengthens the text |
| Summarizer.RemoveLinksAtLink | bots/components/ai-summarizer.ts:10-16 | a link at the front is replaced by its text and scanning goes on after it |
| Summarizer.RemoveLinksPlain | bots/components/ai-summarizer.ts:10-16 | text without `[` is copied unchanged, whatever follows it |
| Summarizer.RemoveLinksChangesIffLink | bots/components/ai-summarizer.ts:10-16 | text with no link is unchanged; text with a link gets strictly shorter |
| Summarizer.RemoveLinksAfterText | test/summarization-test.ts:42-54 | text, then a link, then more: the text is kept, the link becomes its text, and the rest is processed in turn (so several links are all removed) |
| Summarizer.RemoveLinksNoLinks | test/summarization-test.ts:56-64 | the plain test sentence and the empty string pass through unchanged |
| Summarizer.ContentText | bots/components/ai-summarizer.ts:33-35 | the text sent on is never longer than the Markdown, has at most 2500 tokens, and its tokens are the first 2500 of the link-stripped Markdown |
| UrlNormalizer.OriginAndPath | bots/delphi-clerk.ts:190-191 | origin plus path holds no `?` or `#` and is never empty; `OriginAndPathCut` states that scheme, host and path are kept |
| UrlNormalizer.OriginAndPathCut | bots/delphi-clerk.ts:190-191 | for `scheme://host` + path + a tail starting with `?` or `#`, the result is `scheme://host` followed by the path, or by `/` when the path is empty |
| UrlNormalizer.NormalForm | bots/delphi-clerk.ts:174-195 | a URL that contains "x.com" after rewriting loses its query and fragment; every other URL is exactly the rewritten one; `TweetIsCutToOriginAndPath` states what is kept |
| UrlNormalizer.TweetIsCutToOriginAndPath | bots/delphi-clerk.ts:174-195 | `https://twitter.com` + path + a `?`/`#` tail, with no "http://" and no `v` after the host, becomes `https://x.com` followed by the same path (or `/`) |
| UrlNormalizer.SharedTweetIsCut | bots/delphi-clerk.ts:174-195 | `https://twitter.com/u/status/1?s=20` becomes `https://x.com/u/status/1` |
| UrlNormalizer.NormalizeUrl | bots/delphi-clerk.ts:174-195 | the step-by-step reassignment computes `NormalForm` |
| UrlNormalizer.HttpsPrefixSurvives | bots/delphi-clerk.ts:182-186 | none of the three rewrites can touch a leading "https://" |
| UrlNormalizer.HttpsOrigin | bots/delphi-clerk.ts:190-191 | the origin-and-path of an https URL is still https |
| UrlNormalizer.NormalFormIsHttps | bots/delphi-clerk.ts:177-182 | a URL without a scheme, an http URL and an https URL all come out starting with "https://" |
| UrlNormalizer.TwitterRewrite | bots/delphi-clerk.ts:185-186 | a URL without "twitter.com" is not changed by the host rewrite; one with "twitter.com" or "vxtwitter.com" ends up containing "x.com" |
| UrlNormalizer.SubstringXComIsStripped | bots/delphi-clerk.ts:189-192 | any https URL containing "x.com" anywhere, with no "http://" and no Twitter host in it, is cut to origin and path |
| UrlNormalizer.PlainHttpsIsFixed | bots/delphi-clerk.ts:174-195 | an https URL with no "http://", Twitter host or "x.com" is left exactly as it is, query included |
| UrlNormalizer.OriginAndPathIdempotent | bots/delphi-clerk.ts:190-191 | cutting to origin and path a second time changes nothing |
| UrlNormalizer.NormalFormIdempotentWithoutTwitterHost | bots/delphi-clerk.ts:174-195 | when the first result is https with no "http://" or "twitter.com" left in it, normalising again gives the same result |
| UrlNormalizer.LeftoverHttpIsRewrittenAgain | bots/delphi-clerk.ts:177-182 | `http://http://a` normalises to `https://http://a`, which normalises to `https://https://a`: normalising is not idempotent |
| MarkdownText.EscapeSpecials | bots/delphi-clerk.ts:130 | every MarkdownV2 special character in the output is preceded by a backslash, the output does not start with one, and every output character is a backslash or comes from the input |
| MarkdownText.EscapeRoundTrip | bots/delphi-clerk.ts:130 | removing the backslash before each escaped special character gives the input back, so escaping drops and reorders nothing |
| MarkdownText.EscapeKeepsSingleSpacing | bots/delphi-clerk.ts:130 | escaping adds no two adjacent spaces, and the output starts with the input's first character or a backslash |
| MarkdownText.NewlinesToSpaces | bots/delphi-clerk.ts:131 | no newline is left; the length is kept, each newline becomes a space and every other character stays |
| MarkdownText.CollapseWhitespace | bots/delphi-clerk.ts:132 | collapsing never lengthens the text, and empties only empty text |
| MarkdownText.LeadingWs | bots/delphi-clerk.ts:132 | the length of the white-space run at the front: all before it is white space, the character at it is not |
| MarkdownText.ReplaceAtSigns | bots/delphi-clerk.ts:133 | no `@` is left; the length is kept, each `@` becomes the full-width `＠` and every other character stays |
| MarkdownText.CleanTextForMarkdown | bots/delphi-clerk.ts:128-133 | the cleaned text holds no newline and no `@` |
| MarkdownText.CollapseKeepsEscapes | bots/delphi-clerk.ts:132 | collapsing white-space runs keeps every special character preceded by its backslash |
| MarkdownText.CollapseNoDoubleWhitespace | bots/delphi-clerk.ts:132 | after collapsing, no two adjacent characters are white space |
| MarkdownText.CollapseChars | bots/delphi-clerk.ts:132 | collapsing introduces no character other than the space |
| MarkdownText.CleanTextIsSafe | bots/delphi-clerk.ts:128-133 | the cleaned text has no newline, no `@`, no two adjacent white-space characters, and every special character escaped |
| MarkdownText.CleanPlainTextUnchanged | bots/delphi-clerk.ts:128-133 | single-spaced text with nothing to escape and no `@` is left as it is |
| MarkdownText.CleanSingleSpacedIsEscape | bots/delphi-clerk.ts:128-133 | for single-spaced text with no `@`, cleaning is exactly escaping, so the content is kept in order |
| ClerkHelpers.TruncateString | bots/delphi-clerk.ts:620-622 | short enough: unchanged; too long with a limit of at least 3: exactly the limit long, the original's first limit-3 characters then "..."; a limit under 3: "..." |
| ClerkHelpers.TruncateStringIdempotent | bots/delphi-clerk.ts:620-622 | truncating twice to the same limit is truncating once |
| ClerkHelpers.GetOptionLabel | bots/delphi-clerk.ts:166-172 | no label exactly when no entry has the slug; otherwise the title of the first entry that has it |
| ClerkHelpers.LabelOfEntry | bots/delphi-clerk.ts:166-172 | with distinct slugs, each entry's slug yields that entry's title |
| ClerkHelpers.TablesHaveDistinctSlugs | bots/delphi-clerk.ts:24-40 | the type and sector tables have no repeated slug |
| ClerkHelpers.FirstDomain | bots/delphi-clerk.ts:257 | the index found is the first table row whose domain occurs in the URL; none when no domain occurs |
| ClerkHelpers.DefaultTagsForUrl | bots/delphi-clerk.ts:256-264 | a URL gets at most one default tag |
| ClerkHelpers.DefaultTagsForUrlFirstMatch | bots/delphi-clerk.ts:256-264 | no tags exactly when no domain of the table occurs in the URL, otherwise the tags of the first domain in table order that occurs |
| ClerkHelpers.NetflixIsTaggedAsTweet | bots/delphi-clerk.ts:42-48 | a URL containing "netflix.com" and none of the domains listed before "x.com" is tagged as a tweet |
| ClerkHelpers.MatchingLinks | bots/delphi-clerk.ts:216-219 | the matches are all equal to the link, no more than the recent list, and empty exactly when the link is not in it |
| ClerkHelpers.ClassifyReadStatus | bots/delphi-clerk.ts:472-486 | 403 is unauthorized, 409 a duplicate, any other status above 201 an unknown error, anything up to 201 success, each both ways |
| ClerkHelpers.ClassifyAfStatus | bots/delphi-clerk.ts:437-449 | never a duplicate; success exactly up to 201, unauthorized exactly at 403 |
| ClerkHelpers.ClassificationsAgreeBut409 | bots/delphi-clerk.ts:437-486 | the two classifications agree on every status but 409, which the AF post treats as an unknown error |
| ClerkHelpers.Buttons | bots/delphi-clerk.ts:343 | one button per option, titled by it; the action handler parses back the option's slug from each button whose slug is non-empty and on one line |
| ClerkHelpers.ButtonRows | bots/delphi-clerk.ts:341-346 | half as many rows as options, rounded up, each holding one or two buttons |
| ClerkHelpers.ButtonRowsShape | bots/delphi-clerk.ts:341-346 | rows hold one or two buttons, all but the last hold two, and there are half as many rows as options, rounded up |
| ClerkHelpers.ButtonRowsFlatten | bots/delphi-clerk.ts:341-346 | read row by row, the menu lists every option once in table order |
| ClerkHelpers.OptionRows | bots/delphi-clerk.ts:341-346 | the `for` loop builds exactly the two-per-row layout |
| ClerkHelpers.LineRun | bots/delphi-clerk.ts:732 | the greedy `.+` run: no line terminator before it ends, and a line terminator where it stops |
| ClerkHelpers.MatchFrom | bots/delphi-clerk.ts:732 | the first position from `i` on at which `command_` followed by a character other than a line terminator matches; none when there is no such position |
| ClerkHelpers.ParseOptionAction | bots/delphi-clerk.ts:732-740 | no capture exactly when the pattern matches nowhere; otherwise the capture is non-empty, on one line, and is the whole run after the first match, up to the next line terminator or the end |
| ClerkHelpers.ParseOptionButton | bots/delphi-clerk.ts:732-740 | the callback data of a menu button gives back that option's slug |
| ClerkHelpers.CleanItem | bots/delphi-clerk.ts:135-141 | cleaning keeps the link, sectors and tags |
| ClerkHelpers.CleanItemIsSafe | bots/delphi-clerk.ts:135-141 | the title, description and image url of a cleaned item are MarkdownV2-safe |
| ClerkHelpers.PreviewOf | bots/delphi-clerk.ts:151-164 | with no sector or no type chosen, the preview shows an empty label |
| ClerkHelpers.PreviewIsSafe | bots/delphi-clerk.ts:151-164 | the title and description in the preview are MarkdownV2-safe |
| ClerkHelpers.PreviewShowsItemText | bots/delphi-clerk.ts:151-164 | for a single-spaced title and description with no `@`, removing the escapes from the preview gives back the item's title and description |
| ClerkHelpers.PreviewShowsChosenSector | bots/delphi-clerk.ts:160 | a sector chosen from the table is shown by its title |
| ClerkHelpers.PreviewShowsChosenType | bots/delphi-clerk.ts:162 | a type chosen from the table is shown by its title |
| ClerkSession.Session.constructor | bots/delphi-clerk.ts:116-120 | a new session is idle with empty items and keeps the invariant |
| ClerkSession.Session.Reset | bots/delphi-clerk.ts:356-360 | the state is idle, both items are new, nothing is sent |
| ClerkSession.Session.NewRead | bots/delphi-clerk.ts:416-420 | a reset session waits for a URL and asks for one |
| ClerkSession.Session.NewAfPost | bots/delphi-clerk.ts:410-414 | a reset session waits for a memo and asks for one |
| ClerkSession.Session.EnsureLinkSet | bots/delphi-clerk.ts:247-254 | the callback runs exactly when a link is set; otherwise the bot asks for a link; nothing else changes |
| ClerkSession.Session.EnsureRequiredAfPostFieldsSet | bots/delphi-clerk.ts:234-245 | no title: wait for an AF title; a title but no transcript: wait for a transcript; both: proceed with the session unchanged |
| ClerkSession.Session.SetTitle | bots/delphi-clerk.ts:570-575 | with a link, wait for a title and ask; without one, ask for a link |
| ClerkSession.Session.SetDescription | bots/delphi-clerk.ts:518-523 | with a link, wait for a description and ask; without one, ask for a link |
| ClerkSession.Session.SetOption | bots/delphi-clerk.ts:525-529 | with a link, send the two-per-row option menu; without one, ask for a link; the session is unchanged |
| ClerkSession.Session.SetTaxonomy | bots/delphi-clerk.ts:566 | the sector menu behind the link guard |
| ClerkSession.Session.SetTag | bots/delphi-clerk.ts:568 | the type menu behind the link guard |
| ClerkSession.Session.ReplyWithPreview | bots/delphi-clerk.ts:272-275 | the preview of the current read, then the read menu |
| ClerkSession.Session.NextCreateReadState | bots/delphi-clerk.ts:362-378 | outside `build` nothing happens; in `build` it asks for the title, then the sector, then the type, else shows the preview; only the title case changes the state, to `await_title` |
| ClerkSession.Session.NextCreateReadBuildState | bots/delphi-clerk.ts:351-354 | with a link, enters `build` and takes the next build step |
| ClerkSession.Session.UpdateTitle | bots/delphi-clerk.ts:605-608 | the title is stored and the next build step follows |
| ClerkSession.Session.UpdateDescription | bots/delphi-clerk.ts:594-603 | over 500 characters: the read is unchanged and the bot asks again; "none": the description becomes empty; otherwise it is stored; a stored description leads to the next build step |
| ClerkSession.Session.SetSector | bots/delphi-clerk.ts:732-735 | the sector becomes the chosen slug alone, then the next build step if in `build` |
| ClerkSession.Session.SetType | bots/delphi-clerk.ts:737-740 | the type becomes the chosen slug alone, then the next build step if in `build` |
| ClerkSession.Session.UpdateUrl | bots/delphi-clerk.ts:624-678 | after a reset and the fetching notice, a URL the constructor rejects leaves the session idle and empty; otherwise the normalised link is stored and the intake ends in a failed fetch, a duplicate or the stored fields |
| ClerkSession.Session.IntakeLink | bots/delphi-clerk.ts:634-649 | a failed metadata fetch or recent-reads fetch starts a new read; a duplicate link resets to idle with the main menu; otherwise the fetched fields are stored |
| ClerkSession.Session.StoreFetched | bots/delphi-clerk.ts:651-677 | for "x.com": no title and the metadata description; otherwise the metadata title and the summary, falling back to the description with a notice; descriptions cut to 500, default tags, image, then the next build step |
| ClerkSession.Session.Post | bots/delphi-clerk.ts:489-512 | no link: ask for one; `/publish`: fails unchanged; success or duplicate: reset with the main menu; unauthorized or unknown: the session unchanged |
| ClerkSession.Session.PostAfPost | bots/delphi-clerk.ts:390-408 | behind the AF-post guard; success resets, unauthorized and unknown leave the session; the main menu follows every outcome |
| ClerkSession.Session.SetAfPostTitle | bots/delphi-clerk.ts:577-582 | the guard's redirects, else wait for an AF title and ask for one |
| ClerkSession.Session.UpdateAfPostTitle | bots/delphi-clerk.ts:614-618 | the AF title is stored and the state is left where it was |
| ClerkSession.Session.SetCurrentTranscript | bots/delphi-clerk.ts:590-592 | only the current transcript changes |
| ClerkSession.Session.SaveCurrentTranscription | bots/delphi-clerk.ts:544-552 | a recorded transcript is appended as the last saved one and cleared; with nothing recorded nothing changes |
| ClerkSession.Session.AnotherVoice | bots/delphi-clerk.ts:554-557 | the current transcript is cleared |
| ClerkSession.Session.ViewCurrentTranscription | bots/delphi-clerk.ts:535-542 | shows the current transcript, or says there is none |
| ClerkSession.Session.ViewAfPost | bots/delphi-clerk.ts:559-564 | shows the AF title and the saved transcripts joined by blank lines, each as not set when empty |
| ClerkSession.Session.DisplayMainMenu | bots/delphi-clerk.ts:386-388 | only the main menu is sent |
| ClerkSession.Session.ShowHelp | bots/delphi-clerk.ts:514-516 | only the help text is sent |
| ClerkSession.Session.PromptForImage | bots/delphi-clerk.ts:531-533 | only the image notice is sent |
| ClerkSession.JoinParagraphs | bots/delphi-clerk.ts:563 | the join starts with the first transcript, followed by a blank line when there are more; no transcripts give "" |
| ClerkSession.JoinParagraphsAppend | bots/delphi-clerk.ts:546-563 | pushing a transcript onto a non-empty list adds a blank line and that transcript to the end of the joined view |
| ClerkSession.IsUrlText | bots/delphi-clerk.ts:746 | the text starts with "http:" or "https:", character by character |
| ClerkSession.Session.OnMessage | bots/delphi-clerk.ts:742-796 | for a message no command handler took: a voice memo sets the current transcript or reports failure; "state" dumps the session; URL text ends as `UpdateUrl` does, in any state; empty text and non-text are rejected; other text goes to the dispatch |
| ClerkSession.Session.DispatchText | bots/delphi-clerk.ts:769-792 | per state: the AF title is stored, the transcript or memo reminder is sent, a URL intake runs and ends as `UpdateUrl` does, the description or title is updated, or the main menu is shown |

## Left out

- Network and file I/O are left out. This covers the metadata and recent-reads fetches, the publish
  requests with their JSON bodies, the Telegram file download and OpenAI
  Whisper transcription (`bots/components/voice-to-post.ts`), and the article
  fetch and summary generation. Each result is a parameter: an `Option` or a
  `PostResponse`. For a voice memo, only the resulting transcript is kept.
- The JSON payload of a publish is left out. This covers dropping an empty description, `tg_username`, and the API keys.
  Only the status, and whether the answer carries field errors, are modelled.
  The field-error message text is not.
- Reply wording is left out: templates, `helpText`, keyboards beyond the option menus, Markdown of
  the state dump, and logging. Replies are an enum.
- Command and action registration is not modelled as a table.
  - `OnMessage` models the `hears('state')`, `hears(/^https?\:/)` and `on('message')` order.
  - The other handlers are the methods themselves.
  - `Post` takes `fromButton` to tell the `/publish` command from the button.
  - A text that is a registered command, such as `/help`, goes to its command handler (bots/delphi-clerk.ts:701-711) before any `hears` or `on('message')`. `OnMessage` models only messages no command took; it does not itself route command texts.
- Unawaited promises and async interleaving are left out. Every handler runs to completion as one method.
- `OriginAndPath`: this is not the WHATWG URL parser. It is a split into a scheme, an authority up to the first `/`, `?` or `#`, and a path up to the first `?` or `#`. It leaves out:
  - percent-encoding, ports, user info and case normalisation;
  - the `null` origin of non-special schemes;
  - backslash handling;
  - host validation: a host with a forbidden character, such as the space in `https://x.com is great`, makes `new URL` throw at bots/delphi-clerk.ts:190, whereas `OriginAndPath` accepts it.
- Strings are sequences of characters, not UTF-16 code units. The white-space class lists a fixed set of characters.
- `bots/ai.ts`, `server.ts`, `express.js`, `bots/reads.ts` and `test/ai.ts` are not part of this model. They are a bare OpenAI call and environment, Express and webhook wiring.
- The expectations at `test/summarization-test.ts:117-166` are not modelled. Nothing in bots/components/ai-summarizer.ts throws the error they expect, and nothing there cuts the summary to 500 characters.
- `DefaultTagsForUrl`: its own contract states only the bound of one tag. The first-match property is the lemma `DefaultTagsForUrlFirstMatch`.
- `TablesHaveDistinctSlugs`: a fact about the two constant tables, checked by the verifier without further proof.

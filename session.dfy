/** The per-chat session of the Delphi clerk bot and the handlers that
    drive it (bots/delphi-clerk.ts). Every handler runs to completion as
    one method; what the bot sends back is appended to `replies`, and what
    the network would answer is passed in. */
module ClerkSession {
  import opened Options
  import opened Strings
  import opened UrlNormalizer
  import opened ClerkTypes
  import opened ClerkHelpers

  /** What the bot sends to the chat, without its wording. */
  datatype Reply =
    | FetchingUrl
    | CouldNotFetchUrl
    | UrlAlreadyAdded
    | SummaryFallback
    | MainMenu
    | CreateReadsMenu
    | CreateAfPostMenu
    | ShowPreview(preview: Preview)
    | OptionMenu(option: string, rows: seq<seq<Button>>)
    | AskUrl
    | AskMemo
    | AskTitle
    | AskDescription
    | DescriptionTooLong
    | SendLinkFirst
    | SendAfTitleFirst
    | NeedsTranscript
    | AfTitleSet(newTitle: string)
    | AttemptingToPublish
    | FieldErrors
    | ItemPublished
    | UnauthorizedReply
    | AlreadyAddedRecently
    | PublishFailed
    | AfPostCreated
    | AfPublishFailed
    | Help
    | ImageSupportSoon
    | CurrentTranscription(current: string)
    | NoTranscriptYet
    | TranscriptSaved
    | RecordMemoFirst
    | RecordNewMemo
    | AfPostHeader
    | AfPostTitle(shownTitle: Option<string>)
    | AfPostBody(shownBody: Option<string>)
    | ProcessingVoice
    | VoiceTranscript(transcribed: string)
    | VoiceFailed
    | RecordVoiceToContinue
    | ExpectTextOrVoice
    | StateDump(dumpState: BotState, dumpRead: ReadsItem, dumpAfPost: AfPostItem)

  /** The answer to a publish request: a status and whether its JSON body
      carries an `errors` object, or a request that failed outright. */
  datatype PostResponse = Response(status: int, fieldErrors: bool) | RequestFailed

  /** An incoming chat message: text, a voice memo (with the transcription
      the speech service produced, if any), or anything else. */
  datatype Message = Text(text: string) | Voice(transcription: Option<string>) | NoText

  function ReadOutcome(response: PostResponse): PublishOutcome {
    match response
    case Response(status, _) => ClassifyReadStatus(status)
    case RequestFailed => UnknownError
  }

  function AfOutcome(response: PostResponse): PublishOutcome {
    match response
    case Response(status, _) => ClassifyAfStatus(status)
    case RequestFailed => UnknownError
  }

  /** The server's field errors are relayed only for a status classified as
      an unknown error whose body has them. */
  function FieldErrorReplies(response: PostResponse, outcome: PublishOutcome): seq<Reply> {
    if response.Response? && response.fieldErrors && outcome == UnknownError then [FieldErrors] else []
  }

  /** `transcripts.join('\n\n')` */
  function JoinParagraphs(ts: seq<string>): (r: string)
    ensures ts == [] ==> r == ""
    ensures |ts| >= 1 ==> StartsWith(r, ts[0])
    ensures |ts| >= 2 ==> |r| >= |ts[0]| + 2 && r[|ts[0]|] == '\n' && r[|ts[0]| + 1] == '\n'
  {
    if ts == [] then "" else if |ts| == 1 then ts[0] else ts[0] + "\n\n" + JoinParagraphs(ts[1..])
  }

  /** Adding a transcript at the end adds a blank line and that transcript
      at the end of the join. */
  lemma {:induction false} JoinParagraphsAppend(ts: seq<string>, t: string)
    requires ts != []
    ensures JoinParagraphs(ts + [t]) == JoinParagraphs(ts) + "\n\n" + t
    decreases |ts|
  {
    if |ts| == 1 {
      assert ts + [t] == [ts[0], t];
      assert [ts[0], t][1..] == [t];
    } else {
      assert (ts + [t])[1..] == ts[1..] + [t];
      JoinParagraphsAppend(ts[1..], t);
    }
  }

  /** Text that `/^https?\:/` matches. */
  function IsUrlText(t: string): (b: bool)
    ensures b <==> |t| >= 5 && t[..4] == "http" && (t[4] == ':' || (|t| >= 6 && t[4..6] == "s:"))
  {
    StartsWith(t, "http:") || StartsWith(t, "https:")
  }

  /** The state `nextCreateReadState` leaves a read in when it runs in
      `build` with the link set. */
  function BuildStepState(item: ReadsItem): BotState {
    if item.title == "" then AwaitTitle else Build
  }

  /** The replies `nextCreateReadState` sends when it runs in `build` with
      the link set: the first missing field is asked for, else the preview. */
  function BuildStepReplies(item: ReadsItem): seq<Reply> {
    if item.title == "" then [AskTitle]
    else if item.taxonomy == [] then [OptionMenu("sector", ButtonRows(Sectors, "setsector"))]
    else if item.tags == [] then [OptionMenu("type", ButtonRows(Types, "settype"))]
    else [ShowPreview(PreviewOf(item)), CreateReadsMenu]
  }

  class Session {
    var state: BotState
    var readsItem: ReadsItem
    var afPostItem: AfPostItem
    var replies: seq<Reply>

    /** At most one sector and one tag; a description within the limit;
        the read-building states are only entered with a link; only
        non-empty transcripts are saved. */
    ghost predicate Valid()
      reads this
    {
      && |readsItem.taxonomy| <= 1
      && |readsItem.tags| <= 1
      && |readsItem.description| <= MaxDescription
      && (state == Build || state == AwaitTitle || state == AwaitDescription ==> readsItem.link != "")
      && (forall i :: 0 <= i < |afPostItem.transcripts| ==> afPostItem.transcripts[i] != "")
    }

    /** `createDefaultSession` */
    constructor ()
      ensures Valid()
      ensures state == Idle && readsItem == NewReadsItem() && afPostItem == NewAfPostItem()
      ensures replies == []
    {
      state := Idle;
      readsItem := NewReadsItem();
      afPostItem := NewAfPostItem();
      replies := [];
    }

    // -------------------------------------------------------------------
    // Reset and entry into a flow

    /** `resetState` */
    method Reset()
      modifies this
      ensures Valid()
      ensures state == Idle && readsItem == NewReadsItem() && afPostItem == NewAfPostItem()
      ensures replies == old(replies)
    {
      state := Idle;
      readsItem := NewReadsItem();
      afPostItem := NewAfPostItem();
    }

    /** `handleNewRead` */
    method NewRead()
      modifies this
      ensures Valid()
      ensures state == AwaitUrl && readsItem == NewReadsItem() && afPostItem == NewAfPostItem()
      ensures replies == old(replies) + [AskUrl]
    {
      Reset();
      state := AwaitUrl;
      replies := replies + [AskUrl];
    }

    /** `handleNewAfPost` */
    method NewAfPost()
      modifies this
      ensures Valid()
      ensures state == AwaitMemo && readsItem == NewReadsItem() && afPostItem == NewAfPostItem()
      ensures replies == old(replies) + [AskMemo]
    {
      Reset();
      state := AwaitMemo;
      replies := replies + [AskMemo];
    }

    // -------------------------------------------------------------------
    // Guards

    /** `ensureLinkSet`: `proceed` tells whether the callback runs. */
    method EnsureLinkSet() returns (proceed: bool)
      modifies this
      ensures proceed <==> readsItem.link != ""
      ensures state == old(state) && readsItem == old(readsItem) && afPostItem == old(afPostItem)
      ensures replies == if proceed then old(replies) else old(replies) + [SendLinkFirst]
    {
      if readsItem.link == "" {
        replies := replies + [SendLinkFirst];
        return false;
      }
      return true;
    }

    /** `ensureRequiredAfPostFieldsSet`: without a title, ask for one;
        without a saved transcript, say so; otherwise let the callback run. */
    method EnsureRequiredAfPostFieldsSet() returns (proceed: bool)
      requires Valid()
      modifies this
      ensures Valid()
      ensures proceed <==> afPostItem.title != "" && afPostItem.transcripts != []
      ensures readsItem == old(readsItem) && afPostItem == old(afPostItem)
      ensures afPostItem.title == "" ==>
        state == AwaitVoiceTitle && replies == old(replies) + [SendAfTitleFirst]
      ensures afPostItem.title != "" && afPostItem.transcripts == [] ==>
        state == AwaitTranscript && replies == old(replies) + [NeedsTranscript]
      ensures proceed ==> state == old(state) && replies == old(replies)
    {
      if afPostItem.title == "" {
        state := AwaitVoiceTitle;
        replies := replies + [SendAfTitleFirst];
        return false;
      } else if afPostItem.transcripts == [] {
        state := AwaitTranscript;
        replies := replies + [NeedsTranscript];
        return false;
      }
      return true;
    }

    // -------------------------------------------------------------------
    // Prompts for the fields of a read

    /** `handleSetTitle` */
    method SetTitle()
      requires Valid()
      modifies this
      ensures Valid()
      ensures readsItem == old(readsItem) && afPostItem == old(afPostItem)
      ensures readsItem.link == "" ==> state == old(state) && replies == old(replies) + [SendLinkFirst]
      ensures readsItem.link != "" ==> state == AwaitTitle && replies == old(replies) + [AskTitle]
    {
      var proceed := EnsureLinkSet();
      if proceed {
        state := AwaitTitle;
        replies := replies + [AskTitle];
      }
    }

    /** `handleSetDescription` */
    method SetDescription()
      requires Valid()
      modifies this
      ensures Valid()
      ensures readsItem == old(readsItem) && afPostItem == old(afPostItem)
      ensures readsItem.link == "" ==> state == old(state) && replies == old(replies) + [SendLinkFirst]
      ensures readsItem.link != "" ==> state == AwaitDescription && replies == old(replies) + [AskDescription]
    {
      var proceed := EnsureLinkSet();
      if proceed {
        state := AwaitDescription;
        replies := replies + [AskDescription];
      }
    }

    /** `handleSetOption`: the menu of `options`, two to a row, each button
        carrying `command_slug`. */
    method SetOption(options: seq<OptionEntry>, command: string, option: string)
      modifies this
      ensures state == old(state) && readsItem == old(readsItem) && afPostItem == old(afPostItem)
      ensures readsItem.link == "" ==> replies == old(replies) + [SendLinkFirst]
      ensures readsItem.link != "" ==> replies == old(replies) + [OptionMenu(option, ButtonRows(options, command))]
    {
      var proceed := EnsureLinkSet();
      if proceed {
        var rows := OptionRows(options, command);
        replies := replies + [OptionMenu(option, rows)];
      }
    }

    /** `handleSetTaxonomy` */
    method SetTaxonomy()
      modifies this
      ensures state == old(state) && readsItem == old(readsItem) && afPostItem == old(afPostItem)
      ensures readsItem.link == "" ==> replies == old(replies) + [SendLinkFirst]
      ensures readsItem.link != "" ==>
        replies == old(replies) + [OptionMenu("sector", ButtonRows(Sectors, "setsector"))]
    {
      SetOption(Sectors, "setsector", "sector");
    }

    /** `handleSetTag` */
    method SetTag()
      modifies this
      ensures state == old(state) && readsItem == old(readsItem) && afPostItem == old(afPostItem)
      ensures readsItem.link == "" ==> replies == old(replies) + [SendLinkFirst]
      ensures readsItem.link != "" ==>
        replies == old(replies) + [OptionMenu("type", ButtonRows(Types, "settype"))]
    {
      SetOption(Types, "settype", "type");
    }

    /** `replyWithPreview` */
    method ReplyWithPreview()
      modifies this
      ensures state == old(state) && readsItem == old(readsItem) && afPostItem == old(afPostItem)
      ensures replies == old(replies) + [ShowPreview(PreviewOf(readsItem)), CreateReadsMenu]
    {
      replies := replies + [ShowPreview(PreviewOf(readsItem)), CreateReadsMenu];
    }

    // -------------------------------------------------------------------
    // Building a read

    /** `nextCreateReadState`: acts only in `build`, and there asks for the
        first missing field in the order title, sector, type, or else shows
        the preview. Only asking for the title changes the state. */
    method NextCreateReadState()
      requires Valid()
      modifies this
      ensures Valid()
      ensures readsItem == old(readsItem) && afPostItem == old(afPostItem)
      ensures old(state) != Build ==> state == old(state) && replies == old(replies)
      ensures old(state) == Build && readsItem.title == "" ==>
        state == AwaitTitle && replies == old(replies) + [AskTitle]
      ensures old(state) == Build && readsItem.title != "" && readsItem.taxonomy == [] ==>
        state == Build && replies == old(replies) + [OptionMenu("sector", ButtonRows(Sectors, "setsector"))]
      ensures (old(state) == Build && readsItem.title != "" && readsItem.taxonomy != []
               && readsItem.tags == []) ==>
        state == Build && replies == old(replies) + [OptionMenu("type", ButtonRows(Types, "settype"))]
      ensures (old(state) == Build && readsItem.title != "" && readsItem.taxonomy != []
               && readsItem.tags != []) ==>
        state == Build && replies == old(replies) + [ShowPreview(PreviewOf(readsItem)), CreateReadsMenu]
      ensures old(state) == Build ==>
        state == BuildStepState(readsItem) && replies == old(replies) + BuildStepReplies(readsItem)
    {
      if state == Build {
        if readsItem.title == "" {
          SetTitle();
          return;
        }
        if |readsItem.taxonomy| < 1 {
          SetTaxonomy();
          return;
        }
        if |readsItem.tags| < 1 {
          SetTag();
          return;
        }
        ReplyWithPreview();
      }
    }

    /** `nextCreateReadBuildState` */
    method NextCreateReadBuildState()
      requires Valid() && readsItem.link != ""
      modifies this
      ensures Valid()
      ensures readsItem == old(readsItem) && afPostItem == old(afPostItem)
      ensures state == BuildStepState(readsItem)
      ensures replies == old(replies) + BuildStepReplies(readsItem)
    {
      state := Build;
      NextCreateReadState();
    }

    /** `handleUpdateTitle`, reached from the `await_title` state. */
    method UpdateTitle(title: string)
      requires Valid() && state == AwaitTitle
      modifies this
      ensures Valid()
      ensures readsItem == old(readsItem).(title := title) && afPostItem == old(afPostItem)
      ensures state == BuildStepState(readsItem)
      ensures replies == old(replies) + BuildStepReplies(readsItem)
    {
      readsItem := readsItem.(title := title);
      NextCreateReadBuildState();
    }

    /** `handleUpdateDescription`, reached from the `await_description`
        state: a description over the limit is refused and asked for again;
        "none" stores the empty description. */
    method UpdateDescription(description: string)
      requires Valid() && state == AwaitDescription
      modifies this
      ensures Valid()
      ensures afPostItem == old(afPostItem)
      ensures |description| > MaxDescription ==>
        readsItem == old(readsItem) && state == AwaitDescription
        && replies == old(replies) + [DescriptionTooLong, AskDescription]
      ensures |description| <= MaxDescription ==>
        readsItem == old(readsItem).(description := if description == "none" then "" else description)
        && state == BuildStepState(readsItem)
        && replies == old(replies) + BuildStepReplies(readsItem)
    {
      if |description| > MaxDescription {
        replies := replies + [DescriptionTooLong];
        SetDescription();
        return;
      }
      readsItem := readsItem.(description := if description == "none" then "" else description);
      NextCreateReadBuildState();
    }

    /** The `setsector_(.+)` action: no link check, then the next build step. */
    method SetSector(slug: string)
      requires Valid()
      modifies this
      ensures Valid()
      ensures readsItem == old(readsItem).(taxonomy := [slug]) && afPostItem == old(afPostItem)
      ensures old(state) != Build ==> state == old(state) && replies == old(replies)
      ensures old(state) == Build ==>
        state == BuildStepState(readsItem) && replies == old(replies) + BuildStepReplies(readsItem)
    {
      readsItem := readsItem.(taxonomy := [slug]);
      NextCreateReadState();
    }

    /** The `settype_(.+)` action. */
    method SetType(slug: string)
      requires Valid()
      modifies this
      ensures Valid()
      ensures readsItem == old(readsItem).(tags := [slug]) && afPostItem == old(afPostItem)
      ensures old(state) != Build ==> state == old(state) && replies == old(replies)
      ensures old(state) == Build ==>
        state == BuildStepState(readsItem) && replies == old(replies) + BuildStepReplies(readsItem)
    {
      readsItem := readsItem.(tags := [slug]);
      NextCreateReadState();
    }

    // -------------------------------------------------------------------
    // URL intake

    /** How `handleUpdateUrl` ends once the normalised `link` is stored,
        given what the metadata service and the recent-reads list returned
        and `before`, the replies sent until then: a failed fetch starts a
        new read, a duplicate resets the session, and otherwise the fetched
        fields are stored. A failed metadata fetch skips the duplicate test. */
    ghost predicate IntakeEnded(url: string, link: string, metadata: Option<UrlMetadata>,
                                recentLinks: Option<seq<string>>, summaryFor: string -> Option<string>,
                                before: seq<Reply>)
      reads this
    {
      && afPostItem == NewAfPostItem()
      && (metadata.None? || recentLinks.None? ==>
            state == AwaitUrl && readsItem == NewReadsItem()
            && replies == before + [CouldNotFetchUrl, AskUrl])
      && (metadata.Some? && recentLinks.Some? && IsDuplicateLink(link, recentLinks.value) ==>
            state == Idle && readsItem == NewReadsItem()
            && replies == before + [UrlAlreadyAdded, MainMenu])
      && (metadata.Some? && recentLinks.Some? && !IsDuplicateLink(link, recentLinks.value) ==>
            StoredFetched(url, link, metadata.value, summaryFor, before))
    }

    /** The fields a new link gets: a link containing "x.com" keeps an empty
        title and takes the metadata description; any other takes the
        metadata title and the summary of the url as typed, falling back to
        the metadata description. Descriptions are cut to the limit, the
        tags come from the domain table, and the build step follows. */
    ghost predicate StoredFetched(url: string, link: string, md: UrlMetadata,
                                  summaryFor: string -> Option<string>, before: seq<Reply>)
      reads this
    {
      var twitter := Contains(link, "x.com");
      var fallback := !twitter && summaryFor(url).None?;
      && readsItem.link == link
      && readsItem.title == (if twitter then "" else md.title.GetOr(""))
      && readsItem.description == (if fallback || twitter
                                   then TruncateString(md.description.GetOr(""), MaxDescription)
                                   else TruncateString(summaryFor(url).value, MaxDescription))
      && readsItem.image_url == md.image.GetOr("")
      && readsItem.taxonomy == []
      && readsItem.tags == DefaultTagsForUrl(link)
      && state == (if readsItem.title == "" then AwaitTitle else Build)
      && replies == before + (if fallback then [SummaryFallback] else [])
         + (if readsItem.title == "" then [AskTitle]
            else [OptionMenu("sector", ButtonRows(Sectors, "setsector"))])
    }

    /** How `handleUpdateUrl` ends for `url`, after the replies `before`:
        a url the URL constructor rejects leaves a fresh session in the idle
        state, any other ends as `IntakeEnded` says for its normal form. */
    ghost predicate UrlHandled(url: string, metadataFor: string -> Option<UrlMetadata>,
                               recentLinks: Option<seq<string>>, summaryFor: string -> Option<string>,
                               before: seq<Reply>)
      reads this
    {
      match NormalForm(url)
      case None =>
        state == Idle && readsItem == NewReadsItem() && afPostItem == NewAfPostItem()
        && replies == before + [FetchingUrl]
      case Some(link) =>
        IntakeEnded(url, link, metadataFor(link), recentLinks, summaryFor, before + [FetchingUrl])
    }

    /** `handleUpdateUrl`: the session is reset, the url normalised and
        stored as the link, then checked and filled in. The metadata service
        is asked about the normalised link and the summarizer about the url
        as typed. `NormalForm(url) == None` is the URL constructor throwing,
        which ends the handler. */
    method UpdateUrl(url: string, metadataFor: string -> Option<UrlMetadata>,
                     recentLinks: Option<seq<string>>, summaryFor: string -> Option<string>)
      modifies this
      ensures Valid()
      ensures afPostItem == NewAfPostItem()
      ensures state == Idle || state == AwaitUrl || state == AwaitTitle || state == Build
      ensures |replies| > |old(replies)| && replies[|old(replies)|] == FetchingUrl
      ensures UrlHandled(url, metadataFor, recentLinks, summaryFor, old(replies))
    {
      Reset();
      replies := replies + [FetchingUrl];
      var cleanUrl := NormalizeUrl(url);
      if cleanUrl.None? {
        return;
      }
      readsItem := readsItem.(link := cleanUrl.value);
      IntakeLink(url, metadataFor(cleanUrl.value), recentLinks, summaryFor);
    }

    /** `handleUpdateUrl` from the metadata fetch on. */
    method IntakeLink(url: string, metadata: Option<UrlMetadata>,
                      recentLinks: Option<seq<string>>, summaryFor: string -> Option<string>)
      requires state == Idle && readsItem.link != ""
      requires readsItem == NewReadsItem().(link := readsItem.link) && afPostItem == NewAfPostItem()
      modifies this
      ensures Valid()
      ensures state == Idle || state == AwaitUrl || state == AwaitTitle || state == Build
      ensures |replies| >= |old(replies)| && replies[..|old(replies)|] == old(replies)
      ensures IntakeEnded(url, old(readsItem.link), metadata, recentLinks, summaryFor, old(replies))
    {
      var link := readsItem.link;
      if metadata.None? || recentLinks.None? {
        replies := replies + [CouldNotFetchUrl];
        NewRead();
        return;
      }
      if IsDuplicateLink(link, recentLinks.value) {
        replies := replies + [UrlAlreadyAdded];
        Reset();
        replies := replies + [MainMenu];
        return;
      }
      StoreFetched(url, metadata.value, summaryFor);
    }

    /** The tail of `handleUpdateUrl` once the link is known to be new. */
    method StoreFetched(url: string, md: UrlMetadata, summaryFor: string -> Option<string>)
      requires state == Idle && readsItem.link != ""
      requires readsItem == NewReadsItem().(link := readsItem.link) && afPostItem == NewAfPostItem()
      modifies this
      ensures Valid()
      ensures afPostItem == NewAfPostItem()
      ensures StoredFetched(url, old(readsItem.link), md, summaryFor, old(replies))
    {
      var link := readsItem.link;
      var title := "";
      var description;
      if !Contains(link, "x.com") {
        title := md.title.GetOr("");
        var summary := summaryFor(url);
        if summary.Some? {
          description := TruncateString(summary.value, MaxDescription);
        } else {
          description := if md.description.Some? then TruncateString(md.description.value, MaxDescription) else "";
          replies := replies + [SummaryFallback];
        }
      } else {
        description := if md.description.Some? then TruncateString(md.description.value, MaxDescription) else "";
      }
      readsItem := ReadsItem(title, link, description, md.image.GetOr(""), [], DefaultTagsForUrl(link));
      state := Build;
      ghost var sent := replies;
      assert sent == old(replies) + (if !Contains(link, "x.com") && summaryFor(url).None? then [SummaryFallback] else []);
      NextCreateReadState();
      assert replies == sent + BuildStepReplies(readsItem);
    }

    // -------------------------------------------------------------------
    // Publishing

    /** `handlePost` with `postRead`. `fromButton` is false when the handler
        runs for the `/publish` command, where reading the username of the
        callback query throws before anything is sent. The session is reset
        only on success and on a duplicate. */
    method Post(response: PostResponse, fromButton: bool)
      requires Valid()
      modifies this
      ensures Valid()
      ensures old(readsItem.link) == "" ==>
        state == old(state) && readsItem == old(readsItem) && afPostItem == old(afPostItem)
        && replies == old(replies) + [SendLinkFirst]
      ensures old(readsItem.link) != "" && !fromButton ==>
        state == old(state) && readsItem == old(readsItem) && afPostItem == old(afPostItem)
        && replies == old(replies) + [PublishFailed]
      ensures old(readsItem.link) != "" && fromButton && ReadOutcome(response) == Published ==>
        state == Idle && readsItem == NewReadsItem() && afPostItem == NewAfPostItem()
        && replies == old(replies) + [AttemptingToPublish, ItemPublished, MainMenu]
      ensures old(readsItem.link) != "" && fromButton && ReadOutcome(response) == DuplicateRead ==>
        state == Idle && readsItem == NewReadsItem() && afPostItem == NewAfPostItem()
        && replies == old(replies) + [AttemptingToPublish, AlreadyAddedRecently, MainMenu]
      ensures old(readsItem.link) != "" && fromButton && ReadOutcome(response) == Unauthorized ==>
        state == old(state) && readsItem == old(readsItem) && afPostItem == old(afPostItem)
        && replies == old(replies) + [AttemptingToPublish, UnauthorizedReply]
      ensures old(readsItem.link) != "" && fromButton && ReadOutcome(response) == UnknownError ==>
        state == old(state) && readsItem == old(readsItem) && afPostItem == old(afPostItem)
        && replies == old(replies) + [AttemptingToPublish]
           + FieldErrorReplies(response, UnknownError) + [PublishFailed]
    {
      var proceed := EnsureLinkSet();
      if !proceed {
        return;
      }
      if !fromButton {
        replies := replies + [PublishFailed];
        return;
      }
      replies := replies + [AttemptingToPublish];
      var outcome := ReadOutcome(response);
      replies := replies + FieldErrorReplies(response, outcome);
      match outcome {
        case Published =>
          Reset();
          replies := replies + [ItemPublished, MainMenu];
        case Unauthorized =>
          replies := replies + [UnauthorizedReply];
        case DuplicateRead =>
          replies := replies + [AlreadyAddedRecently];
          Reset();
          replies := replies + [MainMenu];
        case UnknownError =>
          replies := replies + [PublishFailed];
      }
    }

    /** `handlePostAfPostItemToFeed` with `postAfPost`: behind the AF-post
        guard; the main menu follows whatever the outcome. */
    method PostAfPost(response: PostResponse)
      requires Valid()
      modifies this
      ensures Valid()
      ensures old(afPostItem.title) == "" ==>
        state == AwaitVoiceTitle && readsItem == old(readsItem) && afPostItem == old(afPostItem)
        && replies == old(replies) + [SendAfTitleFirst]
      ensures old(afPostItem.title) != "" && old(afPostItem.transcripts) == [] ==>
        state == AwaitTranscript && readsItem == old(readsItem) && afPostItem == old(afPostItem)
        && replies == old(replies) + [NeedsTranscript]
      ensures old(afPostItem.title) != "" && old(afPostItem.transcripts) != [] ==>
        var outcome := AfOutcome(response);
        && (outcome == Published ==>
              state == Idle && readsItem == NewReadsItem() && afPostItem == NewAfPostItem()
              && replies == old(replies) + [AttemptingToPublish, AfPostCreated, MainMenu])
        && (outcome == Unauthorized ==>
              state == old(state) && readsItem == old(readsItem) && afPostItem == old(afPostItem)
              && replies == old(replies) + [AttemptingToPublish, UnauthorizedReply, MainMenu])
        && (outcome == UnknownError ==>
              state == old(state) && readsItem == old(readsItem) && afPostItem == old(afPostItem)
              && replies == old(replies) + [AttemptingToPublish]
                 + FieldErrorReplies(response, UnknownError) + [AfPublishFailed, MainMenu])
    {
      var proceed := EnsureRequiredAfPostFieldsSet();
      if !proceed {
        return;
      }
      replies := replies + [AttemptingToPublish];
      var outcome := AfOutcome(response);
      replies := replies + FieldErrorReplies(response, outcome);
      if outcome == Published {
        Reset();
        replies := replies + [AfPostCreated];
      } else if outcome == Unauthorized {
        replies := replies + [UnauthorizedReply];
      } else {
        replies := replies + [AfPublishFailed];
      }
      replies := replies + [MainMenu];
    }

    // -------------------------------------------------------------------
    // The AF post and its transcripts

    /** `handleSetAfPostTitle`: asking for a title is itself behind the
        AF-post guard. */
    method SetAfPostTitle()
      requires Valid()
      modifies this
      ensures Valid()
      ensures readsItem == old(readsItem) && afPostItem == old(afPostItem)
      ensures afPostItem.title == "" ==>
        state == AwaitVoiceTitle && replies == old(replies) + [SendAfTitleFirst]
      ensures afPostItem.title != "" && afPostItem.transcripts == [] ==>
        state == AwaitTranscript && replies == old(replies) + [NeedsTranscript]
      ensures afPostItem.title != "" && afPostItem.transcripts != [] ==>
        state == AwaitVoiceTitle && replies == old(replies) + [AskTitle]
    {
      var proceed := EnsureRequiredAfPostFieldsSet();
      if proceed {
        state := AwaitVoiceTitle;
        replies := replies + [AskTitle];
      }
    }

    /** `handleUpdateAfPostTitle`: stores the title and leaves the state
        where it was. */
    method UpdateAfPostTitle(title: string)
      requires Valid()
      modifies this
      ensures Valid()
      ensures state == old(state) && readsItem == old(readsItem)
      ensures afPostItem == old(afPostItem).(title := title)
      ensures replies == old(replies) + [AfTitleSet(title), CreateAfPostMenu]
    {
      afPostItem := afPostItem.(title := title);
      replies := replies + [AfTitleSet(title), CreateAfPostMenu];
    }

    /** `handleSetCurrentTranscript` */
    method SetCurrentTranscript(transcript: string)
      requires Valid()
      modifies this
      ensures Valid()
      ensures state == old(state) && readsItem == old(readsItem) && replies == old(replies)
      ensures afPostItem == old(afPostItem).(currentTranscript := transcript)
    {
      afPostItem := afPostItem.(currentTranscript := transcript);
    }

    /** `handleSaveCurrentTranscription`: a recorded transcript becomes the
        last saved one and the current one is cleared; with nothing
        recorded, nothing changes. */
    method SaveCurrentTranscription()
      requires Valid()
      modifies this
      ensures Valid()
      ensures state == old(state) && readsItem == old(readsItem)
      ensures old(afPostItem.currentTranscript) != "" ==>
        afPostItem == old(afPostItem).(transcripts := old(afPostItem.transcripts) + [old(afPostItem.currentTranscript)],
                                       currentTranscript := "")
        && replies == old(replies) + [TranscriptSaved]
      ensures old(afPostItem.currentTranscript) == "" ==>
        afPostItem == old(afPostItem) && replies == old(replies) + [RecordMemoFirst]
    {
      if afPostItem.currentTranscript != "" {
        afPostItem := afPostItem.(transcripts := afPostItem.transcripts + [afPostItem.currentTranscript]);
        afPostItem := afPostItem.(currentTranscript := "");
        replies := replies + [TranscriptSaved];
      } else {
        replies := replies + [RecordMemoFirst];
      }
    }

    /** `handleAnotherVoice` */
    method AnotherVoice()
      requires Valid()
      modifies this
      ensures Valid()
      ensures state == old(state) && readsItem == old(readsItem)
      ensures afPostItem == old(afPostItem).(currentTranscript := "")
      ensures replies == old(replies) + [RecordNewMemo]
    {
      afPostItem := afPostItem.(currentTranscript := "");
      replies := replies + [RecordNewMemo];
    }

    /** `handleViewCurentTranscription` */
    method ViewCurrentTranscription()
      modifies this
      ensures state == old(state) && readsItem == old(readsItem) && afPostItem == old(afPostItem)
      ensures afPostItem.currentTranscript != "" ==>
        replies == old(replies) + [CurrentTranscription(afPostItem.currentTranscript)]
      ensures afPostItem.currentTranscript == "" ==> replies == old(replies) + [NoTranscriptYet]
    {
      if afPostItem.currentTranscript != "" {
        replies := replies + [CurrentTranscription(afPostItem.currentTranscript)];
      } else {
        replies := replies + [NoTranscriptYet];
      }
    }

    /** `handleViewAfPost`: the title and the saved transcripts, each shown
        as not set when empty. */
    method ViewAfPost()
      modifies this
      ensures state == old(state) && readsItem == old(readsItem) && afPostItem == old(afPostItem)
      ensures replies == old(replies) + [
        AfPostHeader,
        AfPostTitle(if afPostItem.title != "" then Some(afPostItem.title) else None),
        AfPostBody(if afPostItem.transcripts != [] then Some(JoinParagraphs(afPostItem.transcripts)) else None)]
    {
      var title := afPostItem.title;
      var transcripts := afPostItem.transcripts;
      replies := replies + [AfPostHeader];
      replies := replies + [AfPostTitle(if |title| > 0 then Some(title) else None)];
      replies := replies + [AfPostBody(if |transcripts| > 0 then Some(JoinParagraphs(transcripts)) else None)];
    }

    // -------------------------------------------------------------------
    // Replies that change nothing else

    /** `handleDisplayMainMenu` */
    method DisplayMainMenu()
      modifies this
      ensures state == old(state) && readsItem == old(readsItem) && afPostItem == old(afPostItem)
      ensures replies == old(replies) + [MainMenu]
    {
      replies := replies + [MainMenu];
    }

    /** `handleHelp` */
    method ShowHelp()
      modifies this
      ensures state == old(state) && readsItem == old(readsItem) && afPostItem == old(afPostItem)
      ensures replies == old(replies) + [Help]
    {
      replies := replies + [Help];
    }

    /** `handlePromptForImage` */
    method PromptForImage()
      modifies this
      ensures state == old(state) && readsItem == old(readsItem) && afPostItem == old(afPostItem)
      ensures replies == old(replies) + [ImageSupportSoon]
    {
      replies := replies + [ImageSupportSoon];
    }

    // -------------------------------------------------------------------
    // Incoming messages

    /** The message handlers in registration order: the exact text "state"
        dumps the session; text matching `/^https?\:/` is taken as a new url
        in every state; any other message goes to the dispatch on `state`. */
    method OnMessage(msg: Message, metadataFor: string -> Option<UrlMetadata>,
                     recentLinks: Option<seq<string>>, summaryFor: string -> Option<string>)
      requires Valid()
      modifies this
      ensures Valid()
      ensures msg.Voice? && msg.transcription.Some? ==>
        state == old(state) && readsItem == old(readsItem)
        && afPostItem == old(afPostItem).(currentTranscript := msg.transcription.value)
        && replies == old(replies) + [ProcessingVoice, VoiceTranscript(msg.transcription.value), CreateAfPostMenu]
      ensures msg.Voice? && msg.transcription.None? ==>
        state == old(state) && readsItem == old(readsItem) && afPostItem == old(afPostItem)
        && replies == old(replies) + [ProcessingVoice, VoiceFailed]
      ensures msg.NoText? || msg == Text("") ==>
        state == old(state) && readsItem == old(readsItem) && afPostItem == old(afPostItem)
        && replies == old(replies) + [ExpectTextOrVoice]
      ensures msg == Text("state") ==>
        state == old(state) && readsItem == old(readsItem) && afPostItem == old(afPostItem)
        && replies == old(replies) + [StateDump(old(state), old(readsItem), old(afPostItem))]
      ensures msg.Text? && IsUrlText(msg.text) ==>
        afPostItem == NewAfPostItem()
        && (state == Idle || state == AwaitUrl || state == AwaitTitle || state == Build)
        && |replies| > |old(replies)| && replies[|old(replies)|] == FetchingUrl
        && UrlHandled(msg.text, metadataFor, recentLinks, summaryFor, old(replies))
      ensures msg.Text? && msg.text != "" && msg.text != "state" && !IsUrlText(msg.text) ==>
        && (old(state) == AwaitVoiceTitle ==>
              state == AwaitVoiceTitle && readsItem == old(readsItem)
              && afPostItem == old(afPostItem).(title := msg.text)
              && replies == old(replies) + [AfTitleSet(msg.text), CreateAfPostMenu])
        && (old(state) == AwaitTranscript ==>
              state == old(state) && readsItem == old(readsItem) && afPostItem == old(afPostItem)
              && replies == old(replies) + [NeedsTranscript])
        && (old(state) == AwaitMemo ==>
              state == old(state) && readsItem == old(readsItem) && afPostItem == old(afPostItem)
              && replies == old(replies) + [RecordVoiceToContinue])
        && (old(state) == AwaitUrl ==>
              afPostItem == NewAfPostItem()
              && |replies| > |old(replies)| && replies[|old(replies)|] == FetchingUrl
              && UrlHandled(msg.text, metadataFor, recentLinks, summaryFor, old(replies)))
        && (old(state) == AwaitTitle ==>
              readsItem == old(readsItem).(title := msg.text) && afPostItem == old(afPostItem)
              && state == BuildStepState(readsItem)
              && replies == old(replies) + BuildStepReplies(readsItem))
        && (old(state) == AwaitDescription && |msg.text| <= MaxDescription ==>
              readsItem == old(readsItem).(description := if msg.text == "none" then "" else msg.text)
              && afPostItem == old(afPostItem)
              && state == BuildStepState(readsItem)
              && replies == old(replies) + BuildStepReplies(readsItem))
        && (old(state) == AwaitDescription && |msg.text| > MaxDescription ==>
              state == AwaitDescription && readsItem == old(readsItem) && afPostItem == old(afPostItem)
              && replies == old(replies) + [DescriptionTooLong, AskDescription])
        && (old(state) == Idle || old(state) == Build ==>
              state == old(state) && readsItem == old(readsItem) && afPostItem == old(afPostItem)
              && replies == old(replies) + [MainMenu])
    {
      match msg {
        case Voice(transcription) =>
          replies := replies + [ProcessingVoice];
          if transcription.Some? {
            SetCurrentTranscript(transcription.value);
            replies := replies + [VoiceTranscript(transcription.value), CreateAfPostMenu];
          } else {
            replies := replies + [VoiceFailed];
          }
        case NoText =>
          replies := replies + [ExpectTextOrVoice];
        case Text(text) =>
          if text == "state" {
            assert !IsUrlText(text) by { assert text[0] == 's'; }
            replies := replies + [StateDump(state, readsItem, afPostItem)];
          } else if IsUrlText(text) {
            UpdateUrl(text, metadataFor, recentLinks, summaryFor);
          } else if text == "" {
            replies := replies + [ExpectTextOrVoice];
          } else {
            DispatchText(text, metadataFor, recentLinks, summaryFor);
          }
      }
    }

    /** The text branch of the `message` handler: what a text does depends
        on the state the session is in. */
    method DispatchText(text: string, metadataFor: string -> Option<UrlMetadata>,
                        recentLinks: Option<seq<string>>, summaryFor: string -> Option<string>)
      requires Valid() && text != ""
      modifies this
      ensures Valid()
      ensures old(state) == AwaitVoiceTitle ==>
        state == AwaitVoiceTitle && readsItem == old(readsItem)
        && afPostItem == old(afPostItem).(title := text)
        && replies == old(replies) + [AfTitleSet(text), CreateAfPostMenu]
      ensures old(state) == AwaitTranscript ==>
        state == old(state) && readsItem == old(readsItem) && afPostItem == old(afPostItem)
        && replies == old(replies) + [NeedsTranscript]
      ensures old(state) == AwaitMemo ==>
        state == old(state) && readsItem == old(readsItem) && afPostItem == old(afPostItem)
        && replies == old(replies) + [RecordVoiceToContinue]
      ensures old(state) == AwaitUrl ==>
        afPostItem == NewAfPostItem()
        && |replies| > |old(replies)| && replies[|old(replies)|] == FetchingUrl
        && UrlHandled(text, metadataFor, recentLinks, summaryFor, old(replies))
      ensures old(state) == AwaitTitle ==>
        readsItem == old(readsItem).(title := text) && afPostItem == old(afPostItem)
        && state == BuildStepState(readsItem)
        && replies == old(replies) + BuildStepReplies(readsItem)
      ensures old(state) == AwaitDescription && |text| <= MaxDescription ==>
        readsItem == old(readsItem).(description := if text == "none" then "" else text)
        && afPostItem == old(afPostItem)
        && state == BuildStepState(readsItem)
        && replies == old(replies) + BuildStepReplies(readsItem)
      ensures old(state) == AwaitDescription && |text| > MaxDescription ==>
        state == AwaitDescription && readsItem == old(readsItem) && afPostItem == old(afPostItem)
        && replies == old(replies) + [DescriptionTooLong, AskDescription]
      ensures old(state) == Idle || old(state) == Build ==>
        state == old(state) && readsItem == old(readsItem) && afPostItem == old(afPostItem)
        && replies == old(replies) + [MainMenu]
    {
      if state == AwaitVoiceTitle {
        UpdateAfPostTitle(text);
      } else if state == AwaitTranscript {
        replies := replies + [NeedsTranscript];
      } else if state == AwaitMemo {
        replies := replies + [RecordVoiceToContinue];
      } else if state == AwaitUrl {
        UpdateUrl(text, metadataFor, recentLinks, summaryFor);
      } else if state == AwaitDescription {
        UpdateDescription(text);
      } else if state == AwaitTitle {
        UpdateTitle(text);
      } else {
        DisplayMainMenu();
      }
    }
  }
}

/** The data the Delphi clerk bot keeps per chat (bots/delphi-clerk.ts). */
module ClerkTypes {
  import opened Options

  /** `BotState`: which kind of input the bot waits for next. `Idle` is the
      state called `none` in the source. */
  datatype BotState =
    | AwaitDescription
    | AwaitVoiceTitle
    | AwaitTranscript
    | AwaitTitle
    | AwaitMemo
    | AwaitUrl
    | Build
    | Idle

  /** A read under construction. `taxonomy` holds sector slugs and `tags`
      type slugs; the source types them as unions of literals but stores
      whatever slug a button's callback data carries. */
  datatype ReadsItem = ReadsItem(
    title: string,
    link: string,
    description: string,
    image_url: string,
    taxonomy: seq<string>,
    tags: seq<string>)

  /** An "AF post" assembled from voice-memo transcripts. */
  datatype AfPostItem = AfPostItem(
    transcripts: seq<string>,
    currentTranscript: string,
    title: string,
    audio_url: string)

  function NewReadsItem(): ReadsItem {
    ReadsItem("", "", "", "", [], [])
  }

  function NewAfPostItem(): AfPostItem {
    AfPostItem([], "", "", "")
  }

  /** The link-metadata service's answer; every field may be missing. */
  datatype UrlMetadata = UrlMetadata(
    title: Option<string>,
    description: Option<string>,
    image: Option<string>)

  /** An entry of an option menu: what is stored, and what is shown. */
  datatype OptionEntry = OptionEntry(slug: string, title: string)

  const Sectors: seq<OptionEntry> := [
    OptionEntry("general", "General"),
    OptionEntry("ai", "AI"),
    OptionEntry("finance", "DeFi"),
    OptionEntry("infrastructure", "Infrastructure"),
    OptionEntry("macro-markets", "Macro & Markets"),
    OptionEntry("metaverse", "NFTs & Gaming")
  ]

  const Types: seq<OptionEntry> := [
    OptionEntry("reads", "Reads"),
    OptionEntry("media", "Media"),
    OptionEntry("tweets", "Tweets"),
    OptionEntry("news", "News"),
    OptionEntry("podcast", "Podcast"),
    OptionEntry("other", "Other")
  ]

  /** `defaultTagsForDomain`, in the order `Object.keys` visits it. */
  const DomainTags: seq<(string, seq<string>)> := [
    ("bloomberg.com", ["news"]),
    ("medium.com", ["reads"]),
    ("spotify.com", ["podcast"]),
    ("x.com", ["tweets"]),
    ("youtube.com", ["media"])
  ]

  /** The longest description the bot stores. */
  const MaxDescription: nat := 500
}

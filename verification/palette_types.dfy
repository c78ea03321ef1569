/**
 * The command palette's value types: the item a provider offers, the result of
 * matching one item against a query, the pair of both, and the palette
 * configuration. Every builder takes the record by value and returns the
 * updated copy, so each is a function here.
 */
module PaletteTypes {
  import opened Wrappers

  /** An icon name; the palette only stores and displays it. */
  type IconName = nat
  /** A caller's opaque payload (an `Arc<dyn Any>`), identified by a handle. */
  type Payload = nat

  datatype Item = Item(
    id: string,
    title: string,
    subtitle: Option<string>,
    category: string,
    icon: Option<IconName>,
    shortcut: Option<string>,
    keywords: seq<string>,
    disabled: bool,
    payload: Option<Payload>)
  {
    /** Sets the subtitle; no other field changes. */
    function WithSubtitle(s: string): (r: Item)
      ensures r.subtitle == Some(s) && r.(subtitle := subtitle) == this
    {
      this.(subtitle := Some(s))
    }

    /** Sets the category; no other field changes. */
    function WithCategory(c: string): (r: Item)
      ensures r.category == c && r.(category := category) == this
    {
      this.(category := c)
    }

    /** Sets the icon; no other field changes. */
    function WithIcon(i: IconName): (r: Item)
      ensures r.icon == Some(i) && r.(icon := icon) == this
    {
      this.(icon := Some(i))
    }

    /** Sets the displayed shortcut; no other field changes. */
    function WithShortcut(s: string): (r: Item)
      ensures r.shortcut == Some(s) && r.(shortcut := shortcut) == this
    {
      this.(shortcut := Some(s))
    }

    /** Appends one keyword after the existing ones; no other field changes. */
    function WithKeyword(k: string): (r: Item)
      ensures |r.keywords| == |keywords| + 1 && r.keywords[..|keywords|] == keywords
      ensures r.keywords[|keywords|] == k
      ensures r.(keywords := keywords) == this
    {
      this.(keywords := keywords + [k])
    }

    /** Appends several keywords in order after the existing ones; no other field changes. */
    function WithKeywords(ks: seq<string>): (r: Item)
      ensures |r.keywords| == |keywords| + |ks|
      ensures r.keywords[..|keywords|] == keywords && r.keywords[|keywords|..] == ks
      ensures r.(keywords := keywords) == this
    {
      this.(keywords := keywords + ks)
    }

    /** Sets the disabled flag; no other field changes. */
    function WithDisabled(d: bool): (r: Item)
      ensures r.disabled == d && r.(disabled := disabled) == this
    {
      this.(disabled := d)
    }

    /** Attaches a payload; no other field changes. */
    function WithPayload(p: Payload): (r: Item)
      ensures r.payload == Some(p) && r.(payload := payload) == this
    {
      this.(payload := Some(p))
    }
  }

  /** `CommandPaletteItem::new`: the two required fields, everything else empty or off. */
  function NewItem(id: string, title: string): (r: Item)
    ensures r.id == id && r.title == title
    ensures r.subtitle == None && r.category == [] && r.icon == None && r.shortcut == None
    ensures r.keywords == [] && !r.disabled && r.payload == None
  {
    Item(id, title, None, "", None, None, [], false, None)
  }

  /** Adding keywords one at a time gives the same item as adding them all at once. */
  lemma {:induction false} WithKeywordsIsRepeatedWithKeyword(item: Item, ks: seq<string>)
    ensures item.WithKeywords(ks) == AddEach(item, ks)
    decreases |ks|
  {
    if ks != [] {
      var ks' := ks[..|ks| - 1];
      WithKeywordsIsRepeatedWithKeyword(item, ks');
      assert item.keywords + ks == (item.keywords + ks') + [ks[|ks| - 1]];
    }
  }

  /** Applies `WithKeyword` to each element of `ks` in order. */
  function AddEach(item: Item, ks: seq<string>): Item
  {
    if ks == [] then item else AddEach(item, ks[..|ks| - 1]).WithKeyword(ks[|ks| - 1])
  }

  /** A highlight range `[start, end)` in bytes. */
  datatype ByteRange = ByteRange(start: nat, end: nat)

  datatype Match = Match(score: int, titleRanges: seq<ByteRange>, subtitleRanges: seq<ByteRange>)
  {
    /** Replaces the title ranges; the score and the subtitle ranges are kept. */
    function WithTitleRanges(rs: seq<ByteRange>): (r: Match)
      ensures r.titleRanges == rs && r.score == score && r.subtitleRanges == subtitleRanges
    {
      this.(titleRanges := rs)
    }

    /** Replaces the subtitle ranges; the score and the title ranges are kept. */
    function WithSubtitleRanges(rs: seq<ByteRange>): (r: Match)
      ensures r.subtitleRanges == rs && r.score == score && r.titleRanges == titleRanges
    {
      this.(subtitleRanges := rs)
    }
  }

  /** `CommandPaletteMatch::new`: the score and no highlight at all. */
  function NewMatch(score: int): (r: Match)
    ensures r.score == score && r.titleRanges == [] && r.subtitleRanges == []
  {
    Match(score, [], [])
  }

  datatype MatchedItem = MatchedItem(item: Item, matchInfo: Match)

  /** `MatchedItem::new` stores both parts unchanged. */
  function NewMatchedItem(item: Item, m: Match): (r: MatchedItem)
    ensures r.item == item && r.matchInfo == m
  {
    MatchedItem(item, m)
  }

  /** A caller-supplied matcher (`CommandMatcher` trait object): query and item to an optional match. */
  type CustomMatcher = (string, Item) -> Option<Match>

  datatype MatcherKind = Nucleo | FuzzyMatcher | Custom(matcher: CustomMatcher)

  datatype Config = Config(
    shortcut: Option<string>,
    matcher: MatcherKind,
    maxResults: nat,
    placeholder: string,
    width: real,
    maxHeight: real,
    showFooter: bool,
    showCategoriesInline: bool,
    commandsSectionTitle: Option<string>,
    resultsSectionTitle: Option<string>,
    statusProvider: Option<string -> Option<string>>)

  /** `CommandPaletteConfig::default`; the shortcut depends on the target platform. */
  function DefaultConfig(targetIsMacos: bool): (r: Config)
    ensures r.maxResults == 50 && r.matcher.Nucleo?
    ensures r.shortcut == Some(if targetIsMacos then "cmd-p" else "ctrl-p")
    ensures r.placeholder == "Type a command..." && r.width == 560.0 && r.maxHeight == 400.0
    ensures r.showFooter && r.showCategoriesInline && r.statusProvider.None?
    ensures r.commandsSectionTitle == Some("Commands") && r.resultsSectionTitle == Some("Search Results")
  {
    Config(Some(if targetIsMacos then "cmd-p" else "ctrl-p"), Nucleo, 50, "Type a command...",
           560.0, 400.0, true, true, Some("Commands"), Some("Search Results"), None)
  }
}

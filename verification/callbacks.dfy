/**
 Routing of inline-button presses. Two handlers take button presses: the
 filter-mode handler and the keyword-page handler. The mode handler is
 registered first and without a data pattern, and the bot library runs only
 the first handler that accepts an update.
 */
module Callbacks {
  import opened Wrappers
  import opened Text
  import opened Store
  import opened Admin
  import opened Listing

  /** What the bot shows in answer to a button press. */
  datatype Reply =
    | ModeReply(mode: string)
    | PageReply(view: PageView)
    | NoReply

  /** The state after a button press and the reply shown for it. */
  datatype Handled = Handled(state: State, reply: Reply)

  const ModeDataPrefix: string := "mode_"

  /** The filter-mode handler: stores the mode named in the data; raises (no reply) without `_`. */
  function HandleMode(s: State, data: string): (h: Handled)
    ensures h.state == ModeCallback(s, data)
    ensures h.reply.ModeReply? <==> '_' in data
    ensures h.reply.ModeReply? ==> h.state.config.Some? && h.reply.mode == h.state.config.value.filterMode
  {
    match ModeOf(data)
    case Some(mode) => Handled(ModeCallback(s, data), ModeReply(mode))
    case None => Handled(s, NoReply)
  }

  /**
   The keyword-page handler: renders the page named by the data and changes no
   state. It ignores data of any other shape, and raises (no reply) when the
   page number does not parse or when page 0 is asked for with no configuration stored.
   */
  function HandleList(s: State, data: string): (h: Handled)
    ensures h.state == s
    ensures h.reply.PageReply? ==>
      && StartsWith(data, PageDataPrefix) && PageOf(data).Some?
      && h.reply.view == KeywordPage(Words(s.keywords), PageOf(data).value)
  {
    if !StartsWith(data, PageDataPrefix) then Handled(s, NoReply)
    else
      match PageOf(data)
      case None => Handled(s, NoReply)
      case Some(page) =>
        var view := KeywordPage(Words(s.keywords), page);
        if view.KeywordsPage? && page == 0 && s.config.None? then Handled(s, NoReply)
        else Handled(s, PageReply(view))
  }

  /** Button routing as registered: the pattern-less mode handler accepts every press. */
  function DispatchAsWritten(s: State, data: string): (h: Handled)
    ensures !h.reply.PageReply?
    ensures '_' !in data ==> h.state == s
    ensures '_' in data ==> h.state.config.Some? && h.state.config.value.filterMode == ModeOf(data).value
  {
    HandleMode(s, data)
  }

  /** Button routing with the mode handler restricted to data beginning `mode_`. */
  function Dispatch(s: State, data: string): (h: Handled)
    ensures StartsWith(data, ModeDataPrefix) ==> h == HandleMode(s, data)
    ensures !StartsWith(data, ModeDataPrefix) ==> h.state == s
  {
    if StartsWith(data, ModeDataPrefix) then HandleMode(s, data) else HandleList(s, data)
  }

  /** The mode read from a page button's data is "keywords". */
  lemma ModeOfPageData(p: int)
    ensures ModeOf(PageData(p)) == Some("keywords")
  {
    var digits := Decimal.IntToString(p);
    DigitsAvoidUnderscore(p);
    PrefixFields(digits);
    SecondFieldIsKeywords(digits);
  }

  /** The page-button prefix `list_keywords_` spelt as its `_`-separated fields. */
  lemma PrefixFields(digits: string)
    ensures PageDataPrefix + digits == "list" + "_" + ("keywords" + "_" + digits)
  {
  }

  /** `list_keywords_<digits>` read as mode data yields `keywords`. */
  lemma SecondFieldIsKeywords(digits: string)
    requires '_' !in digits
    ensures ModeOf("list" + "_" + ("keywords" + "_" + digits)) == Some("keywords")
  {
    SplitNoSep("list", '_');
    SplitNoSep("keywords", '_');
    SplitNoSep(digits, '_');
    SplitAppend("keywords", digits, '_');
    SplitAppend("list", "keywords" + "_" + digits, '_');
  }

  /**
   As registered, pressing a page button never shows a page: it stores "keywords"
   as the filter mode, which the forwarder then treats as blacklist.
   */
  lemma PageButtonOverwritesMode(s: State, p: int)
    ensures var h := DispatchAsWritten(s, PageData(p));
      && !h.reply.PageReply?
      && h.state.config.Some? && h.state.config.value.filterMode == "keywords"
      && !IsWhitelist(h.state.config.value.filterMode)
  {
    ModeOfPageData(p);
  }

  /** With the routing restricted, a page button leaves the state alone and shows the page it names. */
  lemma PageButtonShowsPage(s: State, p: int)
    requires |s.keywords| == 0 || p != 0 || s.config.Some?
    ensures Dispatch(s, PageData(p)) == Handled(s, PageReply(KeywordPage(Words(s.keywords), p)))
  {
    var data := PageData(p);
    StartsWithExclusive(data, PageDataPrefix, ModeDataPrefix);
    PageDataRoundTrip(p);
    HandleListShows(s, data, p);
  }

  /** Data that names page `p` shows that page, unless it is page 0 of a non-empty list with no configuration. */
  lemma HandleListShows(s: State, data: string, p: int)
    requires StartsWith(data, PageDataPrefix) && PageOf(data) == Some(p)
    requires |s.keywords| == 0 || p != 0 || s.config.Some?
    ensures HandleList(s, data) == Handled(s, PageReply(KeywordPage(Words(s.keywords), p)))
  {
    var view := KeywordPage(Words(s.keywords), p);
    assert view.KeywordsPage? ==> |s.keywords| > 0;
  }

  /** Both routings treat the filter-mode buttons the same way. */
  lemma ModeButtonsUnaffected(s: State, m: string)
    requires '_' !in m
    ensures Dispatch(s, ModeDataPrefix + m) == DispatchAsWritten(s, ModeDataPrefix + m)
    ensures Dispatch(s, ModeDataPrefix + m).state.config.value.filterMode == m
  {
    ModeOfButton(m);
    assert (ModeDataPrefix + m)[..|ModeDataPrefix|] == ModeDataPrefix;
  }
}

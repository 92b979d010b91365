/**
 The `/list` reply and its keyword pages: fifty keywords per page, numbered
 from one across pages, with previous/next buttons.
 */
module Listing {
  import opened Wrappers
  import opened Store
  import Decimal
  import Text

  const PageSize: nat := 50

  /** Prefix of the callback data carried by the page buttons. */
  const PageDataPrefix: string := "list_keywords_"

  /** Python's `ceil(n / 50)`: the number of keyword pages. */
  function TotalPages(n: nat): (t: nat)
    ensures t * PageSize >= n
    ensures t > 0 ==> (t - 1) * PageSize < n
  {
    (n + PageSize - 1) / PageSize
  }

  /** Python's index normalisation for a slice bound: negative counts from the end, then clamp. */
  function SliceBound(len: nat, i: int): (b: nat)
    ensures b <= len
    ensures 0 <= i <= len ==> b == i
  {
    if i < 0 then (if len + i < 0 then 0 else len + i)
    else if i > len then len
    else i
  }

  /** Python's `s[i:j]`. */
  function PySlice<T>(s: seq<T>, i: int, j: int): (r: seq<T>)
    ensures 0 <= i <= j <= |s| ==> r == s[i..j]
    ensures 0 <= i && |s| <= j ==> r == s[SliceBound(|s|, i)..]
  {
    var lo := SliceBound(|s|, i);
    var hi := SliceBound(|s|, j);
    if lo <= hi then s[lo..hi] else []
  }

  /** One numbered line of the keyword list. */
  datatype Entry = Entry(number: int, word: string)

  /** Numbers `words` consecutively starting after `offset`. */
  function Numbered(words: seq<string>, offset: int): (es: seq<Entry>)
    ensures |es| == |words|
    ensures forall k :: 0 <= k < |words| ==> es[k] == Entry(offset + k + 1, words[k])
  {
    seq(|words|, k requires 0 <= k < |words| => Entry(offset + k + 1, words[k]))
  }

  /**
   The callback data of the button leading to page `p`: the prefix, then the
   page number with no further `_`, so the number is the last `_`-field.
   */
  function PageData(p: int): (data: string)
    ensures Text.StartsWith(data, PageDataPrefix)
    ensures '_' !in data[|PageDataPrefix|..]
  {
    var digits := Decimal.IntToString(p);
    var data := PageDataPrefix + digits;
    assert data[|PageDataPrefix|..] == digits;
    DigitsAvoidUnderscore(p);
    data
  }

  /**
   One page of the keyword list as the page callback renders it. `withConfig`
   says whether the configuration summary heads the page (only page 0 has it).
   */
  datatype PageView =
    | NoKeywords
    | KeywordsPage(page: int, totalPages: nat, entries: seq<Entry>, withConfig: bool,
                   prev: Option<string>, next: Option<string>)

  /** Page `page` of the stored words. */
  function KeywordPage(words: seq<string>, page: int): (v: PageView)
    ensures v.NoKeywords? <==> |words| == 0
    ensures v.KeywordsPage? ==> v.totalPages == TotalPages(|words|) && v.withConfig == (page == 0)
    ensures v.KeywordsPage? ==> (v.prev.Some? <==> page > 0) && (v.next.Some? <==> page < TotalPages(|words|) - 1)
    ensures v.KeywordsPage? && v.prev.Some? ==> v.prev.value == PageData(page - 1)
    ensures v.KeywordsPage? && v.next.Some? ==> v.next.value == PageData(page + 1)
    ensures v.KeywordsPage? && 0 <= page ==>
      && |v.entries| == (if |words| <= PageSize * page then 0
                         else if |words| - PageSize * page < PageSize then |words| - PageSize * page
                         else PageSize)
      && forall k :: 0 <= k < |v.entries| ==>
           v.entries[k] == Entry(PageSize * page + k + 1, words[PageSize * page + k])
  {
    if |words| == 0 then NoKeywords
    else
      var total := TotalPages(|words|);
      var start := PageSize * page;
      var shown := PySlice(words, start, start + PageSize);
      PageSlice(words, page);
      KeywordsPage(page, total, Numbered(shown, start), page == 0,
                   if page > 0 then Some(PageData(page - 1)) else None,
                   if page < total - 1 then Some(PageData(page + 1)) else None)
  }

  /** The words on page `page`: up to fifty of them, starting at index `50 * page`. */
  lemma PageSlice(words: seq<string>, page: int)
    ensures var shown := PySlice(words, PageSize * page, PageSize * page + PageSize);
      0 <= page ==>
      && |shown| == (if |words| <= PageSize * page then 0
                     else if |words| - PageSize * page < PageSize then |words| - PageSize * page
                     else PageSize)
      && forall k :: 0 <= k < |shown| ==> shown[k] == words[PageSize * page + k]
  {
  }

  /** Every stored keyword appears on exactly the page `j / 50`, at position `j % 50`, numbered `j + 1`. */
  lemma KeywordOnItsPage(words: seq<string>, j: nat)
    requires j < |words|
    ensures 0 <= j / PageSize < TotalPages(|words|)
    ensures var v := KeywordPage(words, j / PageSize);
      v.KeywordsPage? && j % PageSize < |v.entries| && v.entries[j % PageSize] == Entry(j + 1, words[j])
  {
    var p := j / PageSize;
    assert PageSize * p + j % PageSize == j;
  }

  /** A page number inside the range has at least one keyword and at most fifty. */
  lemma PagesInRangeAreFilled(words: seq<string>, page: int)
    requires 0 <= page < TotalPages(|words|)
    ensures var v := KeywordPage(words, page); v.KeywordsPage? && 1 <= |v.entries| <= PageSize
  {
  }

  /** Python's `int(data.split("_")[-1])`: the page a button's data asks for, `None` where `int` raises. */
  function PageOf(data: string): (r: Option<int>)
    ensures exists k ::
      && 0 <= k <= |data| && '_' !in data[k..] && (k == 0 || data[k - 1] == '_')
      && r == Decimal.ParseInt(data[k..])
  {
    var field := Text.LastSegment(data, '_');
    assert field == data[|data| - |field|..];
    Decimal.ParseInt(field)
  }

  /** The page a button names is the page its callback reads back. */
  lemma PageDataRoundTrip(p: int)
    ensures PageOf(PageData(p)) == Some(p)
  {
    var digits := Decimal.IntToString(p);
    DigitsAvoidUnderscore(p);
    LastFieldOfPageData(digits);
    Decimal.ParseIntToString(p);
  }

  /** The decimal spelling of a page number has no `_`. */
  lemma DigitsAvoidUnderscore(p: int)
    ensures '_' !in Decimal.IntToString(p)
  {
    var digits := Decimal.IntToString(p);
    if p < 0 {
      assert digits[0] == '-' && digits[1..] == Decimal.NatToDigits(-p);
    }
  }

  /** After the prefix, a `_`-free number is the last `_`-separated field. */
  lemma LastFieldOfPageData(digits: string)
    requires '_' !in digits
    ensures Text.LastSegment(PageDataPrefix + digits, '_') == digits
  {
    var data := PageDataPrefix + digits;
    var r := Text.LastSegment(data, '_');
    assert data[|PageDataPrefix| - 1] == '_';
  }

  /** What `/list` shows: the configuration, the bound sources and the first page of keywords. */
  datatype ListView =
    | NoBinding
    | Overview(whitelist: bool, target: string, sourceIds: seq<string>, entries: seq<Entry>,
               pageIndicator: Option<nat>, next: Option<string>)

  /** The `/list` reply for the stored state. */
  function ListInfo(s: State): (v: ListView)
    ensures v.NoBinding? <==> s.config.None?
    ensures v.Overview? ==>
      && v.whitelist == IsWhitelist(s.config.value.filterMode)
      && v.target == s.config.value.targetChatId
      && v.sourceIds == SourceIds(s.sources)
    ensures v.Overview? ==>
      && (v.next.Some? <==> |s.keywords| > PageSize)
      && (v.pageIndicator.Some? <==> |s.keywords| > PageSize)
    ensures v.Overview? && v.pageIndicator.Some? ==> v.pageIndicator.value == TotalPages(|s.keywords|)
    ensures v.Overview? && |s.keywords| == 0 ==> v.entries == []
  {
    match s.config
    case None => NoBinding
    case Some(c) =>
      var words := Words(s.keywords);
      var total := TotalPages(|words|);
      Overview(IsWhitelist(c.filterMode), c.targetChatId, SourceIds(s.sources),
               Numbered(PySlice(words, 0, PageSize), 0),
               if total > 1 then Some(total) else None,
               if total > 1 then Some(PageData(1)) else None)
  }

  /** The first `/list` reply and page 0 of the callback agree on the keywords shown and on the next button. */
  lemma ListInfoMatchesFirstPage(s: State)
    requires s.config.Some? && |s.keywords| > 0
    ensures var v := ListInfo(s); var p := KeywordPage(Words(s.keywords), 0);
      v.entries == p.entries && v.next == p.next
  {
  }
}

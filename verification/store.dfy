/**
 The forwarder's persistent state: the three tables of its database
 (bound sources, the single configuration row, stored keywords) as one value.
 */
module Store {
  import opened Wrappers

  /** A bound source chat; the binding command always records the type "unknown". */
  datatype Source = Source(chatId: string, chatType: string)

  /** A stored filter keyword with the polarity recorded when it was added. */
  datatype Keyword = Keyword(word: string, isWhitelist: bool)

  /** The configuration row: where messages go and how keywords are applied. */
  datatype Config = Config(targetChatId: string, filterMode: string)

  /** All three tables, rows in the order the database returns them, taken to be insertion order. */
  datatype State = State(sources: seq<Source>, config: Option<Config>, keywords: seq<Keyword>)

  const WhitelistMode: string := "whitelist"

  /** The state with every table empty, as after a fresh start or an unbinding. */
  const Empty: State := State([], None, [])

  /** The only mode string the forwarder treats as whitelist; any other stored mode acts as blacklist. */
  predicate IsWhitelist(mode: string) {
    mode == WhitelistMode
  }

  /** The chat ids of the bound sources, in table order. */
  function SourceIds(sources: seq<Source>): (ids: seq<string>)
    ensures |ids| == |sources|
    ensures forall i :: 0 <= i < |sources| ==> ids[i] == sources[i].chatId
  {
    if |sources| == 0 then [] else [sources[0].chatId] + SourceIds(sources[1..])
  }

  /** The stored keyword words, in table order. */
  function Words(keywords: seq<Keyword>): (ws: seq<string>)
    ensures |ws| == |keywords|
    ensures forall i :: 0 <= i < |keywords| ==> ws[i] == keywords[i].word
  {
    if |keywords| == 0 then [] else [keywords[0].word] + Words(keywords[1..])
  }
}

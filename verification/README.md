# Telegram Forwarder — a Dafny model of its forwarding and administration logic

The forwarder is a pair of Telegram clients. A user-account client watches
chats and a bot relays what it sees to one target chat. Its state is three
database tables: the bound source chats, one configuration row (target chat
and filter mode), and a list of keywords. This project models `main.py`'s
decisions over that state as pure functions:

- **Forwarding** (`Forwarder.Forward`) decides what happens to each new message:
  - the message is dropped unless a configuration exists and its chat is a bound source;
  - a bound chat without a `title` attribute (a private chat with a user) is dropped too, because logging `chat.title` raises and the handler swallows the error (see Findings);
  - whitelist mode forwards only if some stored keyword occurs in the text, case-sensitively; any other mode string behaves as blacklist;
  - each media-group part that has text, and media other than a single photo, get an invisible Markdown link to the original, with previews on;
  - media-group parts without text are dropped;
  - a single photo is re-sent as a photo, with the text as its caption;
  - a message with no `media` at all goes out as text only if its content is not blank after `strip()`; a text message with a link preview carries web-page media, so it counts as other media and is annotated.
- **Administration** (`Admin`) covers the owner's commands: `/binding`,
  `/unbinding`, `/add`, `/remove`, and the filter-mode buttons. It also covers
  the owner check that every slash command makes. The mode buttons are not
  restricted to the owner.
- **Listing** (`Listing`) covers the `/list` overview and the keyword pages:
  50 per page, numbered across pages, with previous/next buttons.
- **Button routing** (`Callbacks`) shows which handler receives a button press.
  It also holds the finding below.
- **Retry** (`Retry`) models the wrapper that repeats a call on server errors,
  up to a bound.

The Python string operations the code depends on are modelled exactly. `Text`
has `w in s`, `str.strip()` (Python's whitespace set) and `str.split(sep)`.
`Decimal` has `str(int)` and `int(str)`.

`main.py` keeps one global keyword list shared by every bound chat, and
matches with Python's case-sensitive `in`. Messages are not de-duplicated and
their text is not rewritten. Link previews are on exactly for the messages
that carry the invisible link.

## Model

| member | source | states |
|---|---|---|
| `Text.Contains` | main.py:306 | the executable scan is true exactly when the keyword occurs at some position of the text (Python `in`, case-sensitive, empty word always occurs) |
| `Text.StripEmptyIffBlank` | main.py:374 | `content.strip()` is empty exactly when every character is Python whitespace |
| `Text.JoinSplit` | main.py:235 | joining the pieces of `split(sep)` with `sep` gives back the original string |
| `Text.SplitJoin` | main.py:330-333 | splitting a join of separator-free pieces gives back the pieces |
| `Text.LastSegment` | main.py:93 | `split('/')[-1]` is the separator-free suffix after the last `/`, or the whole string when it has none |
| `Decimal.ParseIntToString` | main.py:578 | `int(str(p)) == p` for every integer, so the page number written into a button reads back unchanged |
| `Filter.Matched` | main.py:304-306 | the matched list holds exactly the stored words that occur in the text |
| `Filter.ShouldForward` | main.py:307-316 | whitelist forwards iff some stored word occurs in the text; every other mode forwards iff none does |
| `Filter.EmptyKeywordsDecision` | main.py:309-316 | with no keywords, whitelist never forwards and blacklist always does |
| `Filter.EmptyWordMatchesAll` | main.py:306 | a stored empty word occurs in every text, so it admits everything in whitelist mode and blocks everything in blacklist mode |
| `Forwarder.Admitted` | main.py:282-316 | a message is admitted iff a configuration exists, its chat is a bound source, and in whitelist mode some stored row's word occurs in the text, in any other mode none does |
| `Forwarder.MessageLink` | main.py:330-333 | the link starts with `https://t.me/` and its last `/`-segment is the message id; split on `/` it reads back as `https:`, an empty piece, `t.me`, then either the username and the message id, or `c`, the chat id without its first four characters, and the message id |
| `Forwarder.Annotate` | main.py:341 | the annotated content ends with the original text, contains the link and starts with `[`, so it is never blank |
| `Forwarder.Forward` | main.py:279-385 | no configuration, an unbound chat, or a chat without a title gives Skip; anything sent passed the filter and goes to the configured target; sent text is never blank; a photo is sent exactly when an admitted message from a titled chat is a single photo, with the raw text as caption; a media-group part without text is skipped; for titled chats the decision is `ForwardAnyChat`'s |
| `Forwarder.ForwardAnyChat` | main.py:282-380 | the same decision with the title only logged: no configuration or an unbound chat gives Skip; anything sent passed the filter and goes to the configured target; sent text is never blank; a photo is sent exactly when an admitted message is a single photo |
| `Forwarder.UntitledChatSilenced` | main.py:299 | an admitted non-blank message without media from a chat without a title is skipped, while the intended decision sends it verbatim |
| `Forwarder.ForwardAnyChatIgnoresTitle` | main.py:299 | the intended decision does not depend on whether the chat has a title, and equals the handler's decision for the same chat with a title |
| `Forwarder.SendIfNotBlank` | main.py:374-380 | a message without media produces a text send exactly when the content is not blank, with that content and preview flag |
| `Forwarder.ForwardSendsIff` | main.py:299-380 | something is sent iff the chat has a title, the message is admitted, and it either has media other than a group, or is a group part with text, or is plain text that is not blank |
| `Forwarder.TextMessageForwardedVerbatim` | main.py:324-325 | an admitted message with no media from a titled chat is sent with exactly its text and previews disabled |
| `Forwarder.GroupPartAnnotated` | main.py:336-342 | each media-group part with text, from a titled chat, is sent as `"[\u200b](" + link + ")\n\n" + text` with previews enabled |
| `Forwarder.OtherMediaAnnotated` | main.py:368-371 | non-photo, non-group media from a titled chat gets the same link prefix and previews enabled, even with no text |
| `Forwarder.EmptyWhitelistForwardsNothing` | main.py:309-310 | whitelist mode with no keywords skips every message |
| `Forwarder.EmptyBlacklistForwardsAll` | main.py:315-316 | blacklist mode with no keywords sends every non-blank message without media from a bound, titled chat unchanged |
| `Admin.ChatIdOfArgument` | main.py:90-104 | a plain argument is stored as given; a `https://t.me/` argument is stored as the resolved id, or, when resolution fails, as the text after its last `/` |
| `Admin.UnresolvedLinkBindsName` | main.py:92-101 | an unresolvable `https://t.me/<name>` binds `<name>` |
| `Admin.Binding` | main.py:74-117 | no arguments change nothing; otherwise the sources become exactly the arguments' chat ids, and the configuration targets the issuing chat, keeping its mode or starting in whitelist; keywords are kept |
| `Admin.Unbinding` | main.py:154-163 | sources, configuration and keywords are all empty afterwards |
| `Admin.HasWord` | main.py:189-190 | the per-word lookup finds a row exactly when the word is among the stored words |
| `Admin.AddWords` | main.py:187-196 | stored rows stay as they were; each appended row has the current polarity, comes from the arguments and was not stored before; appended words are pairwise distinct; every argument is stored afterwards |
| `Admin.AddOneWord` | main.py:189-195 | one word is appended with the current polarity when not yet stored, and otherwise nothing changes |
| `Admin.AddWordsAppendsInOrder` | main.py:187-195 | adding `ws` then `v` is adding `ws + [v]`, so new rows follow the order of the arguments |
| `Admin.AddWordsKeepsDistinct` | main.py:187-196 | if no word was stored twice before `/add`, none is afterwards |
| `Admin.AddKeywords` | main.py:175-198 | no arguments change nothing; the polarity is whitelist when the mode is whitelist or no configuration exists; sources and configuration are untouched |
| `Admin.Without` | main.py:223 | exactly the rows whose word differs from `w` survive, each with its multiplicity |
| `Admin.RemoveWords` | main.py:222-223 | a row survives iff its word is not among the arguments; surviving rows keep their multiplicity |
| `Admin.WithoutOne` | main.py:223 | a single row is deleted exactly when its word is `w` |
| `Admin.WithoutConcat` | main.py:223 | deleting `w` from two runs of rows deletes it from each, so the survivors keep their relative order |
| `Admin.RemoveWordsConcat` | main.py:222-223 | `/remove` likewise works row by row, keeping the surviving rows in table order |
| `Admin.RemoveKeywords` | main.py:216-225 | no arguments change nothing; sources and configuration are untouched |
| `Admin.RemoveUndoesAdd` | main.py:181-223 | `/remove w` right after `/add w` of a new word restores the keyword table exactly |
| `Admin.ModeOf` | main.py:235 | `split('_')[1]` fails exactly when the data has no `_`; otherwise it is the `_`-free text right after the first `_`, running to the next `_` or the end |
| `Admin.ModeOfButton` | main.py:122-123 | the data `mode_<m>` selects mode `<m>` |
| `Admin.ModeCallback` | main.py:235-246 | data without `_` changes nothing; otherwise the stored mode becomes the parsed one, with an empty-target configuration created if none existed; sources and keywords are untouched |
| `Admin.Execute` | main.py:71-72 | a command from anyone but the owner changes nothing, and so do `/start` and `/list` |
| `Listing.TotalPages` | main.py:534 | the page count is `ceil(n / 50)`: the smallest count whose pages hold `n` keywords |
| `Listing.PySlice` | main.py:588 | Python slicing: in-range bounds give the plain subsequence, and an end past the list is clamped |
| `Listing.KeywordPage` | main.py:577-632 | page `p` shows keywords `[50p, 50p+50)` numbered from `50p+1`; prev appears iff `p > 0` and next iff `p < total-1`, each naming the neighbouring page; only page 0 carries the configuration; no keywords gives the empty reply |
| `Listing.KeywordOnItsPage` | main.py:586-622 | keyword `j` appears on page `j/50`, which is in range, at position `j%50`, numbered `j+1` |
| `Listing.PagesInRangeAreFilled` | main.py:586-588 | every page number below the page count shows between 1 and 50 keywords |
| `Listing.PageData` | main.py:628-630 | a page button's data is `list_keywords_` followed by the page number, which contains no further `_` |
| `Listing.PageOf` | main.py:578 | the page read from button data is `int` of the text after its last `_` (the whole data when it has none), `None` where `int` raises |
| `Listing.PageDataRoundTrip` | main.py:578 | the page handler reads back exactly the page number a button wrote |
| `Listing.ListInfo` | main.py:510-558 | no configuration gives the "no binding" reply; otherwise the overview shows the mode, target and sources, with a page indicator and next button iff there are more than 50 keywords; the indicator shows the page count `ceil(n / 50)`; an empty keyword table lists no entries |
| `Listing.ListInfoMatchesFirstPage` | main.py:547-558 | the `/list` overview shows the same keywords and next button as page 0 of the page handler |
| `Callbacks.HandleMode` | main.py:231-247 | the mode handler's state change is `ModeCallback`, and it replies iff the data has `_`, naming the stored mode |
| `Callbacks.HandleList` | main.py:577-637 | the page handler never changes state; a page reply needs list-button data with a parsable page, and shows that page |
| `Callbacks.ModeOfPageData` | main.py:628-630 | a page button's data read as mode data yields the mode `keywords` |
| `Callbacks.DispatchAsWritten` | main.py:656-658 | as registered, every press reaches the mode handler: none shows a page; data with `_` stores the mode read from it, and other data changes nothing |
| `Callbacks.PageButtonOverwritesMode` | main.py:656-658 | as registered, a page button press never shows a page and stores the mode `keywords`, which is not whitelist |
| `Callbacks.Dispatch` | main.py:656-658 | with the mode handler limited to `mode_` data, every other press leaves the state unchanged |
| `Callbacks.PageButtonShowsPage` | main.py:577-632 | with the corrected routing, a page button shows its page and changes nothing, including the "no keywords" page of an empty table; only page 0 of a non-empty table with no configuration stays unanswered |
| `Callbacks.ModeButtonsUnaffected` | main.py:122-123 | the corrected routing handles the mode buttons as the registered one does |
| `Retry.FirstSettled` | main.py:257-263 | the reference index: the first attempt within the bound that is not a server error, or the bound itself |
| `Retry.RetryOnServerError` | main.py:253-268 | the call runs between 1 and `max_retries` times (0 when the bound is not positive, which returns None); every attempt but the last was a server error; the result is the first non-server-error attempt's result, or the last server error re-raised after `max_retries` failures; another error ends the loop at once |
| `Lifecycle.UnbindingStopsForwarding` | main.py:155-161 | after `/unbinding` every message is skipped |
| `Lifecycle.BindingRoutesToIssuingChat` | main.py:81-115 | after `/binding` with arguments, anything forwarded comes from a newly bound chat and goes to the issuing chat |
| `Lifecycle.AddedKeywordLetsMessageThrough` | main.py:187-196 | in whitelist mode, after `/add w`, a message without media from a bound, titled chat whose text contains `w` is forwarded unchanged |

## Findings

| source | as written | input that shows it | evidently intended | confidence | as-written member | corrected member |
|---|---|---|---|---|---|---|
| main.py:656-658 | `CallbackQueryHandler(mode_callback)` has no data pattern and is registered before `CallbackQueryHandler(handle_list_callback)` in the same group. The bot library runs only the first handler that accepts an update, so every button press goes to `mode_callback`. | `/list` with 51 keywords, then pressing "next page" (data `list_keywords_1`). `split('_')[1]` stores the filter mode `keywords`, which the forwarder treats as blacklist; page 2 is never shown | the mode handler accepts only data starting with `mode_`, so page buttons reach the page handler | medium, not executed | `Callbacks.PageButtonOverwritesMode` | `Callbacks.Dispatch` |
| main.py:299, main.py:384-385 | After the source check, the handler logs `chat.title or chat_id`. A Telethon user entity has no `title` attribute, so the lookup raises `AttributeError`, which the outer `except` prints and swallows. | bind a private chat with a user, whitelist mode with keyword `a`, then a text message `abc` from that chat: nothing is sent | the title is only logged when present, falling back to the chat id, and the message is forwarded like any other | medium, not executed | `Forwarder.UntitledChatSilenced` | `Forwarder.ForwardAnyChat` |

`Callbacks.DispatchAsWritten` is the routing as registered. The rest of the
model uses `Callbacks.Dispatch`, whose page-button behaviour
`Callbacks.PageButtonShowsPage` proves.

`Forwarder.Forward` is the handler as written. For every chat with a title it
equals `Forwarder.ForwardAnyChat`, and `Forwarder.ForwardAnyChatIgnoresTitle`
proves that the corrected decision treats a chat without a title exactly like
one with. The forwarding lemmas take chats with a title, where both agree.

## Left out

- The Telethon and bot clients are not modelled: login, two-step verification, command-menu registration, polling and the asyncio task set-up. These are I/O and concurrency.
- Photo download and upload through a temporary file are file I/O. Only the resulting `SendPhoto` decision is modelled.
- Failures of `send_message`/`send_photo` are not modelled. They are caught and printed; the model gives the decision, not the delivery.
- The client's `get_entity` lookup is a network call. In `/binding` it becomes the `resolve` parameter (`None` stands for the lookup raising). In `/list` it only adds chat titles, so the overview shows raw ids.
- `Timer`, `message_groups`, `last_message_time`, `GROUP_TIME_WINDOW` and `ITEMS_PER_PAGE` are declared but never used.
- The retry pause (`time.sleep(delay)`) is wall-clock only and is not modelled.
- `get_media_group_messages` is the only function with the retry decorator, and nothing calls it. The wrapper is modelled on its own.
- Reply texts, console output and the `/start` help text are not modelled. Only the state change and the structure of each reply are.
- A database failure in the middle of a command rolls the session back. The model assumes the store's writes succeed.
- The chat id and message id are taken as their decimal text (`str(chat.id)`), which is how the code compares and formats them.
- `Forwarder.MessageLink` takes `username` as `None` only when the chat object lacks the attribute. A chat whose `username` attribute is `None` formats as the text `None`; the caller passes `Some("None")`.
- The database queries (`query(...).all()`) have no `ORDER BY`. The model takes rows to come back in insertion order, which is what the keyword numbering of `Listing.KeywordPage` and the appending of `Admin.AddWords` rely on; a database returning another order would renumber the list.
- `Decimal.ParseInt` accepts ASCII digits only. Python's `int` also takes other Unicode decimal digits and `_` between digits; a `_` never reaches it here because the data is split on `_` first.
- Telethon's media objects are reduced to four cases: no `media` at all, a media-group part, a photo, and anything else. A text message shown with a link preview carries a web-page media object, so it falls under "anything else" and is annotated; the preview itself is not modelled.

/**
 The decision taken for every new message seen by the user client: whether it
 is forwarded to the configured target, and as what.
 */
module Forwarder {
  import opened Wrappers
  import opened Text
  import opened Store
  import opened Filter

  /**
   The chat a message arrived in. `id` is the decimal text of the chat id;
   `username` is `None` when the chat object has no `username` attribute at all;
   `hasTitle` says whether it has a `title` attribute, as channels and groups
   do and users do not.
   */
  datatype Chat = Chat(id: string, username: Option<string>, hasTitle: bool)

  /**
   What a message carries besides text. A media-group id is looked at before the
   media type. `NoMedia` is a message whose `media` attribute is empty; a text
   message that shows a link preview carries a web-page media object and is
   therefore `OtherMedia`, so it is annotated like any other media.
   */
  datatype Media = NoMedia | Grouped | Photo | OtherMedia

  /** An inbound message; `text` is `None` when the message has no text. */
  datatype Event = Event(chat: Chat, messageId: string, text: Option<string>, media: Media)

  /** What the bot sends to the target chat, always with Markdown parsing. */
  datatype Outcome =
    | Skip
    | SendText(target: string, content: string, disablePreview: bool)
    | SendPhoto(target: string, caption: string)

  const LinkHost: string := "https://t.me"

  /** The message text, empty when the message has none. */
  function TextOf(e: Event): string {
    e.text.GetOr("")
  }

  /** Python's `s[4:]`: everything after the first four characters, empty for shorter input. */
  function DropFour(s: string): (r: string)
    ensures |s| >= 4 ==> |r| == |s| - 4 && s == s[..4] + r
    ensures |s| < 4 ==> r == ""
  {
    if |s| >= 4 then s[4..] else ""
  }

  /** The chat part of a message link: the username when the chat has one, else `c/` and the id without its first four characters. */
  function LinkPath(chat: Chat): string {
    match chat.username
    case Some(name) => name
    case None => "c/" + DropFour(chat.id)
  }

  /** The public link to a message: by username when the chat has one, else the private `c/` form. */
  function MessageLink(chat: Chat, messageId: string): (link: string)
    ensures StartsWith(link, LinkHost + "/")
    ensures '/' !in messageId ==> LastSegment(link, '/') == messageId
    ensures chat.username.Some? && '/' !in chat.username.value && '/' !in messageId ==>
      Split(link, '/') == ["https:", "", "t.me", chat.username.value, messageId]
    ensures chat.username.None? && '/' !in DropFour(chat.id) && '/' !in messageId ==>
      Split(link, '/') == ["https:", "", "t.me", "c", DropFour(chat.id), messageId]
  {
    var link := LinkHost + "/" + LinkPath(chat) + "/" + messageId;
    assert link[..|LinkHost + "/"|] == LinkHost + "/";
    LastSegmentAfterSlash(LinkHost + "/" + LinkPath(chat), messageId);
    MessageLinkSplits(chat, messageId);
    link
  }

  /** Both link forms split on `/` into the host's pieces, the chat part and the message id. */
  lemma MessageLinkSplits(chat: Chat, messageId: string)
    ensures var link := LinkHost + "/" + LinkPath(chat) + "/" + messageId;
      && (chat.username.Some? && '/' !in chat.username.value && '/' !in messageId ==>
            Split(link, '/') == ["https:", "", "t.me", chat.username.value, messageId])
      && (chat.username.None? && '/' !in DropFour(chat.id) && '/' !in messageId ==>
            Split(link, '/') == ["https:", "", "t.me", "c", DropFour(chat.id), messageId])
  {
    if '/' !in messageId {
      match chat.username
      case Some(name) =>
        if '/' !in name {
          UsernameLinkSplits(name, messageId);
        }
      case None =>
        var d := DropFour(chat.id);
        if '/' !in d {
          PrivateLinkSplits(d, messageId);
        }
    }
  }

  /** The username form `https://t.me/<name>/<id>` splits into five pieces. */
  lemma UsernameLinkSplits(name: string, messageId: string)
    requires '/' !in name && '/' !in messageId
    ensures Split(LinkHost + "/" + name + "/" + messageId, '/') == ["https:", "", "t.me", name, messageId]
  {
    var segments := [name, messageId];
    JoinCons(name, [messageId], '/');
    assert segments == [name] + [messageId];
    SlashAssoc(LinkHost, name, messageId);
    LinkSegments(segments);
  }

  /** The private form `https://t.me/c/<chat>/<id>` splits into six pieces. */
  lemma PrivateLinkSplits(d: string, messageId: string)
    requires '/' !in d && '/' !in messageId
    ensures Split(LinkHost + "/" + ("c/" + d) + "/" + messageId, '/') == ["https:", "", "t.me", "c", d, messageId]
  {
    var segments := ["c", d, messageId];
    JoinCons(d, [messageId], '/');
    assert segments[1..] == [d] + [messageId];
    JoinCons("c", segments[1..], '/');
    assert segments == ["c"] + segments[1..];
    PrivateRegroup(d, messageId);
    LinkSegments(segments);
  }

  /** `h/x/y` grouped as `h/` followed by `x/y`. */
  lemma SlashAssoc(h: string, x: string, y: string)
    ensures h + "/" + x + "/" + y == h + "/" + (x + ['/'] + y)
  {
  }

  /** `h/c/d/m` grouped as `h/` followed by `c/d/m` built piece by piece. */
  lemma PrivateRegroup(d: string, m: string)
    ensures LinkHost + "/" + ("c/" + d) + "/" + m == LinkHost + "/" + ("c" + ['/'] + (d + ['/'] + m))
  {
  }

  /** A link built from `/`-free segments splits back into the host's pieces followed by those segments. */
  lemma LinkSegments(segments: seq<string>)
    requires |segments| >= 1
    requires forall k :: 0 <= k < |segments| ==> '/' !in segments[k]
    ensures Split(LinkHost + "/" + Join(segments, '/'), '/') == ["https:", "", "t.me"] + segments
  {
    HostJoin(segments);
    HostPiecesAvoidSlash(segments);
    SplitJoin(["https:", "", "t.me"] + segments, '/');
  }

  /** The host `https://t.me` is the join of the pieces `https:`, `` and `t.me`. */
  lemma HostJoin(segments: seq<string>)
    requires |segments| >= 1
    ensures Join(["https:", "", "t.me"] + segments, '/') == LinkHost + "/" + Join(segments, '/')
  {
    var j := Join(segments, '/');
    var a := ["t.me"] + segments;
    var b := [""] + a;
    var c := ["https:"] + b;
    JoinCons("t.me", segments, '/');
    JoinCons("", a, '/');
    JoinCons("https:", b, '/');
    assert c == ["https:", "", "t.me"] + segments;
    Reassociate("https:", "", "t.me", j);
    HostSpelling();
  }

  /** `https://t.me` spelt as its three `/`-separated pieces. */
  lemma HostSpelling()
    ensures "https:" + "/" + "" + "/" + "t.me" == LinkHost
  {
  }

  /** Three pieces and a tail joined by `/`, grouped from the left instead of the right. */
  lemma Reassociate(x: string, y: string, z: string, t: string)
    ensures x + "/" + (y + "/" + (z + "/" + t)) == (x + "/" + y + "/" + z) + "/" + t
  {
  }

  /** None of the host's pieces contains `/`, so with `/`-free segments no piece does. */
  lemma HostPiecesAvoidSlash(segments: seq<string>)
    requires forall k :: 0 <= k < |segments| ==> '/' !in segments[k]
    ensures var parts := ["https:", "", "t.me"] + segments;
      forall k :: 0 <= k < |parts| ==> '/' !in parts[k]
  {
    var parts := ["https:", "", "t.me"] + segments;
    forall k | 0 <= k < |parts| ensures '/' !in parts[k] {
      if k >= 3 {
        assert parts[k] == segments[k - 3];
      }
    }
  }

  /** The text after a final `/` is what `split('/')[-1]` returns, provided it has no `/` itself. */
  lemma LastSegmentAfterSlash(prefix: string, tail: string)
    ensures '/' !in tail ==> LastSegment(prefix + "/" + tail, '/') == tail
  {
    if '/' !in tail {
      SplitNoSep(tail, '/');
      SplitAppend(prefix, tail, '/');
    }
  }

  /** A message link rendered as an invisible Markdown link in front of the text. */
  function Annotate(link: string, text: string): (content: string)
    ensures |content| > |text| && content[|content| - |text|..] == text
    ensures content[0] == '['
    ensures IsSubstring(link, content)
  {
    var content := "[\U{200B}](" + link + ")\n\n" + text;
    assert content[4..4 + |link|] == link;
    assert OccursAt(content, link, 4);
    content
  }

  /** The message passes the source and keyword checks against the stored state. */
  function Admitted(s: State, e: Event): (b: bool)
    ensures b <==> && s.config.Some?
                   && e.chat.id in SourceIds(s.sources)
                   && (IsWhitelist(s.config.value.filterMode) <==>
                         exists i :: 0 <= i < |s.keywords| && IsSubstring(s.keywords[i].word, TextOf(e)))
  {
    && s.config.Some?
    && e.chat.id in SourceIds(s.sources)
    && ShouldForward(s.config.value.filterMode, Words(s.keywords), TextOf(e))
  }

  /**
   The forwarding decision for one inbound message, as the handler runs it. Once
   the chat is known to be a bound source, the handler logs `chat.title`; a chat
   without that attribute (a private chat with a user) raises there, the handler
   swallows the error, and nothing is sent.
   */
  function Forward(s: State, e: Event): (r: Outcome)
    ensures !s.config.Some? ==> r == Skip
    ensures e.chat.id !in SourceIds(s.sources) ==> r == Skip
    ensures !e.chat.hasTitle ==> r == Skip
    ensures r != Skip ==> e.chat.hasTitle && Admitted(s, e) && r.target == s.config.value.targetChatId
    ensures r.SendText? ==> !IsBlank(r.content)
    ensures r.SendPhoto? <==> e.chat.hasTitle && Admitted(s, e) && e.media == Photo
    ensures r.SendPhoto? ==> r.caption == TextOf(e)
    ensures e.media == Grouped && TextOf(e) == "" ==> r == Skip
    ensures e.chat.hasTitle ==> r == ForwardAnyChat(s, e)
  {
    if s.config.Some? && e.chat.id in SourceIds(s.sources) && !e.chat.hasTitle then Skip
    else ForwardAnyChat(s, e)
  }

  /**
   The forwarding decision with the title only logged when present, as the
   `chat.title or chat_id` fallback evidently intends: chats without a title are
   treated like any other.
   */
  function ForwardAnyChat(s: State, e: Event): (r: Outcome)
    ensures !s.config.Some? ==> r == Skip
    ensures e.chat.id !in SourceIds(s.sources) ==> r == Skip
    ensures r != Skip ==> Admitted(s, e) && r.target == s.config.value.targetChatId
    ensures r.SendText? ==> !IsBlank(r.content)
    ensures r.SendPhoto? <==> Admitted(s, e) && e.media == Photo
    ensures r.SendPhoto? ==> r.caption == TextOf(e)
    ensures e.media == Grouped && TextOf(e) == "" ==> r == Skip
  {
    if !Admitted(s, e) then Skip
    else
      var target := s.config.value.targetChatId;
      var text := TextOf(e);
      var link := MessageLink(e.chat, e.messageId);
      match e.media
      case Photo => SendPhoto(target, text)
      case Grouped =>
        if text == "" then Skip else SendIfNotBlank(target, Annotate(link, text), false)
      case OtherMedia => SendIfNotBlank(target, Annotate(link, text), false)
      case NoMedia => SendIfNotBlank(target, text, true)
  }

  /** The final guard: a message without media goes out only if its content is not empty after stripping. */
  function SendIfNotBlank(target: string, content: string, disablePreview: bool): (r: Outcome)
    ensures r.SendText? <==> !IsBlank(content)
    ensures r.SendText? ==> r == SendText(target, content, disablePreview)
    ensures !r.SendText? ==> r == Skip
  {
    StripEmptyIffBlank(content);
    if Strip(content) != "" then SendText(target, content, disablePreview) else Skip
  }

  /** A message is sent exactly when its chat has a title, it is admitted and its media kind leaves something to send. */
  lemma ForwardSendsIff(s: State, e: Event)
    ensures Forward(s, e) != Skip <==>
      && e.chat.hasTitle
      && Admitted(s, e)
      && match e.media
         case NoMedia => !IsBlank(TextOf(e))
         case Grouped => TextOf(e) != ""
         case Photo => true
         case OtherMedia => true
  {
    if e.chat.hasTitle && Admitted(s, e) && e.media in {Grouped, OtherMedia} {
      var c := Annotate(MessageLink(e.chat, e.messageId), TextOf(e));
      assert !IsSpace(c[0]);
    }
  }

  /** An admitted message without media from a titled chat is forwarded verbatim with previews off, unless blank. */
  lemma TextMessageForwardedVerbatim(s: State, e: Event)
    requires e.chat.hasTitle && Admitted(s, e) && e.media == NoMedia && !IsBlank(TextOf(e))
    ensures Forward(s, e) == SendText(s.config.value.targetChatId, TextOf(e), true)
  {
  }

  /** Each media-group part that has text is sent as that text behind the invisible link, with previews on. */
  lemma GroupPartAnnotated(s: State, e: Event)
    requires e.chat.hasTitle && Admitted(s, e) && e.media == Grouped && TextOf(e) != ""
    ensures Forward(s, e) ==
      SendText(s.config.value.targetChatId,
               "[\U{200B}](" + MessageLink(e.chat, e.messageId) + ")\n\n" + TextOf(e), false)
  {
    var c := Annotate(MessageLink(e.chat, e.messageId), TextOf(e));
    assert !IsSpace(c[0]);
  }

  /** Media other than a single photo or a group is sent, even without text, behind the invisible link. */
  lemma OtherMediaAnnotated(s: State, e: Event)
    requires e.chat.hasTitle && Admitted(s, e) && e.media == OtherMedia
    ensures Forward(s, e) ==
      SendText(s.config.value.targetChatId,
               "[\U{200B}](" + MessageLink(e.chat, e.messageId) + ")\n\n" + TextOf(e), false)
  {
    var c := Annotate(MessageLink(e.chat, e.messageId), TextOf(e));
    assert !IsSpace(c[0]);
  }

  /** With no keywords stored, a bound text message is never forwarded in whitelist mode, whatever it says. */
  lemma EmptyWhitelistForwardsNothing(s: State, e: Event)
    requires s.keywords == [] && s.config.Some? && IsWhitelist(s.config.value.filterMode)
    ensures Forward(s, e) == Skip
  {
    EmptyKeywordsDecision(s.config.value.filterMode, TextOf(e));
  }

  /** With no keywords stored, blacklist mode forwards every non-blank text from a bound source. */
  lemma EmptyBlacklistForwardsAll(s: State, e: Event)
    requires s.keywords == [] && s.config.Some? && !IsWhitelist(s.config.value.filterMode)
    requires e.chat.id in SourceIds(s.sources) && e.chat.hasTitle
    requires e.media == NoMedia && !IsBlank(TextOf(e))
    ensures Forward(s, e) == SendText(s.config.value.targetChatId, TextOf(e), true)
  {
    EmptyKeywordsDecision(s.config.value.filterMode, TextOf(e));
  }

  /**
   A bound private chat is silenced: an admitted, non-blank message without media from a
   chat without a title is dropped, although the intended decision sends it.
   */
  lemma UntitledChatSilenced(s: State, e: Event)
    requires Admitted(s, e) && !e.chat.hasTitle
    requires e.media == NoMedia && !IsBlank(TextOf(e))
    ensures Forward(s, e) == Skip
    ensures ForwardAnyChat(s, e) == SendText(s.config.value.targetChatId, TextOf(e), true)
  {
  }

  /** Under the intended decision, whether the chat has a title makes no difference. */
  lemma ForwardAnyChatIgnoresTitle(s: State, e: Event)
    ensures ForwardAnyChat(s, e) == Forward(s, e.(chat := e.chat.(hasTitle := true)))
  {
    var e' := e.(chat := e.chat.(hasTitle := true));
    assert TextOf(e') == TextOf(e) && Admitted(s, e') == Admitted(s, e);
    assert MessageLink(e'.chat, e'.messageId) == MessageLink(e.chat, e.messageId);
  }
}

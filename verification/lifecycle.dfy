/**
 How the administrative commands steer the forwarding decision: what a message
 meets after `/binding`, `/unbinding`, `/add` and `/remove`.
 */
module Lifecycle {
  import opened Wrappers
  import opened Text
  import opened Store
  import opened Filter
  import opened Forwarder
  import opened Admin

  /** After `/unbinding` no message is forwarded. */
  lemma UnbindingStopsForwarding(s: State, e: Event)
    ensures Forward(Unbinding(s), e) == Skip
  {
  }

  /**
   After a `/binding` with arguments, whatever is forwarded comes from one of the
   newly bound chats and goes to the chat the command was issued in.
   */
  lemma BindingRoutesToIssuingChat(s: State, args: seq<string>, chatId: string,
                                   resolve: string -> Option<string>, e: Event)
    requires |args| > 0
    ensures var r := Forward(Binding(s, args, chatId, resolve), e);
      r != Skip ==>
        && r.target == chatId
        && exists i :: 0 <= i < |args| && e.chat.id == ChatIdOfArgument(args[i], resolve)
  {
    var b := Binding(s, args, chatId, resolve);
    if Forward(b, e) != Skip {
      var ids := SourceIds(b.sources);
      var j :| 0 <= j < |ids| && ids[j] == e.chat.id;
      assert e.chat.id == ChatIdOfArgument(args[j], resolve);
    }
  }

  /**
   In whitelist mode, once `/add w` has run, a message without media from a bound, titled
   chat that contains `w` is forwarded unchanged.
   */
  lemma AddedKeywordLetsMessageThrough(s: State, w: string, e: Event)
    requires s.config.Some? && IsWhitelist(s.config.value.filterMode)
    requires e.chat.id in SourceIds(s.sources) && e.chat.hasTitle
    requires e.media == NoMedia && !IsBlank(TextOf(e))
    requires IsSubstring(w, TextOf(e))
    ensures Forward(AddKeywords(s, [w]), e) == SendText(s.config.value.targetChatId, TextOf(e), true)
  {
    var s' := AddKeywords(s, [w]);
    var ws := Words(s'.keywords);
    assert w in ws;
    var k :| 0 <= k < |ws| && ws[k] == w;
    assert AnyOccurs(ws, TextOf(e));
  }
}

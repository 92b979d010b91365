/**
 The keyword decision: which stored words occur in a message text, and whether
 the configured mode lets the message through.
 */
module Filter {
  import opened Text
  import opened Store

  /** The stored words that occur in `text`, case-sensitively, in stored order. */
  function Matched(words: seq<string>, text: string): (m: seq<string>)
    ensures |m| <= |words|
    ensures forall w :: w in m <==> w in words && IsSubstring(w, text)
  {
    if |words| == 0 then []
    else
      var rest := Matched(words[1..], text);
      assert forall w :: w in words <==> w == words[0] || w in words[1..];
      if Contains(text, words[0]) then [words[0]] + rest else rest
  }

  /** Some stored word occurs in `text`. */
  ghost predicate AnyOccurs(words: seq<string>, text: string) {
    exists k :: 0 <= k < |words| && IsSubstring(words[k], text)
  }

  /**
   Whitelist mode forwards exactly when a stored word occurs in the text;
   any other mode forwards exactly when none does.
   */
  function ShouldForward(mode: string, words: seq<string>, text: string): (b: bool)
    ensures IsWhitelist(mode) ==> (b <==> AnyOccurs(words, text))
    ensures !IsWhitelist(mode) ==> (b <==> !AnyOccurs(words, text))
  {
    var m := Matched(words, text);
    assert |m| > 0 <==> AnyOccurs(words, text) by {
      if |m| > 0 {
        assert m[0] in m;
      }
      if AnyOccurs(words, text) {
        var k :| 0 <= k < |words| && IsSubstring(words[k], text);
        assert words[k] in m;
      }
    }
    if IsWhitelist(mode) then |m| > 0 else |m| == 0
  }

  /** With no stored keywords, whitelist mode forwards nothing and blacklist mode forwards everything. */
  lemma EmptyKeywordsDecision(mode: string, text: string)
    ensures ShouldForward(mode, [], text) == !IsWhitelist(mode)
  {
  }

  /** The empty word occurs in every text, so storing it opens a whitelist and closes a blacklist. */
  lemma EmptyWordMatchesAll(mode: string, words: seq<string>, text: string)
    requires "" in words
    ensures ShouldForward(mode, words, text) == IsWhitelist(mode)
  {
    assert OccursAt(text, "", 0);
    var k :| 0 <= k < |words| && words[k] == "";
    assert IsSubstring(words[k], text);
  }
}

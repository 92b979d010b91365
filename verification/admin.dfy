/**
 The owner's administrative commands as transitions of the stored state:
 /binding, /unbinding, /add, /remove and the filter-mode buttons.
 */
module Admin {
  import opened Wrappers
  import opened Text
  import opened Store

  /** A `/binding` argument containing this text is treated as a chat link. */
  const LinkMarker: string := "https://t.me/"

  /** The type recorded for every bound source. */
  const UnknownChatType: string := "unknown"

  /**
   The chat id stored for one `/binding` argument. `resolve` stands for the
   user client's entity lookup of a link: `Some(id)` on success, `None` when it raises.
   */
  function ChatIdOfArgument(arg: string, resolve: string -> Option<string>): (id: string)
    ensures !IsSubstring(LinkMarker, arg) ==> id == arg
    ensures IsSubstring(LinkMarker, arg) && resolve(arg).Some? ==> id == resolve(arg).value
    ensures IsSubstring(LinkMarker, arg) && resolve(arg).None? ==>
      '/' !in id && |id| < |arg| && id == arg[|arg| - |id|..] && arg[|arg| - |id| - 1] == '/'
  {
    if Contains(arg, LinkMarker) then
      match resolve(arg)
      case Some(resolved) => resolved
      case None =>
        assert '/' in arg by {
          var i :| OccursAt(arg, LinkMarker, i);
          assert arg[i + 12] == LinkMarker[12];
        }
        var name := LastSegment(arg, '/');
        name
    else arg
  }

  /** An unresolvable `https://t.me/<name>` link binds the bare `<name>`. */
  lemma UnresolvedLinkBindsName(name: string, resolve: string -> Option<string>)
    requires '/' !in name && resolve(LinkMarker + name).None?
    ensures ChatIdOfArgument(LinkMarker + name, resolve) == name
  {
    var arg := LinkMarker + name;
    assert OccursAt(arg, LinkMarker, 0);
    assert arg == "https://t.me" + "/" + name;
    SplitNoSep(name, '/');
    SplitAppend("https://t.me", name, '/');
  }

  /**
   `/binding <args>` issued in chat `chatId`: with no arguments nothing changes;
   otherwise the bound sources become exactly the arguments, and the configuration
   points at `chatId`, keeping its mode or starting in whitelist mode.
   */
  function Binding(s: State, args: seq<string>, chatId: string, resolve: string -> Option<string>): (r: State)
    ensures |args| == 0 ==> r == s
    ensures |args| > 0 ==>
      && |r.sources| == |args|
      && (forall i :: 0 <= i < |args| ==>
            r.sources[i] == Source(ChatIdOfArgument(args[i], resolve), UnknownChatType))
      && r.config.Some? && r.config.value.targetChatId == chatId
      && r.config.value.filterMode == (if s.config.Some? then s.config.value.filterMode else WhitelistMode)
    ensures r.keywords == s.keywords
  {
    if |args| == 0 then s
    else
      var sources := seq(|args|, i requires 0 <= i < |args| =>
        Source(ChatIdOfArgument(args[i], resolve), UnknownChatType));
      var config := match s.config
        case Some(c) => c.(targetChatId := chatId)
        case None => Config(chatId, WhitelistMode);
      State(sources, Some(config), s.keywords)
  }

  /** `/unbinding`: every table is emptied. */
  function Unbinding(s: State): (r: State)
    ensures r.sources == [] && r.config == None && r.keywords == []
  {
    Empty
  }

  /** Some stored keyword has exactly the word `w`. */
  function HasWord(keywords: seq<Keyword>, w: string): (b: bool)
    ensures b <==> w in Words(keywords)
  {
    exists i :: 0 <= i < |keywords| && keywords[i].word == w
  }

  /**
   Adds the words one by one, each with polarity `isWhitelist`, skipping a word
   that is already stored, including one added earlier in the same call.
   */
  function AddWords(keywords: seq<Keyword>, words: seq<string>, isWhitelist: bool): (r: seq<Keyword>)
    ensures |keywords| <= |r| && r[..|keywords|] == keywords
    ensures forall i :: |keywords| <= i < |r| ==>
      r[i].isWhitelist == isWhitelist && r[i].word in words && r[i].word !in Words(keywords)
    ensures forall i, j :: |keywords| <= i < j < |r| ==> r[i].word != r[j].word
    ensures forall w :: w in words ==> w in Words(r)
    decreases |words|
  {
    if |words| == 0 then keywords
    else
      var w := words[0];
      var next := if HasWord(keywords, w) then keywords else keywords + [Keyword(w, isWhitelist)];
      var r := AddWords(next, words[1..], isWhitelist);
      AddWordsStep(keywords, words, isWhitelist, next, r);
      r
  }

  /** The inductive step of `AddWords`: the first word is handled, the rest by the recursive call's contract. */
  lemma AddWordsStep(keywords: seq<Keyword>, words: seq<string>, isWhitelist: bool,
                     next: seq<Keyword>, r: seq<Keyword>)
    requires |words| > 0
    requires next == if HasWord(keywords, words[0]) then keywords
                     else keywords + [Keyword(words[0], isWhitelist)]
    requires |next| <= |r| && r[..|next|] == next
    requires forall i :: |next| <= i < |r| ==>
      r[i].isWhitelist == isWhitelist && r[i].word in words[1..] && r[i].word !in Words(next)
    requires forall i, j :: |next| <= i < j < |r| ==> r[i].word != r[j].word
    requires forall w :: w in words[1..] ==> w in Words(r)
    ensures |keywords| <= |r| && r[..|keywords|] == keywords
    ensures forall i :: |keywords| <= i < |r| ==>
      r[i].isWhitelist == isWhitelist && r[i].word in words && r[i].word !in Words(keywords)
    ensures forall i, j :: |keywords| <= i < j < |r| ==> r[i].word != r[j].word
    ensures forall w :: w in words ==> w in Words(r)
  {
    var w := words[0];
    assert r[..|keywords|] == next[..|keywords|] == keywords;
    assert HasWord(next, w) by {
      if !HasWord(keywords, w) {
        assert next[|keywords|].word == w;
      }
    }
    forall i | |keywords| <= i < |r|
      ensures r[i].isWhitelist == isWhitelist && r[i].word in words && r[i].word !in Words(keywords)
    {
      AddedRowIsNew(keywords, words, isWhitelist, next, r, i);
    }
    forall i, j | |keywords| <= i < j < |r|
      ensures r[i].word != r[j].word
    {
      if i < |next| {
        assert r[i] == next[i] && r[i].word == w;
      }
    }
    FirstWordKept(next, r, w);
    assert forall v :: v in words ==> v == w || v in words[1..];
  }

  /** A word already among the rows before the recursive call is still among them after it. */
  lemma FirstWordKept(next: seq<Keyword>, r: seq<Keyword>, w: string)
    requires HasWord(next, w)
    requires |next| <= |r| && r[..|next|] == next
    ensures w in Words(r)
  {
    var k :| 0 <= k < |next| && next[k].word == w;
    assert r[k] == next[k];
    assert Words(r)[k] == w;
  }

  /** One row appended by `AddWords`: either the first word itself, or a row the recursive call added. */
  lemma AddedRowIsNew(keywords: seq<Keyword>, words: seq<string>, isWhitelist: bool,
                      next: seq<Keyword>, r: seq<Keyword>, i: int)
    requires |words| > 0
    requires next == if HasWord(keywords, words[0]) then keywords
                     else keywords + [Keyword(words[0], isWhitelist)]
    requires |next| <= |r| && r[..|next|] == next
    requires |keywords| <= i < |r|
    requires i >= |next| ==>
      r[i].isWhitelist == isWhitelist && r[i].word in words[1..] && r[i].word !in Words(next)
    ensures r[i].isWhitelist == isWhitelist && r[i].word in words && r[i].word !in Words(keywords)
  {
    if i >= |next| {
      var k :| 0 <= k < |words[1..]| && words[1..][k] == r[i].word;
      assert words[k + 1] == r[i].word;
      assert Words(keywords) == Words(next)[..|keywords|];
    } else {
      assert r[i] == next[i] == Keyword(words[0], isWhitelist);
    }
  }

  /** `/add` of one word appends it, with the given polarity, unless it is already stored. */
  lemma AddOneWord(keywords: seq<Keyword>, v: string, isWhitelist: bool)
    ensures v in Words(keywords) ==> AddWords(keywords, [v], isWhitelist) == keywords
    ensures v !in Words(keywords) ==>
      AddWords(keywords, [v], isWhitelist) == keywords + [Keyword(v, isWhitelist)]
  {
    assert [v][1..] == [];
  }

  /** The words are added in argument order: adding `ws` then `v` is adding `ws + [v]`. */
  lemma {:induction false} AddWordsAppendsInOrder(keywords: seq<Keyword>, ws: seq<string>, v: string, isWhitelist: bool)
    ensures AddWords(keywords, ws + [v], isWhitelist) == AddWords(AddWords(keywords, ws, isWhitelist), [v], isWhitelist)
    decreases |ws|
  {
    if |ws| == 0 {
      assert ws + [v] == [v];
    } else {
      var w := ws[0];
      var next := if HasWord(keywords, w) then keywords else keywords + [Keyword(w, isWhitelist)];
      assert (ws + [v])[0] == w;
      assert (ws + [v])[1..] == ws[1..] + [v];
      AddWordsAppendsInOrder(next, ws[1..], v, isWhitelist);
    }
  }

  /** No word is stored twice. */
  predicate DistinctWords(keywords: seq<Keyword>) {
    forall i, j :: 0 <= i < j < |keywords| ==> keywords[i].word != keywords[j].word
  }

  /** Adding keywords keeps the stored words free of duplicates. */
  lemma AddWordsKeepsDistinct(keywords: seq<Keyword>, words: seq<string>, isWhitelist: bool)
    requires DistinctWords(keywords)
    ensures DistinctWords(AddWords(keywords, words, isWhitelist))
  {
    var r := AddWords(keywords, words, isWhitelist);
    DistinctExtension(keywords, r);
  }

  /** Distinct rows followed by distinct rows whose words are all new stay distinct. */
  lemma DistinctExtension(keywords: seq<Keyword>, r: seq<Keyword>)
    requires DistinctWords(keywords)
    requires |keywords| <= |r| && r[..|keywords|] == keywords
    requires forall i :: |keywords| <= i < |r| ==> r[i].word !in Words(keywords)
    requires forall i, j :: |keywords| <= i < j < |r| ==> r[i].word != r[j].word
    ensures DistinctWords(r)
  {
    forall i, j | 0 <= i < j < |r|
      ensures r[i].word != r[j].word
    {
      if j < |keywords| {
        assert r[i] == r[..|keywords|][i] == keywords[i];
        assert r[j] == r[..|keywords|][j] == keywords[j];
      } else if i < |keywords| {
        assert r[i] == r[..|keywords|][i] == keywords[i];
        assert Words(keywords)[i] == r[i].word;
        assert r[i].word in Words(keywords);
      }
    }
  }

  /**
   `/add <args>`: with no arguments nothing changes; otherwise each argument not
   yet stored is appended, marked whitelist when the current mode is whitelist
   or when no configuration exists.
   */
  function AddKeywords(s: State, args: seq<string>): (r: State)
    ensures |args| == 0 ==> r == s
    ensures r.sources == s.sources && r.config == s.config
    ensures r.keywords == AddWords(s.keywords, args, s.config.None? || IsWhitelist(s.config.value.filterMode))
  {
    if |args| == 0 then s
    else
      var isWhitelist := match s.config
        case Some(c) => IsWhitelist(c.filterMode)
        case None => true;
      s.(keywords := AddWords(s.keywords, args, isWhitelist))
  }

  /** Deletes every stored keyword whose word is exactly `w`, keeping the rest in order. */
  function Without(keywords: seq<Keyword>, w: string): (r: seq<Keyword>)
    ensures forall k: Keyword :: k in r <==> k in keywords && k.word != w
    ensures forall k: Keyword :: k.word != w ==> multiset(r)[k] == multiset(keywords)[k]
    ensures w !in Words(keywords) ==> r == keywords
  {
    if |keywords| == 0 then []
    else
      var rest := Without(keywords[1..], w);
      WithoutStepMembers(keywords, w, rest);
      WithoutStepCounts(keywords, w, rest);
      WithoutStepAbsent(keywords, w, rest);
      if keywords[0].word == w then rest else [keywords[0]] + rest
  }

  /** The inductive step of `Without` for membership: the head row survives exactly when its word differs. */
  lemma WithoutStepMembers(keywords: seq<Keyword>, w: string, rest: seq<Keyword>)
    requires |keywords| > 0
    requires forall k: Keyword :: k in rest <==> k in keywords[1..] && k.word != w
    ensures var r := if keywords[0].word == w then rest else [keywords[0]] + rest;
      forall k: Keyword :: k in r <==> k in keywords && k.word != w
  {
    assert forall k: Keyword :: k in keywords <==> k == keywords[0] || k in keywords[1..];
  }

  /** The inductive step of `Without` for multiplicities: rows with other words keep their counts. */
  lemma WithoutStepCounts(keywords: seq<Keyword>, w: string, rest: seq<Keyword>)
    requires |keywords| > 0
    requires forall k: Keyword :: k.word != w ==> multiset(rest)[k] == multiset(keywords[1..])[k]
    ensures var r := if keywords[0].word == w then rest else [keywords[0]] + rest;
      forall k: Keyword :: k.word != w ==> multiset(r)[k] == multiset(keywords)[k]
  {
    assert keywords == [keywords[0]] + keywords[1..];
    assert multiset(keywords) == multiset{keywords[0]} + multiset(keywords[1..]);
  }

  /** The inductive step of `Without` when `w` is absent: every row is kept. */
  lemma WithoutStepAbsent(keywords: seq<Keyword>, w: string, rest: seq<Keyword>)
    requires |keywords| > 0
    requires w !in Words(keywords[1..]) ==> rest == keywords[1..]
    ensures var r := if keywords[0].word == w then rest else [keywords[0]] + rest;
      w !in Words(keywords) ==> r == keywords
  {
    if w !in Words(keywords) {
      assert Words(keywords)[0] == keywords[0].word;
      assert Words(keywords[1..]) == Words(keywords)[1..];
      assert keywords == [keywords[0]] + keywords[1..];
    }
  }


  /** Deletes the words one after another, as the command loops over its arguments. */
  function RemoveWords(keywords: seq<Keyword>, words: seq<string>): (r: seq<Keyword>)
    ensures forall k: Keyword :: k in r <==> k in keywords && k.word !in words
    ensures forall k: Keyword :: k.word !in words ==> multiset(r)[k] == multiset(keywords)[k]
    decreases |words|
  {
    if |words| == 0 then keywords
    else
      var r := RemoveWords(Without(keywords, words[0]), words[1..]);
      assert forall v :: v in words <==> v == words[0] || v in words[1..];
      r
  }

  /** `/remove <args>`: with no arguments nothing changes; otherwise every keyword equal to an argument is deleted. */
  function RemoveKeywords(s: State, args: seq<string>): (r: State)
    ensures |args| == 0 ==> r == s
    ensures r.sources == s.sources && r.config == s.config
    ensures r.keywords == RemoveWords(s.keywords, args)
  {
    if |args| == 0 then s else s.(keywords := RemoveWords(s.keywords, args))
  }

  /** A single row survives deletion of `w` exactly when its word is not `w`. */
  lemma WithoutOne(k: Keyword, w: string)
    ensures k.word == w ==> Without([k], w) == []
    ensures k.word != w ==> Without([k], w) == [k]
  {
    assert [k][1..] == [];
  }

  /** Deletion works row by row, so the surviving rows keep their relative order. */
  lemma {:induction false} WithoutConcat(a: seq<Keyword>, b: seq<Keyword>, w: string)
    ensures Without(a + b, w) == Without(a, w) + Without(b, w)
    decreases |a|
  {
    if |a| == 0 {
      assert a + b == b;
    } else {
      ConsShape(a, b);
      WithoutConcat(a[1..], b, w);
      WithoutCons(a[0], a[1..] + b, w);
      WithoutCons(a[0], a[1..], w);
      AppendAssoc(if a[0].word == w then [] else [a[0]], Without(a[1..], w), Without(b, w));
    }
  }

  /** One step of `Without`: the first row is kept or dropped on its own. */
  lemma WithoutCons(k: Keyword, rest: seq<Keyword>, w: string)
    ensures Without([k] + rest, w) == (if k.word == w then [] else [k]) + Without(rest, w)
  {
    assert ([k] + rest)[1..] == rest;
  }

  /** A non-empty sequence is its head in front of its tail, also with more appended. */
  lemma ConsShape<T>(a: seq<T>, b: seq<T>)
    requires |a| > 0
    ensures a == [a[0]] + a[1..] && a + b == [a[0]] + (a[1..] + b)
  {
  }

  /** Concatenation regroups freely. */
  lemma AppendAssoc<T>(h: seq<T>, x: seq<T>, y: seq<T>)
    ensures h + (x + y) == (h + x) + y
  {
  }

  /** Deleting several words also works row by row, keeping the survivors in order. */
  lemma {:induction false} RemoveWordsConcat(a: seq<Keyword>, b: seq<Keyword>, words: seq<string>)
    ensures RemoveWords(a + b, words) == RemoveWords(a, words) + RemoveWords(b, words)
    decreases |words|
  {
    if |words| > 0 {
      WithoutConcat(a, b, words[0]);
      RemoveWordsConcat(Without(a, words[0]), Without(b, words[0]), words[1..]);
    }
  }

  /** Removing a word that `/add` just appended restores the keyword table. */
  lemma RemoveUndoesAdd(keywords: seq<Keyword>, w: string, isWhitelist: bool)
    requires w !in Words(keywords)
    ensures RemoveWords(AddWords(keywords, [w], isWhitelist), [w]) == keywords
  {
    var added := AddWords(keywords, [w], isWhitelist);
    assert added == keywords + [Keyword(w, isWhitelist)];
    WithoutAppend(keywords, Keyword(w, isWhitelist), w);
  }

  /** Deleting a word that occurs only in a row appended last removes just that row. */
  lemma WithoutAppend(keywords: seq<Keyword>, k: Keyword, w: string)
    requires w !in Words(keywords) && k.word == w
    ensures Without(keywords + [k], w) == keywords
  {
    WithoutConcat(keywords, [k], w);
    WithoutOne(k, w);
    assert keywords + [] == keywords;
  }

  /**
   Python's `data.split('_')[1]`: the text between the first `_` and the next
   one (or the end); `None` where that indexing raises, i.e. when there is no `_`.
   */
  function ModeOf(data: string): (m: Option<string>)
    ensures m.None? <==> '_' !in data
    ensures m.Some? ==> '_' !in m.value
    ensures m.Some? ==> exists i ::
      && 0 <= i < |data| && data[i] == '_' && '_' !in data[..i]
      && StartsWith(data[i + 1..], m.value)
      && (i + 1 + |m.value| == |data| || data[i + 1 + |m.value|] == '_')
  {
    var parts := Split(data, '_');
    SplitManyIffSep(data, '_');
    SplitPartsAvoidSep(data, '_');
    if |parts| > 1 then
      SecondField(data);
      Some(parts[1])
    else None
  }

  /** Where `split('_')[1]` sits: right after the first `_`, running to the next `_` or the end. */
  lemma SecondField(data: string)
    requires '_' in data
    ensures |Split(data, '_')| > 1
    ensures var parts := Split(data, '_'); var i := |parts[0]|; var f := parts[1];
      && 0 <= i < |data| && data[i] == '_' && '_' !in data[..i]
      && StartsWith(data[i + 1..], f)
      && (i + 1 + |f| == |data| || data[i + 1 + |f|] == '_')
  {
    var parts := Split(data, '_');
    SplitManyIffSep(data, '_');
    SplitHead(data, '_');
    SplitTail(data, '_');
    var i := |parts[0]|;
    var rest := data[i + 1..];
    assert parts[1] == Split(rest, '_')[0];
    SplitHead(rest, '_');
  }

  /** The buttons' data `mode_<m>` selects mode `<m>`. */
  lemma ModeOfButton(m: string)
    requires '_' !in m
    ensures ModeOf("mode_" + m) == Some(m)
  {
    assert "mode_" + m == "mode" + "_" + m;
    SplitNoSep("mode", '_');
    SplitNoSep(m, '_');
    SplitAppend("mode", m, '_');
  }

  /**
   A filter-mode button press: the mode read from the data replaces the stored
   one, creating a configuration with an empty target if none exists; when the
   data has no `_` the handler raises and nothing changes.
   */
  function ModeCallback(s: State, data: string): (r: State)
    ensures '_' !in data ==> r == s
    ensures '_' in data ==>
      && r.config.Some? && r.config.value.filterMode == ModeOf(data).value
      && r.config.value.targetChatId == (if s.config.Some? then s.config.value.targetChatId else "")
    ensures r.sources == s.sources && r.keywords == s.keywords
  {
    match ModeOf(data)
    case None => s
    case Some(mode) =>
      var config := match s.config
        case Some(c) => c.(filterMode := mode)
        case None => Config("", mode);
      s.(config := Some(config))
  }

  /** The owner's slash commands. `/start` and `/list` only reply. */
  datatype Command =
    | Start
    | Bind(args: seq<string>, chatId: string)
    | Unbind
    | Add(args: seq<string>)
    | Remove(args: seq<string>)
    | List

  /** Runs a command sent by `senderId`; every command ignores anyone but the configured owner. */
  function Execute(s: State, senderId: int, ownerId: int, cmd: Command, resolve: string -> Option<string>): (r: State)
    ensures senderId != ownerId ==> r == s
    ensures cmd.Start? || cmd.List? ==> r == s
  {
    if senderId != ownerId then s
    else
      match cmd
      case Start => s
      case Bind(args, chatId) => Binding(s, args, chatId, resolve)
      case Unbind => Unbinding(s)
      case Add(args) => AddKeywords(s, args)
      case Remove(args) => RemoveKeywords(s, args)
      case List => s
  }
}

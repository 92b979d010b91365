/**
 Python string primitives the forwarder relies on: substring containment
 (`w in s`), `str.strip()` truthiness and `str.split(sep)`.
 */
module Text {

  /** `w` occurs in `t` starting at position `i`. */
  ghost predicate OccursAt(t: string, w: string, i: int) {
    0 <= i && i + |w| <= |t| && t[i..i + |w|] == w
  }

  /** Python's `w in t` for strings: some occurrence of `w` inside `t`. */
  ghost predicate IsSubstring(w: string, t: string) {
    exists i :: OccursAt(t, w, i)
  }

  /** True when `t` begins with `w`. */
  predicate StartsWith(t: string, w: string) {
    |w| <= |t| && t[..|w|] == w
  }

  /** Two prefixes that differ in their first character cannot both begin `t`. */
  lemma StartsWithExclusive(t: string, v: string, w: string)
    requires |v| > 0 && |w| > 0 && v[0] != w[0]
    ensures StartsWith(t, v) ==> !StartsWith(t, w)
  {
    if StartsWith(t, v) {
      assert t[..|v|][0] == v[0];
    }
  }

  /** Executable substring test, scanning `t` from the left. */
  function Contains(t: string, w: string): (b: bool)
    ensures b <==> IsSubstring(w, t)
    decreases |t|
  {
    if StartsWith(t, w) then
      assert OccursAt(t, w, 0);
      true
    else if |t| == 0 then
      false
    else
      ShiftOccurrence(t, w);
      Contains(t[1..], w)
  }

  /** Past a non-matching first position, `w` occurs in `t` iff it occurs in `t[1..]`. */
  lemma ShiftOccurrence(t: string, w: string)
    requires |t| > 0 && !StartsWith(t, w)
    ensures IsSubstring(w, t) <==> IsSubstring(w, t[1..])
  {
    if IsSubstring(w, t) {
      var i :| OccursAt(t, w, i);
      assert i != 0;
      assert t[1..][i - 1..i - 1 + |w|] == t[i..i + |w|];
      assert OccursAt(t[1..], w, i - 1);
    }
    if IsSubstring(w, t[1..]) {
      var i :| OccursAt(t[1..], w, i);
      assert t[i + 1..i + 1 + |w|] == t[1..][i..i + |w|];
      assert OccursAt(t, w, i + 1);
    }
  }

  /** The characters Python's `str.isspace()` accepts, i.e. what `str.strip()` removes. */
  predicate IsSpace(c: char) {
    ('\U{9}' <= c <= '\U{D}') || ('\U{1C}' <= c <= '\U{20}')
    || c == '\U{85}' || c == '\U{A0}' || c == '\U{1680}'
    || ('\U{2000}' <= c <= '\U{200A}') || c == '\U{2028}' || c == '\U{2029}'
    || c == '\U{202F}' || c == '\U{205F}' || c == '\U{3000}'
  }

  /** Every character of `s` is whitespace (vacuously true of ""). */
  predicate IsBlank(s: string) {
    forall i :: 0 <= i < |s| ==> IsSpace(s[i])
  }

  /** Whitespace in front of a blank string leaves it blank. */
  lemma BlankCons(c: char, rest: string)
    requires IsSpace(c) && IsBlank(rest)
    ensures IsBlank([c] + rest)
  {
    var d := [c] + rest;
    forall i | 0 <= i < |d| ensures IsSpace(d[i]) {
      if i > 0 {
        assert d[i] == rest[i - 1];
      }
    }
  }

  /** Whitespace after a blank string leaves it blank. */
  lemma BlankSnoc(rest: string, c: char)
    requires IsBlank(rest) && IsSpace(c)
    ensures IsBlank(rest + [c])
  {
    var d := rest + [c];
    forall i | 0 <= i < |d| ensures IsSpace(d[i]) {
      if i < |rest| {
        assert d[i] == rest[i];
      }
    }
  }

  /** `s.lstrip()`: drops leading whitespace. */
  function StripLeft(s: string): (r: string)
    ensures |r| <= |s| && r == s[|s| - |r|..]
    ensures IsBlank(s[..|s| - |r|])
    ensures r == [] || !IsSpace(r[0])
    decreases |s|
  {
    if |s| > 0 && IsSpace(s[0]) then
      var t := s[1..];
      var r := StripLeft(t);
      assert t[|t| - |r|..] == s[|s| - |r|..];
      assert s[..|s| - |r|] == [s[0]] + t[..|t| - |r|];
      BlankCons(s[0], t[..|t| - |r|]);
      r
    else s
  }

  /** `s.rstrip()`: drops trailing whitespace. */
  function StripRight(s: string): (r: string)
    ensures |r| <= |s| && r == s[..|r|]
    ensures IsBlank(s[|r|..])
    ensures r == [] || !IsSpace(r[|r| - 1])
    decreases |s|
  {
    if |s| > 0 && IsSpace(s[|s| - 1]) then
      var t := s[..|s| - 1];
      var r := StripRight(t);
      assert t[..|r|] == s[..|r|];
      assert s[|r|..] == t[|r|..] + [s[|s| - 1]];
      BlankSnoc(t[|r|..], s[|s| - 1]);
      r
    else s
  }

  /** `s.strip()`: drops whitespace at both ends. */
  function Strip(s: string): (r: string)
  {
    StripRight(StripLeft(s))
  }

  /** `s.strip()` is falsy exactly when `s` is empty or whitespace only. */
  lemma StripEmptyIffBlank(s: string)
    ensures Strip(s) == "" <==> IsBlank(s)
  {
    var l := StripLeft(s);
    if !IsBlank(s) {
      var k :| 0 <= k < |s| && !IsSpace(s[k]);
      assert l[k - (|s| - |l|)] == s[k];
    }
  }

  /** Python's `s.split(sep)` for a one-character separator, built from the left one character at a time. */
  function Split(s: string, sep: char): (parts: seq<string>)
    ensures |parts| >= 1
    decreases |s|
  {
    if |s| == 0 then [""]
    else
      var rest := Split(s[1..], sep);
      if s[0] == sep then [""] + rest
      else [[s[0]] + rest[0]] + rest[1..]
  }

  /** Python's `sep.join(parts)`. */
  function Join(parts: seq<string>, sep: char): string
  {
    if |parts| == 0 then ""
    else if |parts| == 1 then parts[0]
    else parts[0] + [sep] + Join(parts[1..], sep)
  }

  /** Joining a piece in front of a non-empty list puts one separator between it and the rest. */
  lemma JoinCons(p: string, rest: seq<string>, sep: char)
    requires |rest| >= 1
    ensures Join([p] + rest, sep) == p + [sep] + Join(rest, sep)
  {
    assert ([p] + rest)[1..] == rest;
  }

  /** Python's `s.split(sep)[-1]`: the text after the last separator. */
  function LastSegment(s: string, sep: char): (r: string)
    ensures sep !in r
    ensures |r| <= |s| && r == s[|s| - |r|..]
    ensures |r| < |s| ==> s[|s| - |r| - 1] == sep
  {
    var parts := Split(s, sep);
    SplitPartsAvoidSep(s, sep);
    SplitLastIsSuffix(s, sep);
    parts[|parts| - 1]
  }

  /** No piece produced by `split` contains the separator. */
  lemma {:induction false} SplitPartsAvoidSep(s: string, sep: char)
    ensures forall k :: 0 <= k < |Split(s, sep)| ==> sep !in Split(s, sep)[k]
    decreases |s|
  {
    if |s| > 0 {
      SplitPartsAvoidSep(s[1..], sep);
    }
  }

  /** The last piece of a split is a suffix of the input, preceded by a separator when shorter. */
  lemma {:induction false} SplitLastIsSuffix(s: string, sep: char)
    ensures var parts := Split(s, sep); var r := parts[|parts| - 1];
      && |r| <= |s| && r == s[|s| - |r|..]
      && (|r| < |s| ==> s[|s| - |r| - 1] == sep)
      && (|parts| == 1 ==> r == s)
      && (|parts| > 1 ==> |r| < |s|)
    decreases |s|
  {
    if |s| > 0 {
      SplitLastIsSuffix(s[1..], sep);
      var rest := Split(s[1..], sep);
      var r := rest[|rest| - 1];
      TailSuffix(s, |r|);
      var parts := Split(s, sep);
      if s[0] == sep {
        assert parts == [""] + rest;
        assert parts[|parts| - 1] == r;
      } else if |rest| == 1 {
        assert parts == [[s[0]] + rest[0]];
        assert [s[0]] + s[1..] == s;
      } else {
        assert parts == [[s[0]] + rest[0]] + rest[1..];
        assert parts[|parts| - 1] == r;
      }
    }
  }

  /** A suffix of `s[1..]` is the same suffix of `s`, and so is the character before it. */
  lemma TailSuffix(s: string, n: nat)
    requires n < |s|
    ensures s[1..][|s| - 1 - n..] == s[|s| - n..]
    ensures n < |s| - 1 ==> s[1..][|s| - 1 - n - 1] == s[|s| - n - 1]
  {
  }

  /** A separator-free string splits into itself alone. */
  lemma {:induction false} SplitNoSep(s: string, sep: char)
    requires sep !in s
    ensures Split(s, sep) == [s]
    decreases |s|
  {
    if |s| > 0 {
      SplitNoSep(s[1..], sep);
      assert [s[0]] + s[1..] == s;
    }
  }

  /** Joining what `split` produced gives back the original string. */
  lemma {:induction false} JoinSplit(s: string, sep: char)
    ensures Join(Split(s, sep), sep) == s
    decreases |s|
  {
    if |s| > 0 {
      JoinSplit(s[1..], sep);
      var rest := Split(s[1..], sep);
      assert [s[0]] + s[1..] == s;
      if s[0] == sep {
        assert ([""] + rest)[1..] == rest;
      } else {
        var parts := [[s[0]] + rest[0]] + rest[1..];
        if |rest| > 1 {
          assert parts[1..] == rest[1..];
          assert Join(rest, sep) == rest[0] + [sep] + Join(rest[1..], sep);
        }
      }
    }
  }

  /** One step of `split`: a leading separator opens an empty first piece. */
  lemma SplitConsSep(t: string, sep: char)
    ensures Split([sep] + t, sep) == [""] + Split(t, sep)
  {
    assert ([sep] + t)[1..] == t;
  }

  /** One step of `split`: any other leading character joins the first piece of the rest. */
  lemma SplitConsOther(c: char, t: string, sep: char)
    requires c != sep
    ensures Split([c] + t, sep) == [[c] + Split(t, sep)[0]] + Split(t, sep)[1..]
  {
    assert ([c] + t)[1..] == t;
  }

  /** Splitting at a separator splits the two sides independently. */
  lemma {:induction false} SplitAppend(a: string, b: string, sep: char)
    ensures Split(a + [sep] + b, sep) == Split(a, sep) + Split(b, sep)
    decreases |a|
  {
    if |a| == 0 {
      assert a + [sep] + b == [sep] + b;
      SplitConsSep(b, sep);
    } else {
      var c, tail := a[0], a[1..];
      assert a == [c] + tail;
      assert a + [sep] + b == [c] + (tail + [sep] + b);
      SplitAppend(tail, b, sep);
      SplitAppendStep(c, tail, b, sep);
    }
  }

  /** The inductive step of `SplitAppend`: a leading character enters the first piece on both sides. */
  lemma SplitAppendStep(c: char, tail: string, b: string, sep: char)
    requires Split(tail + [sep] + b, sep) == Split(tail, sep) + Split(b, sep)
    ensures Split([c] + (tail + [sep] + b), sep) == Split([c] + tail, sep) + Split(b, sep)
  {
    var x := tail + [sep] + b;
    if c == sep {
      SplitConsSep(x, sep);
      SplitConsSep(tail, sep);
    } else {
      SplitConsOther(c, x, sep);
      SplitConsOther(c, tail, sep);
      PrependToFirst(c, Split(tail, sep), Split(b, sep));
    }
  }

  /** Putting a character in front of the first piece commutes with appending more pieces. */
  lemma PrependToFirst(c: char, rest: seq<string>, right: seq<string>)
    requires |rest| >= 1
    ensures [[c] + (rest + right)[0]] + (rest + right)[1..] == ([[c] + rest[0]] + rest[1..]) + right
  {
    assert (rest + right)[0] == rest[0];
    assert (rest + right)[1..] == rest[1..] + right;
  }

  /** Splitting a join of separator-free parts gives back the parts. */
  lemma {:induction false} SplitJoin(parts: seq<string>, sep: char)
    requires |parts| >= 1
    requires forall k :: 0 <= k < |parts| ==> sep !in parts[k]
    ensures Split(Join(parts, sep), sep) == parts
    decreases |parts|
  {
    SplitNoSep(parts[0], sep);
    if |parts| > 1 {
      SplitJoin(parts[1..], sep);
      SplitAppend(parts[0], Join(parts[1..], sep), sep);
      assert [parts[0]] + parts[1..] == parts;
    }
  }

  /** The first piece of a split runs from the start up to the first separator, or to the end. */
  lemma {:induction false} SplitHead(s: string, sep: char)
    ensures var p := Split(s, sep)[0];
      && |p| <= |s| && s[..|p|] == p && sep !in p
      && (|p| < |s| ==> s[|p|] == sep)
    decreases |s|
  {
    SplitPartsAvoidSep(s, sep);
    if |s| > 0 && s[0] != sep {
      SplitHead(s[1..], sep);
      var q := Split(s[1..], sep)[0];
      assert s[..|q| + 1] == [s[0]] + s[1..][..|q|];
    }
  }

  /** Past the first separator, the remaining pieces are the split of the rest of the string. */
  lemma {:induction false} SplitTail(s: string, sep: char)
    requires sep in s
    ensures var p := Split(s, sep)[0];
      && |p| < |s|
      && Split(s, sep)[1..] == Split(s[|p| + 1..], sep)
    decreases |s|
  {
    if s[0] == sep {
      assert Split(s, sep)[1..] == Split(s[1..], sep);
    } else {
      var t := s[1..];
      assert sep in t by {
        var k :| 0 <= k < |s| && s[k] == sep;
        assert t[k - 1] == sep;
      }
      SplitTail(t, sep);
      var q := Split(t, sep)[0];
      assert t[|q| + 1..] == s[|q| + 2..];
    }
  }

  /** A string splits into more than one piece exactly when it contains the separator. */
  lemma {:induction false} SplitManyIffSep(s: string, sep: char)
    ensures |Split(s, sep)| > 1 <==> sep in s
    decreases |s|
  {
    if sep !in s {
      SplitNoSep(s, sep);
    } else if s[0] != sep {
      SplitManyIffSep(s[1..], sep);
    }
  }
}

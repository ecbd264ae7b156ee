/** How the hero title is drawn (App.tsx:190-208): a title that looks like
    markup is injected as HTML; otherwise it is split on spaces and its last
    word is drawn in the highlight colour. */
module HeroTitle {
  import opened Types

  predicate IsAsciiLetter(c: char)
  {
    'a' <= c <= 'z' || 'A' <= c <= 'Z'
  }

  /** Position `i` opens something tag-like: a `<` directly followed by a letter. */
  predicate OpensTag(s: string, i: int)
    requires 0 <= i
  {
    i + 1 < |s| && s[i] == '<' && IsAsciiLetter(s[i + 1])
  }

  /** The pattern `/<[a-z][\s\S]*>/i` occurs in `s`: a `<`, a letter of either
      case right after it, and a `>` somewhere after that letter. */
  ghost predicate MatchesTagPattern(s: string)
  {
    exists i, j :: 0 <= i && i + 2 <= j < |s| && OpensTag(s, i) && s[j] == '>'
  }

  /** The leftmost tag opening at or after `from`, as the regex engine tries them. */
  function FirstTagOpen(s: string, from: nat): (r: Option<nat>)
    ensures r.Some? ==> from <= r.value && OpensTag(s, r.value)
    ensures r.Some? ==> forall k :: from <= k < r.value ==> !OpensTag(s, k)
    ensures r.None? ==> forall k :: from <= k ==> !OpensTag(s, k)
    decreases |s| - from
  {
    if from + 1 >= |s| then None
    else if OpensTag(s, from) then Some(from)
    else FirstTagOpen(s, from + 1)
  }

  /** `isHeroHtml`: scan for the leftmost tag opening, then for a later `>`. */
  predicate IsHtml(s: string): (b: bool)
    ensures b ==> '<' in s && '>' in s && |s| >= 3
  {
    match FirstTagOpen(s, 0)
    case None => false
    case Some(i) => '>' in s[i + 2..]
  }

  /** A title without `<` is never taken for markup. */
  lemma NoAngleNoHtml(s: string)
    requires '<' !in s
    ensures !IsHtml(s)
  {
  }

  /** The scan answers exactly the regular expression's question. */
  lemma IsHtmlMatchesPattern(s: string)
    ensures IsHtml(s) <==> MatchesTagPattern(s)
  {
    match FirstTagOpen(s, 0)
    case None =>
    case Some(i) =>
      if '>' in s[i + 2..] {
        var t :| 0 <= t < |s[i + 2..]| && s[i + 2..][t] == '>';
        assert s[i + 2 + t] == '>';
      }
      if MatchesTagPattern(s) {
        var a, b :| 0 <= a && a + 2 <= b < |s| && OpensTag(s, a) && s[b] == '>';
        assert s[i + 2..][b - i - 2] == '>';
      }
  }

  // ---------------------------------------------------------------------------
  // Splitting on spaces and joining back.
  // ---------------------------------------------------------------------------

  /** `words.join(' ')`. */
  function JoinWithSpace(words: seq<string>): (r: string)
    ensures |words| > 0 ==> words[0] <= r
    ensures |words| >= 2 ==> ' ' in r
  {
    if |words| == 0 then ""
    else if |words| == 1 then words[0]
    else words[0] + " " + JoinWithSpace(words[1..])
  }

  /** `s.split(' ')`: the pieces between single spaces, empty pieces included,
      so there is always at least one piece. */
  function SplitOnSpace(s: string): (words: seq<string>)
    ensures |words| >= 1
    ensures forall k :: 0 <= k < |words| ==> ' ' !in words[k]
  {
    if |s| == 0 then [""]
    else
      var rest := SplitOnSpace(s[1..]);
      if s[0] == ' ' then [""] + rest
      else [[s[0]] + rest[0]] + rest[1..]
  }

  /** Joining the pieces with spaces gives back the string; there is more than
      one piece exactly when the string holds a space. */
  lemma SplitJoinRoundTrip(s: string)
    ensures JoinWithSpace(SplitOnSpace(s)) == s
    ensures |SplitOnSpace(s)| == 1 <==> ' ' !in s
  {
    SplitThenJoin(s);
    SplitCount(s);
  }

  /** `split(' ')` followed by `join(' ')` is the identity. */
  lemma {:induction false} SplitThenJoin(s: string)
    ensures JoinWithSpace(SplitOnSpace(s)) == s
  {
    if |s| > 0 {
      var rest := SplitOnSpace(s[1..]);
      SplitThenJoin(s[1..]);
      assert s == [s[0]] + s[1..];
      if s[0] == ' ' {
        var words := [""] + rest;
        assert words[1..] == rest;
        assert JoinWithSpace(words) == "" + " " + JoinWithSpace(rest);
      } else {
        var first := [s[0]] + rest[0];
        var words := [first] + rest[1..];
        assert words[1..] == rest[1..];
        if |rest| == 1 {
          assert JoinWithSpace(words) == first;
        } else {
          assert JoinWithSpace(rest) == rest[0] + " " + JoinWithSpace(rest[1..]);
          assert JoinWithSpace(words) == first + " " + JoinWithSpace(rest[1..]);
        }
      }
    }
  }

  /** There is a single piece exactly when the string holds no space. */
  lemma {:induction false} SplitCount(s: string)
    ensures |SplitOnSpace(s)| == 1 <==> ' ' !in s
  {
    if |s| > 0 {
      SplitCount(s[1..]);
      assert s == [s[0]] + s[1..];
      assert ' ' in s <==> s[0] == ' ' || ' ' in s[1..];
    }
  }

  /** Splitting a word, a space and a rest yields the word, then the pieces of the rest. */
  lemma {:induction false} SplitAfterWord(word: string, rest: string)
    requires ' ' !in word
    ensures SplitOnSpace(word + " " + rest) == [word] + SplitOnSpace(rest)
  {
    var s := word + " " + rest;
    if |word| == 0 {
      assert s[1..] == rest;
    } else {
      assert s[1..] == word[1..] + " " + rest;
      SplitAfterWord(word[1..], rest);
      assert [s[0]] + word[1..] == word;
    }
  }

  /** Joining all words equals joining all but the last, a space, and the last. */
  lemma {:induction false} JoinSplitsLast(words: seq<string>)
    requires |words| >= 2
    ensures JoinWithSpace(words)
         == JoinWithSpace(words[..|words| - 1]) + " " + words[|words| - 1]
  {
    if |words| > 2 {
      JoinSplitsLast(words[1..]);
      assert words[1..][..|words| - 2] == words[..|words| - 1][1..];
    }
  }

  // ---------------------------------------------------------------------------
  // Rendering.
  // ---------------------------------------------------------------------------

  /** What the hero heading shows: raw markup, one plain word, or plain leading
      words followed by one highlighted last word. */
  datatype TitleView =
    | RawHtml(html: string)
    | Whole(text: string)
    | LastWordHighlighted(lead: string, last: string)

  /** The text a reader sees for a non-markup title: `lead`, a space, `last`. */
  function ShownText(v: TitleView): string
  {
    match v
    case RawHtml(h) => h
    case Whole(t) => t
    case LastWordHighlighted(lead, last) => lead + " " + last
  }

  /** `renderHeroTitle()`. */
  function RenderHeroTitle(title: string): (v: TitleView)
    ensures v.RawHtml? <==> IsHtml(title)
    ensures v.Whole? <==> !IsHtml(title) && ' ' !in title
    ensures ShownText(v) == title
    ensures v.LastWordHighlighted? ==> ' ' !in v.last
  {
    if IsHtml(title) then RawHtml(title)
    else
      var words := SplitOnSpace(title);
      SplitJoinRoundTrip(title);
      if |words| == 1 then Whole(words[0])
      else
        JoinSplitsLast(words);
        LastWordHighlighted(JoinWithSpace(words[..|words| - 1]), words[|words| - 1])
  }

  /** A plain two-word title draws its first word plain and its second
      highlighted. */
  lemma TwoWordTitle(first: string, second: string)
    requires ' ' !in first && ' ' !in second
    requires '<' !in first && '<' !in second
    ensures RenderHeroTitle(first + " " + second) == LastWordHighlighted(first, second)
  {
    var t := first + " " + second;
    assert '<' !in t by {
      forall k | 0 <= k < |t| ensures t[k] != '<' {
        if k < |first| { assert t[k] == first[k]; }
        else if k > |first| { assert t[k] == second[k - |first| - 1]; }
      }
    }
    NoAngleNoHtml(t);
    SplitAfterWord(first, second);
    SplitJoinRoundTrip(second);
    var words := SplitOnSpace(t);
    assert SplitOnSpace(second) == [second] by {
      assert JoinWithSpace(SplitOnSpace(second)) == SplitOnSpace(second)[0];
    }
    assert words == [first, second];
    assert words[..1] == [first];
  }

  /** The default title draws "ALMA" plain and "VISEU" highlighted. */
  lemma DefaultHeroTitle()
    ensures RenderHeroTitle("ALMA VISEU") == LastWordHighlighted("ALMA", "VISEU")
  {
    assert "ALMA VISEU" == "ALMA" + " " + "VISEU";
    TwoWordTitle("ALMA", "VISEU");
  }
}

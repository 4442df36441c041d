/** Splitting a command line into words that may be bracketed or quoted. */
module SplitUp {
  import opened Hex
  import opened Brackets

  predicate AllSpace(s: string) { forall i :: 0 <= i < |s| ==> IsSpace(s[i]) }

  function TrimRight(s: string): (t: string)
    ensures t <= s
  {
    if s != [] && IsSpace(s[|s| - 1]) then TrimRight(s[..|s| - 1]) else s
  }

  /** trim: first the right end, then the left. */
  function Trim(s: string): (t: string)
    ensures |t| <= |s|
  {
    SkipSpaces(TrimRight(s))
  }

  /** The zero character as delimiter stands for any whitespace. */
  predicate IsSeparator(c: char, delimiter: char)
  {
    if delimiter == '\0' then IsSpace(c) else c == delimiter
  }

  function FirstSeparator(s: string, delimiter: char): (k: nat)
    ensures k <= |s|
    ensures forall i :: 0 <= i < k ==> !IsSeparator(s[i], delimiter)
    ensures k < |s| ==> IsSeparator(s[k], delimiter)
  {
    if s == [] || IsSeparator(s[0], delimiter) then 0 else 1 + FirstSeparator(s[1..], delimiter)
  }

  predicate IsBracket(c: char) { IsQuote(c) || IsOpener(c) }

  /** The first word of a trimmed text, and what is looked at after it. */
  function FirstWord(s: string, delimiter: char): (r: (string, string))
    requires s != []
    ensures |r.1| < |s|
  {
    if IsBracket(s[0]) then
      var end := Closing(s, 0, Match(s[0]));
      if end >= |s| then (s, [])
      else (s[..end + 1], if end + 2 < |s| then s[end + 2..] else [])
    else
      var k := FirstSeparator(s, delimiter);
      if k < |s| then (s[..k], s[k + 1..]) else (s, [])
  }

  function Words(s: string, delimiter: char): seq<string>
    decreases |s|
  {
    if s == [] then []
    else
      var (word, rest) := FirstWord(s, delimiter);
      [word] + Words(Trim(rest), delimiter)
  }

  lemma WordsFirst(s: string, delimiter: char, word: string, rest: string)
    requires s != [] && FirstWord(s, delimiter) == (word, rest)
    ensures Words(s, delimiter) == [word] + Words(Trim(rest), delimiter)
  {
  }

  /** The words of `text` are those in `output`, then those of `str`. */
  ghost predicate SoFar(text: string, delimiter: char, output: seq<string>, str: string)
  {
    Words(Trim(text), delimiter) == output + Words(str, delimiter)
  }

  lemma TakeWord(text: string, delimiter: char, output: seq<string>, str: string, word: string, rest: string)
    requires str != [] && SoFar(text, delimiter, output, str) && FirstWord(str, delimiter) == (word, rest)
    ensures SoFar(text, delimiter, output + [word], Trim(rest))
  {
    WordsFirst(str, delimiter, word, rest);
    var more := Words(Trim(rest), delimiter);
    assert output + ([word] + more) == output + [word] + more;
  }

  /** split_up. It ends on every text: each word shortens what is left. */
  method Split(text: string, delimiter: char) returns (output: seq<string>)
    ensures output == Words(Trim(text), delimiter)
  {
    var str := Trim(text);
    output := [];
    while str != []
      invariant SoFar(text, delimiter, output, str)
      decreases |str|
    {
      ghost var (word, rest) := FirstWord(str, delimiter);
      TakeWord(text, delimiter, output, str, word, rest);
      if IsBracket(str[0]) {
        var end := CloseSequence(str, 0, Match(str[0]));
        if end >= |str| {
          output := output + [str];
          str := [];
        } else {
          output := output + [str[..end + 1]];
          if end + 2 < |str| {
            str := str[end + 2..];
          } else {
            str := [];
          }
        }
      } else {
        var it := FirstSeparator(str, delimiter);
        if it != |str| {
          var value := str[..it];
          output := output + [value];
          str := str[it + 1..];
        } else {
          output := output + [str];
          str := [];
        }
      }
      str := Trim(str);
    }
  }

  // ----- words in, words out ----------------------------------------------------------------

  /** A word is free of separators, or one whole bracketed or quoted text. */
  ghost predicate ValidWord(w: string, delimiter: char)
  {
    && w != [] && !IsSpace(w[0]) && !IsSpace(w[|w| - 1])
    && (if IsBracket(w[0]) then exists item :: Wraps(item, w) else forall i :: 0 <= i < |w| ==> !IsSeparator(w[i], delimiter))
  }

  ghost predicate Wraps(item: Item, w: string)
  {
    !item.Plain? && ValidItem(item, ' ') && RenderItem(item) == w
  }

  /** Between two words: a separator, then any whitespace. */
  predicate ValidGap(g: string, delimiter: char) { g != [] && IsSeparator(g[0], delimiter) && AllSpace(g[1..]) }

  function Joined(words: seq<string>, gaps: seq<string>): string
    requires |words| == |gaps| + 1
  {
    if gaps == [] then words[0] else words[0] + (gaps[0] + Joined(words[1..], gaps[1..]))
  }

  ghost predicate ValidWords(words: seq<string>, gaps: seq<string>, delimiter: char)
  {
    && |words| == |gaps| + 1
    && (forall i :: 0 <= i < |words| ==> ValidWord(words[i], delimiter))
    && (forall i :: 0 <= i < |gaps| ==> ValidGap(gaps[i], delimiter))
  }

  /** A text that does not begin or end in whitespace. */
  predicate Trimmed(s: string) { s != [] && !IsSpace(s[0]) && !IsSpace(s[|s| - 1]) }

  lemma TrimOf(lead: string, s: string, trail: string)
    requires AllSpace(lead) && Trimmed(s) && AllSpace(trail)
    ensures Trim(lead + s + trail) == s
  {
    TrimRightLead(lead, s, trail);
    SkipSpacesOver(lead, s);
  }

  lemma {:induction false} TrimRightLead(lead: string, s: string, trail: string)
    requires Trimmed(s) && AllSpace(trail)
    ensures TrimRight(lead + s + trail) == lead + s
    decreases |trail|
  {
    var t, n := lead + s, |trail| - 1;
    assert t[|t| - 1] == s[|s| - 1];
    if trail == [] {
      assert t + trail == t;
    } else {
      assert (t + trail)[..|t| + n] == t + trail[..n];
      assert (t + trail)[|t| + n] == trail[n];
      TrimRightLead(lead, s, trail[..n]);
    }
  }

  lemma {:induction false} JoinedTrimmed(words: seq<string>, gaps: seq<string>, delimiter: char)
    requires ValidWords(words, gaps, delimiter)
    ensures Trimmed(Joined(words, gaps))
    decreases |gaps|
  {
    assert ValidWord(words[0], delimiter);
    if gaps != [] {
      JoinedTrimmed(words[1..], gaps[1..], delimiter);
      var rest := Joined(words[1..], gaps[1..]);
      var all := words[0] + (gaps[0] + rest);
      assert all[0] == words[0][0] && all[|all| - 1] == rest[|rest| - 1];
    }
  }

  /** A bracketed or quoted text closes at its own end, whatever follows it. */
  lemma ItemCloses(item: Item, rest: string)
    requires !item.Plain? && ValidItem(item, ' ')
    ensures var w := RenderItem(item); Closing(w + rest, 0, Match(w[0])) == |w| - 1
  {
    var w := RenderItem(item);
    var str := w + rest;
    assert str[..|w|] == w;
    assert At(str, 0, w);
    match item {
      case Quoted(q, text) =>
        SurroundedAt(str, 0, [q], text, [q]);
        AtOne(str, |text| + 1, q);
        if q == '"' {
          QuoteEndFinds(str, 1, text, q);
        } else {
          LiteralEndIs(str, 1, |text| + 1, q);
        }
      case Group(o, body) =>
        SurroundedAt(str, 0, [o], Brackets.Render(body), [Match(o)]);
        AtOne(str, 1 + |Brackets.Render(body)|, Match(o));
        ScanBody(str, 1, [Match(o)], body);
    }
  }

  lemma {:induction false} FirstSeparatorIs(s: string, k: nat, delimiter: char)
    requires k <= |s| && (forall i :: 0 <= i < k ==> !IsSeparator(s[i], delimiter))
    requires k < |s| ==> IsSeparator(s[k], delimiter)
    ensures FirstSeparator(s, delimiter) == k
  {
    if k > 0 { FirstSeparatorIs(s[1..], k - 1, delimiter); }
  }

  /** The first word comes off whole, and after a gap only the gap's whitespace is left before the rest. */
  lemma FirstWordOf(w: string, g: string, rest: string, delimiter: char)
    requires ValidWord(w, delimiter) && ValidGap(g, delimiter) && rest != []
    ensures FirstWord(w + (g + rest), delimiter) == (w, g[1..] + rest)
  {
    var s := w + (g + rest);
    assert s[0] == w[0] && s[|w|] == g[0] && s[..|w|] == w && s[|w| + 1..] == g[1..] + rest;
    if IsBracket(w[0]) {
      var item :| Wraps(item, w);
      ItemCloses(item, g + rest);
    } else {
      FirstSeparatorIs(s, |w|, delimiter);
    }
  }

  lemma LastWordOf(w: string, delimiter: char)
    requires ValidWord(w, delimiter)
    ensures FirstWord(w, delimiter) == (w, [])
  {
    if IsBracket(w[0]) {
      var item :| Wraps(item, w);
      ItemCloses(item, []);
      assert w + [] == w && w[..|w|] == w;
    } else {
      FirstSeparatorIs(w, |w|, delimiter);
    }
  }

  lemma {:induction false} WordsOfJoined(words: seq<string>, gaps: seq<string>, delimiter: char)
    requires ValidWords(words, gaps, delimiter)
    ensures Words(Joined(words, gaps), delimiter) == words
    decreases |gaps|
  {
    var w := words[0];
    assert ValidWord(w, delimiter);
    if gaps == [] {
      LastWordOf(w, delimiter);
      WordsFirst(w, delimiter, w, []);
      assert words == [w];
    } else {
      var g, rest := gaps[0], Joined(words[1..], gaps[1..]);
      assert ValidGap(g, delimiter);
      JoinedTrimmed(words[1..], gaps[1..], delimiter);
      FirstWordOf(w, g, rest, delimiter);
      WordsFirst(w + (g + rest), delimiter, w, g[1..] + rest);
      TrimOf(g[1..], rest, []);
      assert g[1..] + rest + [] == g[1..] + rest;
      WordsOfJoined(words[1..], gaps[1..], delimiter);
      assert [w] + words[1..] == words;
    }
  }

  /** Splitting a text made of words gives the words. */
  lemma SplitsIntoWords(lead: string, words: seq<string>, gaps: seq<string>, trail: string, delimiter: char)
    requires AllSpace(lead) && AllSpace(trail) && ValidWords(words, gaps, delimiter)
    ensures Words(Trim(lead + Joined(words, gaps) + trail), delimiter) == words
  {
    JoinedTrimmed(words, gaps, delimiter);
    TrimOf(lead, Joined(words, gaps), trail);
    WordsOfJoined(words, gaps, delimiter);
  }
}

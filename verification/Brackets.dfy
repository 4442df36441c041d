/** Bracket and quote matching of the command-line library. */
module Brackets {

  predicate IsLiteralQuote(c: char) { c == '\'' || c == '`' }

  predicate IsQuote(c: char) { c == '"' || IsLiteralQuote(c) }

  predicate IsOpener(c: char) { c == '[' || c == '(' || c == '<' || c == '{' }

  /** The parallel tables bracketChars and matchBracketChars. */
  function Match(c: char): char
  {
    if c == '[' then ']' else if c == '(' then ')' else if c == '<' then '>' else if c == '{' then '}' else c
  }

  predicate IsCloser(c: char) { c == ']' || c == ')' || c == '>' || c == '}' }

  // ----- quotes -----------------------------------------------------------------------------

  function Left(str: string, loc: nat): nat { if loc <= |str| then |str| - loc else 0 }

  /** The first place from `loc` on where `q` stands unescaped; past the end if there is none. */
  function QuoteEnd(str: string, loc: nat, q: char): (end: nat)
    ensures end >= loc
    decreases Left(str, loc)
  {
    if loc >= |str| || str[loc] == q then loc
    else if str[loc] == '\\' then QuoteEnd(str, loc + 2, q)
    else QuoteEnd(str, loc + 1, q)
  }

  /** close_string_quote: a backslash hides the character after it. */
  method CloseStringQuote(str: string, start: nat, q: char) returns (loc: nat)
    ensures loc == QuoteEnd(str, start + 1, q)
  {
    loc := start + 1;
    while loc < |str|
      invariant QuoteEnd(str, start + 1, q) == QuoteEnd(str, loc, q)
      decreases Left(str, loc)
    {
      if str[loc] == q { break; }
      if str[loc] == '\\' { loc := loc + 1; }
      loc := loc + 1;
    }
  }

  /** Text between double quotes: characters and backslash pairs. */
  predicate EscapedRun(t: string, q: char)
  {
    if t == [] then true
    else if t[0] == '\\' then |t| >= 2 && EscapedRun(t[2..], q)
    else t[0] != q && EscapedRun(t[1..], q)
  }

  /** A run followed by the quote is found, wherever it stands. */
  lemma {:induction false} QuoteEndFinds(str: string, loc: nat, t: string, q: char)
    requires q != '\\' && EscapedRun(t, q) && loc + |t| <= |str| && str[loc..loc + |t|] == t
    ensures QuoteEnd(str, loc, q) == QuoteEnd(str, loc + |t|, q)
    decreases |t|
  {
    if t != [] {
      var k := if t[0] == '\\' then 2 else 1;
      assert str[loc] == t[0];
      assert str[loc + k..loc + k + |t[k..]|] == t[k..];
      QuoteEndFinds(str, loc + k, t[k..], q);
    }
  }

  /** What stands before the place found is such a run; beyond the end only a lone backslash leads. */
  lemma {:induction false} QuoteEndSkips(str: string, loc: nat, q: char)
    requires q != '\\' && loc <= |str|
    ensures QuoteEnd(str, loc, q) <= |str| + 1
    ensures var end := QuoteEnd(str, loc, q);
            if end <= |str| then EscapedRun(str[loc..end], q) && (end < |str| ==> str[end] == q)
            else loc < |str| && EscapedRun(str[loc..|str| - 1], q) && str[|str| - 1] == '\\'
    decreases |str| - loc
  {
    if loc < |str| && str[loc] != q {
      var k := if str[loc] == '\\' then 2 else 1;
      if loc + k <= |str| {
        QuoteEndSkips(str, loc + k, q);
        var end := QuoteEnd(str, loc, q);
        var stop := if end <= |str| then end else |str| - 1;
        assert str[loc..stop][k..] == str[loc + k..stop];
      }
    }
  }

  /** close_literal_quote: the first `q` from `loc` on, or the end. */
  function LiteralEnd(str: string, loc: nat, q: char): (end: nat)
    ensures loc <= |str| ==> loc <= end <= |str| && q !in str[loc..end] && (end < |str| ==> str[end] == q)
    ensures loc > |str| ==> end == |str|
    decreases Left(str, loc)
  {
    if loc >= |str| then |str|
    else if str[loc] == q then loc
    else
      var end := LiteralEnd(str, loc + 1, q);
      assert str[loc..end] == [str[loc]] + str[loc + 1..end];
      end
  }

  // ----- the matcher ------------------------------------------------------------------------

  ghost predicate Stack(s: string) { s != [] && forall i :: 0 <= i < |s| ==> IsCloser(s[i]) }

  function Top(s: string): char requires s != [] { s[|s| - 1] }

  function Pop(s: string): string requires s != [] { s[..|s| - 1] }

  /** The place after the quoted text that begins at `loc`. */
  function AfterQuote(str: string, loc: nat): (next: nat)
    requires loc < |str| && IsQuote(str[loc])
    ensures next > loc
  {
    (if str[loc] == '"' then QuoteEnd(str, loc + 1, '"') else LiteralEnd(str, loc + 1, str[loc])) + 1
  }

  /** Where the pending closers, innermost last, have all been met; the size if never. */
  function Scan(str: string, loc: nat, stack: string): (r: nat)
    requires stack != []
    decreases Left(str, loc)
  {
    if loc >= |str| then |str|
    else if str[loc] == Top(stack) then (if |stack| == 1 then loc else Scan(str, loc + 1, Pop(stack)))
    else if IsQuote(str[loc]) then Scan(str, AfterQuote(str, loc), stack)
    else if IsOpener(str[loc]) then Scan(str, loc + 1, stack + [Match(str[loc])])
    else Scan(str, loc + 1, stack)
  }

  function Closing(str: string, start: nat, closer: char): nat
  {
    if closer == '"' then QuoteEnd(str, start + 1, closer)
    else if IsCloser(closer) then Scan(str, start + 1, [closer])
    else LiteralEnd(str, start + 1, closer)
  }

  /** close_sequence. */
  method CloseSequence(str: string, start: nat, closer: char) returns (loc: nat)
    ensures loc == Closing(str, start, closer)
  {
    if closer == '"' {
      loc := CloseStringQuote(str, start, closer);
      return;
    }
    if !IsCloser(closer) {
      loc := LiteralEnd(str, start + 1, closer);
      return;
    }
    var closures := [closer];
    loc := start + 1;
    while loc < |str|
      invariant Stack(closures)
      invariant Scan(str, start + 1, [closer]) == Scan(str, loc, closures)
      decreases Left(str, loc)
    {
      ghost var before := closures;
      if str[loc] == Top(closures) {
        closures := Pop(closures);
        if closures == [] { return; }
      }
      if str[loc] == '"' {
        loc := CloseStringQuote(str, loc, '"');
      } else if IsLiteralQuote(str[loc]) {
        loc := LiteralEnd(str, loc + 1, str[loc]);
      } else if IsOpener(str[loc]) {
        closures := closures + [Match(str[loc])];
      }
      loc := loc + 1;
    }
    if loc > |str| { loc := |str|; }
  }

  // ----- the grammar ------------------------------------------------------------------------

  /** What may stand between a bracket and its closer. */
  datatype Item = Plain(c: char) | Quoted(q: char, text: string) | Group(o: char, body: Body)
  datatype Body = Empty | More(head: Item, tail: Body)

  predicate ValidItem(item: Item, closer: char)
    decreases item
  {
    match item
    case Plain(c) => c != closer && !IsQuote(c) && !IsOpener(c)
    case Quoted(q, text) => if q == '"' then EscapedRun(text, q) else IsLiteralQuote(q) && q !in text
    case Group(o, body) => IsOpener(o) && ValidBody(body, Match(o))
  }

  predicate ValidBody(body: Body, closer: char)
    decreases body
  {
    body.More? ==> ValidItem(body.head, closer) && ValidBody(body.tail, closer)
  }

  function RenderItem(item: Item): (s: string)
    ensures s != []
    decreases item
  {
    match item
    case Plain(c) => [c]
    case Quoted(q, text) => [q] + text + [q]
    case Group(o, body) => [o] + Render(body) + [Match(o)]
  }

  function Render(body: Body): string
    decreases body
  {
    if body.Empty? then [] else RenderItem(body.head) + Render(body.tail)
  }

  /** `t` stands at `loc`. */
  predicate At(str: string, loc: nat, t: string) { loc + |t| <= |str| && str[loc..loc + |t|] == t }

  lemma AtParts(str: string, loc: nat, a: string, b: string)
    ensures At(str, loc, a + b) <==> At(str, loc, a) && At(str, loc + |a|, b)
  {
    if loc + |a| + |b| <= |str| {
      var s := str[loc..loc + |a| + |b|];
      assert s[..|a|] == str[loc..loc + |a|] && s[|a|..] == str[loc + |a|..loc + |a| + |b|];
      assert s == s[..|a|] + s[|a|..];
      assert (a + b)[..|a|] == a && (a + b)[|a|..] == b;
    }
  }

  lemma AtOne(str: string, loc: nat, c: char)
    ensures At(str, loc, [c]) <==> loc < |str| && str[loc] == c
  {
  }

  lemma SurroundedAt(str: string, loc: nat, a: string, b: string, c: string)
    requires At(str, loc, a + b + c)
    ensures At(str, loc, a) && At(str, loc + |a|, b) && At(str, loc + |a| + |b|, c)
  {
    AtParts(str, loc, a + b, c);
    AtParts(str, loc, a, b);
  }

  /** Complete: a body of the grammar is passed over with the stack as it was. */
  lemma {:induction false} ScanBody(str: string, loc: nat, stack: string, body: Body)
    requires Stack(stack) && ValidBody(body, Top(stack)) && At(str, loc, Render(body))
    ensures Scan(str, loc, stack) == Scan(str, loc + |Render(body)|, stack)
    decreases body
  {
    if body.More? {
      AtParts(str, loc, RenderItem(body.head), Render(body.tail));
      ScanItem(str, loc, stack, body.head);
      ScanBody(str, loc + |RenderItem(body.head)|, stack, body.tail);
    }
  }

  lemma {:induction false} ScanItem(str: string, loc: nat, stack: string, item: Item)
    requires Stack(stack) && ValidItem(item, Top(stack)) && At(str, loc, RenderItem(item))
    ensures Scan(str, loc, stack) == Scan(str, loc + |RenderItem(item)|, stack)
    decreases item
  {
    match item {
      case Plain(c) => AtOne(str, loc, c);
      case Quoted(q, text) => ScanQuoted(str, loc, stack, q, text);
      case Group(o, body) =>
        SurroundedAt(str, loc, [o], Render(body), [Match(o)]);
        AtOne(str, loc, o);
        ScanBody(str, loc + 1, stack + [Match(o)], body);
        ScanGroup(str, loc, stack, o, loc + 1 + |Render(body)|);
    }
  }

  lemma ScanGroup(str: string, loc: nat, stack: string, o: char, end: nat)
    requires Stack(stack) && IsOpener(o) && loc < |str| && str[loc] == o && At(str, end, [Match(o)])
    requires Scan(str, loc + 1, stack + [Match(o)]) == Scan(str, end, stack + [Match(o)])
    ensures Scan(str, loc, stack) == Scan(str, end + 1, stack)
  {
    AtOne(str, end, Match(o));
    assert Pop(stack + [Match(o)]) == stack;
  }

  lemma ScanQuoted(str: string, loc: nat, stack: string, q: char, text: string)
    requires Stack(stack) && ValidItem(Quoted(q, text), Top(stack)) && At(str, loc, [q] + text + [q])
    ensures Scan(str, loc, stack) == Scan(str, loc + |text| + 2, stack)
  {
    SurroundedAt(str, loc, [q], text, [q]);
    var end := loc + 1 + |text|;
    AtOne(str, loc, q);
    AtOne(str, end, q);
    if q == '"' {
      QuoteEndFinds(str, loc + 1, text, q);
    } else {
      LiteralEndIs(str, loc + 1, end, q);
    }
  }

  lemma {:induction false} LiteralEndIs(str: string, loc: nat, end: nat, q: char)
    requires loc <= end < |str| && str[end] == q && q !in str[loc..end]
    ensures LiteralEnd(str, loc, q) == end
    decreases end - loc
  {
    if loc < end {
      assert str[loc] in str[loc..end];
      assert str[loc + 1..end] == str[loc..end][1..];
      LiteralEndIs(str, loc + 1, end, q);
    }
  }

  // ----- and nothing but the grammar --------------------------------------------------------

  ghost predicate ValidBodies(stack: string, bodies: seq<Body>)
  {
    |bodies| == |stack| && forall i :: 0 <= i < |stack| ==> ValidBody(bodies[i], stack[i])
  }

  /** One body and its closer for every pending closer, from the innermost out. */
  function RenderAll(stack: string, bodies: seq<Body>): string
    requires |bodies| == |stack|
  {
    if stack == [] then []
    else Render(bodies[|bodies| - 1]) + ([Top(stack)] + RenderAll(Pop(stack), bodies[..|bodies| - 1]))
  }

  lemma AddItem(stack: string, bodies: seq<Body>, item: Item) returns (more: seq<Body>)
    requires stack != [] && ValidBodies(stack, bodies) && ValidItem(item, Top(stack))
    ensures ValidBodies(stack, more) && RenderAll(stack, more) == RenderItem(item) + RenderAll(stack, bodies)
  {
    var n := |bodies| - 1;
    more := bodies[..n] + [More(item, bodies[n])];
    assert more[..n] == bodies[..n];
    var rest := [Top(stack)] + RenderAll(Pop(stack), bodies[..n]);
    assert RenderItem(item) + Render(bodies[n]) + rest == RenderItem(item) + (Render(bodies[n]) + rest);
  }

  lemma OpenBody(stack: string, bodies: seq<Body>) returns (more: seq<Body>)
    requires stack != [] && ValidBodies(Pop(stack), bodies)
    ensures ValidBodies(stack, more) && RenderAll(stack, more) == [Top(stack)] + RenderAll(Pop(stack), bodies)
  {
    more := bodies + [Empty];
    assert more[..|bodies|] == bodies;
    assert Render(Empty) == [];
  }

  lemma Regroup(a: string, b: string, c: string, d: string)
    ensures a + b + c + d == a + (b + (c + d))
  {
  }

  lemma CloseGroup(stack: string, o: char, bodies: seq<Body>) returns (more: seq<Body>)
    requires stack != [] && IsOpener(o) && ValidBodies(stack + [Match(o)], bodies)
    ensures ValidBodies(stack, more)
    ensures RenderAll(stack, more) == [o] + RenderAll(stack + [Match(o)], bodies)
  {
    var inner, n := stack + [Match(o)], |stack|;
    assert Pop(inner) == stack && Top(inner) == Match(o) && inner[n] == Match(o);
    var outer, body := bodies[..n], bodies[n];
    assert ValidBodies(stack, outer) by {
      forall i | 0 <= i < n ensures ValidBody(outer[i], stack[i]) { assert outer[i] == bodies[i] && stack[i] == inner[i]; }
    }
    more := AddItem(stack, outer, Group(o, body));
    Regroup([o], Render(body), [Match(o)], RenderAll(stack, outer));
  }

  /** The quoted text at `loc`, when it ends. */
  lemma QuotedAt(str: string, loc: nat) returns (item: Item)
    requires loc < |str| && IsQuote(str[loc]) && AfterQuote(str, loc) <= |str|
    ensures forall closer :: ValidItem(item, closer)
    ensures At(str, loc, RenderItem(item)) && loc + |RenderItem(item)| == AfterQuote(str, loc)
  {
    var q, end := str[loc], AfterQuote(str, loc) - 1;
    if q == '"' { QuoteEndSkips(str, loc + 1, q); }
    item := Quoted(q, str[loc + 1..end]);
    AtParts(str, loc, [q], str[loc + 1..end]);
    AtParts(str, loc, [q] + str[loc + 1..end], [q]);
  }

  /** From `loc` on stand the bodies of all pending closers, the last closer at `r`. */
  ghost predicate Parsed(str: string, loc: nat, stack: string, bodies: seq<Body>, r: nat)
  {
    && ValidBodies(stack, bodies)
    && At(str, loc, RenderAll(stack, bodies))
    && loc + |RenderAll(stack, bodies)| == r + 1
  }

  lemma ParsedCloser(str: string, loc: nat, stack: string, outer: seq<Body>, r: nat) returns (bodies: seq<Body>)
    requires loc < |str| && stack != [] && str[loc] == Top(stack) && Parsed(str, loc + 1, Pop(stack), outer, r)
    ensures Parsed(str, loc, stack, bodies, r)
  {
    var c, more := Top(stack), RenderAll(Pop(stack), outer);
    bodies := OpenBody(stack, outer);
    AtOne(str, loc, c);
    AtParts(str, loc, [c], more);
    assert |[c] + more| == 1 + |more|;
  }

  lemma ParsedItem(str: string, loc: nat, stack: string, item: Item, rest: seq<Body>, r: nat) returns (bodies: seq<Body>)
    requires stack != [] && ValidItem(item, Top(stack)) && At(str, loc, RenderItem(item))
    requires Parsed(str, loc + |RenderItem(item)|, stack, rest, r)
    ensures Parsed(str, loc, stack, bodies, r)
  {
    bodies := AddItem(stack, rest, item);
    AtParts(str, loc, RenderItem(item), RenderAll(stack, rest));
  }

  lemma ParsedGroup(str: string, loc: nat, stack: string, inner: seq<Body>, r: nat) returns (bodies: seq<Body>)
    requires loc < |str| && stack != [] && IsOpener(str[loc]) && Parsed(str, loc + 1, stack + [Match(str[loc])], inner, r)
    ensures Parsed(str, loc, stack, bodies, r)
  {
    bodies := CloseGroup(stack, str[loc], inner);
    AtParts(str, loc, [str[loc]], RenderAll(stack + [Match(str[loc])], inner));
  }

  /** Sound: whatever the matcher accepts parses in the grammar. */
  lemma {:induction false} ScanParses(str: string, loc: nat, stack: string) returns (bodies: seq<Body>)
    requires Stack(stack) && Scan(str, loc, stack) < |str|
    ensures Parsed(str, loc, stack, bodies, Scan(str, loc, stack))
    decreases Left(str, loc)
  {
    var r := Scan(str, loc, stack);
    if str[loc] == Top(stack) {
      var outer: seq<Body> := [];
      if |stack| > 1 { outer := ScanParses(str, loc + 1, Pop(stack)); }
      bodies := ParsedCloser(str, loc, stack, outer, r);
    } else if IsQuote(str[loc]) {
      var rest := ScanParses(str, AfterQuote(str, loc), stack);
      var item := QuotedAt(str, loc);
      bodies := ParsedItem(str, loc, stack, item, rest, r);
    } else if IsOpener(str[loc]) {
      var inner := ScanParses(str, loc + 1, stack + [Match(str[loc])]);
      bodies := ParsedGroup(str, loc, stack, inner, r);
    } else {
      var rest := ScanParses(str, loc + 1, stack);
      bodies := ParsedItem(str, loc, stack, Plain(str[loc]), rest, r);
    }
  }

  /** A text of the grammar up to its closer stands at `from`. */
  ghost predicate ClosedAt(str: string, from: nat, closer: char, body: Body)
  {
    ValidBody(body, closer) && At(str, from, Render(body) + [closer])
  }

  /**
   * The place returned is the end of a text of the grammar, and if there is such a text its end
   * is returned; otherwise the size is.
   */
  lemma ClosingExactly(str: string, start: nat, closer: char, loc: nat)
    requires IsCloser(closer) && loc < |str|
    ensures Closing(str, start, closer) <= |str|
    ensures Closing(str, start, closer) == loc <==>
            exists body :: ClosedAt(str, start + 1, closer, body) && loc == start + 1 + |Render(body)|
  {
    var from := start + 1;
    ScanBounded(str, from, [closer]);
    if Closing(str, start, closer) == loc {
      var bodies := ScanParses(str, from, [closer]);
      assert ValidBody(bodies[0], [closer][0]);
      assert Pop([closer]) == [] && RenderAll([closer], bodies) == Render(bodies[0]) + ([closer] + []);
      assert [closer] + [] == [closer];
      assert ClosedAt(str, from, closer, bodies[0]);
    }
    forall body | ClosedAt(str, from, closer, body) ensures Closing(str, start, closer) == from + |Render(body)| {
      AtParts(str, from, Render(body), [closer]);
      ScanBody(str, from, [closer], body);
    }
  }

  lemma {:induction false} ScanBounded(str: string, loc: nat, stack: string)
    requires stack != []
    ensures Scan(str, loc, stack) <= |str|
    decreases Left(str, loc)
  {
    if loc < |str| {
      if str[loc] == Top(stack) {
        if |stack| > 1 { ScanBounded(str, loc + 1, Pop(stack)); }
      } else if IsQuote(str[loc]) {
        ScanBounded(str, AfterQuote(str, loc), stack);
      } else if IsOpener(str[loc]) {
        ScanBounded(str, loc + 1, stack + [Match(str[loc])]);
      } else {
        ScanBounded(str, loc + 1, stack);
      }
    }
  }

  /**
   * Between double quotes the result passes the size by one exactly when the text ends in a
   * backslash that has nothing to hide.
   */
  lemma DanglingBackslash(str: string, start: nat)
    requires start < |str|
    ensures Closing(str, start, '"') <= |str| + 1
    ensures Closing(str, start, '"') == |str| + 1 <==>
            start + 1 < |str| && EscapedRun(str[start + 1..|str| - 1], '"') && str[|str| - 1] == '\\'
  {
    var from := start + 1;
    QuoteEndSkips(str, from, '"');
    if from < |str| && EscapedRun(str[from..|str| - 1], '"') && str[|str| - 1] == '\\' {
      QuoteEndFinds(str, from, str[from..|str| - 1], '"');
    }
  }

  /** A quote and a lone backslash: two characters, and the result is three. */
  lemma LoneBackslash()
    ensures Closing("\"\\", 0, '"') == 3 == |"\"\\"| + 1
  {
    DanglingBackslash("\"\\", 0);
    assert "\"\\"[1..1] == "";
  }
}

/** The escape codec of the command-line library: named, \u and \U escapes in byte strings. */
module Escape {
  import opened Bytes
  import opened Utf8

  const TWO32: nat := 0x1_0000_0000

  const BACKSLASH: Byte := 0x5C
  const SHORT: Byte := 0x75   // u
  const LONG: Byte := 0x55    // U
  const ZERO: Byte := 0x30    // 0

  /**
   * The parallel tables escapedChars and escapedCharsCode: backspace, tab, line feed, form feed,
   * carriage return, quote and backslash, and the letter that names each.
   */
  function CodeOf(b: Byte): (code: Option<Byte>)
  {
    if b == 0x08 then Some(0x62) else if b == 0x09 then Some(0x74) else if b == 0x0A then Some(0x6E)
    else if b == 0x0C then Some(0x66) else if b == 0x0D then Some(0x72)
    else if b == 0x22 || b == 0x5C then Some(b)
    else None
  }

  function NamedBy(code: Byte): (b: Option<Byte>)
    ensures b.Some? ==> CodeOf(b.value) == Some(code)
    ensures b.None? ==> forall c: Byte :: CodeOf(c) != Some(code)
  {
    if code == 0x62 then Some(0x08) else if code == 0x74 then Some(0x09) else if code == 0x6E then Some(0x0A)
    else if code == 0x66 then Some(0x0C) else if code == 0x72 then Some(0x0D)
    else if code == 0x22 || code == 0x5C then Some(code)
    else None
  }

  /** hexConvert: a digit's value, and for anything else minus one as an unsigned number. */
  function HexConvert(c: Byte): (v: nat)
    ensures v < TWO32
  {
    if 0x30 <= c <= 0x39 then c - 0x30
    else if 0x41 <= c <= 0x46 then c - 0x41 + 10
    else if 0x61 <= c <= 0x66 then c - 0x61 + 10
    else TWO32 - 1
  }

  predicate AllHex(s: seq<Byte>) { forall i :: 0 <= i < |s| ==> HexConvert(s[i]) <= 15 }

  function Pow16(n: nat): (p: nat)
    ensures p > 0
  {
    if n == 0 then 1 else 16 * Pow16(n - 1)
  }

  /** The number a run of hexadecimal digits denotes. */
  function Value(digits: seq<Byte>): (v: nat)
    requires AllHex(digits)
    ensures v < Pow16(|digits|)
  {
    if digits == [] then 0 else 16 * Value(digits[..|digits| - 1]) + HexConvert(digits[|digits| - 1])
  }

  // ----- the grammar of escaped text ------------------------------------------------------

  datatype Piece = Plain(b: Byte) | Named(b: Byte) | Zero | Unicode(long: bool, digits: seq<Byte>)

  function Width(long: bool): nat { if long then 8 else 4 }

  function Mark(long: bool): Byte { if long then LONG else SHORT }

  predicate ValidPiece(p: Piece)
  {
    match p
    case Plain(b) => b != BACKSLASH
    case Named(b) => CodeOf(b).Some?
    case Zero => true
    case Unicode(long, digits) => |digits| == Width(long) && AllHex(digits)
  }

  predicate ValidPieces(ps: seq<Piece>) { forall i :: 0 <= i < |ps| ==> ValidPiece(ps[i]) }

  function Written(p: Piece): (s: seq<Byte>)
    requires ValidPiece(p)
    ensures |s| > 0
  {
    match p
    case Plain(b) => [b]
    case Named(b) => [BACKSLASH, CodeOf(b).value]
    case Zero => [BACKSLASH, ZERO]
    case Unicode(long, digits) => [BACKSLASH, Mark(long)] + digits
  }

  lemma EightDigits()
    ensures Pow16(4) <= TWO32 && Pow16(8) == TWO32
  {
    assert Pow16(4) == 65536;
    assert Pow16(8) == 65536 * 65536;
  }

  function CodeMeaning(digits: seq<Byte>): (m: Option<seq<Byte>>)
    requires AllHex(digits) && |digits| in {4, 8}
  {
    EightDigits();
    CodepointBytes(Value(digits))
  }

  /** The bytes a piece stands for; None for a surrogate. */
  function Meaning(p: Piece): (m: Option<seq<Byte>>)
    requires ValidPiece(p)
  {
    match p
    case Plain(b) => Some([b])
    case Named(b) => Some([b])
    case Zero => Some([0])
    case Unicode(_, digits) => CodeMeaning(digits)
  }

  function Prepend(m: Option<seq<Byte>>, more: Option<seq<Byte>>): Option<seq<Byte>>
  {
    if m.None? || more.None? then None else Some(m.value + more.value)
  }

  function WrittenAll(ps: seq<Piece>): seq<Byte>
    requires ValidPieces(ps)
  {
    if ps == [] then [] else Written(ps[0]) + WrittenAll(ps[1..])
  }

  function MeaningAll(ps: seq<Piece>): Option<seq<Byte>>
    requires ValidPieces(ps)
  {
    if ps == [] then Some([]) else Prepend(Meaning(ps[0]), MeaningAll(ps[1..]))
  }

  // ----- reading ----------------------------------------------------------------------------

  /** The piece at the start of `s`, by its first two bytes. */
  function FirstPiece(s: seq<Byte>): (r: Option<Piece>)
    requires s != []
  {
    if s[0] != BACKSLASH then Some(Plain(s[0]))
    else if |s| < 2 then None
    else
      var named := NamedBy(s[1]);
      if named.Some? then Some(Named(named.value))
      else if s[1] == SHORT then if |s| >= 6 && AllHex(s[2..6]) then Some(Unicode(false, s[2..6])) else None
      else if s[1] == LONG then if |s| >= 10 && AllHex(s[2..10]) then Some(Unicode(true, s[2..10])) else None
      else if s[1] == ZERO then Some(Zero)
      else None
  }

  lemma FirstPieceFits(s: seq<Byte>, p: Piece)
    requires s != [] && FirstPiece(s) == Some(p)
    ensures ValidPiece(p) && Written(p) <= s
  {
    if p.Unicode? {
      assert s[..2 + Width(p.long)] == Written(p);
    }
  }

  function Unescape(s: seq<Byte>): (r: Option<seq<Byte>>)
    decreases |s|
  {
    if s == [] then Some([])
    else
      var p := FirstPiece(s);
      if p.None? then None
      else
        FirstPieceFits(s, p.value);
        Prepend(Meaning(p.value), Unescape(s[|Written(p.value)|..]))
  }

  lemma UnescapeFirst(s: seq<Byte>, p: Piece)
    requires s != [] && FirstPiece(s) == Some(p)
    ensures ValidPiece(p) && Written(p) <= s
    ensures Unescape(s) == Prepend(Meaning(p), Unescape(s[|Written(p)|..]))
  {
    FirstPieceFits(s, p);
  }

  /** The grammar is unambiguous: a text that begins with a piece begins with no other. */
  lemma FirstPieceOf(p: Piece, rest: seq<Byte>)
    requires ValidPiece(p)
    ensures FirstPiece(Written(p) + rest) == Some(p)
    ensures (Written(p) + rest)[|Written(p)|..] == rest
  {
    var s := Written(p) + rest;
    match p {
      case Plain(b) =>
      case Named(b) => assert s[1] == CodeOf(b).value;
      case Zero => assert s[1] == ZERO;
      case Unicode(long, digits) => assert s[1] == Mark(long) && s[2..2 + Width(long)] == digits;
    }
  }

  lemma {:induction false} ReadsPieces(ps: seq<Piece>)
    requires ValidPieces(ps)
    ensures Unescape(WrittenAll(ps)) == MeaningAll(ps)
  {
    if ps != [] {
      FirstPieceOf(ps[0], WrittenAll(ps[1..]));
      ReadsPieces(ps[1..]);
    }
  }

  lemma ConsPiece(p: Piece, ps: seq<Piece>)
    requires ValidPiece(p) && ValidPieces(ps)
    ensures ValidPieces([p] + ps) && WrittenAll([p] + ps) == Written(p) + WrittenAll(ps)
  {
    assert ([p] + ps)[1..] == ps;
  }

  lemma HasFirstPiece(s: seq<Byte>)
    requires s != [] && Unescape(s).Some?
    ensures FirstPiece(s).Some?
  {
  }

  lemma SplitsAtPiece(s: seq<Byte>) returns (p: Piece, rest: seq<Byte>)
    requires s != [] && Unescape(s).Some?
    ensures ValidPiece(p) && s == Written(p) + rest && Unescape(rest).Some?
  {
    HasFirstPiece(s);
    p := FirstPiece(s).value;
    UnescapeFirst(s, p);
    rest := s[|Written(p)|..];
  }

  lemma {:induction false} SplitsIntoPieces(s: seq<Byte>) returns (ps: seq<Piece>)
    requires Unescape(s).Some?
    ensures ValidPieces(ps) && WrittenAll(ps) == s
    decreases |s|
  {
    if s == [] {
      ps := [];
    } else {
      var p, rest := SplitsAtPiece(s);
      var more := SplitsIntoPieces(rest);
      ConsPiece(p, more);
      ps := [p] + more;
    }
  }

  /** What is read, and what is refused: exactly the grammar decides. */
  lemma UnescapeExactly(s: seq<Byte>, out: seq<Byte>)
    ensures Unescape(s) == Some(out) <==>
            exists ps: seq<Piece> :: ValidPieces(ps) && WrittenAll(ps) == s && MeaningAll(ps) == Some(out)
  {
    if Unescape(s) == Some(out) {
      var ps := SplitsIntoPieces(s);
      ReadsPieces(ps);
    }
    forall ps: seq<Piece> | ValidPieces(ps) && WrittenAll(ps) == s && MeaningAll(ps) == Some(out)
      ensures Unescape(s) == Some(out)
    {
      ReadsPieces(ps);
    }
  }

  // ----- writing ----------------------------------------------------------------------------

  function PieceOf(b: Byte): (p: Piece)
    ensures ValidPiece(p) && Meaning(p) == Some([b])
  {
    if CodeOf(b).Some? then Named(b) else Plain(b)
  }

  function Escaped(s: seq<Byte>): seq<Byte>
  {
    if s == [] then [] else Written(PieceOf(s[0])) + Escaped(s[1..])
  }

  ghost predicate WrittenUpTo(str: seq<Byte>, out: seq<Byte>, i: nat)
  {
    i <= |str| && Escaped(str) == out + Escaped(str[i..])
  }

  lemma WriteOne(str: seq<Byte>, out: seq<Byte>, i: nat)
    requires i < |str| && WrittenUpTo(str, out, i)
    ensures WrittenUpTo(str, out + Written(PieceOf(str[i])), i + 1)
  {
    assert str[i..][1..] == str[i + 1..];
    var w, more := Written(PieceOf(str[i])), Escaped(str[i + 1..]);
    assert out + (w + more) == out + w + more;
  }

  lemma WritingStarts(str: seq<Byte>)
    ensures WrittenUpTo(str, [], 0)
  {
    assert str[0..] == str;
  }

  lemma WritingEnds(str: seq<Byte>, out: seq<Byte>)
    requires WrittenUpTo(str, out, |str|)
    ensures out == Escaped(str)
  {
    var rest := str[|str|..];
    assert rest == [];
    assert Escaped(rest) == [];
  }

  /** add_escaped_characters. */
  method AddEscapedCharacters(str: seq<Byte>) returns (out: seq<Byte>)
    ensures out == Escaped(str)
  {
    out := [];
    var i := 0;
    WritingStarts(str);
    while i < |str|
      invariant 0 <= i <= |str|
      invariant WrittenUpTo(str, out, i)
    {
      var s := str[i];
      var code := CodeOf(s);
      WriteOne(str, out, i);
      if code.Some? {
        assert out + [BACKSLASH, code.value] == out + [BACKSLASH] + [code.value];
        out := out + [BACKSLASH];
        out := out + [code.value];
      } else {
        out := out + [s];
      }
      i := i + 1;
    }
    WritingEnds(str, out);
  }

  function PiecesOf(s: seq<Byte>): (ps: seq<Piece>)
    ensures ValidPieces(ps) && |ps| == |s|
  {
    seq(|s|, i requires 0 <= i < |s| => PieceOf(s[i]))
  }

  lemma {:induction false} EscapedIsWritten(s: seq<Byte>)
    ensures Escaped(s) == WrittenAll(PiecesOf(s)) && MeaningAll(PiecesOf(s)) == Some(s)
  {
    if s != [] {
      assert PiecesOf(s)[0] == PieceOf(s[0]) && PiecesOf(s)[1..] == PiecesOf(s[1..]);
      EscapedIsWritten(s[1..]);
      assert s == [s[0]] + s[1..];
    }
  }

  /** Removing the escapes of an escaped string gives the string back. */
  lemma EscapeRoundTrip(s: seq<Byte>)
    ensures Unescape(Escaped(s)) == Some(s)
  {
    EscapedIsWritten(s);
    ReadsPieces(PiecesOf(s));
  }

  // ----- the digit loop and the reader ------------------------------------------------------

  lemma Scaled(value: nat, digit: nat, a: nat, p: nat)
    requires 16 * value + digit < a && p > 0
    ensures value * (16 * p) + digit * p == (16 * value + digit) * p
    ensures 0 <= digit * p <= (16 * value + digit) * p < a * p
  {
    var v := 16 * value;
    assert v * p == value * (16 * p);
    assert (v + digit) * p == v * p + digit * p;
    var gap := a - (v + digit);
    assert a * p == (v + digit) * p + gap * p;
    assert gap * p >= p && v * p >= 0;
  }

  lemma DigitStep(value: nat, digit: nat, n: nat, i: nat)
    requires i < n <= 8 && digit <= 15 && value < Pow16(i)
    ensures value * Pow16(n - i) + digit * Pow16(n - 1 - i) == (16 * value + digit) * Pow16(n - 1 - i)
    ensures 0 <= digit * Pow16(n - 1 - i) <= (16 * value + digit) * Pow16(n - 1 - i) < TWO32
  {
    Scaled(value, digit, Pow16(i + 1), Pow16(n - 1 - i));
    PowSum(i + 1, n - 1 - i);
    PowGrows(n, 8);
    EightDigits();
  }

  lemma Associate(a: nat, b: nat, c: nat)
    ensures a * b * c == a * (b * c)
  {
  }

  lemma {:induction false} PowSum(a: nat, b: nat)
    ensures Pow16(a) * Pow16(b) == Pow16(a + b)
  {
    if a > 0 {
      PowSum(a - 1, b);
      Associate(16, Pow16(a - 1), Pow16(b));
    }
  }

  lemma {:induction false} PowGrows(a: nat, b: nat)
    requires a <= b
    ensures Pow16(a) <= Pow16(b)
  {
    if a < b { PowGrows(a, b - 1); }
  }

  function Times32(a: nat, b: nat): nat { a * b % TWO32 }

  function Sum32(a: nat, b: nat): nat { (a + b) % TWO32 }

  lemma ValueStep(str: seq<Byte>, from: nat, i: nat)
    requires from + i < |str| && AllHex(str[from..from + i]) && HexConvert(str[from + i]) <= 15
    ensures AllHex(str[from..from + (i + 1)])
    ensures Value(str[from..from + (i + 1)]) == 16 * Value(str[from..from + i]) + HexConvert(str[from + i])
  {
    var digits := str[from..from + (i + 1)];
    assert digits == str[from..from + i] + [str[from + i]];
    assert digits[..i] == str[from..from + i];
  }

  ghost predicate CodeUpTo(str: seq<Byte>, from: nat, n: nat, i: nat, code: nat, mplier: nat)
  {
    && i <= n && from + n <= |str|
    && AllHex(str[from..from + i])
    && code == Value(str[from..from + i]) * Pow16(n - i)
    && (i < n ==> mplier == Pow16(n - 1 - i))
  }

  lemma NoWrap(code: nat, digit: nat, mplier: nat, next: nat)
    requires code + digit * mplier == next < TWO32 && 0 <= digit * mplier <= next
    ensures Sum32(code, Times32(digit, mplier)) == next
  {
    var product := digit * mplier;
    assert product % TWO32 == product;
  }

  lemma CodeStep(str: seq<Byte>, from: nat, n: nat, i: nat, code: nat, mplier: nat)
    requires i < n <= 8 && CodeUpTo(str, from, n, i, code, mplier) && HexConvert(str[from + i]) <= 15
    ensures CodeUpTo(str, from, n, i + 1, Sum32(code, Times32(HexConvert(str[from + i]), mplier)), mplier / 16)
  {
    var value, digit := Value(str[from..from + i]), HexConvert(str[from + i]);
    DigitStep(value, digit, n, i);
    ValueStep(str, from, i);
    NoWrap(code, digit, mplier, (16 * value + digit) * Pow16(n - 1 - i));
  }

  /** The digit loop in 32-bit arithmetic: it never wraps. */
  method ReadCode(str: seq<Byte>, from: nat, n: nat) returns (r: Option<nat>)
    requires 0 < n <= 8 && from + n <= |str|
    ensures r.Some? <==> AllHex(str[from..from + n])
    ensures r.Some? ==> r.value == Value(str[from..from + n])
  {
    var code, mplier, ii := 0, Pow16(n - 1), 0;
    while ii < n
      invariant 0 <= ii <= n
      invariant CodeUpTo(str, from, n, ii, code, mplier)
    {
      var res := HexConvert(str[from + ii]);
      if res > 0x0F {
        assert str[from..from + n][ii] == str[from + ii];
        return None;
      }
      CodeStep(str, from, n, ii, code, mplier);
      code := Sum32(code, Times32(res, mplier));
      mplier := mplier / 16;
      ii := ii + 1;
    }
    return Some(code);
  }

  /** What has been read so far: `out` stands for the first `loc` bytes. */
  ghost predicate Progress(str: seq<Byte>, out: seq<Byte>, loc: nat)
  {
    loc <= |str| && Unescape(str) == Prepend(Some(out), Unescape(str[loc..]))
  }

  lemma PrependTwice(out: seq<Byte>, m: Option<seq<Byte>>, more: Option<seq<Byte>>)
    ensures Prepend(Some(out), Prepend(m, more)) == if m.None? then None else Prepend(Some(out + m.value), more)
  {
    if m.Some? && more.Some? {
      assert out + (m.value + more.value) == out + m.value + more.value;
    }
  }

  lemma Advance(str: seq<Byte>, out: seq<Byte>, loc: nat, p: Piece)
    requires loc < |str| && Progress(str, out, loc) && FirstPiece(str[loc..]) == Some(p)
    ensures ValidPiece(p)
    ensures Meaning(p).None? ==> Unescape(str) == None
    ensures Meaning(p).Some? ==> Progress(str, out + Meaning(p).value, loc + |Written(p)|)
  {
    UnescapeFirst(str[loc..], p);
    var n := |Written(p)|;
    assert str[loc..][n..] == str[loc + n..];
    PrependTwice(out, Meaning(p), Unescape(str[loc + n..]));
  }

  lemma Refuse(str: seq<Byte>, out: seq<Byte>, loc: nat)
    requires loc < |str| && Progress(str, out, loc) && FirstPiece(str[loc..]) == None
    ensures Unescape(str) == None
  {
  }

  predicate IsUnicodeMark(str: seq<Byte>, loc: nat, long: bool)
  {
    loc + 1 < |str| && str[loc] == BACKSLASH && str[loc + 1] == Mark(long)
  }

  lemma UnicodePiece(str: seq<Byte>, loc: nat, long: bool)
    requires IsUnicodeMark(str, loc, long)
    ensures var end := loc + 2 + Width(long);
            FirstPiece(str[loc..]) ==
            if end <= |str| && AllHex(str[loc + 2..end]) then Some(Unicode(long, str[loc + 2..end])) else None
  {
    var rest := str[loc..];
    assert rest[1] == str[loc + 1] && NamedBy(rest[1]) == None;
    if loc + 2 + Width(long) <= |str| {
      assert rest[2..2 + Width(long)] == str[loc + 2..loc + 2 + Width(long)];
    }
  }

  lemma StepUnicode(str: seq<Byte>, out: seq<Byte>, loc: nat, long: bool)
    requires IsUnicodeMark(str, loc, long) && Progress(str, out, loc)
    ensures var end := loc + 2 + Width(long);
            if end <= |str| && AllHex(str[loc + 2..end]) then
              var m := CodeMeaning(str[loc + 2..end]);
              if m.None? then Unescape(str) == None else Progress(str, out + m.value, end)
            else Unescape(str) == None
  {
    UnicodePiece(str, loc, long);
    var end := loc + 2 + Width(long);
    if end <= |str| && AllHex(str[loc + 2..end]) {
      Advance(str, out, loc, Unicode(long, str[loc + 2..end]));
    } else {
      Refuse(str, out, loc);
    }
  }

  /** The bytes that a Unicode escape at `loc` appends; None where it throws. */
  method ReadUnicode(str: seq<Byte>, ghost out: seq<Byte>, loc: nat, long: bool) returns (r: Option<seq<Byte>>)
    requires IsUnicodeMark(str, loc, long) && Progress(str, out, loc)
    ensures r.None? ==> Unescape(str) == None
    ensures r.Some? ==> Progress(str, out + r.value, loc + 2 + Width(long))
  {
    StepUnicode(str, out, loc, long);
    var n := Width(long);
    if |str| - loc < n + 2 { return None; }
    var code := ReadCode(str, loc + 2, n);
    if code.None? { return None; }
    EightDigits();
    return CodepointBytes(code.value);
  }

  lemma StepPlain(str: seq<Byte>, out: seq<Byte>, loc: nat)
    requires loc < |str| && Progress(str, out, loc) && str[loc] != BACKSLASH
    ensures Progress(str, out + [str[loc]], loc + 1)
  {
    Advance(str, out, loc, Plain(str[loc]));
  }

  lemma StepNamed(str: seq<Byte>, out: seq<Byte>, loc: nat)
    requires loc + 1 < |str| && Progress(str, out, loc) && str[loc] == BACKSLASH && NamedBy(str[loc + 1]).Some?
    ensures Progress(str, out + [NamedBy(str[loc + 1]).value], loc + 2)
  {
    assert str[loc..][1] == str[loc + 1];
    Advance(str, out, loc, Named(NamedBy(str[loc + 1]).value));
  }

  lemma StepOther(str: seq<Byte>, out: seq<Byte>, loc: nat)
    requires loc < |str| && Progress(str, out, loc) && str[loc] == BACKSLASH
    requires loc + 1 < |str| ==> str[loc + 1] != SHORT && str[loc + 1] != LONG && NamedBy(str[loc + 1]).None?
    ensures if loc + 1 < |str| && str[loc + 1] == ZERO then Progress(str, out + [0], loc + 2) else Unescape(str) == None
  {
    if loc + 1 < |str| { assert str[loc..][1] == str[loc + 1]; }
    if loc + 1 < |str| && str[loc + 1] == ZERO {
      Advance(str, out, loc, Zero);
    } else {
      Refuse(str, out, loc);
    }
  }

  /** remove_escaped_characters; None where it throws. */
  method RemoveEscapedCharacters(str: seq<Byte>) returns (r: Option<seq<Byte>>)
    ensures r == Unescape(str)
  {
    var out: seq<Byte> := [];
    var loc := 0;
    Started(str);
    while loc < |str|
      invariant 0 <= loc <= |str|
      invariant Progress(str, out, loc)
    {
      if str[loc] == BACKSLASH {
        if |str| - loc < 2 {
          StepOther(str, out, loc);
          return None;
        }
        var named := NamedBy(str[loc + 1]);
        if named.Some? {
          StepNamed(str, out, loc);
          out := out + [named.value];
          loc := loc + 1;
        } else if str[loc + 1] == SHORT {
          var app := ReadUnicode(str, out, loc, false);
          if app.None? { return None; }
          out := out + app.value;
          loc := loc + 5;
        } else if str[loc + 1] == LONG {
          var app := ReadUnicode(str, out, loc, true);
          if app.None? { return None; }
          out := out + app.value;
          loc := loc + 9;
        } else if str[loc + 1] == ZERO {
          StepOther(str, out, loc);
          out := out + [0];
          loc := loc + 1;
        } else {
          StepOther(str, out, loc);
          return None;
        }
      } else {
        StepPlain(str, out, loc);
        out := out + [str[loc]];
      }
      loc := loc + 1;
    }
    Finished(str, out);
    return Some(out);
  }

  lemma Started(str: seq<Byte>)
    ensures Progress(str, [], 0)
  {
    assert str[0..] == str;
    if Unescape(str).Some? { assert [] + Unescape(str).value == Unescape(str).value; }
  }

  lemma Finished(str: seq<Byte>, out: seq<Byte>)
    requires Progress(str, out, |str|)
    ensures Unescape(str) == Some(out)
  {
    assert out + [] == out;
  }

  // ----- Unicode escapes --------------------------------------------------------------------

  /** `p` is a Unicode escape of the scalar value `c`. */
  predicate Denotes(p: Piece, c: int) { p.Unicode? && ValidPiece(p) && IsScalarValue(c) && Value(p.digits) == c }

  /**
   * A text written entirely in Unicode escapes is read as UTF-8 that a decoder after section 3
   * of RFC 3629 maps back to the same scalar values.
   */
  lemma {:induction false} UnicodeEscapes(ps: seq<Piece>, text: seq<int>)
    requires |ps| == |text| && forall i :: 0 <= i < |ps| ==> Denotes(ps[i], text[i])
    ensures ValidPieces(ps) && IsText(text)
    ensures MeaningAll(ps) == Some(EncodeText(text))
  {
    if ps != [] {
      assert Denotes(ps[0], text[0]);
      UnicodeEscapes(ps[1..], text[1..]);
      assert ps == [ps[0]] + ps[1..] && text == [text[0]] + text[1..];
    }
  }

  lemma UnicodeEscapesDecode(ps: seq<Piece>, text: seq<int>)
    requires |ps| == |text| && forall i :: 0 <= i < |ps| ==> Denotes(ps[i], text[i])
    ensures ValidPieces(ps)
    ensures Unescape(WrittenAll(ps)).Some? && DecodeText(Unescape(WrittenAll(ps)).value) == Some(text)
  {
    UnicodeEscapes(ps, text);
    ReadsPieces(ps);
    DecodeTextEncode(text);
  }

  function DigitByte(d: nat): Byte
    requires d < 16
  {
    if d < 10 then 0x30 + d else 0x61 + d - 10
  }

  function DigitsOf(c: nat, n: nat): (s: seq<Byte>)
    ensures |s| == n && AllHex(s)
  {
    if n == 0 then [] else DigitsOf(c / 16, n - 1) + [DigitByte(c % 16)]
  }

  lemma ValueSnoc(digits: seq<Byte>, d: nat)
    requires AllHex(digits) && d < 16
    ensures AllHex(digits + [DigitByte(d)]) && Value(digits + [DigitByte(d)]) == 16 * Value(digits) + d
  {
    assert (digits + [DigitByte(d)])[..|digits|] == digits;
  }

  lemma {:induction false} DigitsDenote(c: nat, n: nat)
    requires c < Pow16(n)
    ensures Value(DigitsOf(c, n)) == c
  {
    if n > 0 {
      DigitsDenote(c / 16, n - 1);
      ValueSnoc(DigitsOf(c / 16, n - 1), c % 16);
    }
  }

  /** Every scalar value can be written so: all of them with eight digits, the first 65536 with four. */
  lemma EveryScalarHasEscape(c: int)
    requires IsScalarValue(c)
    ensures Denotes(Unicode(true, DigitsOf(c, 8)), c)
    ensures c < 0x10000 ==> Denotes(Unicode(false, DigitsOf(c, 4)), c)
  {
    EightDigits();
    assert Pow16(4) == 65536;
    DigitsDenote(c, 8);
    if c < 0x10000 { DigitsDenote(c, 4); }
  }
}

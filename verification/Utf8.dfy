/** UTF-8: the encoder of the command-line library, and a decoder after RFC 3629. */
module Utf8 {
  import opened Bytes

  /** A Unicode scalar value: a code point that is no surrogate. */
  predicate IsScalarValue(c: int) { 0 <= c < 0xD800 || 0xE000 <= c < 0x110000 }

  // ----- groups of six bits ---------------------------------------------------------------

  /** A shift right by six bits, and the six low bits. */
  function High(c: nat): nat { c / 64 }

  function Low(c: nat): nat { c % 64 }

  function Join(high: nat, low: nat): nat { 64 * high + low }

  lemma JoinParts(c: nat)
    ensures Join(High(c), Low(c)) == c && Low(c) < 64
  {
  }

  lemma PartsOfJoin(high: nat, low: nat)
    requires low < 64
    ensures High(Join(high, low)) == high && Low(Join(high, low)) == low
  {
  }

  /**
   * append_codepoint: the bytes appended for a 32-bit code, None where it throws, nothing
   * beyond the last code point. Its `|` only joins disjoint bit fields, so it is the sum.
   */
  function CodepointBytes(code: nat): (r: Option<seq<Byte>>)
    requires code < 0x1_0000_0000
  {
    if code < 0x80 then Some([code])
    else if code < 0x800 then Some([0xC0 + High(code), 0x80 + Low(code)])
    else if code < 0x10000 then
      if 0xD800 <= code <= 0xDFFF then None
      else Some([0xE0 + High(High(code)), 0x80 + Low(High(code)), 0x80 + Low(code)])
    else if code < 0x110000 then
      Some([0xF0 + High(High(High(code))), 0x80 + Low(High(High(code))), 0x80 + Low(High(code)), 0x80 + Low(code)])
    else Some([])
  }

  function EncodeOne(c: int): (s: seq<Byte>)
    requires IsScalarValue(c)
    ensures 1 <= |s| <= 4
  {
    CodepointBytes(c).value
  }

  // ----- section 4 of RFC 3629: the well-formed byte sequences ----------------------------

  predicate In(s: seq<Byte>, i: nat, lo: int, hi: int) { i < |s| && lo <= s[i] <= hi }

  predicate Tail(s: seq<Byte>, i: nat) { In(s, i, 0x80, 0xBF) }

  predicate Utf82(s: seq<Byte>) { In(s, 0, 0xC2, 0xDF) && Tail(s, 1) }

  predicate Utf83(s: seq<Byte>)
  {
    || (In(s, 0, 0xE0, 0xE0) && In(s, 1, 0xA0, 0xBF) && Tail(s, 2))
    || (In(s, 0, 0xE1, 0xEC) && Tail(s, 1) && Tail(s, 2))
    || (In(s, 0, 0xED, 0xED) && In(s, 1, 0x80, 0x9F) && Tail(s, 2))
    || (In(s, 0, 0xEE, 0xEF) && Tail(s, 1) && Tail(s, 2))
  }

  predicate Utf84(s: seq<Byte>)
  {
    || (In(s, 0, 0xF0, 0xF0) && In(s, 1, 0x90, 0xBF) && Tail(s, 2) && Tail(s, 3))
    || (In(s, 0, 0xF1, 0xF3) && Tail(s, 1) && Tail(s, 2) && Tail(s, 3))
    || (In(s, 0, 0xF4, 0xF4) && In(s, 1, 0x80, 0x8F) && Tail(s, 2) && Tail(s, 3))
  }

  /** Section 3 of RFC 3629: the first character of `s` and the number of bytes it takes. */
  function DecodeOne(s: seq<Byte>): (r: Option<(int, nat)>)
    ensures r.Some? ==> 1 <= r.value.1 <= |s|
  {
    if In(s, 0, 0x00, 0x7F) then Some((s[0], 1))
    else if Utf82(s) then Some((Join(s[0] - 0xC0, s[1] - 0x80), 2))
    else if Utf83(s) then Some((Join(Join(s[0] - 0xE0, s[1] - 0x80), s[2] - 0x80), 3))
    else if Utf84(s) then Some((Join(Join(Join(s[0] - 0xF0, s[1] - 0x80), s[2] - 0x80), s[3] - 0x80), 4))
    else None
  }

  lemma DecodesTwo(s: seq<Byte>, a: nat, b: nat)
    requires |s| >= 2 && b < 64 && 0x80 <= Join(a, b) < 0x800
    requires s[0] == 0xC0 + a && s[1] == 0x80 + b
    ensures DecodeOne(s) == Some((Join(a, b), 2))
  {
    assert Utf82(s);
  }

  lemma DecodesThree(s: seq<Byte>, a: nat, b: nat, c: nat)
    requires |s| >= 3 && b < 64 && c < 64 && 0x800 <= Join(Join(a, b), c) < 0x10000 && IsScalarValue(Join(Join(a, b), c))
    requires s[0] == 0xE0 + a && s[1] == 0x80 + b && s[2] == 0x80 + c
    ensures DecodeOne(s) == Some((Join(Join(a, b), c), 3))
  {
    assert a < 16;
    assert a == 0 ==> b >= 32;
    assert a == 13 ==> b < 32;
    assert Tail(s, 2);
    assert Utf83(s);
  }

  lemma DecodesFour(s: seq<Byte>, a: nat, b: nat, c: nat, d: nat)
    requires |s| >= 4 && b < 64 && c < 64 && d < 64 && 0x10000 <= Join(Join(Join(a, b), c), d) < 0x110000
    requires s[0] == 0xF0 + a && s[1] == 0x80 + b && s[2] == 0x80 + c && s[3] == 0x80 + d
    ensures DecodeOne(s) == Some((Join(Join(Join(a, b), c), d), 4))
  {
    assert a < 5;
    assert a == 0 ==> b >= 16;
    assert a == 4 ==> b < 16;
    assert Tail(s, 2) && Tail(s, 3);
    assert Utf84(s);
  }

  lemma ThreeDigits(c: nat)
    ensures c == Join(Join(High(High(c)), Low(High(c))), Low(c)) && Low(High(c)) < 64 && Low(c) < 64
  {
    JoinParts(c);
    JoinParts(High(c));
  }

  lemma FourDigits(c: nat)
    ensures c == Join(Join(Join(High(High(High(c))), Low(High(High(c)))), Low(High(c))), Low(c))
    ensures Low(High(High(c))) < 64 && Low(High(c)) < 64 && Low(c) < 64
  {
    ThreeDigits(High(c));
    JoinParts(c);
  }

  lemma DecodeEncodeLong(c: int, rest: seq<Byte>)
    requires 0x10000 <= c < 0x110000
    ensures DecodeOne(EncodeOne(c) + rest) == Some((c, 4))
  {
    FourDigits(c);
    DecodesFour(EncodeOne(c) + rest, High(High(High(c))), Low(High(High(c))), Low(High(c)), Low(c));
  }

  lemma DecodeEncodeMiddle(c: int, rest: seq<Byte>)
    requires 0x800 <= c < 0x10000 && IsScalarValue(c)
    ensures DecodeOne(EncodeOne(c) + rest) == Some((c, 3))
  {
    ThreeDigits(c);
    DecodesThree(EncodeOne(c) + rest, High(High(c)), Low(High(c)), Low(c));
  }

  lemma DecodeEncodeShort(c: int, rest: seq<Byte>)
    requires 0 <= c < 0x800
    ensures DecodeOne(EncodeOne(c) + rest) == Some((c, if c < 0x80 then 1 else 2))
  {
    if c >= 0x80 {
      JoinParts(c);
      DecodesTwo(EncodeOne(c) + rest, High(c), Low(c));
    }
  }

  /** Every scalar value is decoded from its bytes, whatever follows them. */
  lemma DecodeEncode(c: int, rest: seq<Byte>)
    requires IsScalarValue(c)
    ensures DecodeOne(EncodeOne(c) + rest) == Some((c, |EncodeOne(c)|))
  {
    if c < 0x800 {
      DecodeEncodeShort(c, rest);
    } else if c < 0x10000 {
      DecodeEncodeMiddle(c, rest);
    } else {
      DecodeEncodeLong(c, rest);
    }
  }

  lemma EncodesTwo(a: nat, b: nat)
    requires 2 <= a < 32 && b < 64
    ensures IsScalarValue(Join(a, b)) && EncodeOne(Join(a, b)) == [0xC0 + a, 0x80 + b]
  {
    PartsOfJoin(a, b);
  }

  lemma EncodesThree(a: nat, b: nat, c: nat)
    requires a < 16 && b < 64 && c < 64 && (a == 0 ==> b >= 32) && (a == 13 ==> b < 32)
    ensures IsScalarValue(Join(Join(a, b), c)) && EncodeOne(Join(Join(a, b), c)) == [0xE0 + a, 0x80 + b, 0x80 + c]
  {
    var n := Join(Join(a, b), c);
    PartsOfJoin(Join(a, b), c);
    PartsOfJoin(a, b);
    assert 0x800 <= n < 0x10000;
  }

  lemma BoundFour(a: nat, b: nat, c: nat, d: nat)
    requires a < 5 && b < 64 && c < 64 && d < 64 && (a == 0 ==> b >= 16) && (a == 4 ==> b < 16)
    ensures 0x10000 <= Join(Join(Join(a, b), c), d) < 0x110000
  {
    var ab := Join(a, b);
    assert 16 <= ab < 272;
    var abc := Join(ab, c);
    assert 1024 <= abc < 17408;
  }

  lemma EncodeLong(n: nat)
    requires 0x10000 <= n < 0x110000
    ensures EncodeOne(n) == [0xF0 + High(High(High(n))), 0x80 + Low(High(High(n))), 0x80 + Low(High(n)), 0x80 + Low(n)]
  {
  }

  lemma EncodesFour(a: nat, b: nat, c: nat, d: nat)
    requires a < 5 && b < 64 && c < 64 && d < 64 && (a == 0 ==> b >= 16) && (a == 4 ==> b < 16)
    ensures IsScalarValue(Join(Join(Join(a, b), c), d))
    ensures EncodeOne(Join(Join(Join(a, b), c), d)) == [0xF0 + a, 0x80 + b, 0x80 + c, 0x80 + d]
  {
    BoundFour(a, b, c, d);
    FourParts(Join(Join(Join(a, b), c), d), a, b, c, d);
    EncodeLong(Join(Join(Join(a, b), c), d));
  }

  lemma FourParts(n: nat, a: nat, b: nat, c: nat, d: nat)
    requires n == Join(Join(Join(a, b), c), d) && b < 64 && c < 64 && d < 64
    ensures High(High(High(n))) == a && Low(High(High(n))) == b && Low(High(n)) == c && Low(n) == d
  {
    var ab := Join(a, b);
    var abc := Join(ab, c);
    PartsOfJoin(abc, d);
    assert High(n) == abc;
    PartsOfJoin(ab, c);
    assert High(abc) == ab;
    PartsOfJoin(a, b);
  }

  lemma BackTwo(s: seq<Byte>)
    requires Utf82(s)
    ensures var c := Join(s[0] - 0xC0, s[1] - 0x80); IsScalarValue(c) && EncodeOne(c) == s[..2]
  {
    EncodesTwo(s[0] - 0xC0, s[1] - 0x80);
    assert s[..2] == [s[0], s[1]];
  }

  lemma BackThree(s: seq<Byte>)
    requires Utf83(s)
    ensures var c := Join(Join(s[0] - 0xE0, s[1] - 0x80), s[2] - 0x80); IsScalarValue(c) && EncodeOne(c) == s[..3]
  {
    EncodesThree(s[0] - 0xE0, s[1] - 0x80, s[2] - 0x80);
    assert s[..3] == [s[0], s[1], s[2]];
  }

  lemma BackFour(s: seq<Byte>)
    requires Utf84(s)
    ensures var c := Join(Join(Join(s[0] - 0xF0, s[1] - 0x80), s[2] - 0x80), s[3] - 0x80);
            IsScalarValue(c) && EncodeOne(c) == s[..4]
  {
    EncodesFour(s[0] - 0xF0, s[1] - 0x80, s[2] - 0x80, s[3] - 0x80);
    assert s[..4] == [s[0], s[1], s[2], s[3]];
  }

  /** Whatever decodes is a scalar value in its only encoding: no overlong form, no surrogate. */
  lemma EncodeDecode(s: seq<Byte>)
    requires DecodeOne(s).Some?
    ensures IsScalarValue(DecodeOne(s).value.0)
    ensures s[..DecodeOne(s).value.1] == EncodeOne(DecodeOne(s).value.0)
  {
    if In(s, 0, 0x00, 0x7F) {
    } else if Utf82(s) {
      BackTwo(s);
    } else if Utf83(s) {
      BackThree(s);
    } else {
      BackFour(s);
    }
  }

  // ----- whole texts ----------------------------------------------------------------------

  predicate IsText(t: seq<int>) { forall i :: 0 <= i < |t| ==> IsScalarValue(t[i]) }

  function EncodeText(t: seq<int>): (s: seq<Byte>)
    requires IsText(t)
  {
    if t == [] then [] else EncodeOne(t[0]) + EncodeText(t[1..])
  }

  function DecodeText(s: seq<Byte>): (r: Option<seq<int>>)
    decreases |s|
  {
    if s == [] then Some([])
    else
      var first := DecodeOne(s);
      if first.None? then None
      else
        var more := DecodeText(s[first.value.1..]);
        if more.None? then None else Some([first.value.0] + more.value)
  }

  lemma {:induction false} DecodeTextEncode(t: seq<int>)
    requires IsText(t)
    ensures DecodeText(EncodeText(t)) == Some(t)
  {
    if t != [] {
      DecodeEncode(t[0], EncodeText(t[1..]));
      assert EncodeText(t)[|EncodeOne(t[0])|..] == EncodeText(t[1..]);
      DecodeTextEncode(t[1..]);
      assert t == [t[0]] + t[1..];
    }
  }

  lemma ConsText(c: int, t: seq<int>)
    requires IsScalarValue(c) && IsText(t)
    ensures IsText([c] + t) && EncodeText([c] + t) == EncodeOne(c) + EncodeText(t)
  {
    assert ([c] + t)[1..] == t;
  }

  lemma FirstDecoded(s: seq<Byte>, c: int, n: nat)
    requires DecodeText(s).Some? && DecodeOne(s) == Some((c, n))
    ensures 1 <= n <= |s| && DecodeText(s[n..]).Some?
    ensures DecodeText(s).value == [c] + DecodeText(s[n..]).value
    ensures IsScalarValue(c) && s == EncodeOne(c) + s[n..]
  {
    EncodeDecode(s);
    assert s[..n] + s[n..] == s;
  }

  lemma {:induction false} EncodeTextDecode(s: seq<Byte>)
    requires DecodeText(s).Some?
    ensures IsText(DecodeText(s).value) && EncodeText(DecodeText(s).value) == s
    decreases |s|
  {
    if s != [] {
      var (c, n) := DecodeOne(s).value;
      FirstDecoded(s, c, n);
      EncodeTextDecode(s[n..]);
      ConsText(c, DecodeText(s[n..]).value);
    }
  }
}

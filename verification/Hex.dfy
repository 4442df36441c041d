/** The hexadecimal texts of the lockbox and of the SGX enclave. */
module Hex {
  import opened Bytes

  /** The digit table: the value of a hexadecimal digit, -1 for every other character. */
  function HexDigit(c: char): (d: int)
    ensures -1 <= d < 16
  {
    if '0' <= c <= '9' then c as int - '0' as int
    else if 'a' <= c <= 'f' then c as int - 'a' as int + 10
    else if 'A' <= c <= 'F' then c as int - 'A' as int + 10
    else -1
  }

  predicate IsHex(c: char) { HexDigit(c) >= 0 }

  predicate IsSpace(c: char)
  {
    c == ' ' || c == '\U{0C}' || c == '\n' || c == '\r' || c == '\t' || c == '\U{0B}'
  }

  // ----- what a text denotes --------------------------------------------------------------

  /** Whitespace followed by two digits: one byte of a text. */
  datatype Unit = Unit(space: string, hi: char, lo: char)

  predicate ValidUnit(u: Unit) { IsHex(u.hi) && IsHex(u.lo) && forall i :: 0 <= i < |u.space| ==> IsSpace(u.space[i]) }

  predicate ValidUnits(us: seq<Unit>) { forall i :: 0 <= i < |us| ==> ValidUnit(us[i]) }

  function Render(us: seq<Unit>): string
  {
    if us == [] then "" else us[0].space + [us[0].hi, us[0].lo] + Render(us[1..])
  }

  function UnitValue(u: Unit): Byte
    requires ValidUnit(u)
  {
    16 * HexDigit(u.hi) + HexDigit(u.lo)
  }

  function Values(us: seq<Unit>): (bs: seq<Byte>)
    requires ValidUnits(us)
  {
    seq(|us|, i requires 0 <= i < |us| => assert ValidUnit(us[i]); UnitValue(us[i]))
  }

  /** `s` begins with whitespace followed by two digits. */
  ghost predicate StartsWithUnit(s: string)
  {
    exists u: Unit :: ValidUnit(u) && u.space + [u.hi, u.lo] <= s
  }

  function SkipSpaces(s: string): (t: string)
    ensures |t| <= |s|
    ensures t != [] ==> !IsSpace(t[0])
  {
    if s != [] && IsSpace(s[0]) then SkipSpaces(s[1..]) else s
  }

  /** The bytes of a text: unit by unit until the first place where no unit stands. */
  function HexBytes(s: string): (bs: seq<Byte>)
    decreases |s|
  {
    var t := SkipSpaces(s);
    if |t| >= 2 && IsHex(t[0]) && IsHex(t[1]) then [16 * HexDigit(t[0]) + HexDigit(t[1])] + HexBytes(t[2..]) else []
  }

  lemma {:induction false} SkipSpacesOver(space: string, t: string)
    requires forall i :: 0 <= i < |space| ==> IsSpace(space[i])
    requires t == [] || !IsSpace(t[0])
    ensures SkipSpaces(space + t) == t
    decreases |space|
  {
    if space == [] {
      assert space + t == t;
    } else {
      assert (space + t)[1..] == space[1..] + t;
      SkipSpacesOver(space[1..], t);
    }
  }

  lemma {:induction false} SkipSpacesSplits(s: string)
    ensures SkipSpaces(s) == s[|s| - |SkipSpaces(s)|..]
    ensures forall i :: 0 <= i < |s| - |SkipSpaces(s)| ==> IsSpace(s[i])
    decreases |s|
  {
    if s != [] && IsSpace(s[0]) {
      SkipSpacesSplits(s[1..]);
      var k := |s| - |SkipSpaces(s)|;
      forall i | 0 <= i < k ensures IsSpace(s[i]) {
        if i > 0 { assert s[i] == s[1..][i - 1]; }
      }
    }
  }

  /** The parser reads the longest prefix made of units, and exactly that. */
  lemma {:induction false} LongestPrefix(us: seq<Unit>, rest: string)
    requires ValidUnits(us) && !StartsWithUnit(rest)
    ensures HexBytes(Render(us) + rest) == Values(us)
    decreases |us|
  {
    if us == [] {
      assert Render(us) + rest == rest;
      StartsWithUnitIff(rest);
    } else {
      var u, more := us[0], Render(us[1..]) + rest;
      assert ValidUnit(u);
      assert Render(us) + rest == u.space + ([u.hi, u.lo] + more);
      UnitFirst(u, more);
      LongestPrefix(us[1..], rest);
      assert Values(us) == [UnitValue(u)] + Values(us[1..]);
    }
  }

  lemma {:induction false} UnitFirst(u: Unit, more: string)
    requires ValidUnit(u)
    ensures HexBytes(u.space + ([u.hi, u.lo] + more)) == [UnitValue(u)] + HexBytes(more)
  {
    var s := [u.hi, u.lo] + more;
    SkipSpacesOver(u.space, s);
    assert s[2..] == more && s[0] == u.hi && s[1] == u.lo;
  }

  predicate PairAhead(s: string)
  {
    var t := SkipSpaces(s);
    |t| >= 2 && IsHex(t[0]) && IsHex(t[1])
  }

  lemma UnitGivesPair(s: string, u: Unit)
    requires ValidUnit(u) && u.space + [u.hi, u.lo] <= s
    ensures PairAhead(s)
  {
    var tail, start := s[|u.space|..], u.space + [u.hi, u.lo];
    assert s == u.space + tail;
    assert tail[0] == start[|u.space|] && tail[1] == start[|u.space| + 1];
    SkipSpacesOver(u.space, tail);
  }

  lemma PairGivesUnit(s: string)
    requires PairAhead(s)
    ensures StartsWithUnit(s)
  {
    var t := SkipSpaces(s);
    SkipSpacesSplits(s);
    var u := Unit(s[..|s| - |t|], t[0], t[1]);
    assert s == u.space + t;
    assert t == [t[0], t[1]] + t[2..];
    assert ValidUnit(u) && u.space + [u.hi, u.lo] <= s;
  }

  /** Looking past the whitespace decides whether a unit stands there. */
  lemma StartsWithUnitIff(s: string)
    ensures StartsWithUnit(s) <==> PairAhead(s)
  {
    if PairAhead(s) { PairGivesUnit(s); }
    forall u: Unit | ValidUnit(u) && u.space + [u.hi, u.lo] <= s ensures PairAhead(s) { UnitGivesPair(s, u); }
  }

  /** Every text is a run of units followed by something no unit can start. */
  lemma {:induction false} EveryTextDecomposes(s: string) returns (us: seq<Unit>, rest: string)
    ensures ValidUnits(us) && s == Render(us) + rest && !StartsWithUnit(rest)
    decreases |s|
  {
    StartsWithUnitIff(s);
    if PairAhead(s) {
      var t := SkipSpaces(s);
      SkipSpacesSplits(s);
      var u := Unit(s[..|s| - |t|], t[0], t[1]);
      var more;
      more, rest := EveryTextDecomposes(t[2..]);
      us := [u] + more;
      RenderFirst(u, more);
      assert s == u.space + t;
      Regroup(u.space, t, Render(more), rest);
    } else {
      us, rest := [], s;
    }
  }

  lemma Regroup(space: string, t: string, a: string, b: string)
    requires |t| >= 2 && t[2..] == a + b
    ensures space + t == space + [t[0], t[1]] + a + b
  {
    assert t == [t[0], t[1]] + (a + b);
  }

  lemma RenderFirst(u: Unit, more: seq<Unit>)
    ensures Render([u] + more) == u.space + [u.hi, u.lo] + Render(more)
  {
    assert ([u] + more)[1..] == more;
  }

  lemma {:induction false} SkipOne(s: string)
    requires s != [] && IsSpace(s[0])
    ensures HexBytes(s) == HexBytes(s[1..])
  {
    assert SkipSpaces(s) == SkipSpaces(s[1..]);
  }

  lemma SkipNothing(s: string)
    requires s == [] || !IsSpace(s[0])
    ensures SkipSpaces(s) == s
  {
  }

  lemma TakePair(s: string)
    requires |s| >= 2 && !IsSpace(s[0])
    ensures HexBytes(s) == if IsHex(s[0]) && IsHex(s[1]) then [16 * HexDigit(s[0]) + HexDigit(s[1])] + HexBytes(s[2..]) else []
  {
    SkipNothing(s);
  }

  /** The parser's loop. It stops at a bad pair, having read both of its characters. */
  method ParseHex(str: string) returns (vch: seq<Byte>)
    ensures vch == HexBytes(str)
  {
    vch := [];
    var it := 0;
    while it != |str| && it + 1 != |str|
      invariant 0 <= it <= |str|
      invariant vch + HexBytes(str[it..]) == HexBytes(str)
      decreases |str| - it
    {
      ghost var here := str[it..];
      if IsSpace(str[it]) {
        SkipOne(here);
        assert here[1..] == str[it + 1..];
        it := it + 1;
        continue;
      }
      TakePair(here);
      assert here[2..] == str[it + 2..];
      var c1 := HexDigit(str[it]);
      var c2 := HexDigit(str[it + 1]);
      it := it + 2;
      if c1 < 0 || c2 < 0 {
        return;
      }
      assert vch + ([16 * c1 + c2] + HexBytes(str[it..])) == vch + [16 * c1 + c2] + HexBytes(str[it..]);
      vch := vch + [16 * c1 + c2];
    }
    assert |SkipSpaces(str[it..])| <= 1;
  }

  // ----- printing -------------------------------------------------------------------------

  /** The character at index `d` of "0123456789abcdef". */
  function Digit(d: int): (c: char)
    requires 0 <= d < 16
    ensures HexDigit(c) == d && !IsSpace(c)
  {
    if d < 10 then ('0' as int + d) as char else ('a' as int + d - 10) as char
  }

  function PrintHex(bs: seq<Byte>): (s: string)
    ensures |s| == 2 * |bs|
    ensures forall i :: 0 <= i < |s| ==> IsHex(s[i])
  {
    if bs == [] then "" else [Digit(bs[0] / 16), Digit(bs[0] % 16)] + PrintHex(bs[1..])
  }

  lemma {:induction false} PrintHexAppend(a: seq<Byte>, b: Byte)
    ensures PrintHex(a + [b]) == PrintHex(a) + [Digit(b / 16), Digit(b % 16)]
  {
    if a == [] {
      assert a + [b] == [b];
    } else {
      assert (a + [b])[1..] == a[1..] + [b];
      PrintHexAppend(a[1..], b);
    }
  }

  /** data_to_hex: two characters a byte and a terminating zero. */
  method DataToHex(data: array<Byte>) returns (out: array<char>)
    ensures fresh(out) && out.Length == 2 * data.Length + 1
    ensures out[..] == PrintHex(data[..]) + ['\0']
  {
    out := new char[2 * data.Length + 1](_ => '\0');
    var pin := 0;
    while pin < data.Length
      invariant 0 <= pin <= data.Length
      invariant out[..2 * pin] == PrintHex(data[..pin])
    {
      out[2 * pin] := Digit(data[pin] / 16);
      out[2 * pin + 1] := Digit(data[pin] % 16);
      PrintHexAppend(data[..pin], data[pin]);
      assert data[..pin + 1] == data[..pin] + [data[pin]];
      assert out[..2 * (pin + 1)] == out[..2 * pin] + [out[2 * pin], out[2 * pin + 1]];
      pin := pin + 1;
    }
    out[2 * pin] := '\0';
    assert data[..] == data[..pin];
    assert out[..] == out[..2 * pin] + ['\0'];
  }

  /** key_to_string: the same digits behind "0x". */
  method KeyToString(key: seq<Byte>) returns (s: string)
    ensures s == "0x" + PrintHex(key)
  {
    s := "0x";
    var i := 0;
    while i < |key|
      invariant 0 <= i <= |key|
      invariant s == "0x" + PrintHex(key[..i])
    {
      PrintHexAppend(key[..i], key[i]);
      assert key[..i + 1] == key[..i] + [key[i]];
      s := s + [Digit(key[i] / 16), Digit(key[i] % 16)];
      i := i + 1;
    }
    assert key[..i] == key;
  }

  /** What the routes do with a field before parsing it. */
  function StripPrefix(s: string): (t: string)
  {
    if |s| >= 2 && s[..2] == "0x" then s[2..] else s
  }

  lemma {:induction false} HexBytesOfPairs(bs: seq<Byte>)
    ensures HexBytes(PrintHex(bs)) == bs
  {
    if bs != [] {
      var s := PrintHex(bs);
      assert s[2..] == PrintHex(bs[1..]);
      HexBytesOfPairs(bs[1..]);
      TakePair(s);
      assert 16 * (bs[0] / 16) + bs[0] % 16 == bs[0];
      assert [bs[0]] + bs[1..] == bs;
    }
  }

  /** A route reads back what either printer wrote, with or without the "0x". */
  lemma RoutesReadPrinters(bs: seq<Byte>)
    ensures HexBytes(StripPrefix("0x" + PrintHex(bs))) == bs
    ensures HexBytes(StripPrefix(PrintHex(bs))) == bs
  {
    HexBytesOfPairs(bs);
    assert ("0x" + PrintHex(bs))[2..] == PrintHex(bs);
    var s := PrintHex(bs);
    assert |s| >= 2 ==> s[..2][1] == s[1] && "0x"[1] == 'x' && !IsHex('x');
  }

  predicate AllHex(s: string) { forall i :: 0 <= i < |s| ==> IsHex(s[i]) }

  /** The byte two digits of a text stand for. */
  function PairAt(s: string, k: nat): Byte
    requires AllHex(s) && 2 * k + 1 < |s|
  {
    16 * HexDigit(s[2 * k]) + HexDigit(s[2 * k + 1])
  }

  lemma {:induction false} HexBytesOfDigits(s: string, k: nat)
    requires AllHex(s) && |s| % 2 == 0 && k <= |s| / 2
    ensures |HexBytes(s)| == |s| / 2
    ensures k < |s| / 2 ==> HexBytes(s)[k] == PairAt(s, k)
    decreases |s|
  {
    if |s| >= 2 {
      TakePair(s);
      var rest := s[2..];
      assert forall i :: 0 <= i < |rest| ==> rest[i] == s[i + 2];
      HexBytesOfDigits(rest, if k > 0 then k - 1 else 0);
    } else {
      assert HexBytes(s) == [];
    }
  }

  /**
   * What a stream in hexadecimal mode reads from two characters, taken as a byte: whitespace is
   * passed over, a sign may precede a digit, and the value is zero when no digit is found. Two
   * blanks leave the variable as it was.
   */
  function StreamByte(a: char, b: char, unset: Byte): Byte
  {
    if IsSpace(a) && IsSpace(b) then unset
    else if IsSpace(a) || a == '+' then if IsHex(b) then HexDigit(b) else 0
    else if a == '-' then if IsHex(b) then (256 - HexDigit(b)) % 256 else 0
    else if !IsHex(a) then 0
    else if IsHex(b) then 16 * HexDigit(a) + HexDigit(b)
    else HexDigit(a)
  }

  function PairByte(s: string, k: nat, unset: nat -> Byte): Byte
    requires 2 * k + 1 < |s|
  {
    StreamByte(s[2 * k], s[2 * k + 1], unset(k))
  }

  /** A byte for every two characters means that every character was a digit. */
  lemma {:induction false} FullLength(s: string)
    ensures 2 * |HexBytes(s)| <= |s|
    ensures 2 * |HexBytes(s)| == |s| ==> AllHex(s)
    decreases |s|
  {
    var t := SkipSpaces(s);
    SkipSpacesSplits(s);
    if |t| >= 2 && IsHex(t[0]) && IsHex(t[1]) {
      FullLength(t[2..]);
      if 2 * |HexBytes(s)| == |s| {
        assert t == s;
        forall i | 0 <= i < |s| ensures IsHex(s[i]) {
          if i >= 2 { assert s[i] == s[2..][i - 2]; }
        }
      }
    }
  }

  /**
   * hex_to_bytes: refuses odd lengths, otherwise fills the output from each pair by itself. That is
   * what ParseHex would give if and only if the text consists of digits.
   */
  method HexToBytes(hex: string, output: array<Byte>, unset: nat -> Byte) returns (ok: bool)
    requires output.Length >= |hex| / 2
    modifies output
    ensures ok <==> |hex| % 2 == 0
    ensures ok ==> forall k :: 0 <= k < |hex| / 2 ==> output[k] == PairByte(hex, k, unset)
    ensures ok ==> (output[..|hex| / 2] == HexBytes(hex) <==> AllHex(hex))
    ensures !ok ==> output[..] == old(output[..])
    ensures output[|hex| / 2..] == old(output[|hex| / 2..])
  {
    if |hex| % 2 != 0 {
      return false;
    }
    var i := 0;
    while i < |hex|
      invariant 0 <= i <= |hex| && i % 2 == 0
      invariant forall k :: 0 <= k < i / 2 ==> output[k] == PairByte(hex, k, unset)
      invariant forall k :: |hex| / 2 <= k < output.Length ==> output[k] == old(output[k])
    {
      output[i / 2] := StreamByte(hex[i], hex[i + 1], unset(i / 2));
      i := i + 2;
    }
    FullLength(hex);
    if AllHex(hex) { DigitsAgree(hex, output[..|hex| / 2], unset); }
    return true;
  }

  lemma DigitsAgree(hex: string, bytes: seq<Byte>, unset: nat -> Byte)
    requires AllHex(hex) && |hex| % 2 == 0 && |bytes| == |hex| / 2
    requires forall k :: 0 <= k < |bytes| ==> bytes[k] == PairByte(hex, k, unset)
    ensures bytes == HexBytes(hex)
  {
    HexBytesOfDigits(hex, 0);
    forall k | 0 <= k < |bytes| ensures bytes[k] == HexBytes(hex)[k] {
      DigitPair(hex[2 * k], hex[2 * k + 1], unset(k));
      HexBytesOfDigits(hex, k);
    }
  }

  lemma DigitPair(a: char, b: char, unset: Byte)
    requires IsHex(a) && IsHex(b)
    ensures StreamByte(a, b, unset) == 16 * HexDigit(a) + HexDigit(b)
  {
    assert !IsSpace(a) && a != '+' && a != '-';
  }
}

/** Strings with a human-readable part, a separator, data symbols and six check symbols. */
module Bech32Strings {
  import opened Bytes
  import opened Bech32

  datatype Variant = Bech32 | Bech32m

  /** The constants 1 and 0x2bc830a3, in binary. */
  function Digits(t: string): (b: Bits)
    ensures |b| == |t|
  {
    seq(|t|, i requires 0 <= i < |t| => t[i] == '1')
  }

  function Start(): (b: Bits) ensures |b| == 30 { Zeros(29) + [true] }

  function Target(v: Variant): (b: Bits) ensures |b| == 30 { if v.Bech32? then Start() else Digits("101011110010000011000010100011") }

  // ----- symbols and characters -------------------------------------------------------------

  lemma {:induction false} NumberBound(b: Bits, limit: nat)
    requires |b| <= limit
    ensures NumberOf(b) < Pow2(limit)
  {
    if b != [] {
      NumberBound(b[..|b| - 1], limit - 1);
    } else {
      PowPositive(limit);
    }
  }

  function Pow2(n: nat): nat { if n == 0 then 1 else 2 * Pow2(n - 1) }

  lemma {:induction false} PowPositive(n: nat)
    ensures Pow2(n) > 0
  {
    if n > 0 { PowPositive(n - 1); }
  }

  lemma SymbolBound(v: Bits)
    requires IsSymbol(v)
    ensures NumberOf(v) < 32
  {
    NumberBound(v, 5);
    assert Pow2(5) == 32;
  }

  function CharOf(v: Bits): char { CharAt(NumberOf(v)) }

  function SymbolOf(c: char): (v: Option<Bits>)
    ensures v.Some? ==> IsSymbol(v.value)
  {
    var k := IndexFrom(Lower(c), 0);
    if k < 32 then Some(BitsOf(k, 5)) else None
  }

  lemma CharRoundTrip(v: Bits)
    requires IsSymbol(v)
    ensures SymbolOf(CharOf(v)) == Some(v) && CharOf(v) != '1' && !IsUpper(CharOf(v))
  {
    var k := NumberOf(v);
    SymbolBound(v);
    CharRange(k);
    var i := IndexFrom(CharOf(v), 0);
    assert i < 32;
    CharsDistinct(i, k);
    BitsRoundTrip(v);
  }

  lemma {:induction false} NumberOfBits(n: nat, len: nat)
    requires n < Pow2(len)
    ensures NumberOf(BitsOf(n, len)) == n
  {
    if len > 0 {
      NumberOfBits(n / 2, len - 1);
      assert BitsOf(n, len)[..len - 1] == BitsOf(n / 2, len - 1);
    }
  }

  lemma SymbolRoundTrip(c: char)
    requires SymbolOf(c).Some?
    ensures CharOf(SymbolOf(c).value) == Lower(c)
  {
    var k := IndexFrom(Lower(c), 0);
    assert Pow2(5) == 32;
    NumberOfBits(k, 5);
  }

  function Chars(vs: seq<Bits>): (s: string)
    ensures |s| == |vs|
  {
    seq(|vs|, i requires 0 <= i < |vs| => CharOf(vs[i]))
  }

  /** The symbols of a data part, if every character is one. */
  function SymbolsOf(s: string): (r: Option<seq<Bits>>)
    ensures r.Some? ==> |r.value| == |s| && AllSymbols(r.value)
  {
    if forall i :: 0 <= i < |s| ==> SymbolOf(s[i]).Some?
    then Some(seq(|s|, i requires 0 <= i < |s| => SymbolOf(s[i]).value))
    else None
  }

  lemma CharsRoundTrip(vs: seq<Bits>)
    requires AllSymbols(vs)
    ensures SymbolsOf(Chars(vs)) == Some(vs)
    ensures forall i :: 0 <= i < |vs| ==> Chars(vs)[i] != '1' && !IsUpper(Chars(vs)[i])
  {
    forall i | 0 <= i < |vs|
      ensures SymbolOf(Chars(vs)[i]) == Some(vs[i]) && Chars(vs)[i] != '1' && !IsUpper(Chars(vs)[i])
    {
      CharRoundTrip(vs[i]);
    }
    assert SymbolsOf(Chars(vs)).value == vs;
  }

  lemma SymbolsRoundTrip(s: string)
    requires SymbolsOf(s).Some?
    ensures Chars(SymbolsOf(s).value) == LowerAll(s)
  {
    forall i | 0 <= i < |s| ensures CharOf(SymbolsOf(s).value[i]) == Lower(s[i]) { SymbolRoundTrip(s[i]); }
  }

  // ----- the human-readable part ------------------------------------------------------------

  predicate ValidHrp(hrp: string) { 1 <= |hrp| <= 83 && forall i :: 0 <= i < |hrp| ==> 33 <= hrp[i] as int <= 126 }

  predicate MixedCase(s: string)
  {
    (exists i :: 0 <= i < |s| && IsLower(s[i])) && (exists i :: 0 <= i < |s| && IsUpper(s[i]))
  }

  /** The high bits of every character, a zero, the low bits of every character. */
  function Expand(hrp: string): (vs: seq<Bits>)
    ensures AllSymbols(vs)
  {
    seq(|hrp|, i requires 0 <= i < |hrp| => BitsOf(hrp[i] as int / 32, 5))
    + [Zeros(5)]
    + seq(|hrp|, i requires 0 <= i < |hrp| => BitsOf(hrp[i] as int % 32, 5))
  }

  /** The last separator, or -1. */
  function LastOne(s: string): (k: int)
    ensures -1 <= k < |s|
    ensures k >= 0 ==> s[k] == '1'
    ensures forall i :: k < i < |s| ==> s[i] != '1'
  {
    if s == [] then -1 else if s[|s| - 1] == '1' then |s| - 1 else LastOne(s[..|s| - 1])
  }

  // ----- encoding and decoding --------------------------------------------------------------

  function Checked(hrp: string, data: seq<Bits>, v: Variant): (vs: seq<Bits>)
    requires AllSymbols(data)
    ensures AllSymbols(vs) && |vs| == |data| + 6
  {
    data + CheckSymbols(GeneratorBit, Start(), Expand(hrp) + data, Target(v))
  }

  function Remainder(hrp: string, vs: seq<Bits>): (r: Bits)
    requires AllSymbols(vs)
    ensures |r| == 30
  {
    Polymod(GeneratorBit, Start(), Expand(hrp) + vs)
  }

  function Encode(hrp: string, data: seq<Bits>, v: Variant): (r: Option<string>)
    requires AllSymbols(data)
  {
    if !ValidHrp(hrp) || MixedCase(hrp) then None
    else Some(LowerAll(hrp) + "1" + Chars(Checked(LowerAll(hrp), data, v)))
  }

  datatype Decoded = Decoded(hrp: string, data: seq<Bits>, variant: Variant)

  function VariantOf(remainder: Bits): Option<Variant>
    requires |remainder| == 30
  {
    if remainder == Target(Bech32m) then Some(Bech32m) else if remainder == Target(Variant.Bech32) then Some(Variant.Bech32) else None
  }

  function DecodeParts(hrp: string, body: string): (r: Option<Decoded>)
    ensures r.Some? ==> AllSymbols(r.value.data)
  {
    var symbols := SymbolsOf(body);
    if !ValidHrp(hrp) || symbols.None? || |body| < 6 then None
    else
      var v := VariantOf(Remainder(LowerAll(hrp), symbols.value));
      if v.None? then None else Some(Decoded(LowerAll(hrp), symbols.value[..|body| - 6], v.value))
  }

  function Decode(s: string): (r: Option<Decoded>)
    ensures r.Some? ==> AllSymbols(r.value.data)
  {
    var sep := LastOne(s);
    if sep < 0 || MixedCase(s) then None else DecodeParts(s[..sep], s[sep + 1..])
  }

  lemma Cancel(data: seq<Bits>, c: seq<Bits>, d: seq<Bits>)
    ensures data + c == data + d <==> c == d
  {
    assert (data + c)[|data|..] == c && (data + d)[|data|..] == d;
  }

  lemma RemainderExactly(hrp: string, data: seq<Bits>, c: seq<Bits>, v: Variant)
    requires AllSymbols(data) && |c| == 6 && AllSymbols(c)
    ensures Remainder(hrp, data + c) == Target(v) <==> data + c == Checked(hrp, data, v)
  {
    var e, t := Expand(hrp), Target(v);
    assert e + (data + c) == e + data + c;
    ChecksumExactly(GeneratorBit, Start(), e + data, t, c);
    Cancel(data, c, CheckSymbols(GeneratorBit, Start(), e + data, t));
  }

  /** `hrp` in the form that an encoder writes. */
  predicate LowerHrp(hrp: string) { ValidHrp(hrp) && forall i :: 0 <= i < |hrp| ==> !IsUpper(hrp[i]) }

  lemma {:induction false} LastOneIs(hrp: string, body: string)
    requires forall i :: 0 <= i < |body| ==> body[i] != '1'
    ensures LastOne(hrp + "1" + body) == |hrp|
  {
    var s := hrp + "1" + body;
    if body != [] {
      var n := |body| - 1;
      assert s[..|s| - 1] == hrp + "1" + body[..n];
      LastOneIs(hrp, body[..n]);
    }
  }

  lemma DecodePartsEncoded(hrp: string, data: seq<Bits>)
    requires LowerHrp(hrp) && AllSymbols(data)
    ensures DecodeParts(hrp, Chars(Checked(hrp, data, Bech32m))) == Some(Decoded(hrp, data, Bech32m))
  {
    var vs := Checked(hrp, data, Bech32m);
    assert LowerAll(hrp) == hrp;
    CharsRoundTrip(vs);
    RemainderExactly(hrp, data, vs[|data|..], Bech32m);
    assert data + vs[|data|..] == vs && vs[..|data|] == data;
  }

  lemma DecodesAs(hrp: string, body: string)
    requires LastOne(hrp + "1" + body) == |hrp| && LowerHrp(hrp) && forall i :: 0 <= i < |body| ==> !IsUpper(body[i])
    ensures Decode(hrp + "1" + body) == DecodeParts(hrp, body)
  {
    var s := hrp + "1" + body;
    assert s[..|hrp|] == hrp && s[|hrp| + 1..] == body;
    assert forall i :: 0 <= i < |s| ==> !IsUpper(s[i]);
  }

  /** Decoding an encoded string gives its parts back. */
  lemma DecodeEncode(hrp: string, data: seq<Bits>)
    requires LowerHrp(hrp) && AllSymbols(data)
    ensures Encode(hrp, data, Bech32m).Some?
    ensures Decode(Encode(hrp, data, Bech32m).value) == Some(Decoded(hrp, data, Bech32m))
  {
    var vs := Checked(hrp, data, Bech32m);
    var body := Chars(vs);
    assert LowerAll(hrp) == hrp;
    var s := hrp + "1" + body;
    CharsRoundTrip(vs);
    LastOneIs(hrp, body);
    DecodesAs(hrp, body);
    DecodePartsEncoded(hrp, data);
  }

  lemma LowerJoined(a: string, b: string)
    ensures LowerAll(a + "1" + b) == LowerAll(a) + "1" + LowerAll(b)
  {
  }

  lemma DecodedSymbols(hrp: string, vs: seq<Bits>)
    requires |vs| >= 6 && AllSymbols(vs) && VariantOf(Remainder(hrp, vs)) == Some(Bech32m)
    ensures vs == Checked(hrp, vs[..|vs| - 6], Bech32m)
  {
    var n := |vs| - 6;
    assert vs[..n] + vs[n..] == vs;
    RemainderExactly(hrp, vs[..n], vs[n..], Bech32m);
  }

  lemma LowerParts(hrp: string, body: string)
    requires DecodeParts(hrp, body).Some? && DecodeParts(hrp, body).value.variant == Bech32m
    ensures var d := DecodeParts(hrp, body).value;
            LowerAll(hrp + "1" + body) == d.hrp + "1" + Chars(Checked(d.hrp, d.data, Bech32m))
  {
    DecodedSymbols(LowerAll(hrp), SymbolsOf(body).value);
    SymbolsRoundTrip(body);
    LowerJoined(hrp, body);
  }

  /** Whatever decodes as Bech32m is, up to letter case, the encoding of what was decoded. */
  lemma EncodeDecode(s: string)
    requires Decode(s).Some? && Decode(s).value.variant == Bech32m
    ensures var d := Decode(s).value; LowerAll(s) == d.hrp + "1" + Chars(Checked(d.hrp, d.data, Bech32m))
  {
    var sep := LastOne(s);
    assert s == s[..sep] + "1" + s[sep + 1..];
    LowerParts(s[..sep], s[sep + 1..]);
  }
}

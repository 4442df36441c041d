/** The checksummed base-32 strings of BIP 173 and BIP 350, on bits with the highest first. */
module Bech32 {
  import opened Bytes

  type Bits = seq<bool>

  /** A symbol is five bits, the checksum register thirty. */
  predicate IsSymbol(v: Bits) { |v| == 5 }

  ghost predicate AllSymbols(vs: seq<Bits>) { forall i :: 0 <= i < |vs| ==> IsSymbol(vs[i]) }

  /** The `len` low bits of `n`. */
  function BitsOf(n: nat, len: nat): (b: Bits)
    ensures |b| == len
  {
    if len == 0 then [] else BitsOf(n / 2, len - 1) + [n % 2 == 1]
  }

  function NumberOf(b: Bits): nat { if b == [] then 0 else 2 * NumberOf(b[..|b| - 1]) + (if b[|b| - 1] then 1 else 0) }

  lemma {:induction false} BitsRoundTrip(b: Bits)
    ensures BitsOf(NumberOf(b), |b|) == b
  {
    if b != [] {
      BitsRoundTrip(b[..|b| - 1]);
      assert b == b[..|b| - 1] + [b[|b| - 1]];
    }
  }

  function Xor(a: Bits, b: Bits): (r: Bits)
    requires |a| == |b|
    ensures |r| == |a| && forall k :: 0 <= k < |a| ==> r[k] == (a[k] != b[k])
  {
    seq(|a|, k requires 0 <= k < |a| => a[k] != b[k])
  }

  function Zeros(n: nat): (r: Bits)
    ensures |r| == n && forall k :: 0 <= k < n ==> !r[k]
  {
    seq(n, _ => false)
  }

  // ----- the checksum -----------------------------------------------------------------------

  /** Bit `k` of generator `i`. */
  type Generator = (nat, nat) -> bool

  function GeneratorNumber(i: nat): nat
  {
    if i == 0 then 0x3b6a57b2 else if i == 1 then 0x26508e6d else if i == 2 then 0x1ea119fa
    else if i == 3 then 0x3d4233dd else 0x2a1462b3
  }

  function GeneratorBit(i: nat, k: nat): bool { k < 30 && BitsOf(GeneratorNumber(i), 30)[k] }

  function Plus(a: bool, b: bool): bool { a != b }

  /** What the five bits that leave the register add to bit `k`. */
  function Feedback(g: Generator, chk: Bits, k: nat): bool
    requires |chk| == 30
  {
    Plus(chk[4] && g(0, k), Plus(chk[3] && g(1, k), Plus(chk[2] && g(2, k), Plus(chk[1] && g(3, k), chk[0] && g(4, k)))))
  }

  function ShiftIn(chk: Bits, v: Bits): (r: Bits)
    requires |chk| == 30 && IsSymbol(v)
    ensures |r| == 30
  {
    chk[5..] + v
  }

  /** One step: multiply by x, add the symbol, reduce by the generator polynomial. */
  function Step(g: Generator, chk: Bits, v: Bits): (r: Bits)
    requires |chk| == 30 && IsSymbol(v)
    ensures |r| == 30
    ensures forall k :: 0 <= k < 30 ==> r[k] == Plus(ShiftIn(chk, v)[k], Feedback(g, chk, k))
  {
    seq(30, k requires 0 <= k < 30 => Plus(ShiftIn(chk, v)[k], Feedback(g, chk, k)))
  }

  function Polymod(g: Generator, chk: Bits, values: seq<Bits>): (r: Bits)
    requires |chk| == 30 && AllSymbols(values)
    ensures |r| == 30
    decreases |values|
  {
    if values == [] then chk else Polymod(g, Step(g, chk, values[0]), values[1..])
  }

  // ----- linearity --------------------------------------------------------------------------

  lemma FeedbackXor(g: Generator, a: Bits, b: Bits, k: nat)
    requires |a| == 30 && |b| == 30
    ensures Feedback(g, Xor(a, b), k) == Plus(Feedback(g, a, k), Feedback(g, b, k))
  {
  }

  lemma StepXor(g: Generator, a: Bits, b: Bits, v: Bits, w: Bits)
    requires |a| == 30 && |b| == 30 && IsSymbol(v) && IsSymbol(w)
    ensures Step(g, Xor(a, b), Xor(v, w)) == Xor(Step(g, a, v), Step(g, b, w))
  {
    forall k | 0 <= k < 30 ensures Step(g, Xor(a, b), Xor(v, w))[k] == Xor(Step(g, a, v), Step(g, b, w))[k] {
      FeedbackXor(g, a, b, k);
      assert ShiftIn(Xor(a, b), Xor(v, w))[k] == Plus(ShiftIn(a, v)[k], ShiftIn(b, w)[k]);
    }
  }

  function XorAll(vs: seq<Bits>, ws: seq<Bits>): (r: seq<Bits>)
    requires |vs| == |ws| && AllSymbols(vs) && AllSymbols(ws)
    ensures |r| == |vs| && AllSymbols(r)
  {
    seq(|vs|, i requires 0 <= i < |vs| => Xor(vs[i], ws[i]))
  }

  /** The checksum is linear: the checksum of a sum is the sum of the checksums. */
  lemma {:induction false} PolymodXor(g: Generator, a: Bits, b: Bits, vs: seq<Bits>, ws: seq<Bits>)
    requires |a| == 30 && |b| == 30 && |vs| == |ws| && AllSymbols(vs) && AllSymbols(ws)
    ensures Polymod(g, Xor(a, b), XorAll(vs, ws)) == Xor(Polymod(g, a, vs), Polymod(g, b, ws))
    decreases |vs|
  {
    if vs != [] {
      StepXor(g, a, b, vs[0], ws[0]);
      assert XorAll(vs, ws)[1..] == XorAll(vs[1..], ws[1..]);
      PolymodXor(g, Step(g, a, vs[0]), Step(g, b, ws[0]), vs[1..], ws[1..]);
    }
  }

  lemma {:induction false} PolymodSplits(g: Generator, chk: Bits, vs: seq<Bits>, ws: seq<Bits>)
    requires |chk| == 30 && AllSymbols(vs) && AllSymbols(ws)
    ensures Polymod(g, chk, vs + ws) == Polymod(g, Polymod(g, chk, vs), ws)
    decreases |vs|
  {
    if vs == [] {
      assert vs + ws == ws;
    } else {
      assert (vs + ws)[1..] == vs[1..] + ws;
      PolymodSplits(g, Step(g, chk, vs[0]), vs[1..], ws);
    }
  }

  // ----- the six check symbols --------------------------------------------------------------

  function Chunks(b: Bits): (vs: seq<Bits>)
    requires |b| % 5 == 0
    ensures AllSymbols(vs) && |vs| == |b| / 5
  {
    if b == [] then [] else [b[..5]] + Chunks(b[5..])
  }

  function Flatten(vs: seq<Bits>): (b: Bits)
    requires AllSymbols(vs)
    ensures |b| == 5 * |vs|
  {
    if vs == [] then [] else vs[0] + Flatten(vs[1..])
  }

  lemma {:induction false} FlattenChunks(b: Bits)
    requires |b| % 5 == 0
    ensures Flatten(Chunks(b)) == b
    decreases |b|
  {
    if b != [] {
      FlattenChunks(b[5..]);
      assert Chunks(b)[1..] == Chunks(b[5..]);
    }
  }

  lemma {:induction false} ChunksFlatten(vs: seq<Bits>)
    requires AllSymbols(vs)
    ensures Chunks(Flatten(vs)) == vs
  {
    if vs != [] {
      ChunksFlatten(vs[1..]);
      assert Flatten(vs)[..5] == vs[0] && Flatten(vs)[5..] == Flatten(vs[1..]);
    }
  }

  /** Symbols that fit in the register pass through an empty one unchanged. */
  lemma {:induction false} EmptyRegister(g: Generator, chk: Bits, vs: seq<Bits>)
    requires |chk| == 30 && AllSymbols(vs) && |vs| <= 6
    requires forall k :: 0 <= k < 5 * |vs| ==> !chk[k]
    ensures Polymod(g, chk, vs) == chk[5 * |vs|..] + Flatten(vs)
    decreases |vs|
  {
    if vs != [] {
      var next := Step(g, chk, vs[0]);
      assert next == ShiftIn(chk, vs[0]);
      EmptyRegister(g, next, vs[1..]);
      assert next[5 * |vs[1..]|..] == chk[5 * |vs|..] + vs[0];
      assert chk[5 * |vs|..] + vs[0] + Flatten(vs[1..]) == chk[5 * |vs|..] + (vs[0] + Flatten(vs[1..]));
    }
  }

  const SIX_ZEROS: seq<Bits> := Chunks(Zeros(30))

  /** The check symbols that bring the checksum of `values` to `target`. */
  function CheckSymbols(g: Generator, start: Bits, values: seq<Bits>, target: Bits): (c: seq<Bits>)
    requires |start| == 30 && |target| == 30 && AllSymbols(values)
    ensures |c| == 6 && AllSymbols(c)
  {
    Chunks(Xor(Polymod(g, Polymod(g, start, values), SIX_ZEROS), target))
  }

  lemma XorAllZeros(c: seq<Bits>)
    requires |c| == 6 && AllSymbols(c)
    ensures XorAll(SIX_ZEROS, c) == c
  {
    ZerosAreZero();
    forall i | 0 <= i < 6 ensures Xor(SIX_ZEROS[i], c[i]) == c[i] { assert SIX_ZEROS[i] == Zeros(5); }
  }

  /** Six symbols at the end are simply added to the checksum. */
  lemma SixMore(g: Generator, start: Bits, values: seq<Bits>, c: seq<Bits>)
    requires |start| == 30 && AllSymbols(values) && |c| == 6 && AllSymbols(c)
    ensures Polymod(g, start, values + c) == Xor(Polymod(g, Polymod(g, start, values), SIX_ZEROS), Flatten(c))
  {
    var p := Polymod(g, start, values);
    PolymodSplits(g, start, values, c);
    EmptyRegister(g, Zeros(30), c);
    assert Zeros(30)[30..] + Flatten(c) == Flatten(c);
    PolymodXor(g, p, Zeros(30), SIX_ZEROS, c);
    assert Xor(p, Zeros(30)) == p;
    XorAllZeros(c);
  }

  /** What is appended verifies, and nothing else in its place does. */
  lemma ChecksumExactly(g: Generator, start: Bits, values: seq<Bits>, target: Bits, c: seq<Bits>)
    requires |start| == 30 && |target| == 30 && AllSymbols(values) && |c| == 6 && AllSymbols(c)
    ensures Polymod(g, start, values + c) == target <==> c == CheckSymbols(g, start, values, target)
  {
    var q := Polymod(g, Polymod(g, start, values), SIX_ZEROS);
    SixMore(g, start, values, c);
    FlattenChunks(Xor(q, target));
    ChunksFlatten(c);
    assert Xor(q, Xor(q, target)) == target;
    assert Xor(q, Xor(q, Flatten(c))) == Flatten(c);
  }

  lemma {:induction false} ChunkAt(b: Bits, i: nat)
    requires |b| % 5 == 0 && i < |b| / 5
    ensures Chunks(b)[i] == b[5 * i..5 * i + 5]
    decreases i
  {
    if i > 0 {
      ChunkAt(b[5..], i - 1);
      assert b[5..][5 * (i - 1)..5 * (i - 1) + 5] == b[5 * i..5 * i + 5];
    }
  }

  lemma ZerosAreZero()
    ensures |SIX_ZEROS| == 6 && forall i :: 0 <= i < 6 ==> SIX_ZEROS[i] == Zeros(5)
  {
    forall i | 0 <= i < 6 ensures SIX_ZEROS[i] == Zeros(5) { ChunkAt(Zeros(30), i); }
  }

  // ----- characters -------------------------------------------------------------------------

  /** The thirty-two characters of the data part. */
  function CharAt(k: nat): char
  {
    if k == 0 then 'q' else if k == 1 then 'p' else if k == 2 then 'z' else if k == 3 then 'r'
    else if k == 4 then 'y' else if k == 5 then '9' else if k == 6 then 'x' else if k == 7 then '8'
    else if k == 8 then 'g' else if k == 9 then 'f' else if k == 10 then '2' else if k == 11 then 't'
    else if k == 12 then 'v' else if k == 13 then 'd' else if k == 14 then 'w' else if k == 15 then '0'
    else if k == 16 then 's' else if k == 17 then '3' else if k == 18 then 'j' else if k == 19 then 'n'
    else if k == 20 then '5' else if k == 21 then '4' else if k == 22 then 'k' else if k == 23 then 'h'
    else if k == 24 then 'c' else if k == 25 then 'e' else if k == 26 then '6' else if k == 27 then 'm'
    else if k == 28 then 'u' else if k == 29 then 'a' else if k == 30 then '7' else 'l'
  }

  /** The place of a character among them, 32 for any other. */
  function IndexFrom(c: char, k: nat): (i: nat)
    requires k <= 32
    ensures k <= i <= 32
    ensures i < 32 ==> CharAt(i) == c
    ensures i == 32 ==> forall j :: k <= j < 32 ==> CharAt(j) != c
    decreases 32 - k
  {
    if k == 32 then 32 else if CharAt(k) == c then k else IndexFrom(c, k + 1)
  }

  lemma CharsDistinct(j: nat, k: nat)
    requires j < 32 && k < 32 && CharAt(j) == CharAt(k)
    ensures j == k
  {
  }

  lemma CharRange(k: nat)
    ensures CharAt(k) != '1' && !IsUpper(CharAt(k))
  {
  }

  predicate IsUpper(c: char) { 'A' <= c <= 'Z' }

  predicate IsLower(c: char) { 'a' <= c <= 'z' }

  function Lower(c: char): char { if IsUpper(c) then (c as int + 32) as char else c }

  function LowerAll(s: string): (t: string)
    ensures |t| == |s|
  {
    seq(|s|, i requires 0 <= i < |s| => Lower(s[i]))
  }
}

/** The record format of the foreign-function bindings: what is on the wire. */
module Uniffi {
  import opened Bytes
  import opened Utf8

  const TWO31: nat := 0x8000_0000
  const TWO32: nat := 0x1_0000_0000

  /** What a converter converts. A record is its fields in order, down to End. */
  datatype Schema =
    | U32 | Boolean | Text | Status
    | OptionOf(item: Schema) | SeqOf(item: Schema)
    | End | Field(first: Schema, rest: Schema)

  datatype Value =
    | Num(n: int) | Flag(b: bool) | Str(t: seq<int>) | Variant(k: nat)
    | Nothing | Just(v: Value) | List(vs: seq<Value>)
    | Nil | Cons(first: Value, rest: Value)

  /** A value of the type that can be written: numbers in range, texts encodable, lengths below 2^31. */
  predicate Fits(s: Schema, v: Value)
    decreases s, 0
  {
    match s
    case U32 => v.Num? && 0 <= v.n < TWO32
    case Boolean => v.Flag?
    case Text => v.Str? && IsText(v.t) && |EncodeText(v.t)| < TWO31
    case Status => v.Variant? && v.k < 8
    case OptionOf(item) => v.Nothing? || (v.Just? && Fits(item, v.v))
    case SeqOf(item) => v.List? && |v.vs| < TWO31 && AllFit(item, v.vs)
    case End => v.Nil?
    case Field(first, rest) => v.Cons? && Fits(first, v.first) && Fits(rest, v.rest)
  }

  predicate AllFit(s: Schema, vs: seq<Value>)
    decreases s, 1
  {
    forall i :: 0 <= i < |vs| ==> Fits(s, vs[i])
  }

  // ----- 32-bit words -----------------------------------------------------------------------

  function Word(n: nat): (w: seq<Byte>)
    ensures |w| == 4
  {
    ToBigEndian(n, 4)
  }

  function FromWord(w: seq<Byte>): (n: nat)
    requires |w| == 4
    ensures n < TWO32
  {
    assert Pow256(4) == TWO32;
    FromBigEndian(w)
  }

  /** A word read as a signed number. */
  function Signed(n: nat): int { if n < TWO31 then n else n - TWO32 }

  lemma WordRoundTrip(n: nat)
    requires n < TWO32
    ensures FromWord(Word(n)) == n
  {
    assert Pow256(4) == TWO32;
    BigEndianRoundTrip(n, 4);
  }

  // ----- the format -------------------------------------------------------------------------

  function Encode(s: Schema, v: Value): (e: seq<Byte>)
    requires Fits(s, v)
    decreases s, 0, 0
  {
    match s
    case U32 => Word(v.n)
    case Boolean => [if v.b then 1 else 0]
    case Text => Word(|EncodeText(v.t)|) + EncodeText(v.t)
    case Status => Word(v.k + 1)
    case OptionOf(item) => if v.Nothing? then [0] else [1] + Encode(item, v.v)
    case SeqOf(item) => Word(|v.vs|) + EncodeMany(item, v.vs)
    case End => []
    case Field(first, rest) => Encode(first, v.first) + Encode(rest, v.rest)
  }

  function EncodeMany(s: Schema, vs: seq<Value>): (e: seq<Byte>)
    requires AllFit(s, vs)
    decreases s, 1, |vs|
  {
    if vs == [] then [] else Encode(s, vs[0]) + EncodeMany(s, vs[1..])
  }

  type Read<T> = Option<(T, seq<Byte>)>

  function DecodeWord(b: seq<Byte>): Read<nat>
  {
    if |b| < 4 then None else Some((FromWord(b[..4]), b[4..]))
  }

  function DecodeStr(b: seq<Byte>): Read<Value>
  {
    match DecodeWord(b)
    case None => None
    case Some((n, b')) =>
      var size := Signed(n);
      if size < 0 || size > |b'| then None
      else
        match DecodeText(b'[..size])
        case None => None
        case Some(t) => Some((Str(t), b'[size..]))
  }

  function Decode(s: Schema, b: seq<Byte>): (r: Read<Value>)
    decreases s, 0, 0
  {
    match s
    case U32 => (match DecodeWord(b) case None => None case Some((n, b')) => Some((Num(n), b')))
    case Boolean => if b == [] then None else Some((Flag(b[0] != 0), b[1..]))
    case Text => DecodeStr(b)
    case Status =>
      (match DecodeWord(b) case None => None case Some((n, b')) => if 1 <= n <= 8 then Some((Variant(n - 1), b')) else None)
    case OptionOf(item) =>
      if b == [] || b[0] > 1 then None
      else if b[0] == 0 then Some((Nothing, b[1..]))
      else (match Decode(item, b[1..]) case None => None case Some((v, b')) => Some((Just(v), b')))
    case SeqOf(item) =>
      (match DecodeWord(b)
       case None => None
       case Some((n, b')) =>
         if Signed(n) < 0 then None
         else match DecodeMany(item, n, b') case None => None case Some((vs, b'')) => Some((List(vs), b'')))
    case End => Some((Nil, b))
    case Field(first, rest) =>
      (match Decode(first, b)
       case None => None
       case Some((v, b')) =>
         match Decode(rest, b') case None => None case Some((w, b'')) => Some((Cons(v, w), b'')))
  }

  function DecodeMany(s: Schema, count: nat, b: seq<Byte>): (r: Read<seq<Value>>)
    decreases s, 1, count
  {
    if count == 0 then Some(([], b))
    else
      match Decode(s, b)
      case None => None
      case Some((v, b')) =>
        match DecodeMany(s, count - 1, b')
        case None => None
        case Some((vs, b'')) => Some(([v] + vs, b''))
  }

  // ----- reading what was written -----------------------------------------------------------

  lemma WordThen(n: nat, rest: seq<Byte>)
    requires n < TWO32
    ensures DecodeWord(Word(n) + rest) == Some((n, rest))
  {
    WordRoundTrip(n);
    var b := Word(n) + rest;
    assert b[..4] == Word(n) && b[4..] == rest;
  }

  lemma StrThen(t: seq<int>, rest: seq<Byte>)
    requires IsText(t) && |EncodeText(t)| < TWO31
    ensures DecodeStr(Word(|EncodeText(t)|) + EncodeText(t) + rest) == Some((Str(t), rest))
  {
    var e := EncodeText(t);
    assert Word(|e|) + e + rest == Word(|e|) + (e + rest);
    WordThen(|e|, e + rest);
    assert (e + rest)[..|e|] == e && (e + rest)[|e|..] == rest;
    DecodeTextEncode(t);
  }

  lemma Regroup(a: seq<Byte>, b: seq<Byte>, c: seq<Byte>)
    ensures a + b + c == a + (b + c)
  {
  }

  lemma OptionThen(s: Schema, v: Value, rest: seq<Byte>)
    requires s.OptionOf? && Fits(s, v)
    requires v.Just? ==> Decode(s.item, Encode(s.item, v.v) + rest) == Some((v.v, rest))
    ensures Decode(s, Encode(s, v) + rest) == Some((v, rest))
  {
    var b := Encode(s, v) + rest;
    if v.Just? {
      assert b[1..] == Encode(s.item, v.v) + rest;
    } else {
      assert b[1..] == rest;
    }
  }

  lemma SeqThen(s: Schema, v: Value, rest: seq<Byte>)
    requires s.SeqOf? && Fits(s, v)
    requires DecodeMany(s.item, |v.vs|, EncodeMany(s.item, v.vs) + rest) == Some((v.vs, rest))
    ensures Decode(s, Encode(s, v) + rest) == Some((v, rest))
  {
    Regroup(Word(|v.vs|), EncodeMany(s.item, v.vs), rest);
    WordThen(|v.vs|, EncodeMany(s.item, v.vs) + rest);
  }

  /** Reading what was written, followed by anything, gives the value and leaves exactly the rest. */
  lemma {:induction false} RoundTrip(s: Schema, v: Value, rest: seq<Byte>)
    requires Fits(s, v)
    ensures Decode(s, Encode(s, v) + rest) == Some((v, rest))
    decreases s, 0, 0
  {
    match s {
      case U32 => WordThen(v.n, rest);
      case Boolean => assert (Encode(s, v) + rest)[1..] == rest;
      case Text => StrThen(v.t, rest);
      case Status => WordThen(v.k + 1, rest);
      case OptionOf(item) =>
        if v.Just? { RoundTrip(item, v.v, rest); }
        OptionThen(s, v, rest);
      case SeqOf(item) =>
        RoundTripMany(item, v.vs, rest);
        SeqThen(s, v, rest);
      case End => assert [] + rest == rest;
      case Field(first, more) =>
        Regroup(Encode(first, v.first), Encode(more, v.rest), rest);
        RoundTrip(first, v.first, Encode(more, v.rest) + rest);
        RoundTrip(more, v.rest, rest);
    }
  }

  lemma {:induction false} RoundTripMany(s: Schema, vs: seq<Value>, rest: seq<Byte>)
    requires AllFit(s, vs)
    ensures DecodeMany(s, |vs|, EncodeMany(s, vs) + rest) == Some((vs, rest))
    decreases s, 1, |vs|
  {
    if vs == [] {
      assert [] + rest == rest;
    } else {
      RoundTrip(s, vs[0], EncodeMany(s, vs[1..]) + rest);
      RoundTripMany(s, vs[1..], rest);
      ManyThen(s, vs, rest);
    }
  }

  lemma ManyThen(s: Schema, vs: seq<Value>, rest: seq<Byte>)
    requires vs != [] && AllFit(s, vs)
    requires Decode(s, Encode(s, vs[0]) + (EncodeMany(s, vs[1..]) + rest)) == Some((vs[0], EncodeMany(s, vs[1..]) + rest))
    requires DecodeMany(s, |vs| - 1, EncodeMany(s, vs[1..]) + rest) == Some((vs[1..], rest))
    ensures DecodeMany(s, |vs|, EncodeMany(s, vs) + rest) == Some((vs, rest))
  {
    Regroup(Encode(s, vs[0]), EncodeMany(s, vs[1..]), rest);
    assert [vs[0]] + vs[1..] == vs;
  }

  /** No encoding is a prefix of another's, so values can follow one another in one buffer. */
  lemma PrefixFree(s: Schema, v: Value, w: Value, rest: seq<Byte>, rest': seq<Byte>)
    requires Fits(s, v) && Fits(s, w) && Encode(s, v) + rest == Encode(s, w) + rest'
    ensures v == w && rest == rest'
  {
    RoundTrip(s, v, rest);
    RoundTrip(s, w, rest');
  }

  // ----- whatever is read -------------------------------------------------------------------

  lemma WordRead(b: seq<Byte>)
    requires |b| >= 4
    ensures Word(FromWord(b[..4])) == b[..4]
  {
    BigEndianBytesRoundTrip(b[..4]);
  }

  /** Every boolean met while reading is a 0 or a 1: the only freedom the format leaves. */
  predicate PlainFlags(s: Schema, b: seq<Byte>)
    decreases s, 0, 0
  {
    match s
    case Boolean => b != [] ==> b[0] <= 1
    case OptionOf(item) => b != [] && b[0] == 1 ==> PlainFlags(item, b[1..])
    case SeqOf(item) => |b| >= 4 ==> PlainFlagsMany(item, FromWord(b[..4]), b[4..])
    case Field(first, rest) =>
      && PlainFlags(first, b)
      && (Decode(first, b).Some? ==> PlainFlags(rest, Decode(first, b).value.1))
    case _ => true
  }

  predicate PlainFlagsMany(s: Schema, count: nat, b: seq<Byte>)
    decreases s, 1, count
  {
    count > 0 ==>
      && PlainFlags(s, b)
      && (Decode(s, b).Some? ==> PlainFlagsMany(s, count - 1, Decode(s, b).value.1))
  }

  /** Whatever is read could have been written ... */
  lemma {:induction false} ReadFits(s: Schema, b: seq<Byte>)
    requires Decode(s, b).Some?
    ensures Fits(s, Decode(s, b).value.0)
    decreases s, 0, 0
  {
    match s {
      case U32 =>
      case Boolean =>
      case Text => StrFits(b);
      case Status =>
      case OptionOf(item) => if b[0] == 1 { ReadFits(item, b[1..]); }
      case SeqOf(item) => ReadManyFits(item, FromWord(b[..4]), b[4..]);
      case End =>
      case Field(first, rest) =>
        ReadFits(first, b);
        ReadFits(rest, Decode(first, b).value.1);
    }
  }

  lemma StrFits(b: seq<Byte>)
    requires DecodeStr(b).Some?
    ensures Fits(Text, DecodeStr(b).value.0)
    ensures Encode(Text, DecodeStr(b).value.0) + DecodeStr(b).value.1 == b
  {
    var size := FromWord(b[..4]);
    var text := b[4..][..size];
    EncodeTextDecode(text);
    WordRead(b);
    assert b == b[..4] + (text + b[4..][size..]);
    Regroup(b[..4], text, b[4..][size..]);
  }

  lemma {:induction false} ReadManyFits(s: Schema, count: nat, b: seq<Byte>)
    requires DecodeMany(s, count, b).Some?
    ensures AllFit(s, DecodeMany(s, count, b).value.0) && |DecodeMany(s, count, b).value.0| == count
    decreases s, 1, count
  {
    if count > 0 {
      ReadFits(s, b);
      ReadManyFits(s, count - 1, Decode(s, b).value.1);
    }
  }

  lemma {:induction false} WrittenPlain(s: Schema, v: Value, rest: seq<Byte>)
    requires Fits(s, v)
    ensures PlainFlags(s, Encode(s, v) + rest)
    decreases s, 0, 0
  {
    match s {
      case Boolean =>
      case OptionOf(item) =>
        if v.Just? { WrittenPlain(item, v.v, rest); }
        PlainOption(s, v, rest);
      case SeqOf(item) =>
        WrittenManyPlain(item, v.vs, rest);
        PlainSeq(s, v, rest);
      case Field(first, more) =>
        WrittenPlain(first, v.first, Encode(more, v.rest) + rest);
        WrittenPlain(more, v.rest, rest);
        PlainField(s, v, rest);
      case _ =>
    }
  }

  lemma PlainOption(s: Schema, v: Value, rest: seq<Byte>)
    requires s.OptionOf? && Fits(s, v) && (v.Just? ==> PlainFlags(s.item, Encode(s.item, v.v) + rest))
    ensures PlainFlags(s, Encode(s, v) + rest)
  {
    if v.Just? { assert (Encode(s, v) + rest)[1..] == Encode(s.item, v.v) + rest; }
  }

  lemma PlainSeq(s: Schema, v: Value, rest: seq<Byte>)
    requires s.SeqOf? && Fits(s, v) && PlainFlagsMany(s.item, |v.vs|, EncodeMany(s.item, v.vs) + rest)
    ensures PlainFlags(s, Encode(s, v) + rest)
  {
    Regroup(Word(|v.vs|), EncodeMany(s.item, v.vs), rest);
    WordThen(|v.vs|, EncodeMany(s.item, v.vs) + rest);
  }

  lemma PlainField(s: Schema, v: Value, rest: seq<Byte>)
    requires s.Field? && Fits(s, v) && PlainFlags(s.first, Encode(s.first, v.first) + (Encode(s.rest, v.rest) + rest))
    requires PlainFlags(s.rest, Encode(s.rest, v.rest) + rest)
    ensures PlainFlags(s, Encode(s, v) + rest)
  {
    Regroup(Encode(s.first, v.first), Encode(s.rest, v.rest), rest);
    RoundTrip(s.first, v.first, Encode(s.rest, v.rest) + rest);
  }

  lemma {:induction false} WrittenManyPlain(s: Schema, vs: seq<Value>, rest: seq<Byte>)
    requires AllFit(s, vs)
    ensures PlainFlagsMany(s, |vs|, EncodeMany(s, vs) + rest)
    decreases s, 1, |vs|
  {
    if vs != [] {
      Regroup(Encode(s, vs[0]), EncodeMany(s, vs[1..]), rest);
      RoundTrip(s, vs[0], EncodeMany(s, vs[1..]) + rest);
      WrittenPlain(s, vs[0], EncodeMany(s, vs[1..]) + rest);
      WrittenManyPlain(s, vs[1..], rest);
    }
  }

  lemma WordSplits(b: seq<Byte>)
    requires |b| >= 4
    ensures Word(FromWord(b[..4])) + b[4..] == b
  {
    WordRead(b);
  }

  lemma {:induction false} PlainRewrites(s: Schema, b: seq<Byte>)
    requires Decode(s, b).Some? && PlainFlags(s, b)
    ensures Fits(s, Decode(s, b).value.0)
    ensures Encode(s, Decode(s, b).value.0) + Decode(s, b).value.1 == b
    decreases s, 0, 0
  {
    ReadFits(s, b);
    match s {
      case U32 => WordSplits(b);
      case Boolean => assert b == [b[0]] + b[1..];
      case Text => StrFits(b);
      case Status => WordSplits(b);
      case OptionOf(item) =>
        assert b == [b[0]] + b[1..];
        if b[0] == 1 {
          PlainRewrites(item, b[1..]);
          var (v, rest) := Decode(item, b[1..]).value;
          Regroup([1], Encode(item, v), rest);
        }
      case SeqOf(item) =>
        WordSplits(b);
        PlainRewritesMany(item, FromWord(b[..4]), b[4..]);
        var (vs, rest) := DecodeMany(item, FromWord(b[..4]), b[4..]).value;
        Regroup(Word(|vs|), EncodeMany(item, vs), rest);
      case End => assert [] + b == b;
      case Field(first, more) =>
        PlainRewrites(first, b);
        var (v, b') := Decode(first, b).value;
        PlainRewrites(more, b');
        var (w, rest) := Decode(more, b').value;
        Regroup(Encode(first, v), Encode(more, w), rest);
    }
  }

  lemma {:induction false} PlainRewritesMany(s: Schema, count: nat, b: seq<Byte>)
    requires DecodeMany(s, count, b).Some? && PlainFlagsMany(s, count, b)
    ensures var (vs, rest) := DecodeMany(s, count, b).value;
            |vs| == count && AllFit(s, vs) && EncodeMany(s, vs) + rest == b
    decreases s, 1, count
  {
    ReadManyFits(s, count, b);
    if count == 0 {
      assert [] + b == b;
    } else {
      PlainRewrites(s, b);
      var (v, b') := Decode(s, b).value;
      PlainRewritesMany(s, count - 1, b');
      var (vs, rest) := DecodeMany(s, count - 1, b').value;
      assert ([v] + vs)[1..] == vs;
      Regroup(Encode(s, v), EncodeMany(s, vs), rest);
    }
  }

  /** ... and it was written exactly so, unless some boolean byte is neither 0 nor 1. */
  lemma ReadExactly(s: Schema, b: seq<Byte>)
    requires Decode(s, b).Some?
    ensures Fits(s, Decode(s, b).value.0)
    ensures Encode(s, Decode(s, b).value.0) + Decode(s, b).value.1 == b <==> PlainFlags(s, b)
  {
    ReadFits(s, b);
    var (v, rest) := Decode(s, b).value;
    WrittenPlain(s, v, rest);
    if PlainFlags(s, b) { PlainRewrites(s, b); }
  }

  /** One byte that is read and not written: 2 is read as true, and true is written as 1. */
  lemma TwoIsTrue()
    ensures Decode(Boolean, [2]) == Some((Flag(true), [])) && !PlainFlags(Boolean, [2])
    ensures Encode(Boolean, Flag(true)) + [] != [2]
  {
    assert [2][1..] == [];
  }
}

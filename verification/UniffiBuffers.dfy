/** The growing write buffer and the read stream of the bindings, and the converters that use them. */
module UniffiBuffers {
  import opened Bytes
  import opened Utf8
  import opened Uniffi

  /** Rust's reserve: a larger buffer with the same bytes. */
  method Grow(data: array<Byte>, len: nat, additional: nat) returns (grown: array<Byte>)
    requires len <= data.Length
    ensures fresh(grown) && grown.Length >= len + additional && grown[..len] == data[..len]
  {
    var capacity := if 2 * data.Length < len + additional then len + additional else 2 * data.Length;
    grown := new Byte[capacity](_ => 0);
    var i := 0;
    while i < len
      invariant 0 <= i <= len
      invariant grown[..i] == data[..i]
    {
      grown[i] := data[i];
      i := i + 1;
    }
  }

  class Builder {
    var data: array<Byte>
    var len: nat

    ghost predicate Valid() reads this { len <= data.Length }

    ghost function Contents(): seq<Byte>
      requires Valid()
      reads this, data
    {
      data[..len]
    }

    constructor ()
      ensures Valid() && fresh(data) && Contents() == []
    {
      data := new Byte[16](_ => 0);
      len := 0;
    }

    method Reserve(numBytes: nat)
      requires Valid()
      modifies this`data
      ensures Valid() && Contents() == old(Contents()) && (data == old(data) || fresh(data))
      ensures len + numBytes <= data.Length
    {
      if len + numBytes > data.Length {
        data := Grow(data, len, numBytes);
      }
    }

    /** write and _pack_into: reserve, copy byte by byte, then advance the length. */
    method Write(value: seq<Byte>)
      requires Valid()
      modifies this, data
      ensures Valid() && (data == old(data) || fresh(data))
      ensures Contents() == old(Contents()) + value
    {
      ghost var start := Contents();
      Reserve(|value|);
      var i := 0;
      while i < |value|
        invariant 0 <= i <= |value| && Valid() && len == old(len) && len + |value| <= data.Length
        invariant data == old(data) || fresh(data)
        invariant data[..len] == start && data[len..len + i] == value[..i]
      {
        data[len + i] := value[i];
        assert data[len..len + (i + 1)] == value[..i + 1];
        i := i + 1;
      }
      assert data[len..len + |value|] == value;
      assert data[..len + |value|] == data[..len] + data[len..len + |value|];
      len := len + |value|;
    }

    /** write_i32 and write_u32: refuses a number outside the range of its format. */
    method WriteWord(n: int, limit: nat) returns (ok: bool)
      requires Valid() && limit <= TWO32
      modifies this, data
      ensures Valid() && (data == old(data) || fresh(data))
      ensures ok <==> 0 <= n < limit
      ensures ok ==> Contents() == old(Contents()) + Word(n)
    {
      ok := 0 <= n < limit;
      if ok { Write(Word(n)); }
    }
  }

  lemma {:induction false} EncodeManySnoc(s: Schema, vs: seq<Value>, v: Value)
    requires AllFit(s, vs) && Fits(s, v)
    ensures AllFit(s, vs + [v])
    ensures EncodeMany(s, vs + [v]) == EncodeMany(s, vs) + Encode(s, v)
    decreases |vs|
  {
    if vs == [] {
      assert vs + [v] == [v] && [v][1..] == [];
    } else {
      EncodeManySnoc(s, vs[1..], v);
      assert (vs + [v])[1..] == vs[1..] + [v];
      Regroup(Encode(s, vs[0]), EncodeMany(s, vs[1..]), Encode(s, v));
    }
  }

  /** The bytes of the first `i` items of a list stand after `before`. */
  ghost predicate ItemsWritten(s: Schema, vs: seq<Value>, i: nat, before: seq<Byte>, contents: seq<Byte>)
  {
    i <= |vs| && AllFit(s, vs[..i]) && contents == before + EncodeMany(s, vs[..i])
  }

  lemma OneMoreItem(s: Schema, vs: seq<Value>, i: nat, before: seq<Byte>, contents: seq<Byte>)
    requires i < |vs| && ItemsWritten(s, vs, i, before, contents) && Fits(s, vs[i])
    ensures ItemsWritten(s, vs, i + 1, before, contents + Encode(s, vs[i]))
  {
    EncodeManySnoc(s, vs[..i], vs[i]);
    assert vs[..i + 1] == vs[..i] + [vs[i]];
    Regroup(before, EncodeMany(s, vs[..i]), Encode(s, vs[i]));
  }

  /**
   * The converters' write, false where it throws: it succeeds exactly for the values that fit,
   * and then appends their encoding to what the buffer held.
   */
  method WriteValue(s: Schema, v: Value, buf: Builder) returns (ok: bool)
    requires buf.Valid()
    modifies buf, buf.data
    ensures buf.Valid() && (buf.data == old(buf.data) || fresh(buf.data))
    ensures ok <==> Fits(s, v)
    ensures ok ==> buf.Contents() == old(buf.Contents()) + Encode(s, v)
    decreases s
  {
    match s {
      case U32 =>
        if !v.Num? { return false; }
        ok := buf.WriteWord(v.n, TWO32);
      case Boolean =>
        if !v.Flag? { return false; }
        buf.Write([if v.b then 1 else 0]);
        ok := true;
      case Text => ok := WriteText(s, v, buf);
      case Status =>
        if !(v.Variant? && v.k < 8) { return false; }
        ok := buf.WriteWord(v.k + 1, TWO31);
      case OptionOf(item) => ok := WriteOption(s, v, buf);
      case SeqOf(item) => ok := WriteList(s, v, buf);
      case End => ok := v.Nil?;
      case Field(first, rest) => ok := WriteField(s, v, buf);
    }
  }

  method WriteText(s: Schema, v: Value, buf: Builder) returns (ok: bool)
    requires s.Text? && buf.Valid()
    modifies buf, buf.data
    ensures buf.Valid() && (buf.data == old(buf.data) || fresh(buf.data))
    ensures ok <==> Fits(s, v)
    ensures ok ==> buf.Contents() == old(buf.Contents()) + Encode(s, v)
  {
    if !(v.Str? && IsText(v.t)) { return false; }
    var utf8Bytes := EncodeText(v.t);
    ghost var before := buf.Contents();
    ok := buf.WriteWord(|utf8Bytes|, TWO31);
    if !ok { return; }
    buf.Write(utf8Bytes);
    Regroup(before, Word(|utf8Bytes|), utf8Bytes);
  }

  method WriteOption(s: Schema, v: Value, buf: Builder) returns (ok: bool)
    requires s.OptionOf? && buf.Valid()
    modifies buf, buf.data
    ensures buf.Valid() && (buf.data == old(buf.data) || fresh(buf.data))
    ensures ok <==> Fits(s, v)
    ensures ok ==> buf.Contents() == old(buf.Contents()) + Encode(s, v)
    decreases s, 0
  {
    if v.Nothing? {
      buf.Write([0]);
      return true;
    }
    if !v.Just? { return false; }
    ghost var before := buf.Contents();
    buf.Write([1]);
    ok := WriteValue(s.item, v.v, buf);
    if ok { Regroup(before, [1], Encode(s.item, v.v)); }
  }

  method WriteField(s: Schema, v: Value, buf: Builder) returns (ok: bool)
    requires s.Field? && buf.Valid()
    modifies buf, buf.data
    ensures buf.Valid() && (buf.data == old(buf.data) || fresh(buf.data))
    ensures ok <==> Fits(s, v)
    ensures ok ==> buf.Contents() == old(buf.Contents()) + Encode(s, v)
    decreases s, 0
  {
    if !v.Cons? { return false; }
    ok := WriteValue(s.first, v.first, buf);
    if !ok { return; }
    ghost var before := old(buf.Contents());
    ok := WriteValue(s.rest, v.rest, buf);
    if ok { Regroup(before, Encode(s.first, v.first), Encode(s.rest, v.rest)); }
  }

  method WriteList(s: Schema, v: Value, buf: Builder) returns (ok: bool)
    requires s.SeqOf? && buf.Valid()
    modifies buf, buf.data
    ensures buf.Valid() && (buf.data == old(buf.data) || fresh(buf.data))
    ensures ok <==> Fits(s, v)
    ensures ok ==> buf.Contents() == old(buf.Contents()) + Encode(s, v)
    decreases s, 0
  {
    if !v.List? { return false; }
    ghost var before := buf.Contents();
    ok := buf.WriteWord(|v.vs|, TWO31);
    if !ok { return; }
    var i := 0;
    assert v.vs[..0] == [];
    while i < |v.vs|
      invariant 0 <= i <= |v.vs| && buf.Valid()
      invariant buf.data == old(buf.data) || fresh(buf.data)
      invariant ItemsWritten(s.item, v.vs, i, before + Word(|v.vs|), buf.Contents())
    {
      ghost var contents := buf.Contents();
      ok := WriteValue(s.item, v.vs[i], buf);
      if !ok { return; }
      OneMoreItem(s.item, v.vs, i, before + Word(|v.vs|), contents);
      i := i + 1;
    }
    assert v.vs[..i] == v.vs;
    Regroup(before, Word(|v.vs|), EncodeMany(s.item, v.vs));
  }

  class Stream {
    const data: seq<Byte>
    var offset: nat

    ghost predicate Valid() reads this { offset <= |data| }

    ghost function Rest(): seq<Byte>
      requires Valid()
      reads this
    {
      data[offset..]
    }

    constructor (bytes: seq<Byte>)
      ensures Valid() && Rest() == bytes
    {
      data := bytes;
      offset := 0;
    }

    method Read(size: nat) returns (r: Option<seq<Byte>>)
      requires Valid()
      modifies this
      ensures Valid()
      ensures if size > |old(Rest())| then r.None? else r == Some(old(Rest())[..size]) && Rest() == old(Rest())[size..]
    {
      if offset + size > |data| { return None; }
      r := Some(data[offset..offset + size]);
      assert data[offset..][..size] == data[offset..offset + size];
      assert data[offset..][size..] == data[offset + size..];
      offset := offset + size;
    }

    method ReadWord() returns (r: Option<nat>)
      requires Valid()
      modifies this
      ensures Valid()
      ensures match DecodeWord(old(Rest()))
              case None => r.None?
              case Some((n, rest)) => r == Some(n) && Rest() == rest
    {
      var bytes := Read(4);
      if bytes.None? { return None; }
      r := Some(FromWord(bytes.value));
    }
  }

  /** The stream has read what `Decode` reads: the value and the place after it. */
  ghost predicate Agrees<T(!new)>(decoded: Read<T>, r: Option<T>, rest: seq<Byte>)
  {
    match decoded
    case None => r.None?
    case Some((v, rest')) => r == Some(v) && rest == rest'
  }

  /** The converters' read. */
  method ReadValue(s: Schema, stream: Stream) returns (r: Option<Value>)
    requires stream.Valid()
    modifies stream
    ensures stream.Valid()
    ensures Agrees(Decode(s, old(stream.Rest())), r, stream.Rest())
    decreases s
  {
    match s {
      case U32 =>
        var n := stream.ReadWord();
        r := if n.None? then None else Some(Num(n.value));
      case Boolean =>
        var b := stream.Read(1);
        r := if b.None? then None else Some(Flag(b.value[0] != 0));
      case Text => r := ReadText(stream);
      case Status =>
        var variant := stream.ReadWord();
        r := if variant.Some? && 1 <= variant.value <= 8 then Some(Variant(variant.value - 1)) else None;
      case OptionOf(item) =>
        var flag := stream.Read(1);
        if flag.None? || flag.value[0] > 1 { return None; }
        if flag.value[0] == 0 { return Some(Nothing); }
        var v := ReadValue(item, stream);
        r := if v.None? then None else Some(Just(v.value));
      case SeqOf(item) => r := ReadList(s, stream);
      case End => r := Some(Nil);
      case Field(first, rest) =>
        var v := ReadValue(first, stream);
        if v.None? { return None; }
        var w := ReadValue(rest, stream);
        r := if w.None? then None else Some(Cons(v.value, w.value));
    }
  }

  method ReadText(stream: Stream) returns (r: Option<Value>)
    requires stream.Valid()
    modifies stream
    ensures stream.Valid()
    ensures Agrees(DecodeStr(old(stream.Rest())), r, stream.Rest())
  {
    var size := stream.ReadWord();
    if size.None? || Signed(size.value) < 0 { return None; }
    var utf8Bytes := stream.Read(size.value);
    if utf8Bytes.None? { return None; }
    var t := DecodeText(utf8Bytes.value);
    r := if t.None? then None else Some(Str(t.value));
  }

  function PrependItems(vs: seq<Value>, more: Read<seq<Value>>): Read<seq<Value>>
  {
    match more
    case None => None
    case Some((ws, rest)) => Some((vs + ws, rest))
  }

  lemma ReadOneMore(s: Schema, vs: seq<Value>, count: nat, b: seq<Byte>)
    requires count > 0
    ensures PrependItems(vs, DecodeMany(s, count, b)) ==
            if Decode(s, b).None? then None
            else PrependItems(vs + [Decode(s, b).value.0], DecodeMany(s, count - 1, Decode(s, b).value.1))
  {
    if Decode(s, b).Some? {
      var (v, b') := Decode(s, b).value;
      if DecodeMany(s, count - 1, b').Some? {
        var ws := DecodeMany(s, count - 1, b').value.0;
        assert vs + ([v] + ws) == vs + [v] + ws;
      }
    }
  }

  method ReadList(s: Schema, stream: Stream) returns (r: Option<Value>)
    requires s.SeqOf? && stream.Valid()
    modifies stream
    ensures stream.Valid()
    ensures Agrees(Decode(s, old(stream.Rest())), r, stream.Rest())
    decreases s, 0
  {
    var count := stream.ReadWord();
    if count.None? || Signed(count.value) < 0 { return None; }
    ghost var all := DecodeMany(s.item, count.value, stream.Rest());
    var vs: seq<Value> := [];
    var i := 0;
    if all.Some? { assert [] + all.value.0 == all.value.0; }
    while i < count.value
      invariant 0 <= i <= count.value && stream.Valid()
      invariant all == PrependItems(vs, DecodeMany(s.item, count.value - i, stream.Rest()))
    {
      ReadOneMore(s.item, vs, count.value - i, stream.Rest());
      var v := ReadValue(s.item, stream);
      if v.None? { return None; }
      vs := vs + [v.value];
      i := i + 1;
    }
    assert vs + [] == vs;
    return Some(List(vs));
  }

  // ----- lower and lift ---------------------------------------------------------------------

  /** lower: the bytes of a value, or an error. */
  method Lower(s: Schema, v: Value) returns (r: Option<seq<Byte>>)
    ensures r == if Fits(s, v) then Some(Encode(s, v)) else None
  {
    var builder := new Builder();
    var ok := WriteValue(s, v, builder);
    if !ok { return None; }
    assert builder.Contents() == [] + Encode(s, v) == Encode(s, v);
    return Some(builder.data[..builder.len]);
  }

  /** lift: the value of a buffer that holds it and nothing more. */
  method Lift(s: Schema, rbuf: seq<Byte>) returns (r: Option<Value>)
    ensures r.Some? <==> Decode(s, rbuf).Some? && Decode(s, rbuf).value.1 == []
    ensures r.Some? ==> r.value == Decode(s, rbuf).value.0
  {
    var stream := new Stream(rbuf);
    r := ReadValue(s, stream);
    if r.Some? && |stream.data| - stream.offset != 0 { return None; }
  }

  /** Across the boundary and back: what the writing side can lower the reading side lifts unchanged. */
  method LowerAndLift(written: Schema, expected: Schema, v: Value) returns (r: Option<Value>)
    requires written == expected
    ensures r == if Fits(written, v) then Some(v) else None
  {
    var rbuf := Lower(written, v);
    if rbuf.None? { return None; }
    RoundTrip(written, v, []);
    assert Encode(written, v) + [] == Encode(written, v);
    r := Lift(expected, rbuf.value);
  }
}

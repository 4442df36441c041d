/** Options, bytes and fixed-width integers: what every codec of the system shares. */
module Bytes {

  datatype Option<+T> = None | Some(value: T)

  /** A result, an error, or a process that stops. */
  datatype Outcome<T> = Ok(value: T) | Err | Panic

  type Byte = x: int | 0 <= x < 256

  function Pow256(len: nat): (p: nat)
    ensures p > 0
  {
    if len == 0 then 1 else 256 * Pow256(len - 1)
  }

  /** The unsigned value of a big-endian byte string. */
  function FromBigEndian(s: seq<Byte>): (v: nat)
    ensures v < Pow256(|s|)
  {
    if s == [] then 0 else FromBigEndian(s[..|s| - 1]) * 256 + s[|s| - 1]
  }

  /** The `len` low bytes of `v`, most significant first. */
  function ToBigEndian(v: nat, len: nat): (s: seq<Byte>)
    ensures |s| == len
  {
    if len == 0 then [] else ToBigEndian(v / 256, len - 1) + [v % 256]
  }

  /** Writing and then reading a number that fits gives the number back. */
  lemma {:induction false} BigEndianRoundTrip(v: nat, len: nat)
    requires v < Pow256(len)
    ensures FromBigEndian(ToBigEndian(v, len)) == v
  {
    if len > 0 {
      BigEndianRoundTrip(v / 256, len - 1);
      assert ToBigEndian(v, len)[..len - 1] == ToBigEndian(v / 256, len - 1);
    }
  }

  /** Reading and then writing a byte string gives the bytes back. */
  lemma {:induction false} BigEndianBytesRoundTrip(s: seq<Byte>)
    ensures ToBigEndian(FromBigEndian(s), |s|) == s
  {
    if s != [] {
      BigEndianBytesRoundTrip(s[..|s| - 1]);
      assert s == s[..|s| - 1] + [s[|s| - 1]];
    }
  }

  function Reverse<T>(s: seq<T>): (r: seq<T>)
    ensures |r| == |s|
    ensures forall i :: 0 <= i < |s| ==> r[i] == s[|s| - 1 - i]
  {
    seq(|s|, i requires 0 <= i < |s| => s[|s| - 1 - i])
  }

  /** The in-memory form of an unsigned integer on a little-endian host. */
  function ToLittleEndian(v: nat, len: nat): (s: seq<Byte>)
    ensures |s| == len
  {
    Reverse(ToBigEndian(v, len))
  }

  function FromLittleEndian(s: seq<Byte>): (v: nat)
    ensures v < Pow256(|s|)
  {
    FromBigEndian(Reverse(s))
  }

  lemma LittleEndianRoundTrip(v: nat, len: nat)
    requires v < Pow256(len)
    ensures FromLittleEndian(ToLittleEndian(v, len)) == v
  {
    BigEndianRoundTrip(v, len);
    assert Reverse(Reverse(ToBigEndian(v, len))) == ToBigEndian(v, len);
  }
}

/** The stored form of an encrypted secret: length, nonce, authentication tag, ciphertext. */
module SealedBlob {
  import opened Bytes

  datatype Blob = Blob(data: seq<Byte>, nonce: seq<Byte>, mac: seq<Byte>)

  /** The field sizes of the record; `data_len` is a 64-bit size. */
  ghost predicate ValidBlob(b: Blob)
  {
    |b.nonce| == 24 && |b.mac| == 16 && |b.data| < Pow256(8)
  }

  const HEADER := 48

  function Serialized(b: Blob): (s: seq<Byte>)
    ensures |s| == 8 + |b.nonce| + |b.mac| + |b.data|
  {
    ToLittleEndian(|b.data|, 8) + b.nonce + b.mac + b.data
  }

  /** The record at the front of `s`, when `s` holds all of it. */
  function Deserialized(s: seq<Byte>): (r: Option<Blob>)
  {
    if |s| < HEADER then None
    else
      var len := FromLittleEndian(s[..8]);
      if |s| < HEADER + len then None
      else Some(Blob(s[HEADER..HEADER + len], s[8..32], s[32..48]))
  }

  /** Reading undoes writing, whatever follows the record. */
  lemma DeserializeInvertsSerialize(b: Blob, rest: seq<Byte>)
    requires ValidBlob(b)
    ensures Deserialized(Serialized(b) + rest) == Some(b)
    ensures |Serialized(b)| == HEADER + |b.data|
  {
    var s := Serialized(b) + rest;
    assert s[..8] == ToLittleEndian(|b.data|, 8);
    LittleEndianRoundTrip(|b.data|, 8);
    assert s[8..32] == b.nonce;
    assert s[32..48] == b.mac;
    assert s[HEADER..HEADER + |b.data|] == b.data;
  }

  /** Writing undoes reading: a record is read from its own serialized form and no other. */
  lemma SerializeInvertsDeserialize(s: seq<Byte>)
    requires Deserialized(s).Some?
    ensures ValidBlob(Deserialized(s).value)
    ensures Serialized(Deserialized(s).value) == s[..HEADER + |Deserialized(s).value.data|]
  {
    var b := Deserialized(s).value;
    var prefix := Reverse(s[..8]);
    BigEndianBytesRoundTrip(prefix);
    assert Reverse(prefix) == s[..8];
  }

  /** memcpy into a buffer. */
  method CopyInto(buffer: array<Byte>, offset: nat, src: seq<Byte>)
    requires offset + |src| <= buffer.Length
    modifies buffer
    ensures buffer[..] == old(buffer[..offset]) + src + old(buffer[offset + |src|..])
  {
    forall i | 0 <= i < |src| { buffer[offset + i] := src[i]; }
  }

  /** serialize: fills the front of the buffer and reports how much of it. */
  method Serialize(src: Blob, buffer: array<Byte>) returns (serializedLen: nat)
    requires ValidBlob(src) && buffer.Length >= HEADER + |src.data|
    modifies buffer
    ensures serializedLen == HEADER + |src.data|
    ensures buffer[..serializedLen] == Serialized(src)
    ensures buffer[serializedLen..] == old(buffer[serializedLen..])
  {
    var offset := 0;
    CopyInto(buffer, offset, ToLittleEndian(|src.data|, 8));
    offset := offset + 8;
    CopyInto(buffer, offset, src.nonce);
    offset := offset + |src.nonce|;
    CopyInto(buffer, offset, src.mac);
    offset := offset + |src.mac|;
    assert buffer[..offset] == ToLittleEndian(|src.data|, 8) + src.nonce + src.mac;
    CopyInto(buffer, offset, src.data);
    assert buffer[..offset + |src.data|] == buffer[..offset] + src.data;
    offset := offset + |src.data|;
    serializedLen := offset;
  }

  /** deserialize: `None` where a copy would run past the end of the buffer. */
  method Deserialize(buffer: array<Byte>) returns (dest: Option<Blob>)
    ensures dest == Deserialized(buffer[..])
  {
    var offset := 0;
    if buffer.Length < offset + 8 { return None; }
    var dataLen := FromLittleEndian(buffer[offset..offset + 8]);
    offset := offset + 8;
    if buffer.Length < offset + 24 { return None; }
    var nonce := buffer[offset..offset + 24];
    offset := offset + 24;
    if buffer.Length < offset + 16 { return None; }
    var mac := buffer[offset..offset + 16];
    offset := offset + 16;
    assert buffer[..][..8] == buffer[0..8];
    if buffer.Length < offset + dataLen { return None; }
    return Some(Blob(buffer[offset..offset + dataLen], nonce, mac));
  }
}

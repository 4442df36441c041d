/** Statechain addresses: two public keys in one checksummed string, and the output that pays them. */
module Address {
  import opened Bytes
  import opened Bech32
  import opened Bech32Strings

  // ----- regrouping bytes into five-bit symbols ---------------------------------------------

  function ByteBits(bytes: seq<Byte>): (b: Bits)
    ensures |b| == 8 * |bytes|
  {
    if bytes == [] then [] else BitsOf(bytes[0], 8) + ByteBits(bytes[1..])
  }

  lemma ByteBound(b: Bits)
    requires |b| == 8
    ensures NumberOf(b) < 256
  {
    NumberBound(b, 8);
    assert Pow2(8) == 256;
  }

  function BytesOf(b: Bits): (bytes: seq<Byte>)
    requires |b| % 8 == 0
    ensures |bytes| == |b| / 8
  {
    if b == [] then []
    else
      ByteBound(b[..8]);
      [NumberOf(b[..8])] + BytesOf(b[8..])
  }

  lemma {:induction false} BytesRoundTrip(bytes: seq<Byte>)
    ensures BytesOf(ByteBits(bytes)) == bytes
  {
    if bytes != [] {
      var b := ByteBits(bytes);
      assert Pow2(8) == 256;
      NumberOfBits(bytes[0], 8);
      assert b[..8] == BitsOf(bytes[0], 8) && b[8..] == ByteBits(bytes[1..]);
      BytesRoundTrip(bytes[1..]);
    }
  }

  lemma {:induction false} BitsOfBytes(b: Bits)
    requires |b| % 8 == 0
    ensures ByteBits(BytesOf(b)) == b
    decreases |b|
  {
    if b != [] {
      BitsRoundTrip(b[..8]);
      BitsOfBytes(b[8..]);
      assert BytesOf(b)[1..] == BytesOf(b[8..]);
    }
  }

  function Padding(bits: nat): (p: nat)
    ensures p < 5 && (bits + p) % 5 == 0
  {
    (5 - bits % 5) % 5
  }

  /** The bits of the bytes, filled up with zeros, in groups of five. */
  function ToBase32(bytes: seq<Byte>): (data: seq<Bits>)
    ensures AllSymbols(data)
  {
    Chunks(ByteBits(bytes) + Zeros(Padding(8 * |bytes|)))
  }

  /** The bits that make up whole bytes. */
  function WholeBits(bits: nat): (n: nat)
    ensures n <= bits < n + 8 && n % 8 == 0
  {
    bits - bits % 8
  }

  /** Groups of eight again; what is left over must be fewer than five bits, all zero. */
  function FromBits(b: Bits): (r: Option<seq<Byte>>)
  {
    var n := WholeBits(|b|);
    if |b| - n >= 5 || b[n..] != Zeros(|b| - n) then None else Some(BytesOf(b[..n]))
  }

  function FromBase32(data: seq<Bits>): (r: Option<seq<Byte>>)
    requires AllSymbols(data)
  {
    FromBits(Flatten(data))
  }

  lemma WholeBytes(n: nat, p: nat)
    requires p < 5
    ensures WholeBits(8 * n + p) == 8 * n
  {
  }

  lemma PaddingIsRest(total: nat, n: nat)
    requires total % 5 == 0 && n <= total < n + 5
    ensures Padding(n) == total - n
  {
  }

  lemma FromPadded(bits: Bits, n: nat, p: nat)
    requires |bits| == 8 * n && p < 5
    ensures FromBits(bits + Zeros(p)) == Some(BytesOf(bits))
  {
    var b := bits + Zeros(p);
    WholeBytes(n, p);
    assert b[..|bits|] == bits && b[|bits|..] == Zeros(p);
  }

  lemma Base32RoundTrip(bytes: seq<Byte>)
    ensures FromBase32(ToBase32(bytes)) == Some(bytes)
  {
    var b := ByteBits(bytes) + Zeros(Padding(8 * |bytes|));
    FlattenChunks(b);
    FromPadded(ByteBits(bytes), |bytes|, Padding(8 * |bytes|));
    BytesRoundTrip(bytes);
  }

  lemma FromWhole(b: Bits)
    requires |b| % 5 == 0 && FromBits(b).Some?
    ensures ByteBits(FromBits(b).value) + Zeros(Padding(8 * |FromBits(b).value|)) == b
  {
    var n := WholeBits(|b|);
    BitsOfBytes(b[..n]);
    PaddingIsRest(|b|, n);
    assert b[..n] + b[n..] == b;
  }

  lemma Base32Canonical(data: seq<Bits>)
    requires AllSymbols(data) && FromBase32(data).Some?
    ensures ToBase32(FromBase32(data).value) == data
  {
    ChunksFlatten(data);
    FromWhole(Flatten(data));
  }

  // ----- addresses --------------------------------------------------------------------------

  datatype Network = Signet | Testnet | Regtest | Bitcoin

  /** A compressed public key; `valid` says which 33-byte strings are points of the curve. */
  type Key = seq<Byte>

  ghost predicate IsKey(valid: Key -> bool, k: Key) { |k| == 33 && valid(k) }

  function Hrp(network: Network): string { if network == Bitcoin then "ml" else "tml" }

  function Payload(user: Key, auth: Key): seq<Byte> { [0] + user + auth }

  /** encode_sc_address. */
  function EncodeScAddress(user: Key, auth: Key, network: Network): (r: Option<string>)
  {
    Encode(Hrp(network), ToBase32(Payload(user, auth)), Bech32m)
  }

  datatype Parts = Parts(version: Byte, user: Key, auth: Key)

  /** decode_transfer_address. */
  function DecodeTransferAddress(valid: Key -> bool, s: string): (r: Outcome<Parts>)
    ensures r.Ok? ==> |r.value.user| == 33 && |r.value.auth| == 33
  {
    var d := Decode(s);
    if d.None? || (d.value.hrp != "ml" && d.value.hrp != "tml") || d.value.variant != Bech32m then Err
    else
      var bytes := FromBase32(d.value.data);
      if bytes.None? then Err else SplitKeys(valid, bytes.value)
  }

  function SplitKeys(valid: Key -> bool, bytes: seq<Byte>): (r: Outcome<Parts>)
    ensures r.Ok? ==> |r.value.user| == 33 && |r.value.auth| == 33
  {
    if |bytes| < 34 then Panic
    else if !valid(bytes[1..34]) then Err
    else if |bytes| < 67 then Panic
    else if !valid(bytes[34..67]) then Err
    else Ok(Parts(bytes[0], bytes[1..34], bytes[34..67]))
  }

  lemma PayloadKeys(valid: Key -> bool, user: Key, auth: Key, surplus: seq<Byte>)
    requires IsKey(valid, user) && IsKey(valid, auth)
    ensures SplitKeys(valid, Payload(user, auth) + surplus) == Ok(Parts(0, user, auth))
    ensures Payload(user, auth) + [] == Payload(user, auth)
  {
    var bytes := Payload(user, auth) + surplus;
    assert bytes[1..34] == user && bytes[34..67] == auth;
  }

  lemma DecodedKeys(valid: Key -> bool, s: string, d: Decoded, bytes: seq<Byte>)
    requires Decode(s) == Some(d) && d.variant == Bech32m && (d.hrp == "ml" || d.hrp == "tml")
    requires FromBase32(d.data) == Some(bytes)
    ensures DecodeTransferAddress(valid, s) == SplitKeys(valid, bytes)
  {
  }

  /** Any bytes behind one of the two prefixes are split into keys. */
  lemma EncodedBytes(valid: Key -> bool, network: Network, bytes: seq<Byte>)
    ensures Encode(Hrp(network), ToBase32(bytes), Bech32m).Some?
    ensures DecodeTransferAddress(valid, Encode(Hrp(network), ToBase32(bytes), Bech32m).value) == SplitKeys(valid, bytes)
  {
    var hrp, data := Hrp(network), ToBase32(bytes);
    DecodeEncode(hrp, data);
    Base32RoundTrip(bytes);
    DecodedKeys(valid, Encode(hrp, data, Bech32m).value, Decoded(hrp, data, Bech32m), bytes);
  }

  /** Decoding an encoded address gives version 0 and the same two keys, on every network. */
  lemma AddressRoundTrip(valid: Key -> bool, user: Key, auth: Key, network: Network)
    requires IsKey(valid, user) && IsKey(valid, auth)
    ensures EncodeScAddress(user, auth, network).Some?
    ensures DecodeTransferAddress(valid, EncodeScAddress(user, auth, network).value) == Ok(Parts(0, user, auth))
  {
    EncodedBytes(valid, network, Payload(user, auth));
    PayloadKeys(valid, user, auth, []);
  }

  /** A well-formed address whose bytes end before the first key, or before the second with the first one valid. */
  predicate CutShort(valid: Key -> bool, s: string)
  {
    var d := Decode(s);
    && d.Some? && (d.value.hrp == "ml" || d.value.hrp == "tml") && d.value.variant == Bech32m
    && var bytes := FromBase32(d.value.data);
       bytes.Some? && (|bytes.value| < 34 || (|bytes.value| < 67 && valid(bytes.value[1..34])))
  }

  /** A slice runs past the end exactly on those addresses; everything else is answered. */
  lemma PanicsExactly(valid: Key -> bool, s: string)
    ensures DecodeTransferAddress(valid, s).Panic? <==> CutShort(valid, s)
  {
    var d := Decode(s);
    if d.Some? && (d.value.hrp == "ml" || d.value.hrp == "tml") && d.value.variant == Bech32m && FromBase32(d.value.data).Some? {
      DecodedKeys(valid, s, d.value, FromBase32(d.value.data).value);
    }
  }

  /** There are such addresses on both networks, of any number of bytes below 34. */
  lemma ShortAddress(valid: Key -> bool, network: Network, bytes: seq<Byte>)
    requires |bytes| < 34
    ensures Encode(Hrp(network), ToBase32(bytes), Bech32m).Some?
    ensures CutShort(valid, Encode(Hrp(network), ToBase32(bytes), Bech32m).value)
    ensures DecodeTransferAddress(valid, Encode(Hrp(network), ToBase32(bytes), Bech32m).value).Panic?
  {
    EncodedBytes(valid, network, bytes);
    PanicsExactly(valid, Encode(Hrp(network), ToBase32(bytes), Bech32m).value);
  }

  /** And of any number of bytes from 34 to 66 behind whose version stands a valid key. */
  lemma HalfAddress(valid: Key -> bool, network: Network, bytes: seq<Byte>)
    requires 34 <= |bytes| < 67 && valid(bytes[1..34])
    ensures Encode(Hrp(network), ToBase32(bytes), Bech32m).Some?
    ensures CutShort(valid, Encode(Hrp(network), ToBase32(bytes), Bech32m).value)
    ensures DecodeTransferAddress(valid, Encode(Hrp(network), ToBase32(bytes), Bech32m).value).Panic?
  {
    EncodedBytes(valid, network, bytes);
    PanicsExactly(valid, Encode(Hrp(network), ToBase32(bytes), Bech32m).value);
  }

  lemma KeysPayload(valid: Key -> bool, bytes: seq<Byte>)
    requires |bytes| == 67 && SplitKeys(valid, bytes).Ok? && bytes[0] == 0
    ensures bytes == Payload(SplitKeys(valid, bytes).value.user, SplitKeys(valid, bytes).value.auth)
  {
  }

  lemma EncodesAs(user: Key, auth: Key, network: Network, data: seq<Bits>)
    requires AllSymbols(data) && ToBase32(Payload(user, auth)) == data
    ensures EncodeScAddress(user, auth, network) == Some(Hrp(network) + "1" + Chars(Checked(Hrp(network), data, Bech32m)))
  {
    assert LowerAll(Hrp(network)) == Hrp(network);
  }

  /** Two data parts with the same checked characters are the same. */
  lemma SameData(hrp: string, a: seq<Bits>, b: seq<Bits>)
    requires AllSymbols(a) && AllSymbols(b) && Chars(Checked(hrp, a, Bech32m)) == Chars(Checked(hrp, b, Bech32m))
    ensures a == b
  {
    var va, vb := Checked(hrp, a, Bech32m), Checked(hrp, b, Bech32m);
    CharsRoundTrip(va);
    CharsRoundTrip(vb);
    assert va[..|a|] == a && vb[..|b|] == b;
  }

  lemma SameBody(hrp: string, x: string, y: string)
    requires hrp + "1" + x == hrp + "1" + y
    ensures x == y
  {
    var n := |hrp| + 1;
    assert (hrp + "1" + x)[n..] == x && (hrp + "1" + y)[n..] == y;
  }

  lemma EncodedIsPayload(user: Key, auth: Key, network: Network, data: seq<Bits>, bytes: seq<Byte>)
    requires AllSymbols(data) && FromBase32(data) == Some(bytes)
    requires EncodeScAddress(user, auth, network) == Some(Hrp(network) + "1" + Chars(Checked(Hrp(network), data, Bech32m)))
    ensures bytes == Payload(user, auth)
  {
    var hrp, own := Hrp(network), ToBase32(Payload(user, auth));
    EncodesAs(user, auth, network, own);
    SameBody(hrp, Chars(Checked(hrp, own, Bech32m)), Chars(Checked(hrp, data, Bech32m)));
    SameData(hrp, own, data);
    Base32RoundTrip(Payload(user, auth));
  }

  /**
   * The other way: a decoded address is the address of its two keys, up to letter case, if and
   * only if its version is 0 and nothing follows the second key.
   */
  lemma AddressCanonical(valid: Key -> bool, s: string, network: Network)
    requires DecodeTransferAddress(valid, s).Ok? && Decode(s).value.hrp == Hrp(network)
    ensures FromBase32(Decode(s).value.data).Some?
    ensures var p := DecodeTransferAddress(valid, s).value;
            EncodeScAddress(p.user, p.auth, network) == Some(LowerAll(s)) <==>
            p.version == 0 && |FromBase32(Decode(s).value.data).value| == 67
  {
    var d := Decode(s).value;
    var bytes := FromBase32(d.data).value;
    DecodedKeys(valid, s, d, bytes);
    EncodeDecode(s);
    var p := SplitKeys(valid, bytes).value;
    if p.version == 0 && |bytes| == 67 {
      Base32Canonical(d.data);
      KeysPayload(valid, bytes);
      EncodesAs(p.user, p.auth, network, d.data);
    }
    if EncodeScAddress(p.user, p.auth, network) == Some(LowerAll(s)) {
      EncodedIsPayload(p.user, p.auth, network, d.data, bytes);
    }
  }

  /** Bytes after the second key are passed over: such an address decodes to the same keys. */
  lemma SurplusIgnored(valid: Key -> bool, user: Key, auth: Key, network: Network, surplus: seq<Byte>)
    requires IsKey(valid, user) && IsKey(valid, auth)
    ensures Encode(Hrp(network), ToBase32(Payload(user, auth) + surplus), Bech32m).Some?
    ensures DecodeTransferAddress(valid, Encode(Hrp(network), ToBase32(Payload(user, auth) + surplus), Bech32m).value) == Ok(Parts(0, user, auth))
  {
    EncodedBytes(valid, network, Payload(user, auth) + surplus);
    PayloadKeys(valid, user, auth, surplus);
  }

  predicate StartsWith(s: string, prefix: string) { prefix <= s }

  /** validate_address; `bitcoin` is the verdict of the Bitcoin address parser for this network. */
  function ValidateAddress(valid: Key -> bool, bitcoin: Outcome<bool>, s: string, network: Network): (r: Outcome<bool>)
  {
    if StartsWith(s, "ml") || StartsWith(s, "tml") then
      if StartsWith(s, "ml") && network != Bitcoin then Err
      else if StartsWith(s, "tml") && network == Bitcoin then Err
      else
        var d := DecodeTransferAddress(valid, s);
        if d.Ok? then Ok(true) else if d.Panic? then Panic else Err
    else bitcoin
  }

  lemma AddressPrefix(user: Key, auth: Key, network: Network)
    requires EncodeScAddress(user, auth, network).Some?
    ensures StartsWith(EncodeScAddress(user, auth, network).value, "ml") <==> network == Bitcoin
    ensures StartsWith(EncodeScAddress(user, auth, network).value, "tml") <==> network != Bitcoin
  {
    var hrp, s := Hrp(network), EncodeScAddress(user, auth, network).value;
    assert LowerAll(hrp) == hrp;
    assert s[..|hrp|] == hrp && s[0] == hrp[0];
    assert "ml"[0] == 'm' && "tml"[0] == 't';
    assert StartsWith(s, "ml") ==> s[0] == "ml"[0];
    assert StartsWith(s, "tml") ==> s[0] == "tml"[0];
  }

  /** An address is accepted exactly where it belongs: on mainnet if made there, elsewhere if not. */
  lemma ValidatedExactly(valid: Key -> bool, bitcoin: Outcome<bool>, user: Key, auth: Key, made: Network, asked: Network)
    requires IsKey(valid, user) && IsKey(valid, auth)
    ensures EncodeScAddress(user, auth, made).Some?
    ensures ValidateAddress(valid, bitcoin, EncodeScAddress(user, auth, made).value, asked) ==
            if (made == Bitcoin) == (asked == Bitcoin) then Ok(true) else Err
  {
    AddressRoundTrip(valid, user, auth, made);
    AddressPrefix(user, auth, made);
  }

  /** The panic passes through validation exactly when the networks agree on the prefix. */
  lemma ValidatePanicsExactly(valid: Key -> bool, bitcoin: Outcome<bool>, s: string, network: Network)
    ensures ValidateAddress(valid, bitcoin, s, network).Panic? <==>
            if StartsWith(s, "ml") then network == Bitcoin && CutShort(valid, s)
            else if StartsWith(s, "tml") then network != Bitcoin && CutShort(valid, s)
            else bitcoin.Panic?
  {
    PanicsExactly(valid, s);
    assert StartsWith(s, "ml") ==> s[0] == "ml"[0];
    assert StartsWith(s, "tml") ==> s[0] == "tml"[0];
  }

  // ----- the output that pays an address ----------------------------------------------------

  const TWO64: int := 0x1_0000_0000_0000_0000

  /** A coin amount minus a fee in 64-bit arithmetic. */
  function AmountOut(amount: int, fee: int): int { (amount - fee) % TWO64 }

  /** The fee of a backup of 112 virtual bytes: rounded up, and cast to 64 bits by saturation. */
  function Fee(rate: real): (fee: int)
    ensures 0 <= fee < TWO64
  {
    var f := 112.0 * rate;
    var up := -((-f).Floor);
    if up < 0 then 0 else if up >= TWO64 then TWO64 - 1 else up
  }

  datatype TxOut<S> = TxOut(value: int, script: S)

  /** The x-only part of a key. */
  function XOnly(k: Key): seq<Byte> requires |k| == 33 { k[1..] }

  /** create_tx_out; `p2tr` is the key-path script, `other` what a Bitcoin address pays to. */
  function CreateTxOut<S>(valid: Key -> bool, p2tr: seq<Byte> -> S, other: Outcome<S>, amount: int, rate: real, to: string): Outcome<TxOut<S>>
  {
    var value := AmountOut(amount, Fee(rate));
    if StartsWith(to, "ml") || StartsWith(to, "tml") then
      var d := DecodeTransferAddress(valid, to);
      if d.Ok? then Ok(TxOut(value, p2tr(XOnly(d.value.user)))) else if d.Panic? then Panic else Err
    else if other.Ok? then Ok(TxOut(value, other.value))
    else if other.Panic? then Panic
    else Err
  }

  /** The script of get_user_backup_address. */
  function BackupScript<S>(p2tr: seq<Byte> -> S, user: Key): S requires |user| == 33 { p2tr(XOnly(user)) }

  lemma AmountExactly(amount: int, fee: int)
    requires 0 <= amount < TWO64 && 0 <= fee < TWO64
    ensures AmountOut(amount, fee) + fee == amount <==> fee <= amount
  {
    var d := amount - fee;
    assert d < 0 ==> d % TWO64 == d + TWO64;
  }

  lemma PaysDecoded<S>(valid: Key -> bool, p2tr: seq<Byte> -> S, other: Outcome<S>, amount: int, rate: real, to: string, p: Parts)
    requires StartsWith(to, "ml") || StartsWith(to, "tml")
    requires DecodeTransferAddress(valid, to) == Ok(p) && |p.user| == 33
    ensures CreateTxOut(valid, p2tr, other, amount, rate, to) == Ok(TxOut(AmountOut(amount, Fee(rate)), BackupScript(p2tr, p.user)))
  {
  }

  /**
   * A backup to a statechain address pays the script under which its owner looks for it, and
   * output plus fee is the coin's amount exactly when the amount covers the fee.
   */
  lemma BackupPaysOwner<S>(valid: Key -> bool, p2tr: seq<Byte> -> S, other: Outcome<S>, amount: int, rate: real,
                           user: Key, auth: Key, network: Network)
    requires IsKey(valid, user) && IsKey(valid, auth) && 0 <= amount < TWO64
    ensures EncodeScAddress(user, auth, network).Some?
    ensures CreateTxOut(valid, p2tr, other, amount, rate, EncodeScAddress(user, auth, network).value) ==
            Ok(TxOut(AmountOut(amount, Fee(rate)), BackupScript(p2tr, user)))
    ensures AmountOut(amount, Fee(rate)) + Fee(rate) == amount <==> Fee(rate) <= amount
  {
    AmountExactly(amount, Fee(rate));
    AddressRoundTrip(valid, user, auth, network);
    AddressPrefix(user, auth, network);
    PaysDecoded(valid, p2tr, other, amount, rate, EncodeScAddress(user, auth, network).value, Parts(0, user, auth));
  }

  /** And through the making of a backup output, whatever the amount and the fee. */
  lemma TxOutPanicsExactly<S>(valid: Key -> bool, p2tr: seq<Byte> -> S, other: Outcome<S>, amount: int, rate: real, to: string)
    ensures CreateTxOut(valid, p2tr, other, amount, rate, to).Panic? <==>
            if StartsWith(to, "ml") || StartsWith(to, "tml") then CutShort(valid, to) else other.Panic?
  {
    PanicsExactly(valid, to);
  }
}

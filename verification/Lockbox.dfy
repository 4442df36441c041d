/**
 * The lockbox: a table of statechain rows and what each request reads, computes and writes.
 * Random draws are part of a call, and the authenticated encryption is any scheme in which
 * opening under the seed inverts sealing.
 */
module Lockbox {
  import opened Bytes
  import opened Curve
  import opened SealedBlob
  import Hex
  import KeyShares
  import BlindSign

  datatype Env = Env(
    g: Group,
    seed: seq<Byte>,
    lock: (seq<Byte>, seq<Byte>, seq<Byte>) -> (seq<Byte>, seq<Byte>),             // seed, nonce, text: data, mac
    unlock: (seq<Byte>, seq<Byte>, seq<Byte>, seq<Byte>) -> Option<seq<Byte>>,     // seed, nonce, mac, data: text
    loadSession: seq<Byte> -> Option<BlindSign.Session>)

  ghost predicate ValidEnv(env: Env)
  {
    && ValidGroup(env.g)
    && forall nonce, text :: Sealable(env, nonce, text)
  }

  ghost predicate Sealable(env: Env, nonce: seq<Byte>, text: seq<Byte>)
  {
    var (data, mac) := env.lock(env.seed, nonce, text);
    |data| == |text| && |mac| == 16 && env.unlock(env.seed, nonce, mac, data) == Some(text)
  }

  // ----- secrets at rest ------------------------------------------------------------------

  /** encrypt_data and serialize: the bytes of a sealed column. */
  function Seal(env: Env, nonce: seq<Byte>, text: seq<Byte>): seq<Byte>
  {
    var (data, mac) := env.lock(env.seed, nonce, text);
    Serialized(Blob(data, nonce, mac))
  }

  /** decrypt_data */
  function Open(env: Env, blob: Blob): Option<seq<Byte>>
  {
    env.unlock(env.seed, blob.nonce, blob.mac, blob.data)
  }

  lemma OpenInvertsSeal(env: Env, nonce: seq<Byte>, text: seq<Byte>)
    requires ValidEnv(env) && |nonce| == 24 && |text| < Pow256(8)
    ensures Deserialized(Seal(env, nonce, text)).Some?
    ensures Open(env, Deserialized(Seal(env, nonce, text)).value) == Some(text)
  {
    assert Sealable(env, nonce, text);
    var (data, mac) := env.lock(env.seed, nonce, text);
    var b := Blob(data, nonce, mac);
    DeserializeInvertsSerialize(b, []);
    assert Serialized(b) + [] == Serialized(b);
  }

  function KeypairBytes(key: int): seq<Byte>
    requires 0 <= key
  {
    ToBigEndian(key, 32)
  }

  function LoadKeypair(g: Group, s: seq<Byte>): Option<int>
  {
    if IsKey(g, FromBigEndian(s)) then Some(FromBigEndian(s)) else None
  }

  function SecNonceBytes(k: BlindSign.SecNonce): seq<Byte>
    requires 0 <= k.k1 && 0 <= k.k2 && 0 <= k.pk
  {
    ToBigEndian(k.k1, 32) + ToBigEndian(k.k2, 32) + ToBigEndian(k.pk, 32)
  }

  function LoadSecNonce(s: seq<Byte>): Option<BlindSign.SecNonce>
  {
    if |s| != 96 then None
    else Some(BlindSign.SecNonce(FromBigEndian(s[..32]), FromBigEndian(s[32..64]), FromBigEndian(s[64..])))
  }

  function PubNonceBytes(k1: nat, k2: nat): (s: seq<Byte>)
    ensures |s| == 66
  {
    ToBigEndian(k1, 33) + ToBigEndian(k2, 33)
  }

  // ----- the table ------------------------------------------------------------------------

  datatype Row = Row(
    id: string,
    sealedKeypair: Option<seq<Byte>>,
    sealedSecnonce: Option<seq<Byte>>,
    publicNonce: Option<seq<Byte>>,
    publicKey: int,
    sigCount: nat)

  type Table = seq<Row>

  const MAX_COUNT := 0x7FFF_FFFF

  /** The row a query on `id` answers from. */
  function First(t: Table, id: string): (r: Option<Row>)
    ensures r.Some? ==> r.value in t && r.value.id == id
    ensures r.None? ==> forall i :: 0 <= i < |t| ==> t[i].id != id
  {
    if t == [] then None else if t[0].id == id then Some(t[0]) else First(t[1..], id)
  }

  /** The rows of one statechain, in table order. */
  function Rows(t: Table, id: string): (r: Table)
    ensures forall i :: 0 <= i < |r| ==> r[i].id == id
  {
    if t == [] then [] else if t[0].id == id then [t[0]] + Rows(t[1..], id) else Rows(t[1..], id)
  }

  /** What an UPDATE statement writes to each row it selects. */
  datatype Change =
    | SetNonce(secnonce: seq<Byte>, pubnonce: seq<Byte>)
    | CountSignature
    | SetKeypair(keypair: seq<Byte>, publicKey: int)

  function Apply(c: Change, r: Row): (r': Row)
    ensures r'.id == r.id
  {
    match c
    case SetNonce(s, p) => r.(sealedSecnonce := Some(s), publicNonce := Some(p))
    case CountSignature => r.(sigCount := r.sigCount + 1)
    case SetKeypair(k, p) => r.(sealedKeypair := Some(k), publicKey := p, sealedSecnonce := None, publicNonce := None)
  }

  function UpdateRows(t: Table, id: string, c: Change): (r: Table)
    ensures |r| == |t|
    ensures forall i :: 0 <= i < |t| ==> r[i] == if t[i].id == id then Apply(c, t[i]) else t[i]
  {
    seq(|t|, i requires 0 <= i < |t| => if t[i].id == id then Apply(c, t[i]) else t[i])
  }

  function DeleteRows(t: Table, id: string): (r: Table)
    ensures forall i :: 0 <= i < |r| ==> r[i].id != id
  {
    if t == [] then [] else if t[0].id == id then DeleteRows(t[1..], id) else [t[0]] + DeleteRows(t[1..], id)
  }

  /** The statement a handler issues on the rows of its statechain once it has decided. */
  datatype Statement = Nothing | Insert(row: Row) | Change(change: Change) | Erase

  function Perform(t: Table, id: string, s: Statement): Table
  {
    match s
    case Nothing => t
    case Insert(row) => t + [row]
    case Change(c) => UpdateRows(t, id, c)
    case Erase => DeleteRows(t, id)
  }

  predicate KeyTaken(t: Table, key: int) { exists i :: 0 <= i < |t| && t[i].publicKey == key }

  /** Some row outside `id` holds the key. */
  predicate KeyTakenByOther(t: Table, id: string, key: int)
  {
    exists i :: 0 <= i < |t| && t[i].id != id && t[i].publicKey == key
  }

  predicate CountExhausted(t: Table, id: string)
  {
    exists i :: 0 <= i < |t| && t[i].id == id && t[i].sigCount >= MAX_COUNT
  }

  // ----- loading a row --------------------------------------------------------------------

  datatype Load =
    | NoData
    | Corrupt
    | Loaded(keypair: Option<Blob>, secnonce: Option<Blob>, pubNonce: seq<Byte>)

  /** A null column, or the record it holds; `None` outside when it does not hold one. */
  function Column(c: Option<seq<Byte>>): Option<Option<Blob>>
  {
    match c
    case None => Some(None)
    case Some(s) => if Deserialized(s).None? then None else Some(Deserialized(s))
  }

  /** load_generated_key_data; without `withNonce` the caller passes no place for a nonce. */
  function LoadKeyData(t: Table, id: string, withNonce: bool): (l: Load)
    ensures l.Loaded? && !withNonce ==> l.secnonce.None?
  {
    match First(t, id)
    case None => NoData
    case Some(r) =>
      var keypair := Column(r.sealedKeypair);
      var secnonce := if withNonce then Column(r.sealedSecnonce) else Some(None);
      if keypair.None? || secnonce.None? then Corrupt
      else if withNonce && r.publicNonce.Some? then
        if |r.publicNonce.value| != 66 then Corrupt else Loaded(keypair.value, secnonce.value, r.publicNonce.value)
      else Loaded(keypair.value, secnonce.value, seq(66, _ => 0))
  }

  // ----- handlers -------------------------------------------------------------------------

  datatype Response =
    | PublicKey(key: int)
    | PublicNonce(nonce: seq<Byte>)
    | PartialSig(sig: int)
    | SigCount(count: int)
    | Deleted
    | Rejected(code: int)
    | Aborted              // a failed assertion or a missing value stops the process
    | Unspecified          // the count of a statechain that has no row

  datatype Call =
    | NewKey(id: string, draws: seq<seq<Byte>>, nonce: seq<Byte>)
    | NewNonce(id: string, k1: nat, k2: nat, nonce: seq<Byte>)
    | Sign(id: string, negate: int, session: string)
    | Update(id: string, t2: string, x1: string, nonce: seq<Byte>)
    | Count(id: string)
    | Delete(id: string)

  function FirstKey(g: Group, draws: seq<seq<Byte>>): (r: Option<int>)
    ensures r.Some? ==> IsKey(g, r.value)
  {
    if draws == [] then None
    else if IsKey(g, FromBigEndian(draws[0])) then Some(FromBigEndian(draws[0]))
    else FirstKey(g, draws[1..])
  }

  /** The secret key in a loaded row, or the answer that ends the request. */
  function StoredKey(env: Env, l: Load, onNull: Response): (r: (int, Option<Response>))
    ensures r.1.None? ==> IsKey(env.g, r.0)
  {
    match l
    case Loaded(Some(blob), _, _) =>
      var text := Open(env, blob);
      if text.None? then (0, Some(Rejected(500)))
      else
        var key := LoadKeypair(env.g, text.value);
        if key.None? then (0, Some(Aborted)) else (key.value, None)
    case Loaded(None, _, _) => (0, Some(onNull))
    case _ => (0, Some(Rejected(500)))
  }

  /** The enclave's half signature from two opened blobs. */
  function EnclaveSign(env: Env, keypair: Blob, secnonce: Blob, negate: int, session: seq<Byte>): Response
    requires ValidGroup(env.g)
  {
    match (Open(env, keypair), Open(env, secnonce))
    case (Some(kt), Some(nt)) =>
      var key, k, ses := LoadKeypair(env.g, kt), LoadSecNonce(nt), env.loadSession(session);
      if key.None? || k.None? || ses.None? then Aborted
      else
        var s := BlindSign.PartialSign(env.g, k.value, key.value, ses.value, negate % 0x1_0000_0000 != 0);
        if s.None? then Aborted else PartialSig(s.value)
    case _ => Rejected(500)
  }

  /** Only a signature request loads the nonce with the keypair. */
  predicate WithNonce(c: Call) { c.Sign? }

  /** What a request makes of the row it has loaded: the statement to issue, or the refusal. */
  function Computed(env: Env, c: Call, l: Load): (Statement, Response)
    requires ValidGroup(env.g)
  {
    match c
    case NewKey(id, draws, nonce) =>
      var key := FirstKey(env.g, draws);
      if key.None? then (Nothing, Rejected(500))
      else (Insert(Row(id, Some(Seal(env, nonce, KeypairBytes(key.value))), None, None, key.value, 0)), PublicKey(key.value))
    case NewNonce(id, k1, k2, nonce) =>
      var (key, stop) := StoredKey(env, l, Aborted);
      if stop.Some? then (Nothing, stop.value)
      else (Change(SetNonce(Seal(env, nonce, SecNonceBytes(BlindSign.SecNonce(k1, k2, key))), PubNonceBytes(k1, k2))),
            PublicNonce(PubNonceBytes(k1, k2)))
    case Sign(id, negate, sessionHex) =>
      var session := Hex.HexBytes(Hex.StripPrefix(sessionHex));
      if |session| != 133 then (Nothing, Rejected(400))
      else if !l.Loaded? then (Nothing, Rejected(500))
      else if l.keypair.None? || l.secnonce.None? then (Nothing, Rejected(400))
      else
        var r := EnclaveSign(env, l.keypair.value, l.secnonce.value, negate, session);
        if r.PartialSig? then (Change(CountSignature), r) else (Nothing, r)
    case Update(id, t2Hex, x1Hex, nonce) =>
      var t2, x1 := Hex.HexBytes(Hex.StripPrefix(t2Hex)), Hex.HexBytes(Hex.StripPrefix(x1Hex));
      var (key, stop) := StoredKey(env, l, Rejected(400));
      if |t2| != 32 || |x1| != 32 then (Nothing, Rejected(400))
      else if stop.Some? then (Nothing, stop.value)
      else
        var share := KeyShares.UpdatedShare(env.g, key, FromBigEndian(x1), FromBigEndian(t2));
        if share.None? then (Nothing, Aborted)
        else (Change(SetKeypair(Seal(env, nonce, KeypairBytes(share.value)), share.value)), PublicKey(share.value))
    case Count(id) => (Nothing, Unspecified)
    case Delete(id) => (Erase, Deleted)
  }

  /** The database refuses a duplicate public key and a counter past the column's range. */
  predicate Admissible(t: Table, id: string, s: Statement)
  {
    match s
    case Insert(row) => !KeyTaken(t, row.publicKey)
    case Change(SetKeypair(_, key)) => !KeyTakenByOther(t, id, key) && |Rows(t, id)| <= 1
    case Change(CountSignature) => !CountExhausted(t, id)
    case _ => true
  }

  function CountAnswer(t: Table, id: string): Response
  {
    if First(t, id).None? then Unspecified else SigCount(First(t, id).value.sigCount)
  }

  /** A whole request without interruption: load, compute, and write unless the database refuses. */
  function Decide(env: Env, t: Table, call: Call): (Statement, Response)
    requires ValidGroup(env.g)
  {
    if call.Count? then (Nothing, CountAnswer(t, call.id))
    else
      var (st, r) := Computed(env, call, LoadKeyData(t, call.id, WithNonce(call)));
      if st.Nothing? || Admissible(t, call.id, st) then (st, r) else (Nothing, Rejected(500))
  }

  /** The table and the answer after one request. */
  function Handle(env: Env, t: Table, call: Call): (Table, Response)
    requires ValidGroup(env.g)
  {
    var (s, r) := Decide(env, t, call);
    (Perform(t, call.id, s), r)
  }
}

/** What every run of the lockbox keeps, when each handler runs without interruption. */
module LockboxRuns {
  import opened Bytes
  import opened Curve
  import opened SealedBlob
  import opened Lockbox
  import Hex
  import KeyShares
  import BlindSign

  /** The table after a sequence of calls, starting from an empty database. */
  function Run(env: Env, calls: seq<Call>): Table
    requires ValidGroup(env.g)
    decreases |calls|
  {
    if calls == [] then [] else Handle(env, Run(env, calls[..|calls| - 1]), calls[|calls| - 1]).0
  }

  /** The answer to the i-th call of a run. */
  function ResponseAt(env: Env, calls: seq<Call>, i: nat): Response
    requires ValidGroup(env.g) && i < |calls|
  {
    Handle(env, Run(env, calls[..i]), calls[i]).1
  }

  lemma RunStep(env: Env, calls: seq<Call>, i: nat)
    requires ValidGroup(env.g) && i < |calls|
    ensures Run(env, calls[..i + 1]) == Handle(env, Run(env, calls[..i]), calls[i]).0
  {
    assert calls[..i + 1][..i] == calls[..i];
  }

  // ----- row coherence --------------------------------------------------------------------

  ghost predicate SealedAs(env: Env, column: Option<seq<Byte>>, text: seq<Byte>)
  {
    column.Some? && Deserialized(column.value).Some? && Open(env, Deserialized(column.value).value) == Some(text)
  }

  /** The nonce columns hold the nonce pair (k1, k2), drawn under the row's current key. */
  ghost predicate HoldsNonce(env: Env, r: Row, k1: int, k2: int)
  {
    && IsScalar(env.g, k1) && IsScalar(env.g, k2) && IsKey(env.g, r.publicKey)
    && SealedAs(env, r.sealedSecnonce, SecNonceBytes(BlindSign.SecNonce(k1, k2, r.publicKey)))
    && r.publicNonce == Some(PubNonceBytes(k1, k2))
  }

  ghost predicate RowCoherent(env: Env, r: Row)
  {
    && IsKey(env.g, r.publicKey)
    && SealedAs(env, r.sealedKeypair, KeypairBytes(r.publicKey))
    && (|| (r.sealedSecnonce.None? && r.publicNonce.None?)
        || exists k1, k2 :: HoldsNonce(env, r, k1, k2))
  }

  ghost predicate Coherent(env: Env, t: Table)
  {
    && (forall i :: 0 <= i < |t| ==> RowCoherent(env, t[i]))
    && (forall i, j :: 0 <= i < j < |t| ==> t[i].id != t[j].id && t[i].publicKey != t[j].publicKey)
  }

  /** The draws inside a call have the sizes and ranges the libraries give them. */
  predicate ValidCall(g: Group, c: Call)
  {
    match c
    case NewKey(_, _, nonce) => |nonce| == 24
    case NewNonce(_, k1, k2, nonce) => |nonce| == 24 && IsScalar(g, k1) && IsScalar(g, k2)
    case Update(_, _, _, nonce) => |nonce| == 24
    case _ => true
  }

  lemma LoadKeypairInverts(g: Group, key: int)
    requires ValidGroup(g) && IsKey(g, key)
    ensures LoadKeypair(g, KeypairBytes(key)) == Some(key)
  {
    BigEndianRoundTrip(key, 32);
  }

  lemma LoadSecNonceInverts(g: Group, k: BlindSign.SecNonce)
    requires ValidGroup(g) && BlindSign.ValidSecNonce(g, k)
    ensures LoadSecNonce(SecNonceBytes(k)) == Some(k)
  {
    var s := SecNonceBytes(k);
    assert s[..32] == ToBigEndian(k.k1, 32) && s[32..64] == ToBigEndian(k.k2, 32) && s[64..] == ToBigEndian(k.pk, 32);
    BigEndianRoundTrip(k.k1, 32);
    BigEndianRoundTrip(k.k2, 32);
    BigEndianRoundTrip(k.pk, 32);
  }

  lemma ShortText(len: nat)
    requires len <= 96
    ensures len < Pow256(8)
  {
    assert Pow256(1) == 256;
    assert Pow256(8) >= Pow256(1);
  }

  lemma SealedKeypair(env: Env, nonce: seq<Byte>, key: int)
    requires ValidEnv(env) && |nonce| == 24 && IsKey(env.g, key)
    ensures SealedAs(env, Some(Seal(env, nonce, KeypairBytes(key))), KeypairBytes(key))
  {
    ShortText(32);
    OpenInvertsSeal(env, nonce, KeypairBytes(key));
  }

  /** A row that is present in a coherent table, found through a query. */
  lemma CoherentFirst(env: Env, t: Table, id: string, onNull: Response)
    requires ValidEnv(env) && Coherent(env, t) && First(t, id).Some?
    ensures RowCoherent(env, First(t, id).value)
    ensures |Rows(t, id)| == 1
    ensures forall i :: 0 <= i < |t| && t[i].id == id ==> t[i] == First(t, id).value
    ensures StoredKey(env, LoadKeyData(t, id, false), onNull) == (First(t, id).value.publicKey, None)
  {
    RowsOfUnique(t, id);
    var r := First(t, id).value;
    var i :| 0 <= i < |t| && t[i] == r;
    LoadKeypairInverts(env.g, r.publicKey);
  }

  lemma {:induction false} RowsOfUnique(t: Table, id: string)
    requires forall i, j :: 0 <= i < j < |t| ==> t[i].id != t[j].id
    ensures |Rows(t, id)| == if First(t, id).Some? then 1 else 0
  {
    if t != [] {
      assert forall i :: 0 < i < |t| ==> t[1..][i - 1] == t[i];
      RowsOfUnique(t[1..], id);
      assert t[0].id == id ==> First(t[1..], id).None?;
    }
  }

  lemma {:induction false} DeleteRowsKeepsOrder(t: Table, id: string) returns (at: seq<int>)
    ensures |at| == |DeleteRows(t, id)|
    ensures forall k :: 0 <= k < |at| ==> 0 <= at[k] < |t| && DeleteRows(t, id)[k] == t[at[k]]
    ensures forall k, l :: 0 <= k < l < |at| ==> at[k] < at[l]
  {
    if t == [] {
      at := [];
    } else {
      var rest := DeleteRowsKeepsOrder(t[1..], id);
      var moved := seq(|rest|, k requires 0 <= k < |rest| => rest[k] + 1);
      at := if t[0].id == id then moved else [0] + moved;
    }
  }

  /** One handler keeps the table coherent, provided a registration uses a free statechain id. */
  lemma HandleKeepsCoherence(env: Env, t: Table, c: Call)
    requires ValidEnv(env) && Coherent(env, t) && ValidCall(env.g, c)
    requires c.NewKey? ==> First(t, c.id).None?
    ensures Coherent(env, Handle(env, t, c).0)
  {
    match c
    case NewKey(_, _, _) => NewKeyCase(env, t, c);
    case NewNonce(_, _, _, _) => NewNonceCase(env, t, c);
    case Sign(_, _, _) => SignCase(env, t, c);
    case Update(_, _, _, _) => UpdateCase(env, t, c);
    case Count(_) =>
    case Delete(id) => EraseKeepsCoherence(env, t, id);
  }

  lemma NewKeyCase(env: Env, t: Table, c: Call)
    requires ValidEnv(env) && Coherent(env, t) && ValidCall(env.g, c)
    requires c.NewKey? && First(t, c.id).None?
    ensures Coherent(env, Handle(env, t, c).0)
  {
    var s := Decide(env, t, c).0;
    if s.Insert? { InsertKeepsCoherence(env, t, c.id, s.row.publicKey, c.nonce); }
  }

  lemma NewNonceCase(env: Env, t: Table, c: Call)
    requires ValidEnv(env) && Coherent(env, t) && ValidCall(env.g, c) && c.NewNonce?
    ensures Coherent(env, Handle(env, t, c).0)
  {
    var s := Decide(env, t, c).0;
    if s.Change? { NonceKeepsCoherence(env, t, c.id, c.k1, c.k2, c.nonce); }
  }

  lemma SignCase(env: Env, t: Table, c: Call)
    requires ValidEnv(env) && Coherent(env, t) && c.Sign?
    ensures Coherent(env, Handle(env, t, c).0)
  {
    var s := Decide(env, t, c).0;
    if s.Change? { CountKeepsCoherence(env, t, c.id); }
  }

  /** What an update writes, if anything. */
  lemma UpdateShape(env: Env, t: Table, c: Call)
    requires ValidGroup(env.g) && c.Update?
    ensures var s := Decide(env, t, c).0;
            s.Nothing? || (&& s.Change? && s.change.SetKeypair? && IsKey(env.g, s.change.publicKey)
                           && s.change == SetKeypair(Seal(env, c.nonce, KeypairBytes(s.change.publicKey)), s.change.publicKey)
                           && !KeyTakenByOther(t, c.id, s.change.publicKey))
  {
  }

  lemma UpdateCase(env: Env, t: Table, c: Call)
    requires ValidEnv(env) && Coherent(env, t) && ValidCall(env.g, c) && c.Update?
    ensures Coherent(env, Handle(env, t, c).0)
  {
    UpdateShape(env, t, c);
    var s := Decide(env, t, c).0;
    if s.Change? { KeypairKeepsCoherence(env, t, c.id, s.change.publicKey, c.nonce); }
  }

  lemma InsertKeepsCoherence(env: Env, t: Table, id: string, key: int, nonce: seq<Byte>)
    requires ValidEnv(env) && Coherent(env, t) && |nonce| == 24 && First(t, id).None?
    requires IsKey(env.g, key) && !KeyTaken(t, key)
    ensures Coherent(env, t + [Row(id, Some(Seal(env, nonce, KeypairBytes(key))), None, None, key, 0)])
  {
    SealedKeypair(env, nonce, key);
  }

  lemma EraseKeepsCoherence(env: Env, t: Table, id: string)
    requires Coherent(env, t)
    ensures Coherent(env, DeleteRows(t, id))
  {
    var at := DeleteRowsKeepsOrder(t, id);
  }

  lemma CountKeepsCoherence(env: Env, t: Table, id: string)
    requires Coherent(env, t)
    ensures Coherent(env, UpdateRows(t, id, CountSignature))
  {
    var t' := UpdateRows(t, id, CountSignature);
    forall i | 0 <= i < |t'| ensures RowCoherent(env, t'[i]) {
      if t[i].publicNonce.Some? {
        var k1, k2 :| HoldsNonce(env, t[i], k1, k2);
        assert HoldsNonce(env, t'[i], k1, k2);
      }
    }
  }

  lemma NonceKeepsCoherence(env: Env, t: Table, id: string, k1: nat, k2: nat, nonce: seq<Byte>)
    requires ValidEnv(env) && Coherent(env, t) && First(t, id).Some?
    requires |nonce| == 24 && IsScalar(env.g, k1) && IsScalar(env.g, k2)
    ensures var text := SecNonceBytes(BlindSign.SecNonce(k1, k2, StoredKey(env, LoadKeyData(t, id, false), Aborted).0));
            Coherent(env, UpdateRows(t, id, SetNonce(Seal(env, nonce, text), PubNonceBytes(k1, k2))))
  {
    CoherentFirst(env, t, id, Aborted);
    var key := First(t, id).value.publicKey;
    var text := SecNonceBytes(BlindSign.SecNonce(k1, k2, key));
    ShortText(96);
    OpenInvertsSeal(env, nonce, text);
    var t' := UpdateRows(t, id, SetNonce(Seal(env, nonce, text), PubNonceBytes(k1, k2)));
    forall i | 0 <= i < |t'| ensures RowCoherent(env, t'[i]) {
      if t[i].id == id { assert HoldsNonce(env, t'[i], k1, k2); }
    }
  }

  lemma KeypairKeepsCoherence(env: Env, t: Table, id: string, key: int, nonce: seq<Byte>)
    requires ValidEnv(env) && Coherent(env, t) && |nonce| == 24
    requires IsKey(env.g, key) && !KeyTakenByOther(t, id, key)
    ensures Coherent(env, UpdateRows(t, id, SetKeypair(Seal(env, nonce, KeypairBytes(key)), key)))
  {
    SealedKeypair(env, nonce, key);
    var t' := UpdateRows(t, id, SetKeypair(Seal(env, nonce, KeypairBytes(key)), key));
    forall i | 0 <= i < |t'| ensures RowCoherent(env, t'[i]) {
    }
    forall i, j | 0 <= i < j < |t'| ensures t'[i].id != t'[j].id && t'[i].publicKey != t'[j].publicKey {
      assert t[i].id != t[j].id && t[i].publicKey != t[j].publicKey;
    }
  }

  // ----- traces ---------------------------------------------------------------------------

  /** A run written down: the calls, the tables before, between and after them, the answers. */
  datatype Trace = Trace(calls: seq<Call>, tables: seq<Table>, answers: seq<Response>)

  ghost predicate StepAt(env: Env, tr: Trace, n: nat)
    requires ValidGroup(env.g)
  {
    && n < |tr.calls| && |tr.tables| == |tr.calls| + 1 && |tr.answers| == |tr.calls|
    && (tr.tables[n + 1], tr.answers[n]) == Handle(env, tr.tables[n], tr.calls[n])
  }

  ghost predicate IsTrace(env: Env, tr: Trace)
    requires ValidGroup(env.g)
  {
    && |tr.tables| == |tr.calls| + 1 && |tr.answers| == |tr.calls| && tr.tables[0] == []
    && forall n :: 0 <= n < |tr.calls| ==> StepAt(env, tr, n)
  }

  /** The tables of a trace are those of the run, and its answers the run's. */
  lemma {:induction false} TraceIsRun(env: Env, tr: Trace, n: nat)
    requires ValidGroup(env.g) && IsTrace(env, tr) && n <= |tr.calls|
    ensures tr.tables[n] == Run(env, tr.calls[..n])
    ensures n < |tr.calls| ==> tr.answers[n] == ResponseAt(env, tr.calls, n)
  {
    if n > 0 {
      TraceIsRun(env, tr, n - 1);
      assert StepAt(env, tr, n - 1);
      RunStep(env, tr.calls, n - 1);
    }
    if n < |tr.calls| { assert StepAt(env, tr, n); }
  }

  lemma ExtendTrace(env: Env, tr: Trace, c: Call, t: Table, r: Response)
    requires ValidGroup(env.g) && IsTrace(env, tr) && (t, r) == Handle(env, tr.tables[|tr.calls|], c)
    ensures IsTrace(env, Trace(tr.calls + [c], tr.tables + [t], tr.answers + [r]))
  {
    var tr' := Trace(tr.calls + [c], tr.tables + [t], tr.answers + [r]);
    forall n | 0 <= n < |tr'.calls| ensures StepAt(env, tr', n) {
      if n < |tr.calls| { assert StepAt(env, tr, n); }
    }
  }

  /** Every sequence of calls has its trace. */
  lemma {:induction false} TraceExists(env: Env, calls: seq<Call>) returns (tr: Trace)
    requires ValidGroup(env.g)
    ensures IsTrace(env, tr) && tr.calls == calls
  {
    if calls == [] {
      tr := Trace([], [[]], []);
    } else {
      var m := |calls| - 1;
      var before := TraceExists(env, calls[..m]);
      var (t, r) := Handle(env, before.tables[m], calls[m]);
      ExtendTrace(env, before, calls[m], t, r);
      assert calls[..m] + [calls[m]] == calls;
      tr := Trace(calls, before.tables + [t], before.answers + [r]);
    }
  }

  /** Every registration finds its statechain id free, and draws have the sizes the libraries give. */
  ghost predicate Regular(env: Env, tr: Trace)
    requires ValidGroup(env.g) && IsTrace(env, tr)
  {
    forall n :: 0 <= n < |tr.calls| ==>
      ValidCall(env.g, tr.calls[n]) && (tr.calls[n].NewKey? ==> First(tr.tables[n], tr.calls[n].id).None?)
  }

  lemma CoherentStep(env: Env, tr: Trace, n: nat)
    requires ValidEnv(env) && IsTrace(env, tr) && Regular(env, tr) && n < |tr.calls| && Coherent(env, tr.tables[n])
    ensures Coherent(env, tr.tables[n + 1])
  {
    assert StepAt(env, tr, n);
    HandleKeepsCoherence(env, tr.tables[n], tr.calls[n]);
  }

  /** Every state of every such run is coherent. */
  lemma {:induction false} RunsAreCoherent(env: Env, tr: Trace, n: nat)
    requires ValidEnv(env) && IsTrace(env, tr) && Regular(env, tr) && n <= |tr.calls|
    ensures Coherent(env, tr.tables[n])
  {
    if n > 0 {
      RunsAreCoherent(env, tr, n - 1);
      CoherentStep(env, tr, n - 1);
    }
  }

  // ----- what coherence gives the handlers ------------------------------------------------

  /** A nonce request for a registered statechain never fails. */
  lemma NonceAlwaysServed(env: Env, t: Table, id: string, k1: nat, k2: nat, nonce: seq<Byte>)
    requires ValidEnv(env) && Coherent(env, t)
    ensures Handle(env, t, NewNonce(id, k1, k2, nonce)).1
            == if First(t, id).Some? then PublicNonce(PubNonceBytes(k1, k2)) else Rejected(500)
  {
    if First(t, id).Some? { CoherentFirst(env, t, id, Aborted); }
  }

  /**
   * A signature request is refused for want of a nonce, or for a full counter, or else answered
   * with the half signature of the stored key and of the nonce drawn under that very key.
   */
  lemma SignUsesMatchingNonce(env: Env, t: Table, id: string, negate: int, session: string)
    requires ValidEnv(env) && Coherent(env, t) && First(t, id).Some?
    requires |Hex.HexBytes(Hex.StripPrefix(session))| == 133
    requires env.loadSession(Hex.HexBytes(Hex.StripPrefix(session))).Some?
    ensures var r := First(t, id).value;
            var ses := env.loadSession(Hex.HexBytes(Hex.StripPrefix(session))).value;
            var response := Handle(env, t, Sign(id, negate, session)).1;
            && (r.publicNonce.None? ==> response == Rejected(400))
            && (r.publicNonce.Some? && r.sigCount >= MAX_COUNT ==> response == Rejected(500))
            && (r.publicNonce.Some? && r.sigCount < MAX_COUNT ==>
                  exists k1, k2 :: HoldsNonce(env, r, k1, k2) && IsSignatureOf(env.g, response, k1, k2, r.publicKey, ses, negate))
  {
    CoherentFirst(env, t, id, Aborted);
    var r := First(t, id).value;
    if r.publicNonce.Some? {
      var k1, k2 :| HoldsNonce(env, r, k1, k2);
      SignAnswer(env, t, id, negate, session, k1, k2);
    } else {
      LoadedRow(env, t, id);
    }
  }

  lemma ExhaustedRow(env: Env, t: Table, id: string)
    requires ValidEnv(env) && Coherent(env, t) && First(t, id).Some?
    ensures CountExhausted(t, id) <==> First(t, id).value.sigCount >= MAX_COUNT
  {
    CoherentFirst(env, t, id, Aborted);
    assert First(t, id).value in t;
  }

  /** The answer to a signature request, from the nonce in the row. */
  lemma SignAnswer(env: Env, t: Table, id: string, negate: int, session: string, k1: int, k2: int)
    requires ValidEnv(env) && Coherent(env, t) && First(t, id).Some? && HoldsNonce(env, First(t, id).value, k1, k2)
    requires |Hex.HexBytes(Hex.StripPrefix(session))| == 133
    requires env.loadSession(Hex.HexBytes(Hex.StripPrefix(session))).Some?
    ensures var r, response := First(t, id).value, Handle(env, t, Sign(id, negate, session)).1;
            if r.sigCount >= MAX_COUNT then response == Rejected(500)
            else IsSignatureOf(env.g, response, k1, k2, r.publicKey, env.loadSession(Hex.HexBytes(Hex.StripPrefix(session))).value, negate)
  {
    var r, bytes := First(t, id).value, Hex.HexBytes(Hex.StripPrefix(session));
    LoadedRow(env, t, id);
    ExhaustedRow(env, t, id);
    assert RowCoherent(env, r) by { CoherentFirst(env, t, id, Aborted); }
    EnclaveSignsWithStored(env, r, k1, k2, negate, bytes);
    var l := LoadKeyData(t, id, true);
    SignDecides(env, t, id, negate, session, EnclaveSign(env, l.keypair.value, l.secnonce.value, negate, bytes));
  }

  lemma SignDecides(env: Env, t: Table, id: string, negate: int, session: string, signed: Response)
    requires ValidGroup(env.g) && |Hex.HexBytes(Hex.StripPrefix(session))| == 133 && signed.PartialSig?
    requires var l := LoadKeyData(t, id, true);
             l.Loaded? && l.keypair.Some? && l.secnonce.Some? &&
             EnclaveSign(env, l.keypair.value, l.secnonce.value, negate, Hex.HexBytes(Hex.StripPrefix(session))) == signed
    ensures Handle(env, t, Sign(id, negate, session)).1 == if CountExhausted(t, id) then Rejected(500) else signed
  {
  }

  lemma LoadedRow(env: Env, t: Table, id: string)
    requires ValidEnv(env) && Coherent(env, t) && First(t, id).Some?
    ensures var r, l := First(t, id).value, LoadKeyData(t, id, true);
            && l.Loaded? && r.sealedKeypair.Some? && l.keypair == Deserialized(r.sealedKeypair.value) && l.keypair.Some?
            && (r.publicNonce.None? ==> l.secnonce.None?)
            && (r.publicNonce.Some? ==> r.sealedSecnonce.Some? && l.secnonce == Deserialized(r.sealedSecnonce.value) && l.secnonce.Some?)
  {
    CoherentFirst(env, t, id, Aborted);
  }

  lemma EnclaveSignsWithStored(env: Env, r: Row, k1: int, k2: int, negate: int, session: seq<Byte>)
    requires ValidEnv(env) && RowCoherent(env, r) && HoldsNonce(env, r, k1, k2) && env.loadSession(session).Some?
    ensures IsSignatureOf(env.g, EnclaveSign(env, Deserialized(r.sealedKeypair.value).value,
                                             Deserialized(r.sealedSecnonce.value).value, negate, session),
                          k1, k2, r.publicKey, env.loadSession(session).value, negate)
  {
    LoadKeypairInverts(env.g, r.publicKey);
    LoadSecNonceInverts(env.g, BlindSign.SecNonce(k1, k2, r.publicKey));
  }

  /** The response is the half signature of `key` with the nonce pair (k1, k2) drawn for it. */
  predicate IsSignatureOf(g: Group, r: Response, k1: int, k2: int, key: int, session: BlindSign.Session, negate: int)
  {
    && g.n > 0
    && r.PartialSig?
    && BlindSign.PartialSign(g, BlindSign.SecNonce(k1, k2, key), key, session, negate % 0x1_0000_0000 != 0) == Some(r.sig)
  }

  /** A key update on a registered statechain only ever stops on one of the enclave's own checks. */
  lemma UpdateExactly(env: Env, t: Table, id: string, t2: string, x1: string, nonce: seq<Byte>)
    requires ValidEnv(env) && Coherent(env, t) && First(t, id).Some?
    requires |Hex.HexBytes(Hex.StripPrefix(t2))| == 32 && |Hex.HexBytes(Hex.StripPrefix(x1))| == 32
    ensures var share := KeyShares.UpdatedShare(env.g, First(t, id).value.publicKey,
                           FromBigEndian(Hex.HexBytes(Hex.StripPrefix(x1))), FromBigEndian(Hex.HexBytes(Hex.StripPrefix(t2))));
            Handle(env, t, Update(id, t2, x1, nonce)).1
            == if share.None? then Aborted
               else if KeyTakenByOther(t, id, share.value) then Rejected(500)
               else PublicKey(share.value)
  {
    UpdateComputed(env, t, id, t2, x1, nonce);
    CoherentFirst(env, t, id, Rejected(400));
  }

  /** What an update on a registered statechain computes. */
  lemma UpdateComputed(env: Env, t: Table, id: string, t2: string, x1: string, nonce: seq<Byte>)
    requires ValidEnv(env) && Coherent(env, t) && First(t, id).Some?
    requires |Hex.HexBytes(Hex.StripPrefix(t2))| == 32 && |Hex.HexBytes(Hex.StripPrefix(x1))| == 32
    ensures var share := KeyShares.UpdatedShare(env.g, First(t, id).value.publicKey,
                           FromBigEndian(Hex.HexBytes(Hex.StripPrefix(x1))), FromBigEndian(Hex.HexBytes(Hex.StripPrefix(t2))));
            Computed(env, Update(id, t2, x1, nonce), LoadKeyData(t, id, false)) ==
            if share.None? then (Nothing, Aborted)
            else (Change(SetKeypair(Seal(env, nonce, KeypairBytes(share.value)), share.value)), PublicKey(share.value))
  {
    CoherentFirst(env, t, id, Rejected(400));
  }

  lemma {:induction false} FirstAfterUpdate(t: Table, id: string, c: Change)
    ensures First(UpdateRows(t, id, c), id) == if First(t, id).None? then None else Some(Apply(c, First(t, id).value))
  {
    if t != [] {
      UpdateTail(t, id, c);
      FirstAfterUpdate(t[1..], id, c);
    }
  }

  lemma UpdateTail(t: Table, id: string, c: Change)
    requires t != []
    ensures UpdateRows(t, id, c)[1..] == UpdateRows(t[1..], id, c)
  {
    var u, v := UpdateRows(t, id, c)[1..], UpdateRows(t[1..], id, c);
    forall i | 0 <= i < |u| ensures u[i] == v[i] {
      assert t[1..][i] == t[i + 1];
    }
  }

  /** The text passes a route's length check for scalars and stands for `v`. */
  predicate Carries(hex: string, v: int)
  {
    |Hex.HexBytes(Hex.StripPrefix(hex))| == 32 && FromBigEndian(Hex.HexBytes(Hex.StripPrefix(hex))) == v
  }

  /**
   * The lockbox carries out a transfer: fed with the receiver's t2 and the stored x1 in
   * hexadecimal, it replaces the share by one that completes the new owner's to the same joint
   * key, and forgets the nonce.
   */
  lemma UpdateCarriesOutTransfer(env: Env, t: Table, id: string, owner: int, newOwner: int, x1: int, t2: int,
                                 t2Hex: string, x1Hex: string, nonce: seq<Byte>)
    requires ValidEnv(env) && Coherent(env, t) && First(t, id).Some?
    requires IsKey(env.g, owner) && IsKey(env.g, newOwner) && IsKey(env.g, x1)
    requires var server := First(t, id).value.publicKey;
             && KeyShares.Transfer(env.g, server, owner, newOwner, x1).Some?
             && !KeyTakenByOther(t, id, KeyShares.Transfer(env.g, server, owner, newOwner, x1).value)
    requires KeyShares.TransferMessage(env.g, owner, newOwner, x1) == Some(t2)
    requires Carries(t2Hex, t2) && Carries(x1Hex, x1)
    ensures var r, r' := First(t, id).value, First(Handle(env, t, Update(id, t2Hex, x1Hex, nonce)).0, id);
            && r'.Some?
            && Add(env.g, r'.value.publicKey, newOwner) == Add(env.g, r.publicKey, owner)
            && r'.value.publicNonce.None? && r'.value.sealedSecnonce.None?
            && r'.value.sigCount == r.sigCount
  {
    var g, server := env.g, First(t, id).value.publicKey;
    var share := KeyShares.Transfer(g, server, owner, newOwner, x1).value;
    TransferIsUpdate(g, server, owner, newOwner, x1, t2);
    UpdateStores(env, t, id, t2Hex, x1Hex, nonce, share);
    OneTransferConserves(g, server, owner, newOwner, x1);
  }

  lemma TransferIsUpdate(g: Group, server: int, owner: int, newOwner: int, x1: int, t2: int)
    requires g.n > 0 && KeyShares.TransferMessage(g, owner, newOwner, x1) == Some(t2)
    ensures KeyShares.UpdatedShare(g, server, x1, t2) == KeyShares.Transfer(g, server, owner, newOwner, x1)
  {
  }

  lemma UpdateDecided(env: Env, t: Table, id: string, t2Hex: string, x1Hex: string, nonce: seq<Byte>, share: int)
    requires ValidEnv(env) && Coherent(env, t) && First(t, id).Some?
    requires |Hex.HexBytes(Hex.StripPrefix(t2Hex))| == 32 && |Hex.HexBytes(Hex.StripPrefix(x1Hex))| == 32
    requires KeyShares.UpdatedShare(env.g, First(t, id).value.publicKey, FromBigEndian(Hex.HexBytes(Hex.StripPrefix(x1Hex))),
                                    FromBigEndian(Hex.HexBytes(Hex.StripPrefix(t2Hex)))) == Some(share)
    requires !KeyTakenByOther(t, id, share)
    ensures Decide(env, t, Update(id, t2Hex, x1Hex, nonce))
            == (Change(SetKeypair(Seal(env, nonce, KeypairBytes(share)), share)), PublicKey(share))
  {
    UpdateComputed(env, t, id, t2Hex, x1Hex, nonce);
    CoherentFirst(env, t, id, Rejected(400));
  }

  lemma UpdateStores(env: Env, t: Table, id: string, t2Hex: string, x1Hex: string, nonce: seq<Byte>, share: int)
    requires ValidEnv(env) && Coherent(env, t) && First(t, id).Some?
    requires |Hex.HexBytes(Hex.StripPrefix(t2Hex))| == 32 && |Hex.HexBytes(Hex.StripPrefix(x1Hex))| == 32
    requires KeyShares.UpdatedShare(env.g, First(t, id).value.publicKey, FromBigEndian(Hex.HexBytes(Hex.StripPrefix(x1Hex))),
                                    FromBigEndian(Hex.HexBytes(Hex.StripPrefix(t2Hex)))) == Some(share)
    requires !KeyTakenByOther(t, id, share)
    ensures First(Handle(env, t, Update(id, t2Hex, x1Hex, nonce)).0, id)
            == Some(Apply(SetKeypair(Seal(env, nonce, KeypairBytes(share)), share), First(t, id).value))
  {
    UpdateDecided(env, t, id, t2Hex, x1Hex, nonce, share);
    FirstAfterUpdate(t, id, SetKeypair(Seal(env, nonce, KeypairBytes(share)), share));
  }

  /** A scalar printed by a client arrives at the lockbox unchanged. */
  lemma ScalarRoute(v: nat)
    requires v < Pow256(32)
    ensures Carries(Hex.PrintHex(ToBigEndian(v, 32)), v)
    ensures Carries("0x" + Hex.PrintHex(ToBigEndian(v, 32)), v)
  {
    Hex.RoutesReadPrinters(ToBigEndian(v, 32));
    BigEndianRoundTrip(v, 32);
  }

  lemma OneTransferConserves(g: Group, server: int, owner: int, newOwner: int, x1: int)
    requires ValidGroup(g) && IsKey(g, server) && IsKey(g, owner) && IsKey(g, newOwner) && IsKey(g, x1)
    requires KeyShares.Transfer(g, server, owner, newOwner, x1).Some?
    ensures Add(g, KeyShares.Transfer(g, server, owner, newOwner, x1).value, newOwner) == Add(g, server, owner)
  {
    var h, deposit := [KeyShares.Handover(newOwner, x1)], KeyShares.Shares(server, owner);
    assert h[1..] == [];
    assert KeyShares.RunTransfers(g, deposit, h) == Some(KeyShares.Shares(KeyShares.Transfer(g, server, owner, newOwner, x1).value, newOwner));
    KeyShares.JointKeyConserved(g, deposit, h);
  }

  // ----- nonces and key updates in a trace ------------------------------------------------

  predicate NoNonce(t: Table, id: string) { forall i :: 0 <= i < |t| && t[i].id == id ==> t[i].sealedSecnonce.None? }

  predicate Updated(tr: Trace, i: int, id: string)
  {
    0 <= i < |tr.calls| && i < |tr.answers| && tr.calls[i].Update? && tr.calls[i].id == id && tr.answers[i].PublicKey?
  }

  predicate Nonced(tr: Trace, i: int, id: string)
  {
    0 <= i < |tr.calls| && i < |tr.answers| && tr.calls[i].NewNonce? && tr.calls[i].id == id && tr.answers[i].PublicNonce?
  }

  predicate Signed(tr: Trace, i: int, id: string)
  {
    0 <= i < |tr.calls| && i < |tr.answers| && tr.calls[i].Sign? && tr.calls[i].id == id && tr.answers[i].PartialSig?
  }

  lemma HandleKeepsNoNonce(env: Env, t: Table, c: Call, id: string)
    requires ValidGroup(env.g)
    requires NoNonce(t, id) && !(c.NewNonce? && c.id == id && Handle(env, t, c).1.PublicNonce?)
    ensures NoNonce(Handle(env, t, c).0, id)
  {
    var s := Decide(env, t, c).0;
    assert s.Change? && s.change.SetNonce? ==> c.NewNonce? && Handle(env, t, c).1.PublicNonce?;
    match s
    case Nothing =>
    case Insert(row) => assert row.sealedSecnonce.None?;
    case Change(_) =>
    case Erase => var at := DeleteRowsKeepsOrder(t, c.id);
  }

  lemma UpdateClearsNonces(env: Env, t: Table, c: Call)
    requires ValidGroup(env.g) && c.Update? && Handle(env, t, c).1.PublicKey?
    ensures NoNonce(Handle(env, t, c).0, c.id)
  {
    var s := Decide(env, t, c).0;
    assert s.Change? && s.change.SetKeypair?;
    SetKeypairClears(t, c.id, s.change.keypair, s.change.publicKey);
  }

  lemma SetKeypairClears(t: Table, id: string, keypair: seq<Byte>, key: int)
    ensures NoNonce(UpdateRows(t, id, SetKeypair(keypair, key)), id)
  {
  }

  lemma SignatureNeedsNonce(env: Env, t: Table, c: Call)
    requires ValidGroup(env.g) && c.Sign? && Handle(env, t, c).1.PartialSig?
    ensures !NoNonce(t, c.id)
  {
    assert LoadKeyData(t, c.id, true).Loaded? && LoadKeyData(t, c.id, true).secnonce.Some?;
    assert First(t, c.id).value.sealedSecnonce.Some?;
  }

  lemma NoNonceStep(env: Env, tr: Trace, n: nat, id: string)
    requires ValidGroup(env.g) && IsTrace(env, tr) && n < |tr.calls| && NoNonce(tr.tables[n], id) && !Nonced(tr, n, id)
    ensures NoNonce(tr.tables[n + 1], id)
  {
    assert StepAt(env, tr, n);
    HandleKeepsNoNonce(env, tr.tables[n], tr.calls[n], id);
  }

  lemma UpdatedStep(env: Env, tr: Trace, n: nat, id: string)
    requires ValidGroup(env.g) && IsTrace(env, tr) && Updated(tr, n, id)
    ensures NoNonce(tr.tables[n + 1], id)
  {
    assert StepAt(env, tr, n);
    UpdateClearsNonces(env, tr.tables[n], tr.calls[n]);
  }

  lemma SignedStep(env: Env, tr: Trace, n: nat, id: string)
    requires ValidGroup(env.g) && IsTrace(env, tr) && Signed(tr, n, id)
    ensures !NoNonce(tr.tables[n], id)
  {
    assert StepAt(env, tr, n);
    SignatureNeedsNonce(env, tr.tables[n], tr.calls[n]);
  }

  /** After an update the nonce columns stay empty until a nonce request succeeds. */
  lemma {:induction false} NoNonceUntilRequested(env: Env, tr: Trace, i: nat, m: nat, id: string) returns (k: nat)
    requires ValidGroup(env.g) && IsTrace(env, tr) && i < m <= |tr.calls| && NoNonce(tr.tables[i + 1], id)
    ensures i < k <= m && (k < m ==> Nonced(tr, k, id)) && (k == m ==> NoNonce(tr.tables[m], id))
    decreases m
  {
    if m == i + 1 {
      k := m;
    } else {
      k := NoNonceUntilRequested(env, tr, i, m - 1, id);
      if k == m - 1 && !Nonced(tr, k, id) {
        NoNonceStep(env, tr, k, id);
        k := m;
      }
    }
  }

  /**
   * Between a successful key update and a later partial signature on the same statechain there
   * is a successful nonce request. This needs no assumption on the run at all.
   */
  lemma NonceBetweenUpdateAndSignature(env: Env, tr: Trace, i: nat, j: nat, id: string) returns (k: nat)
    requires ValidGroup(env.g) && IsTrace(env, tr) && i < j && Updated(tr, i, id) && Signed(tr, j, id)
    ensures i < k < j && Nonced(tr, k, id)
  {
    UpdatedStep(env, tr, i, id);
    k := NoNonceUntilRequested(env, tr, i, j, id);
    SignedStep(env, tr, j, id);
  }

  // ----- which nonce a signature uses -----------------------------------------------------

  /** The call replaces the key, the nonce or the row of `id`. */
  predicate Resets(tr: Trace, i: int, id: string)
  {
    Nonced(tr, i, id) || Updated(tr, i, id) || (0 <= i < |tr.calls| && tr.calls[i] == Delete(id))
  }

  lemma NonceStored(env: Env, t: Table, id: string, k1: nat, k2: nat, nonce: seq<Byte>)
    requires ValidEnv(env) && Coherent(env, t) && ValidCall(env.g, NewNonce(id, k1, k2, nonce)) && First(t, id).Some?
    ensures First(Handle(env, t, NewNonce(id, k1, k2, nonce)).0, id).Some?
    ensures HoldsNonce(env, First(Handle(env, t, NewNonce(id, k1, k2, nonce)).0, id).value, k1, k2)
  {
    CoherentFirst(env, t, id, Aborted);
    var key := First(t, id).value.publicKey;
    var text := SecNonceBytes(BlindSign.SecNonce(k1, k2, key));
    ShortText(96);
    OpenInvertsSeal(env, nonce, text);
    FirstAfterUpdate(t, id, SetNonce(Seal(env, nonce, text), PubNonceBytes(k1, k2)));
  }

  lemma {:induction false} FirstAfterAppend(t: Table, r: Row, id: string)
    requires First(t, id).Some?
    ensures First(t + [r], id) == First(t, id)
  {
    assert (t + [r])[0] == t[0];
    if t[0].id != id {
      assert (t + [r])[1..] == t[1..] + [r];
      FirstAfterAppend(t[1..], r, id);
    }
  }

  lemma {:induction false} FirstAfterOthers(t: Table, own: string, s: Statement, id: string)
    requires own != id && First(t, id).Some? && (s.Insert? ==> s.row.id == own)
    ensures First(Perform(t, own, s), id) == First(t, id)
  {
    PerformIsLocal(t, own, s, id);
    FirstOfRows(t, id);
    FirstOfRows(Perform(t, own, s), id);
  }

  /** A handler that resets nothing leaves the nonce and the key of a row as they were. */
  lemma NonceKept(env: Env, t: Table, c: Call, id: string, k1: int, k2: int)
    requires ValidEnv(env) && Coherent(env, t) && First(t, id).Some? && HoldsNonce(env, First(t, id).value, k1, k2)
    requires c.id == id ==> !(c.NewNonce? && Handle(env, t, c).1.PublicNonce?) && !(c.Update? && Handle(env, t, c).1.PublicKey?) && !c.Delete?
    ensures First(Handle(env, t, c).0, id).Some? && HoldsNonce(env, First(Handle(env, t, c).0, id).value, k1, k2)
  {
    var s := Decide(env, t, c).0;
    if c.id != id {
      assert s.Insert? ==> s.row.id == c.id by { if s.Insert? { InsertedId(env, t, c); } }
      FirstAfterOthers(t, c.id, s, id);
    } else {
      QuietStatement(env, t, c);
      if s.Insert? { FirstAfterAppend(t, s.row, id); }
      FirstAfterUpdate(t, id, CountSignature);
    }
  }

  /** A call that resets nothing inserts a row, counts, or writes nothing. */
  lemma QuietStatement(env: Env, t: Table, c: Call)
    requires ValidGroup(env.g)
    requires !(c.NewNonce? && Handle(env, t, c).1.PublicNonce?) && !(c.Update? && Handle(env, t, c).1.PublicKey?) && !c.Delete?
    ensures var s := Decide(env, t, c).0; s.Nothing? || s.Insert? || s == Change(CountSignature)
  {
  }

  ghost predicate Held(env: Env, t: Table, id: string, k1: int, k2: int)
  {
    First(t, id).Some? && HoldsNonce(env, First(t, id).value, k1, k2)
  }

  lemma StoredAt(env: Env, tr: Trace, i: nat, id: string)
    requires ValidEnv(env) && IsTrace(env, tr) && Regular(env, tr) && Nonced(tr, i, id)
    ensures Held(env, tr.tables[i + 1], id, tr.calls[i].k1, tr.calls[i].k2)
  {
    var t, c := tr.tables[i], tr.calls[i];
    RunsAreCoherent(env, tr, i);
    assert StepAt(env, tr, i);
    NonceAlwaysServed(env, t, id, c.k1, c.k2, c.nonce);
    NonceStored(env, t, id, c.k1, c.k2, c.nonce);
  }

  lemma KeptAt(env: Env, tr: Trace, n: nat, id: string, k1: int, k2: int)
    requires ValidEnv(env) && IsTrace(env, tr) && Regular(env, tr) && n < |tr.calls|
    requires Held(env, tr.tables[n], id, k1, k2) && !Resets(tr, n, id)
    ensures Held(env, tr.tables[n + 1], id, k1, k2)
  {
    RunsAreCoherent(env, tr, n);
    assert StepAt(env, tr, n);
    NonceKept(env, tr.tables[n], tr.calls[n], id, k1, k2);
  }

  /** From a successful nonce request until the next reset the row holds the nonce drawn then. */
  lemma {:induction false} LatestNonceHeld(env: Env, tr: Trace, i: nat, j: nat, id: string)
    requires ValidEnv(env) && IsTrace(env, tr) && Regular(env, tr) && i < j <= |tr.calls|
    requires Nonced(tr, i, id) && forall n :: i < n < j ==> !Resets(tr, n, id)
    ensures Held(env, tr.tables[j], id, tr.calls[i].k1, tr.calls[i].k2)
    decreases j
  {
    if j == i + 1 {
      StoredAt(env, tr, i, id);
    } else {
      LatestNonceHeld(env, tr, i, j - 1, id);
      KeptAt(env, tr, j - 1, id, tr.calls[i].k1, tr.calls[i].k2);
    }
  }

  lemma DeletedStep(env: Env, tr: Trace, n: nat, id: string)
    requires ValidGroup(env.g) && IsTrace(env, tr) && n < |tr.calls| && tr.calls[n] == Delete(id)
    ensures NoNonce(tr.tables[n + 1], id)
  {
    assert StepAt(env, tr, n);
  }

  /** The nonce request that a row's nonce goes back to; -1 while there is none. */
  lemma {:induction false} LatestNonce(env: Env, tr: Trace, j: nat, id: string) returns (i: int)
    requires ValidGroup(env.g) && IsTrace(env, tr) && j <= |tr.calls|
    ensures -1 <= i < j
    ensures i == -1 ==> NoNonce(tr.tables[j], id)
    ensures i >= 0 ==> Nonced(tr, i, id) && forall n :: i < n < j ==> !Resets(tr, n, id)
    decreases j
  {
    if j == 0 {
      i := -1;
    } else {
      var n := j - 1;
      if Nonced(tr, n, id) {
        i := n;
      } else if Updated(tr, n, id) {
        UpdatedStep(env, tr, n, id);
        i := -1;
      } else if tr.calls[n] == Delete(id) {
        DeletedStep(env, tr, n, id);
        i := -1;
      } else {
        i := LatestNonce(env, tr, n, id);
        if i == -1 { NoNonceStep(env, tr, n, id); }
      }
    }
  }

  /** A well-formed signature request. */
  ghost predicate Signable(env: Env, session: string)
  {
    |Hex.HexBytes(Hex.StripPrefix(session))| == 133 && env.loadSession(Hex.HexBytes(Hex.StripPrefix(session))).Some?
  }

  lemma SignedIsSignable(env: Env, tr: Trace, j: nat, id: string)
    requires ValidGroup(env.g) && IsTrace(env, tr) && Signed(tr, j, id)
    ensures Signable(env, tr.calls[j].session)
  {
    assert StepAt(env, tr, j);
  }

  /**
   * Which nonce a signature uses: that of the latest successful nonce request, with no key update
   * and no deletion since.
   */
  lemma SignatureUsesLatestNonce(env: Env, tr: Trace, j: nat, id: string) returns (i: nat)
    requires ValidEnv(env) && IsTrace(env, tr) && Regular(env, tr) && Signed(tr, j, id)
    ensures i < j && Nonced(tr, i, id) && forall n :: i < n < j ==> !Resets(tr, n, id)
    ensures Signable(env, tr.calls[j].session) && First(tr.tables[j], id).Some?
    ensures IsSignatureOf(env.g, tr.answers[j], tr.calls[i].k1, tr.calls[i].k2, First(tr.tables[j], id).value.publicKey,
                          env.loadSession(Hex.HexBytes(Hex.StripPrefix(tr.calls[j].session))).value, tr.calls[j].negate)
  {
    SignedStep(env, tr, j, id);
    i := LatestNonce(env, tr, j, id);
    SignedIsSignable(env, tr, j, id);
    AnsweredFromNonce(env, tr, i, j, id);
  }

  /**
   * And every well-formed signature request up to the next reset is answered from it, as long as
   * the counter is not full.
   */
  lemma AnsweredFromNonce(env: Env, tr: Trace, i: nat, j: nat, id: string)
    requires ValidEnv(env) && IsTrace(env, tr) && Regular(env, tr) && i < j < |tr.calls|
    requires Nonced(tr, i, id) && forall n :: i < n < j ==> !Resets(tr, n, id)
    requires tr.calls[j].Sign? && tr.calls[j].id == id && Signable(env, tr.calls[j].session)
    ensures First(tr.tables[j], id).Some?
    ensures var row := First(tr.tables[j], id).value;
            if row.sigCount >= MAX_COUNT then tr.answers[j] == Rejected(500)
            else IsSignatureOf(env.g, tr.answers[j], tr.calls[i].k1, tr.calls[i].k2, row.publicKey,
                               env.loadSession(Hex.HexBytes(Hex.StripPrefix(tr.calls[j].session))).value, tr.calls[j].negate)
  {
    LatestNonceHeld(env, tr, i, j, id);
    RunsAreCoherent(env, tr, j);
    assert StepAt(env, tr, j);
    SignAnswer(env, tr.tables[j], id, tr.calls[j].negate, tr.calls[j].session, tr.calls[i].k1, tr.calls[i].k2);
  }

  // ----- isolation ------------------------------------------------------------------------

  /** The public key a statement writes. */
  function WrittenKey(s: Statement): Option<int>
  {
    match s
    case Insert(row) => Some(row.publicKey)
    case Change(SetKeypair(_, key)) => Some(key)
    case _ => None
  }

  /** The call would write a key that another statechain already uses. */
  predicate Collides(env: Env, t: Table, c: Call)
    requires ValidGroup(env.g)
  {
    var key := WrittenKey(Computed(env, c, LoadKeyData(t, c.id, WithNonce(c))).0);
    key.Some? && KeyTakenByOther(t, c.id, key.value)
  }

  lemma {:induction false} FirstOfRows(t: Table, id: string)
    ensures First(Rows(t, id), id) == First(t, id)
  {
    if t != [] { FirstOfRows(t[1..], id); }
  }

  lemma {:induction false} RowsOfRows(t: Table, id: string)
    ensures Rows(Rows(t, id), id) == Rows(t, id)
  {
    if t != [] {
      RowsOfRows(t[1..], id);
      if t[0].id == id { assert Rows(t, id)[1..] == Rows(t[1..], id); }
    }
  }

  lemma {:induction false} RowsOfAppend(t: Table, r: Row, id: string)
    ensures Rows(t + [r], id) == if r.id == id then Rows(t, id) + [r] else Rows(t, id)
  {
    if t == [] {
      assert t + [r] == [r];
      assert [r][1..] == [];
    } else {
      assert (t + [r])[1..] == t[1..] + [r];
      RowsOfAppend(t[1..], r, id);
    }
  }

  lemma {:induction false} RowsOfUpdate(t: Table, id: string, c: Change, other: string)
    ensures Rows(UpdateRows(t, id, c), other) == if other == id then UpdateRows(Rows(t, id), id, c) else Rows(t, other)
  {
    if t != [] {
      UpdateTail(t, id, c);
      UpdateFirst(Rows(t[1..], id), t[0], id, c);
      RowsOfUpdate(t[1..], id, c, other);
    }
  }

  lemma {:induction false} RowsOfDelete(t: Table, id: string, other: string)
    ensures Rows(DeleteRows(t, id), other) == if other == id then [] else Rows(t, other)
  {
    if t != [] {
      RowsOfDelete(t[1..], id, other);
      if t[0].id != id { assert DeleteRows(t, id)[1..] == DeleteRows(t[1..], id); }
    }
  }

  lemma {:induction false} DeleteAll(t: Table, id: string)
    requires forall i :: 0 <= i < |t| ==> t[i].id == id
    ensures DeleteRows(t, id) == []
  {
    if t != [] { DeleteAll(t[1..], id); }
  }

  lemma {:induction false} RowsMembers(t: Table, id: string)
    ensures forall r :: r in Rows(t, id) <==> r in t && r.id == id
  {
    if t != [] {
      RowsMembers(t[1..], id);
      assert t == [t[0]] + t[1..];
    }
  }

  lemma KeyTakenSplits(t: Table, id: string, key: int)
    ensures KeyTaken(t, key) <==> KeyTaken(Rows(t, id), key) || KeyTakenByOther(t, id, key)
    ensures !KeyTakenByOther(Rows(t, id), id, key)
  {
    RowsMembers(t, id);
    if KeyTaken(t, key) && !KeyTakenByOther(t, id, key) {
      var i :| 0 <= i < |t| && t[i].publicKey == key;
      assert t[i] in Rows(t, id);
    }
    if KeyTaken(Rows(t, id), key) {
      var i :| 0 <= i < |Rows(t, id)| && Rows(t, id)[i].publicKey == key;
      assert Rows(t, id)[i] in t;
    }
  }

  lemma ExhaustedIsLocal(t: Table, id: string)
    ensures CountExhausted(t, id) <==> CountExhausted(Rows(t, id), id)
  {
    RowsMembers(t, id);
    if CountExhausted(t, id) {
      var i :| 0 <= i < |t| && t[i].id == id && t[i].sigCount >= MAX_COUNT;
      assert t[i] in Rows(t, id);
    }
    if CountExhausted(Rows(t, id), id) {
      var i :| 0 <= i < |Rows(t, id)| && Rows(t, id)[i].id == id && Rows(t, id)[i].sigCount >= MAX_COUNT;
      assert Rows(t, id)[i] in t;
    }
  }

  lemma UpdateFirst(t: Table, r: Row, id: string, c: Change)
    ensures UpdateRows([r] + t, id, c) == [if r.id == id then Apply(c, r) else r] + UpdateRows(t, id, c)
  {
    var u, v := UpdateRows([r] + t, id, c), [if r.id == id then Apply(c, r) else r] + UpdateRows(t, id, c);
    forall i | 0 <= i < |u| ensures u[i] == v[i] {
      if i > 0 { assert ([r] + t)[i] == t[i - 1]; }
    }
  }

  lemma LoadIsLocal(t: Table, id: string, withNonce: bool)
    ensures LoadKeyData(Rows(t, id), id, withNonce) == LoadKeyData(t, id, withNonce)
  {
    FirstOfRows(t, id);
  }

  lemma AdmissibleIsLocal(t: Table, id: string, s: Statement)
    requires WrittenKey(s).Some? ==> !KeyTakenByOther(t, id, WrittenKey(s).value)
    ensures Admissible(Rows(t, id), id, s) == Admissible(t, id, s)
  {
    RowsOfRows(t, id);
    ExhaustedIsLocal(t, id);
    if WrittenKey(s).Some? { KeyTakenSplits(t, id, WrittenKey(s).value); }
  }

  /** A handler decides from the rows of its own statechain. */
  lemma DecideIsLocal(env: Env, t: Table, c: Call)
    requires ValidGroup(env.g) && !Collides(env, t, c)
    ensures Decide(env, Rows(t, c.id), c) == Decide(env, t, c)
  {
    if c.Count? {
      FirstOfRows(t, c.id);
    } else {
      LoadIsLocal(t, c.id, WithNonce(c));
      AdmissibleIsLocal(t, c.id, Computed(env, c, LoadKeyData(t, c.id, WithNonce(c))).0);
    }
  }

  lemma InsertedId(env: Env, t: Table, c: Call)
    requires ValidGroup(env.g) && Decide(env, t, c).0.Insert?
    ensures Decide(env, t, c).0.row.id == c.id
  {
    assert c.NewKey?;
  }

  /** A statement changes the rows of its own statechain only. */
  lemma PerformIsLocal(t: Table, id: string, s: Statement, other: string)
    requires s.Insert? ==> s.row.id == id
    ensures Rows(Perform(t, id, s), other) == if other == id then Perform(Rows(t, id), id, s) else Rows(t, other)
  {
    match s
    case Nothing =>
    case Insert(row) => RowsOfAppend(t, row, other);
    case Change(c) => RowsOfUpdate(t, id, c, other);
    case Erase =>
      RowsOfDelete(t, id, other);
      DeleteAll(Rows(t, id), id);
  }

  /** A handler sees and changes only the rows of its own statechain. */
  lemma HandleIsLocal(env: Env, t: Table, c: Call, other: string)
    requires ValidGroup(env.g) && !Collides(env, t, c)
    ensures Handle(env, Rows(t, c.id), c) == (Rows(Handle(env, t, c).0, c.id), Handle(env, t, c).1)
    ensures other != c.id ==> Rows(Handle(env, t, c).0, other) == Rows(t, other)
  {
    DecideIsLocal(env, t, c);
    if Decide(env, t, c).0.Insert? { InsertedId(env, t, c); }
    PerformIsLocal(t, c.id, Decide(env, t, c).0, c.id);
    PerformIsLocal(t, c.id, Decide(env, t, c).0, other);
  }

  function CallsOf(calls: seq<Call>, id: string): (r: seq<Call>)
  {
    if calls == [] then []
    else
      var n := |calls| - 1;
      if calls[n].id == id then CallsOf(calls[..n], id) + [calls[n]] else CallsOf(calls[..n], id)
  }

  ghost predicate NoCollisions(env: Env, calls: seq<Call>)
    requires ValidGroup(env.g)
  {
    forall i :: 0 <= i < |calls| ==> !Collides(env, Run(env, calls[..i]), calls[i])
  }

  lemma NoCollisionsBefore(env: Env, calls: seq<Call>, n: nat)
    requires ValidGroup(env.g) && NoCollisions(env, calls) && n <= |calls|
    ensures NoCollisions(env, calls[..n])
  {
    forall i | 0 <= i < n ensures !Collides(env, Run(env, calls[..n][..i]), calls[..n][i]) {
      assert calls[..n][..i] == calls[..i];
    }
  }

  lemma RunAppend(env: Env, calls: seq<Call>, c: Call)
    requires ValidGroup(env.g)
    ensures Run(env, calls + [c]) == Handle(env, Run(env, calls), c).0
  {
    assert (calls + [c])[..|calls|] == calls;
  }

  /** Each statechain's rows are what its own calls alone would have produced. */
  lemma {:induction false} RunsAreIsolated(env: Env, calls: seq<Call>, id: string)
    requires ValidGroup(env.g) && NoCollisions(env, calls)
    ensures Rows(Run(env, calls), id) == Run(env, CallsOf(calls, id))
    decreases |calls|
  {
    if calls != [] {
      var n := |calls| - 1;
      NoCollisionsBefore(env, calls, n);
      RunsAreIsolated(env, calls[..n], id);
      HandleIsLocal(env, Run(env, calls[..n]), calls[n], id);
      RunAppend(env, CallsOf(calls[..n], id), calls[n]);
    }
  }

  /** And so is every answer: the i-th call is answered as in a run of its own statechain. */
  lemma AnswersAreIsolated(env: Env, calls: seq<Call>, i: nat)
    requires ValidGroup(env.g) && NoCollisions(env, calls) && i < |calls|
    ensures ResponseAt(env, calls, i) == Handle(env, Run(env, CallsOf(calls[..i], calls[i].id)), calls[i]).1
  {
    NoCollisionsBefore(env, calls, i);
    RunsAreIsolated(env, calls[..i], calls[i].id);
    HandleIsLocal(env, Run(env, calls[..i]), calls[i], calls[i].id);
  }

  /** Handlers on different statechains commute, row order aside, and get the same answers. */
  lemma HandlersCommute(env: Env, t: Table, a: Call, b: Call, id: string)
    requires ValidGroup(env.g) && a.id != b.id
    requires !Collides(env, t, a) && !Collides(env, t, b)
    requires !Collides(env, Handle(env, t, a).0, b) && !Collides(env, Handle(env, t, b).0, a)
    ensures Rows(Handle(env, Handle(env, t, a).0, b).0, id) == Rows(Handle(env, Handle(env, t, b).0, a).0, id)
    ensures Handle(env, Handle(env, t, a).0, b).1 == Handle(env, t, b).1
    ensures Handle(env, Handle(env, t, b).0, a).1 == Handle(env, t, a).1
  {
    HandleIsLocal(env, t, a, b.id);
    HandleIsLocal(env, t, a, id);
    HandleIsLocal(env, t, b, a.id);
    HandleIsLocal(env, t, b, id);
    HandleIsLocal(env, Handle(env, t, a).0, b, a.id);
    HandleIsLocal(env, Handle(env, t, a).0, b, id);
    HandleIsLocal(env, Handle(env, t, b).0, a, b.id);
    HandleIsLocal(env, Handle(env, t, b).0, a, id);
  }
}

/** The server object: its table, the handlers as they change it step by step, and what a caller gets. */
module LockboxServer {
  import opened Bytes
  import opened Curve
  import opened Lockbox
  import opened LockboxRuns
  import opened RunCounts
  import Hex
  import KeyShares
  import BlindSign

  /** A call leaves every other statechain's rows alone, and a coherent table coherent. */
  ghost predicate Orderly(env: Env, before: Table, c: Call, after: Table)
    requires ValidGroup(env.g)
  {
    && (forall other :: other != c.id ==> Rows(after, other) == Rows(before, other))
    && (ValidEnv(env) && Coherent(env, before) && ValidCall(env.g, c) && (c.NewKey? ==> First(before, c.id).None?)
        ==> Coherent(env, after))
  }

  lemma HandleIsOrderly(env: Env, t: Table, c: Call)
    requires ValidGroup(env.g)
    ensures Orderly(env, t, c, Handle(env, t, c).0)
  {
    var s := Decide(env, t, c).0;
    forall other | other != c.id ensures Rows(Handle(env, t, c).0, other) == Rows(t, other) {
      if s.Insert? { InsertedId(env, t, c); }
      PerformIsLocal(t, c.id, s, other);
    }
    if ValidEnv(env) && Coherent(env, t) && ValidCall(env.g, c) && (c.NewKey? ==> First(t, c.id).None?) {
      HandleKeepsCoherence(env, t, c);
    }
  }

  /** The row has a new key that no other statechain has, no nonce, and the count it had. */
  ghost predicate Rekeyed(g: Group, before: Table, id: string, key: int, after: Table)
  {
    && First(before, id).Some? && First(after, id).Some? && NoNonce(after, id)
    && IsKey(g, key) && !KeyTakenByOther(before, id, key) && First(after, id).value.publicKey == key
    && First(after, id).value.sigCount == First(before, id).value.sigCount
  }

  /** The trace ends in this table. */
  ghost predicate LeadsTo(env: Env, tr: Trace, t: Table)
    requires ValidGroup(env.g)
  {
    IsTrace(env, tr) && tr.tables[|tr.calls|] == t
  }

  lemma CountFacts(env: Env, t: Table, id: string)
    requires ValidGroup(env.g)
    ensures CountAnswer(t, id) == if Rows(t, id) == [] then Unspecified else SigCount(Rows(t, id)[0].sigCount)
    ensures Rows(t, id) == [] <==> forall i :: 0 <= i < |t| ==> t[i].id != id
    ensures forall tr :: LeadsTo(env, tr, t) ==> CountAnswer(t, id) == Tally(tr, |tr.calls|, id)
  {
    FirstOfRows(t, id);
    forall tr | LeadsTo(env, tr, t) ensures CountAnswer(t, id) == Tally(tr, |tr.calls|, id) {
      CountAnswered(env, tr, |tr.calls|, id);
    }
    assert Rows(t, id) != [] ==> First(Rows(t, id), id) == Some(Rows(t, id)[0]);
  }

  class Server {
    const env: Env
    var table: Table

    constructor (env: Env)
      ensures this.env == env && table == []
    {
      this.env := env;
      table := [];
    }

    /** A fresh key and a row of its own that starts at zero, or nothing at all. */
    method GenerateNewKeypair(id: string, draws: seq<seq<Byte>>, nonce: seq<Byte>) returns (r: Response)
      requires ValidGroup(env.g)
      modifies this
      ensures (table, r) == Handle(env, old(table), NewKey(id, draws, nonce))
      ensures Orderly(env, old(table), NewKey(id, draws, nonce), table)
      ensures if r.PublicKey? then IsKey(env.g, r.key) && !KeyTaken(old(table), r.key) else r == Rejected(500) && table == old(table)
      ensures r.PublicKey? ==>
                exists row :: Rows(table, id) == Rows(old(table), id) + [row] && row.publicKey == r.key
                              && row.sigCount == 0 && row.sealedSecnonce.None? && row.publicNonce.None?
    {
      HandleIsOrderly(env, table, NewKey(id, draws, nonce));
      var i := 0;
      while i < |draws| && !IsKey(env.g, FromBigEndian(draws[i]))
        invariant 0 <= i <= |draws|
        invariant FirstKey(env.g, draws) == FirstKey(env.g, draws[i..])
      {
        assert draws[i..][1..] == draws[i + 1..];
        i := i + 1;
      }
      if i == |draws| { return Rejected(500); }
      var key := FromBigEndian(draws[i]);
      if KeyTaken(table, key) { return Rejected(500); }
      var row := Row(id, Some(Seal(env, nonce, KeypairBytes(key))), None, None, key, 0);
      RowsOfAppend(table, row, id);
      table := table + [row];
      return PublicKey(key);
    }

    /** For a registered statechain the row then holds the nonce, under the key and count it had. */
    method GeneratePublicNonce(id: string, k1: nat, k2: nat, nonce: seq<Byte>) returns (r: Response)
      requires ValidGroup(env.g)
      modifies this
      ensures (table, r) == Handle(env, old(table), NewNonce(id, k1, k2, nonce))
      ensures Orderly(env, old(table), NewNonce(id, k1, k2, nonce), table)
      ensures !r.PublicNonce? ==> table == old(table)
      ensures ValidEnv(env) && Coherent(env, old(table)) && ValidCall(env.g, NewNonce(id, k1, k2, nonce)) ==>
                if First(old(table), id).None? then r == Rejected(500)
                else && r == PublicNonce(PubNonceBytes(k1, k2)) && Held(env, table, id, k1, k2)
                     && First(table, id).value.publicKey == First(old(table), id).value.publicKey
                     && First(table, id).value.sigCount == First(old(table), id).value.sigCount
    {
      NonceFacts(env, table, id, k1, k2, nonce);
      var loaded := LoadKeyData(table, id, false);
      if !loaded.Loaded? { return Rejected(500); }
      assert loaded.secnonce.None?;  // the handler's own assertion
      if loaded.keypair.None? { return Aborted; }
      var text := Open(env, loaded.keypair.value);
      if text.None? { return Rejected(500); }
      var key := LoadKeypair(env.g, text.value);
      if key.None? { return Aborted; }
      var secnonce := Seal(env, nonce, SecNonceBytes(BlindSign.SecNonce(k1, k2, key.value)));
      table := UpdateRows(table, id, SetNonce(secnonce, PubNonceBytes(k1, k2)));
      return PublicNonce(PubNonceBytes(k1, k2));
    }

    /** A half signature adds one to the count and changes nothing else; a refusal changes nothing. */
    method GeneratePartialSignature(id: string, negate: int, sessionHex: string) returns (r: Response)
      requires ValidGroup(env.g)
      modifies this
      ensures (table, r) == Handle(env, old(table), Sign(id, negate, sessionHex))
      ensures Orderly(env, old(table), Sign(id, negate, sessionHex), table)
      ensures !r.PartialSig? ==> table == old(table)
      ensures r.PartialSig? ==>
                && First(old(table), id).Some? && First(old(table), id).value.sigCount < MAX_COUNT
                && First(table, id) == Some(Apply(CountSignature, First(old(table), id).value))
    {
      HandleIsOrderly(env, table, Sign(id, negate, sessionHex));
      FirstAfterUpdate(table, id, CountSignature);
      var session := Hex.ParseHex(Hex.StripPrefix(sessionHex));
      if |session| != 133 { return Rejected(400); }
      var loaded := LoadKeyData(table, id, true);
      if !loaded.Loaded? { return Rejected(500); }
      if loaded.keypair.None? || loaded.secnonce.None? { return Rejected(400); }
      r := EnclaveSign(env, loaded.keypair.value, loaded.secnonce.value, negate, session);
      if !r.PartialSig? { return; }
      if CountExhausted(table, id) { return Rejected(500); }
      assert First(table, id).value in table;
      table := UpdateRows(table, id, CountSignature);
    }

    /** A new public key clears the nonce and keeps the count; a refusal changes nothing. */
    method KeyUpdate(id: string, t2Hex: string, x1Hex: string, nonce: seq<Byte>) returns (r: Response)
      requires ValidGroup(env.g)
      modifies this
      ensures (table, r) == Handle(env, old(table), Update(id, t2Hex, x1Hex, nonce))
      ensures Orderly(env, old(table), Update(id, t2Hex, x1Hex, nonce), table)
      ensures if r.PublicKey? then Rekeyed(env.g, old(table), id, r.key, table) else table == old(table)
    {
      UpdateFacts(env, table, Update(id, t2Hex, x1Hex, nonce));
      var t2 := Hex.ParseHex(Hex.StripPrefix(t2Hex));
      if |t2| != 32 { return Rejected(400); }
      var x1 := Hex.ParseHex(Hex.StripPrefix(x1Hex));
      if |x1| != 32 { return Rejected(400); }
      var loaded := LoadKeyData(table, id, false);
      if !loaded.Loaded? { return Rejected(500); }
      if loaded.keypair.None? { return Rejected(400); }
      var text := Open(env, loaded.keypair.value);
      if text.None? { return Rejected(500); }
      var key := LoadKeypair(env.g, text.value);
      if key.None? { return Aborted; }
      var share := KeyShares.UpdatedShare(env.g, key.value, FromBigEndian(x1), FromBigEndian(t2));
      if share.None? { return Aborted; }
      if KeyTakenByOther(table, id, share.value) || |Rows(table, id)| > 1 { return Rejected(500); }
      table := UpdateRows(table, id, SetKeypair(Seal(env, nonce, KeypairBytes(share.value)), share.value));
      return PublicKey(share.value);
    }

    /**
     * A number exactly when the statechain has a row, and then, whatever the requests that led to
     * this table, the number of half signatures answered since its registration.
     */
    method SignatureCount(id: string) returns (r: Response)
      requires ValidGroup(env.g)
      ensures (table, r) == Handle(env, table, Count(id))
      ensures if exists i :: 0 <= i < |table| && table[i].id == id then r.SigCount? else r == Unspecified
      ensures forall tr :: LeadsTo(env, tr, table) ==> r == Tally(tr, |tr.calls|, id)
    {
      CountFacts(env, table, id);
      var rows := Rows(table, id);
      if |rows| == 0 { return Unspecified; }
      return SigCount(rows[0].sigCount);
    }

    /** Afterwards the statechain has no row, and its key is free unless another one holds it. */
    method DeleteStatechain(id: string) returns (r: Response)
      requires ValidGroup(env.g)
      modifies this
      ensures (table, r) == Handle(env, old(table), Delete(id))
      ensures Orderly(env, old(table), Delete(id), table)
      ensures Rows(table, id) == [] && First(table, id).None?
      ensures forall key :: KeyTaken(table, key) <==> KeyTakenByOther(old(table), id, key)
    {
      HandleIsOrderly(env, table, Delete(id));
      RowsOfDelete(table, id, id);
      KeysAfterDelete(table, id);
      table := DeleteRows(table, id);
      return Deleted;
    }
  }

  lemma UpdateFacts(env: Env, t: Table, c: Call)
    requires ValidGroup(env.g) && c.Update?
    ensures Orderly(env, t, c, Handle(env, t, c).0)
    ensures var (t', r) := Handle(env, t, c);
            if r.PublicKey? then Rekeyed(env.g, t, c.id, r.key, t') else t' == t
  {
    HandleIsOrderly(env, t, c);
    UpdateShape(env, t, c);
    var s, r := Decide(env, t, c).0, Decide(env, t, c).1;
    assert s.Nothing? <==> !r.PublicKey?;
    if s.Change? {
      assert r.key == s.change.publicKey;
      FirstAfterUpdate(t, c.id, s.change);
      SetKeypairClears(t, c.id, s.change.keypair, s.change.publicKey);
    }
  }

  lemma NonceFacts(env: Env, t: Table, id: string, k1: nat, k2: nat, nonce: seq<Byte>)
    requires ValidGroup(env.g)
    ensures Orderly(env, t, NewNonce(id, k1, k2, nonce), Handle(env, t, NewNonce(id, k1, k2, nonce)).0)
    ensures ValidEnv(env) && Coherent(env, t) && ValidCall(env.g, NewNonce(id, k1, k2, nonce)) ==>
              var (t', r) := Handle(env, t, NewNonce(id, k1, k2, nonce));
              if First(t, id).None? then r == Rejected(500)
              else && r == PublicNonce(PubNonceBytes(k1, k2)) && Held(env, t', id, k1, k2)
                   && First(t', id).value.publicKey == First(t, id).value.publicKey
                   && First(t', id).value.sigCount == First(t, id).value.sigCount
  {
    HandleIsOrderly(env, t, NewNonce(id, k1, k2, nonce));
    if ValidEnv(env) && Coherent(env, t) && ValidCall(env.g, NewNonce(id, k1, k2, nonce)) {
      NonceAlwaysServed(env, t, id, k1, k2, nonce);
      if First(t, id).Some? {
        NonceStored(env, t, id, k1, k2, nonce);
        NonceKeepsRest(env, t, id, k1, k2, nonce);
      }
    }
  }

  lemma NonceKeepsRest(env: Env, t: Table, id: string, k1: nat, k2: nat, nonce: seq<Byte>)
    requires ValidGroup(env.g) && First(t, id).Some?
    ensures var t' := Handle(env, t, NewNonce(id, k1, k2, nonce)).0;
            && First(t', id).Some? && First(t', id).value.publicKey == First(t, id).value.publicKey
            && First(t', id).value.sigCount == First(t, id).value.sigCount
  {
    var s := Decide(env, t, NewNonce(id, k1, k2, nonce)).0;
    if s.Change? { FirstAfterUpdate(t, id, s.change); }
  }

  lemma {:induction false} KeysAfterDelete(t: Table, id: string)
    ensures forall key :: KeyTaken(DeleteRows(t, id), key) <==> KeyTakenByOther(t, id, key)
  {
    if t != [] {
      KeysAfterDelete(t[1..], id);
      forall key ensures KeyTaken(DeleteRows(t, id), key) <==> KeyTakenByOther(t, id, key) {
        TakenByOtherFirst(t, id, key);
        if t[0].id != id { TakenFirst([t[0]] + DeleteRows(t[1..], id), key); }
      }
    }
  }

  lemma TakenFirst(t: Table, key: int)
    requires t != []
    ensures KeyTaken(t, key) <==> t[0].publicKey == key || KeyTaken(t[1..], key)
  {
    assert forall i :: 0 < i < |t| ==> t[1..][i - 1] == t[i];
    if KeyTaken(t[1..], key) {
      var i :| 0 <= i < |t[1..]| && t[1..][i].publicKey == key;
      assert t[i + 1].publicKey == key;
    }
  }

  lemma TakenByOtherFirst(t: Table, id: string, key: int)
    requires t != []
    ensures KeyTakenByOther(t, id, key) <==> (t[0].id != id && t[0].publicKey == key) || KeyTakenByOther(t[1..], id, key)
  {
    assert forall i :: 0 < i < |t| ==> t[1..][i - 1] == t[i];
    if KeyTakenByOther(t[1..], id, key) {
      var i :| 0 <= i < |t[1..]| && t[1..][i].id != id && t[1..][i].publicKey == key;
      assert t[i + 1].id != id && t[i + 1].publicKey == key;
    }
  }

  /** One request, dispatched to its handler. */
  method Dispatch(server: Server, c: Call) returns (r: Response)
    requires ValidGroup(server.env.g)
    modifies server
    ensures (server.table, r) == Handle(server.env, old(server.table), c)
  {
    match c {
      case NewKey(id, draws, nonce) => r := server.GenerateNewKeypair(id, draws, nonce);
      case NewNonce(id, k1, k2, nonce) => r := server.GeneratePublicNonce(id, k1, k2, nonce);
      case Sign(id, negate, session) => r := server.GeneratePartialSignature(id, negate, session);
      case Update(id, t2, x1, nonce) => r := server.KeyUpdate(id, t2, x1, nonce);
      case Count(id) => r := server.SignatureCount(id);
      case Delete(id) => r := server.DeleteStatechain(id);
    }
  }

  /** A server that takes requests one after another produces a trace, so all that holds of traces holds of it. */
  method Serve(env: Env, calls: seq<Call>) returns (answers: seq<Response>, ghost tables: seq<Table>)
    requires ValidGroup(env.g)
    ensures IsTrace(env, Trace(calls, tables, answers))
    ensures |answers| == |calls| && forall i :: 0 <= i < |calls| ==> answers[i] == ResponseAt(env, calls, i)
  {
    var server := new Server(env);
    answers, tables := [], [server.table];
    var n := 0;
    while n < |calls|
      invariant 0 <= n <= |calls| && server.env == env && fresh(server)
      invariant |tables| == n + 1 && tables[n] == server.table
      invariant IsTrace(env, Trace(calls[..n], tables, answers))
    {
      ghost var before := Trace(calls[..n], tables, answers);
      var r := Dispatch(server, calls[n]);
      answers, tables := answers + [r], tables + [server.table];
      ExtendTrace(env, before, calls[n], server.table, r);
      assert calls[..n + 1] == calls[..n] + [calls[n]];
      n := n + 1;
    }
    assert calls[..n] == calls;
    forall i | 0 <= i < |calls| ensures answers[i] == ResponseAt(env, calls, i) {
      TraceIsRun(env, Trace(calls, tables, answers), i);
    }
  }
}

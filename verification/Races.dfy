/** Requests that overtake one another: what each is answered, and what the table is left with. */
module Races {
  import opened Bytes
  import opened Curve
  import opened SealedBlob
  import opened Lockbox
  import opened LockboxRuns
  import opened Threads
  import opened SignatureCounts
  import opened TransactionCoherence
  import Hex
  import KeyShares
  import BlindSign
  import ReceiverRuns

  // ----- steps of a request that holds its statement ----------------------------------------

  /** The record of a request that has committed and replied. */
  function Done(c: Call, st: Statement, r: Response): Thread { Stored(c, st, r).(phase := Finished, reply := Some(r)) }

  lemma CommitsPending(env: Env, s: State, tid: nat, c: Call, st: Statement, r: Response)
    requires ValidGroup(env.g) && tid in s.threads && s.threads[tid] == Pending(c, st, r) && Admissible(s.table, c.id, st)
    ensures Enabled(s, Commit(tid)) && Step(env, s, Commit(tid)) == Put(Applied(s, c.id, st), tid, Stored(c, st, r))
  {
  }

  lemma RepliesStored(env: Env, s: State, tid: nat, c: Call, st: Statement, r: Response)
    requires ValidGroup(env.g) && tid in s.threads && s.threads[tid] == Stored(c, st, r)
    ensures Enabled(s, Reply(tid)) && Step(env, s, Reply(tid)) == Put(s, tid, Done(c, st, r))
  {
  }

  /** A request that holds its statement commits and replies. */
  lemma Finishes(env: Env, s: State, tid: nat, c: Call, st: Statement, r: Response)
    requires ValidGroup(env.g) && tid in s.threads && s.threads[tid] == Pending(c, st, r) && Admissible(s.table, c.id, st)
    ensures Schedule(env, s, [Commit(tid), Reply(tid)])
    ensures RunFrom(env, s, [Commit(tid), Reply(tid)]) == Put(Applied(s, c.id, st), tid, Done(c, st, r))
  {
    CommitsPending(env, s, tid, c, st, r);
    var s1 := Put(Applied(s, c.id, st), tid, Stored(c, st, r));
    RepliesStored(env, s1, tid, c, st, r);
    PutTwice(Applied(s, c.id, st), tid, Stored(c, st, r), Done(c, st, r));
    FromHere(env, s1, Reply(tid), []);
    FromHere(env, s, Commit(tid), [Reply(tid)]);
    assert [Reply(tid)] + [] == [Reply(tid)] && [Commit(tid)] + [Reply(tid)] == [Commit(tid), Reply(tid)];
  }

  /** All the steps of an answered request. */
  function Answering(tid: nat, c: Call): seq<Action> { Prepare(tid, c) + [Commit(tid), Reply(tid)] }

  lemma Answered(env: Env, s: State, tid: nat, c: Call, st: Statement, r: Response)
    requires ValidGroup(env.g) && tid !in s.threads && !c.Count? && Decide(env, s.table, c) == (st, r) && !st.Nothing?
    ensures Schedule(env, s, Answering(tid, c))
    ensures RunFrom(env, s, Answering(tid, c)) == Put(Applied(s, c.id, st), tid, Done(c, st, r))
  {
    Prepared(env, s, tid, c, st, r);
    var s1 := Put(s, tid, Pending(c, st, r));
    Finishes(env, s1, tid, c, st, r);
    RunJoins(env, s, Prepare(tid, c), [Commit(tid), Reply(tid)]);
    PutTwice(Applied(s, c.id, st), tid, Pending(c, st, r), Done(c, st, r));
  }

  // ----- a count that is out of date when it arrives ----------------------------------------

  /** A count request that has loaded, and once it has replied. */
  function Asking(id: string, r: Response): Thread { Thread(Count(id), Replying(r), None, false, None) }

  function Asked(id: string, r: Response): Thread { Thread(Count(id), Finished, None, false, Some(r)) }

  lemma Asks(env: Env, s: State, tid: nat, id: string)
    requires ValidGroup(env.g) && tid !in s.threads
    ensures Schedule(env, s, [Accept(tid, Count(id)), Load(tid)])
    ensures RunFrom(env, s, [Accept(tid, Count(id)), Load(tid)]) == Put(s, tid, Asking(id, CountAnswer(s.table, id)))
  {
    var ready := Thread(Count(id), Ready, None, false, None);
    PutTwice(s, tid, ready, Asking(id, CountAnswer(s.table, id)));
    FromHere(env, Put(s, tid, ready), Load(tid), []);
    FromHere(env, s, Accept(tid, Count(id)), [Load(tid)]);
    assert [Load(tid)] + [] == [Load(tid)] && [Accept(tid, Count(id))] + [Load(tid)] == [Accept(tid, Count(id)), Load(tid)];
  }

  /** A count request that a signature overtakes between its load and its reply. */
  function Overtaken(tid: nat, b: nat, sign: Call): seq<Action>
  {
    [Accept(tid, Count(sign.id)), Load(tid)] + Answering(b, sign) + [Reply(tid)]
  }

  lemma OvertakenRun(env: Env, s: State, tid: nat, b: nat, sign: Call, r: Response)
    requires ValidGroup(env.g) && tid !in s.threads && b !in s.threads && tid != b && sign.Sign?
    requires Decide(env, s.table, sign) == (Change(CountSignature), r)
    ensures Schedule(env, s, Overtaken(tid, b, sign))
    ensures RunFrom(env, s, Overtaken(tid, b, sign)) ==
            OvertakenState(s, tid, b, sign, r)
  {
    var id, st := sign.id, Change(CountSignature);
    var answer := CountAnswer(s.table, id);
    Asks(env, s, tid, id);
    var s1 := Put(s, tid, Asking(id, answer));
    Answered(env, s1, b, sign, st, r);
    RunJoins(env, s, [Accept(tid, Count(id)), Load(tid)], Answering(b, sign));
    var s2 := Put(Applied(s1, id, st), b, Done(sign, st, r));
    RepliesAsking(env, s2, tid, id, answer);
    OneMore(env, s, [Accept(tid, Count(id)), Load(tid)] + Answering(b, sign), Reply(tid));
    PutAround(Applied(s, id, st), tid, b, Asking(id, answer), Done(sign, st, r), Asked(id, answer));
  }

  lemma RepliesAsking(env: Env, s: State, tid: nat, id: string, r: Response)
    requires ValidGroup(env.g) && tid in s.threads && s.threads[tid] == Asking(id, r)
    ensures Enabled(s, Reply(tid)) && Step(env, s, Reply(tid)) == Put(s, tid, Asked(id, r))
  {
  }

  lemma PutAround(s: State, tid: nat, b: nat, t: Thread, u: Thread, t': Thread)
    requires tid != b
    ensures Put(Put(Put(s, tid, t), b, u), tid, t') == Put(Put(s, b, u), tid, t')
  {
    assert s.threads[tid := t][b := u][tid := t'] == s.threads[b := u][tid := t'];
  }

  /** The state such a schedule ends in. */
  function OvertakenState(s: State, tid: nat, b: nat, sign: Call, r: Response): State
  {
    Put(Put(Applied(s, sign.id, Change(CountSignature)), b, Done(sign, Change(CountSignature), r)), tid, Asked(sign.id, CountAnswer(s.table, sign.id)))
  }

  lemma OvertakenReleased(s: State, tid: nat, b: nat, sign: Call, r: Response)
    requires tid !in s.threads && b !in s.threads && tid != b && sign.Sign? && r.PartialSig?
    ensures ReleasedFor(OvertakenState(s, tid, b, sign, r), sign.id) == ReleasedFor(s, sign.id) + {b}
  {
    var s' := OvertakenState(s, tid, b, sign, r);
    assert forall k :: k in s.threads ==> k in s'.threads && s'.threads[k] == s.threads[k];
    assert s'.threads[b] == Done(sign, Change(CountSignature), r);
    assert s'.threads[tid].call == Count(sign.id);
    forall k ensures k in ReleasedFor(s', sign.id) <==> k in ReleasedFor(s, sign.id) + {b} {
      if k != tid && k != b { assert k in s'.threads <==> k in s.threads; }
    }
  }

  lemma OvertakenCounts(s: State, tid: nat, b: nat, sign: Call, r: Response)
    requires tid != b && First(s.table, sign.id).Some?
    ensures var s' := OvertakenState(s, tid, b, sign, r);
            && ReceiverRuns.Told(s', tid, sign.id, ReportedCount(s, sign.id))
            && ReportedCount(s', sign.id) == ReportedCount(s, sign.id) + 1
            && b in s'.threads && s'.threads[b].call == sign
  {
    FirstAfterUpdate(s.table, sign.id, CountSignature);
  }

  /**
   * The load, not the reply, is the moment a count speaks of: from any state in which a signature
   * is due there is a schedule that ends with the old count told, the counter one higher and the
   * overtaking signature released.
   */
  lemma LateCount(env: Env, s: State, tid: nat, b: nat, sign: Call, r: Response)
    requires ValidGroup(env.g) && tid !in s.threads && b !in s.threads && tid != b && sign.Sign?
    requires First(s.table, sign.id).Some? && Decide(env, s.table, sign) == (Change(CountSignature), r) && r.PartialSig?
    ensures Schedule(env, s, Overtaken(tid, b, sign))
    ensures RunFrom(env, s, Overtaken(tid, b, sign)) == OvertakenState(s, tid, b, sign, r)
    ensures var s' := RunFrom(env, s, Overtaken(tid, b, sign));
            && ReceiverRuns.Told(s', tid, sign.id, ReportedCount(s, sign.id))
            && ReportedCount(s', sign.id) == ReportedCount(s, sign.id) + 1
            && ReleasedFor(s', sign.id) == ReleasedFor(s, sign.id) + {b}
            && b in s'.threads && s'.threads[b].call == sign
  {
    OvertakenRun(env, s, tid, b, sign, r);
    OvertakenReleased(s, tid, b, sign, r);
    OvertakenCounts(s, tid, b, sign, r);
  }

  // ----- a signature after an overtaken nonce -----------------------------------------------

  /** With a nonce drawn under another key the enclave stops. */
  lemma ForeignNonceAborts(env: Env, keypair: Blob, secnonce: Blob, own: int, k1: int, k2: int, key: int, negate: int, session: seq<Byte>)
    requires ValidEnv(env) && IsKey(env.g, own) && IsScalar(env.g, k1) && IsScalar(env.g, k2) && IsKey(env.g, key) && key != own
    requires Open(env, keypair) == Some(KeypairBytes(own))
    requires Open(env, secnonce) == Some(SecNonceBytes(BlindSign.SecNonce(k1, k2, key))) && env.loadSession(session).Some?
    ensures EnclaveSign(env, keypair, secnonce, negate, session) == Aborted
  {
    LoadKeypairInverts(env.g, own);
    LoadSecNonceInverts(env.g, BlindSign.SecNonce(k1, k2, key));
  }

  lemma ForeignNonceAnswer(env: Env, t: Table, id: string, k1: nat, k2: nat, key: int, negate: int, session: string)
    requires ValidEnv(env) && Signable(env, session) && First(t, id).Some?
    requires IsScalar(env.g, k1) && IsScalar(env.g, k2) && IsKey(env.g, key)
    requires var r := First(t, id).value;
             && IsKey(env.g, r.publicKey) && r.publicKey != key && SealedAs(env, r.sealedKeypair, KeypairBytes(r.publicKey))
             && SealedAs(env, r.sealedSecnonce, SecNonceBytes(BlindSign.SecNonce(k1, k2, key)))
             && r.publicNonce == Some(PubNonceBytes(k1, k2))
    ensures Handle(env, t, Sign(id, negate, session)) == (t, Aborted)
  {
    var r := First(t, id).value;
    LoadsBoth(t, id, r);
    var l := LoadKeyData(t, id, true);
    ForeignNonceAborts(env, l.keypair.value, l.secnonce.value, r.publicKey, k1, k2, key, negate, Hex.HexBytes(Hex.StripPrefix(session)));
    AbortDecides(env, t, id, negate, session);
  }

  lemma LoadsBoth(t: Table, id: string, r: Row)
    requires First(t, id) == Some(r) && r.publicNonce.Some? && |r.publicNonce.value| == 66
    requires r.sealedKeypair.Some? && Deserialized(r.sealedKeypair.value).Some?
    requires r.sealedSecnonce.Some? && Deserialized(r.sealedSecnonce.value).Some?
    ensures LoadKeyData(t, id, true) == Loaded(Deserialized(r.sealedKeypair.value), Deserialized(r.sealedSecnonce.value), r.publicNonce.value)
  {
  }

  lemma AbortDecides(env: Env, t: Table, id: string, negate: int, session: string)
    requires ValidGroup(env.g) && |Hex.HexBytes(Hex.StripPrefix(session))| == 133
    requires var l := LoadKeyData(t, id, true);
             l.Loaded? && l.keypair.Some? && l.secnonce.Some? &&
             EnclaveSign(env, l.keypair.value, l.secnonce.value, negate, Hex.HexBytes(Hex.StripPrefix(session))) == Aborted
    ensures Handle(env, t, Sign(id, negate, session)) == (t, Aborted)
  {
  }

  /** After a nonce write a well-formed signature request stops the enclave exactly when the nonce is for another key. */
  lemma AbortsExactly(env: Env, t: Table, id: string, k1: nat, k2: nat, nonce: seq<Byte>, key: int, negate: int, session: string)
    requires ValidEnv(env) && Coherent(env, t) && First(t, id).Some? && Signable(env, session)
    requires |nonce| == 24 && IsScalar(env.g, k1) && IsScalar(env.g, k2) && IsKey(env.g, key)
    ensures var t' := UpdateRows(t, id, NonceChange(env, k1, k2, nonce, key));
            && (Handle(env, t', Sign(id, negate, session)).1 == Aborted <==> First(t, id).value.publicKey != key)
            && (Handle(env, t', Sign(id, negate, session)).1 == Aborted <==> !Coherent(env, t'))
  {
    var change := NonceChange(env, k1, k2, nonce, key);
    var t' := UpdateRows(t, id, change);
    NonceWriteExactly(env, t, id, k1, k2, nonce, key);
    CoherentFirst(env, t, id, Aborted);
    FirstAfterUpdate(t, id, change);
    NonceOpens(env, k1, k2, nonce, key);
    if First(t, id).value.publicKey == key {
      assert HoldsNonce(env, First(t', id).value, k1, k2);
      SignAnswer(env, t', id, negate, session, k1, k2);
    } else {
      ForeignNonceAnswer(env, t', id, k1, k2, key, negate, session);
    }
  }

  /** So the next well-formed signature request after an overtaken nonce request stops the enclave. */
  lemma AbortedSignature(env: Env, s: State, a: nat, b: nat, nonce: Call, update: Call, negate: int, session: string)
    requires ValidEnv(env) && Coherent(env, s.table) && a !in s.threads && b !in s.threads && a != b
    requires nonce.NewNonce? && update.Update? && nonce.id == update.id
    requires ValidCall(env.g, nonce) && ValidCall(env.g, update) && First(s.table, nonce.id).Some? && Signable(env, session)
    requires var (st, _) := Decide(env, s.table, update);
             st.Change? && st.change.SetKeypair? && st.change.publicKey != First(s.table, nonce.id).value.publicKey
    ensures var acts := Prepare(a, nonce) + (Prepare(b, update) + [Commit(b)]) + [Commit(a)];
            && Schedule(env, s, acts) && !Coherent(env, RunFrom(env, s, acts).table)
            && Handle(env, RunFrom(env, s, acts).table, Sign(nonce.id, negate, session)).1 == Aborted
  {
    var (stU, rU) := Decide(env, s.table, update);
    OvertakenSchedule(env, s, a, b, nonce, update, stU, rU);
    UpdatedTable(env, s.table, update, stU);
    OvertakenAborts(env, s.table, nonce, stU.change, First(s.table, nonce.id).value.publicKey, negate, session);
  }

  lemma OvertakenSchedule(env: Env, s: State, a: nat, b: nat, nonce: Call, update: Call, st: Statement, r: Response)
    requires ValidEnv(env) && Coherent(env, s.table) && a !in s.threads && b !in s.threads && a != b
    requires nonce.NewNonce? && update.Update? && nonce.id == update.id && ValidCall(env.g, nonce) && First(s.table, nonce.id).Some?
    requires Decide(env, s.table, update) == (st, r) && st.Change?
    ensures var acts, key := Prepare(a, nonce) + (Prepare(b, update) + [Commit(b)]) + [Commit(a)], First(s.table, nonce.id).value.publicKey;
            && IsKey(env.g, key) && Schedule(env, s, acts)
            && RunFrom(env, s, acts).table ==
               UpdateRows(UpdateRows(s.table, nonce.id, st.change), nonce.id, NonceChange(env, nonce.k1, nonce.k2, nonce.nonce, key))
  {
    NonceComputed(env, s.table, nonce);
    var (stN, rN) := Decide(env, s.table, nonce);
    Overtaking(env, s, a, b, nonce, update, stN, rN, st, r);
  }

  lemma OvertakenAborts(env: Env, t: Table, nonce: Call, change: Change, key: int, negate: int, session: string)
    requires ValidEnv(env) && nonce.NewNonce? && ValidCall(env.g, nonce) && IsKey(env.g, key) && Signable(env, session)
    requires First(t, nonce.id).Some? && change.SetKeypair? && change.publicKey != key && Coherent(env, UpdateRows(t, nonce.id, change))
    ensures var t' := UpdateRows(UpdateRows(t, nonce.id, change), nonce.id, NonceChange(env, nonce.k1, nonce.k2, nonce.nonce, key));
            !Coherent(env, t') && Handle(env, t', Sign(nonce.id, negate, session)).1 == Aborted
  {
    FirstAfterUpdate(t, nonce.id, change);
    ForeignWriteAborts(env, UpdateRows(t, nonce.id, change), nonce, key, negate, session);
  }

  lemma ForeignWriteAborts(env: Env, t: Table, nonce: Call, key: int, negate: int, session: string)
    requires ValidEnv(env) && nonce.NewNonce? && ValidCall(env.g, nonce) && IsKey(env.g, key) && Signable(env, session)
    requires Coherent(env, t) && First(t, nonce.id).Some? && First(t, nonce.id).value.publicKey != key
    ensures var t' := UpdateRows(t, nonce.id, NonceChange(env, nonce.k1, nonce.k2, nonce.nonce, key));
            !Coherent(env, t') && Handle(env, t', Sign(nonce.id, negate, session)).1 == Aborted
  {
    AbortsExactly(env, t, nonce.id, nonce.k1, nonce.k2, nonce.nonce, key, negate, session);
  }

  // ----- two key updates on one row ---------------------------------------------------------

  /** Both updates load before either commits. */
  function Racing(a: nat, b: nat, first: Call, second: Call): seq<Action>
  {
    Prepare(a, first) + Prepare(b, second) + ([Commit(a), Reply(a)] + [Commit(b), Reply(b)])
  }

  /** What the first update writes does not stand in the way of the second. */
  lemma StillAdmissible(t: Table, id: string, first: Change, st: Statement)
    requires st.Change? && st.change.SetKeypair? && Admissible(t, id, st)
    ensures Admissible(UpdateRows(t, id, first), id, st)
  {
    var t' := UpdateRows(t, id, first);
    RowsOfUpdate(t, id, first, id);
    assert forall i :: 0 <= i < |t| && t[i].id != id ==> t'[i] == t[i];
  }

  lemma RacingRun(env: Env, s: State, a: nat, b: nat, first: Call, second: Call, sa: Statement, ra: Response, sb: Statement, rb: Response)
    requires ValidGroup(env.g) && a !in s.threads && b !in s.threads && a != b
    requires first.Update? && second.Update? && first.id == second.id
    requires Decide(env, s.table, first) == (sa, ra) && sa.Change? && Decide(env, s.table, second) == (sb, rb) && sb.Change? && sb.change.SetKeypair?
    ensures Schedule(env, s, Racing(a, b, first, second))
    ensures var s' := RunFrom(env, s, Racing(a, b, first, second));
            && s'.table == UpdateRows(UpdateRows(s.table, first.id, sa.change), first.id, sb.change)
            && a in s'.threads && s'.threads[a].reply == Some(ra) && b in s'.threads && s'.threads[b].reply == Some(rb)
  {
    var id := first.id;
    Prepared(env, s, a, first, sa, ra);
    var s1 := Put(s, a, Pending(first, sa, ra));
    Prepared(env, s1, b, second, sb, rb);
    RunJoins(env, s, Prepare(a, first), Prepare(b, second));
    var s2 := Put(s1, b, Pending(second, sb, rb));
    Finishes(env, s2, a, first, sa, ra);
    var s3 := Put(Applied(s2, id, sa), a, Done(first, sa, ra));
    StillAdmissible(s.table, id, sa.change, sb);
    Finishes(env, s3, b, second, sb, rb);
    RunJoins(env, s2, [Commit(a), Reply(a)], [Commit(b), Reply(b)]);
    RunJoins(env, s, Prepare(a, first) + Prepare(b, second), [Commit(a), Reply(a)] + [Commit(b), Reply(b)]);
  }

  /** A share that completes a server's to the joint key is the only one that does. */
  lemma OneShareCompletes(g: Group, server: int, a: int, b: int)
    requires ValidGroup(g) && IsKey(g, a) && IsKey(g, b)
    ensures Add(g, server, a) == Add(g, server, b) <==> a == b
  {
    if Add(g, server, a) == Add(g, server, b) {
      CongAdd(g.n, server + a, server + b, -server, -server);
      CongUnique(g.n, a, b);
    }
  }

  /** A transfer of `owner`'s coin, as the texts the lockbox is sent. */
  ghost predicate Sends(env: Env, t: Table, c: Call, owner: int, newOwner: int, x1: int)
    requires ValidGroup(env.g)
  {
    && c.Update? && First(t, c.id).Some? && IsKey(env.g, newOwner) && IsKey(env.g, x1)
    && var server := First(t, c.id).value.publicKey;
       var t2, share := KeyShares.TransferMessage(env.g, owner, newOwner, x1), KeyShares.Transfer(env.g, server, owner, newOwner, x1);
       t2.Some? && share.Some? && !KeyTakenByOther(t, c.id, share.value) && Carries(c.t2, t2.value) && Carries(c.x1, x1)
  }

  /** The update computes `key` and writes it. */
  ghost predicate Stores(env: Env, t: Table, c: Call, key: int)
    requires ValidGroup(env.g)
  {
    c.Update? && IsKey(env.g, key) && Decide(env, t, c) == (Change(SetKeypair(Seal(env, c.nonce, KeypairBytes(key)), key)), PublicKey(key))
  }

  lemma SentUpdate(env: Env, t: Table, c: Call, owner: int, newOwner: int, x1: int) returns (key: int)
    requires ValidEnv(env) && Coherent(env, t) && IsKey(env.g, owner) && Sends(env, t, c, owner, newOwner, x1)
    ensures Stores(env, t, c, key) && Add(env.g, key, newOwner) == Add(env.g, First(t, c.id).value.publicKey, owner)
  {
    var server := First(t, c.id).value.publicKey;
    key := KeyShares.Transfer(env.g, server, owner, newOwner, x1).value;
    CoherentFirst(env, t, c.id, Aborted);
    TransferIsUpdate(env.g, server, owner, newOwner, x1, KeyShares.TransferMessage(env.g, owner, newOwner, x1).value);
    UpdateDecided(env, t, c.id, c.t2, c.x1, c.nonce, key);
    OneTransferConserves(env.g, server, owner, newOwner, x1);
  }

  /** The request has replied with this public key. */
  predicate GotKey(s: State, tid: nat, key: int) { tid in s.threads && s.threads[tid].reply == Some(PublicKey(key)) }

  lemma RacingAnswers(env: Env, s: State, a: nat, b: nat, first: Call, second: Call, keyA: int, keyB: int)
    requires ValidGroup(env.g) && a !in s.threads && b !in s.threads && a != b && first.id == second.id && First(s.table, first.id).Some?
    requires Stores(env, s.table, first, keyA) && Stores(env, s.table, second, keyB)
    ensures Schedule(env, s, Racing(a, b, first, second))
    ensures var s' := RunFrom(env, s, Racing(a, b, first, second));
            && GotKey(s', a, keyA) && GotKey(s', b, keyB)
            && First(s'.table, first.id).Some? && First(s'.table, first.id).value.publicKey == keyB
  {
    var sa := Change(SetKeypair(Seal(env, first.nonce, KeypairBytes(keyA)), keyA));
    var sb := Change(SetKeypair(Seal(env, second.nonce, KeypairBytes(keyB)), keyB));
    RacingRun(env, s, a, b, first, second, sa, PublicKey(keyA), sb, PublicKey(keyB));
    LastKeyStands(s.table, first.id, sa.change, sb.change);
  }

  lemma LastKeyStands(t: Table, id: string, first: Change, second: Change)
    requires First(t, id).Some? && second.SetKeypair?
    ensures var r := First(UpdateRows(UpdateRows(t, id, first), id, second), id);
            r.Some? && r.value.publicKey == second.publicKey
  {
    FirstAfterUpdate(t, id, first);
    FirstAfterUpdate(UpdateRows(t, id, first), id, second);
  }

  /**
   * Two receivers of one coin whose key updates both load before either commits are both answered
   * with a public key. The second one's share completes the stored share to the joint key; the
   * first one's does if and only if the two receivers have the same share.
   */
  lemma RacingUpdates(env: Env, s: State, a: nat, b: nat, first: Call, second: Call, owner: int, ownerA: int, xA: int, ownerB: int, xB: int)
    returns (keyA: int, keyB: int)
    requires ValidEnv(env) && Coherent(env, s.table) && a !in s.threads && b !in s.threads && a != b && first.id == second.id
    requires IsKey(env.g, owner) && Sends(env, s.table, first, owner, ownerA, xA) && Sends(env, s.table, second, owner, ownerB, xB)
    ensures Schedule(env, s, Racing(a, b, first, second))
    ensures var s' := RunFrom(env, s, Racing(a, b, first, second));
            && GotKey(s', a, keyA) && GotKey(s', b, keyB)
            && First(s'.table, first.id).Some? && First(s'.table, first.id).value.publicKey == keyB
    ensures var joint := Add(env.g, First(s.table, first.id).value.publicKey, owner);
            && Add(env.g, keyA, ownerA) == joint && Add(env.g, keyB, ownerB) == joint
            && (Add(env.g, keyB, ownerA) == joint <==> ownerA == ownerB)
  {
    keyA := SentUpdate(env, s.table, first, owner, ownerA, xA);
    keyB := SentUpdate(env, s.table, second, owner, ownerB, xB);
    RacingAnswers(env, s, a, b, first, second, keyA, keyB);
    OneShareCompletes(env.g, keyB, ownerA, ownerB);
  }
}

/** Row coherence when requests interleave at the grain of database transactions. */
module TransactionCoherence {
  import opened Bytes
  import opened Curve
  import opened Lockbox
  import opened LockboxRuns
  import opened Threads
  import opened SignatureCounts
  import BlindSign

  /** The column values of a nonce drawn under `key`. */
  function NonceChange(env: Env, k1: nat, k2: nat, nonce: seq<Byte>, key: int): Change
    requires key >= 0
  {
    SetNonce(Seal(env, nonce, SecNonceBytes(BlindSign.SecNonce(k1, k2, key))), PubNonceBytes(k1, k2))
  }

  lemma NonceOpens(env: Env, k1: nat, k2: nat, nonce: seq<Byte>, key: int)
    requires ValidEnv(env) && |nonce| == 24 && IsScalar(env.g, k1) && IsScalar(env.g, k2) && IsKey(env.g, key)
    ensures SealedAs(env, Some(NonceChange(env, k1, k2, nonce, key).secnonce), SecNonceBytes(BlindSign.SecNonce(k1, k2, key)))
  {
    ShortText(96);
    OpenInvertsSeal(env, nonce, SecNonceBytes(BlindSign.SecNonce(k1, k2, key)));
  }

  lemma SameNonce(env: Env, a: BlindSign.SecNonce, b: BlindSign.SecNonce)
    requires ValidGroup(env.g) && BlindSign.ValidSecNonce(env.g, a) && BlindSign.ValidSecNonce(env.g, b)
    requires SecNonceBytes(a) == SecNonceBytes(b)
    ensures a == b
  {
    LoadSecNonceInverts(env.g, a);
    LoadSecNonceInverts(env.g, b);
  }

  /** Writing a nonce drawn under `key` keeps a row coherent exactly when that is still its key. */
  lemma RowTakesNonce(env: Env, r: Row, k1: nat, k2: nat, nonce: seq<Byte>, key: int)
    requires ValidEnv(env) && |nonce| == 24 && IsScalar(env.g, k1) && IsScalar(env.g, k2) && IsKey(env.g, key)
    requires RowCoherent(env, r)
    ensures RowCoherent(env, Apply(NonceChange(env, k1, k2, nonce, key), r)) <==> r.publicKey == key
  {
    var r' := Apply(NonceChange(env, k1, k2, nonce, key), r);
    NonceOpens(env, k1, k2, nonce, key);
    if r.publicKey == key { assert HoldsNonce(env, r', k1, k2); }
    forall l1, l2 | HoldsNonce(env, r', l1, l2) ensures r.publicKey == key {
      SameNonce(env, BlindSign.SecNonce(k1, k2, key), BlindSign.SecNonce(l1, l2, r.publicKey));
    }
  }

  lemma NonceWriteExactly(env: Env, t: Table, id: string, k1: nat, k2: nat, nonce: seq<Byte>, key: int)
    requires ValidEnv(env) && |nonce| == 24 && IsScalar(env.g, k1) && IsScalar(env.g, k2) && IsKey(env.g, key)
    requires Coherent(env, t)
    ensures Coherent(env, UpdateRows(t, id, NonceChange(env, k1, k2, nonce, key))) <==>
            First(t, id).None? || First(t, id).value.publicKey == key
  {
    var c := NonceChange(env, k1, k2, nonce, key);
    forall i | 0 <= i < |t| && t[i].id == id ensures RowCoherent(env, Apply(c, t[i])) <==> t[i].publicKey == key {
      RowTakesNonce(env, t[i], k1, k2, nonce, key);
    }
    if First(t, id).Some? {
      CoherentFirst(env, t, id, Aborted);
      var i :| 0 <= i < |t| && t[i] == First(t, id).value;
      assert UpdateRows(t, id, c)[i] == Apply(c, t[i]);
    }
    if First(t, id).None? || First(t, id).value.publicKey == key { UpdateKeepsCoherence(env, t, id, c); }
  }

  lemma UpdateKeepsCoherence(env: Env, t: Table, id: string, c: Change)
    requires Coherent(env, t) && c.SetNonce?
    requires forall i :: 0 <= i < |t| && t[i].id == id ==> RowCoherent(env, Apply(c, t[i]))
    ensures Coherent(env, UpdateRows(t, id, c))
  {
  }

  // ----- what a request holds ---------------------------------------------------------------

  /** The public key of the row that `tid` has loaded. */
  function LoadedKey(log: Log, n: nat, tid: nat): Option<int>
    requires n <= |log.acts| < |log.states|
  {
    if n == 0 then None
    else if log.acts[n - 1] == Load(tid) && tid in log.states[n - 1].threads then
      var row := First(log.states[n - 1].table, log.states[n - 1].threads[tid].call.id);
      if row.None? then None else Some(row.value.publicKey)
    else LoadedKey(log, n - 1, tid)
  }

  /** A statement as its request computes it, for a nonce under the key it has loaded. */
  ghost predicate StatementFor(env: Env, c: Call, st: Statement, key: Option<int>)
  {
    match c
    case NewKey(id, _, nonce) =>
      st.Insert? && IsKey(env.g, st.row.publicKey)
      && st.row == Row(id, Some(Seal(env, nonce, KeypairBytes(st.row.publicKey))), None, None, st.row.publicKey, 0)
    case NewNonce(_, k1, k2, nonce) =>
      key.Some? && IsKey(env.g, key.value) && st == Change(NonceChange(env, k1, k2, nonce, key.value))
    case Sign(_, _, _) => st == Change(CountSignature)
    case Update(_, _, _, nonce) =>
      st.Change? && st.change.SetKeypair? && IsKey(env.g, st.change.publicKey)
      && st.change == SetKeypair(Seal(env, nonce, KeypairBytes(st.change.publicKey)), st.change.publicKey)
    case Count(_) => false
    case Delete(_) => st == Erase
  }

  ghost predicate Holds(env: Env, t: Thread, key: Option<int>)
  {
    && ValidCall(env.g, t.call)
    && (t.phase.Holding? && t.call.NewNonce? && t.phase.load.Loaded? ==>
          key.Some? && StoredKey(env, t.phase.load, Aborted) == (key.value, None))
    && (t.phase.Holding? ==> !t.call.Count?)
    && (t.phase.Writing? ==> StatementFor(env, t.call, t.phase.statement, key))
  }

  lemma ComputedStatement(env: Env, c: Call, l: Load, key: Option<int>)
    requires ValidGroup(env.g) && !c.Count?
    requires c.NewNonce? && l.Loaded? ==> key.Some? && StoredKey(env, l, Aborted) == (key.value, None)
    ensures Computed(env, c, l).0.Nothing? || StatementFor(env, c, Computed(env, c, l).0, key)
  {
  }

  lemma LoadHolds(env: Env, t: Table, id: string)
    requires ValidEnv(env) && Coherent(env, t)
    ensures LoadKeyData(t, id, false).Loaded? ==>
              First(t, id).Some? && StoredKey(env, LoadKeyData(t, id, false), Aborted) == (First(t, id).value.publicKey, None)
  {
    if First(t, id).Some? { CoherentFirst(env, t, id, Aborted); }
  }

  ghost predicate HoldsAt(env: Env, log: Log, n: nat, tid: nat)
    requires n <= |log.acts| < |log.states|
  {
    tid in log.states[n].threads ==> Holds(env, log.states[n].threads[tid], LoadedKey(log, n, tid))
  }

  ghost predicate ValidCalls(env: Env, log: Log)
  {
    forall n :: 0 <= n < |log.acts| && log.acts[n].Accept? ==> ValidCall(env.g, log.acts[n].call)
  }

  lemma HoldsStep(env: Env, s: State, a: Action, tid: nat, key: Option<int>, key': Option<int>)
    requires ValidEnv(env) && Enabled(s, a) && Coherent(env, s.table) && (a.Accept? ==> ValidCall(env.g, a.call))
    requires tid in s.threads ==> Holds(env, s.threads[tid], key)
    requires if a == Load(tid) && tid in s.threads
             then key' == (if First(s.table, s.threads[tid].call.id).None? then None
                           else Some(First(s.table, s.threads[tid].call.id).value.publicKey))
             else key' == key
    ensures tid in Step(env, s, a).threads ==> Holds(env, Step(env, s, a).threads[tid], key')
  {
    if tid in s.threads {
      var t := s.threads[tid];
      if a == Compute(tid) { ComputedStatement(env, t.call, t.phase.load, key); }
      if a == Load(tid) { LoadHolds(env, s.table, t.call.id); }
    }
  }

  // ----- the theorem ------------------------------------------------------------------------

  /** Step `n` writes a nonce to a row whose key is no longer the one that was loaded for it. */
  ghost predicate StaleNonce(log: Log, n: nat)
    requires n < |log.acts| < |log.states|
  {
    exists tid ::
      && Writes(log.acts[n], tid) && tid in log.states[n].threads && log.states[n].threads[tid].call.NewNonce?
      && var row := First(log.states[n].table, log.states[n].threads[tid].call.id);
         row.Some? && LoadedKey(log, n, tid) != Some(row.value.publicKey)
  }

  /** Every registration that is written finds its id free. */
  ghost predicate RegistersFree(log: Log)
    requires |log.states| == |log.acts| + 1
  {
    forall n, tid :: 0 <= n < |log.acts| && Writes(log.acts[n], tid) ==> FreeFor(log.states[n], tid)
  }

  predicate FreeFor(s: State, tid: nat)
  {
    tid in s.threads && s.threads[tid].call.NewKey? ==> First(s.table, s.threads[tid].call.id).None?
  }

  /** What an admissible statement does to coherence. */
  lemma WriteExactly(env: Env, t: Table, c: Call, st: Statement, key: Option<int>)
    requires ValidEnv(env) && Coherent(env, t) && ValidCall(env.g, c) && StatementFor(env, c, st, key)
    requires Admissible(t, c.id, st) && (c.NewKey? ==> First(t, c.id).None?)
    ensures Coherent(env, Perform(t, c.id, st)) <==>
            (c.NewNonce? ==> First(t, c.id).None? || key == Some(First(t, c.id).value.publicKey))
  {
    match c
    case NewKey(id, _, nonce) => InsertKeepsCoherence(env, t, id, st.row.publicKey, nonce);
    case NewNonce(id, k1, k2, nonce) => NonceWriteExactly(env, t, id, k1, k2, nonce, key.value);
    case Sign(id, _, _) => CountKeepsCoherence(env, t, id);
    case Update(id, _, _, nonce) => KeypairKeepsCoherence(env, t, id, st.change.publicKey, nonce);
    case Delete(id) => EraseKeepsCoherence(env, t, id);
  }

  lemma StepExactly(env: Env, s: State, a: Action, key: Option<int>)
    requires ValidEnv(env) && Enabled(s, a) && Coherent(env, s.table)
    requires a.Commit? || a.CommitInDoubt? ==>
               && Holds(env, s.threads[a.tid], key)
               && (s.threads[a.tid].call.NewKey? ==> First(s.table, s.threads[a.tid].call.id).None?)
    ensures Coherent(env, Step(env, s, a).table) <==>
            ((a.Commit? || a.CommitInDoubt?) && s.threads[a.tid].call.NewNonce? ==>
               First(s.table, s.threads[a.tid].call.id).None? || key == Some(First(s.table, s.threads[a.tid].call.id).value.publicKey))
  {
    if a.Commit? || a.CommitInDoubt? {
      var t := s.threads[a.tid];
      if Admissible(s.table, t.call.id, t.phase.statement) { WriteExactly(env, s.table, t.call, t.phase.statement, key); }
    }
  }

  ghost predicate CoherentUpTo(env: Env, log: Log, n: nat)
    requires n < |log.states|
  {
    forall m :: 0 <= m <= n ==> Coherent(env, log.states[m].table)
  }

  lemma {:induction false} HoldsInLog(env: Env, log: Log, n: nat, tid: nat)
    requires ValidEnv(env) && IsLog(env, log) && ValidCalls(env, log) && n <= |log.acts|
    requires forall m :: 0 <= m < n ==> Coherent(env, log.states[m].table)
    ensures HoldsAt(env, log, n, tid)
  {
    if n > 0 {
      HoldsInLog(env, log, n - 1, tid);
      assert Taken(env, log, n - 1);
      assert Coherent(env, log.states[n - 1].table);
      HoldsStep(env, log.states[n - 1], log.acts[n - 1], tid, LoadedKey(log, n - 1, tid), LoadedKey(log, n, tid));
    }
  }

  lemma LogStepExactly(env: Env, log: Log, n: nat)
    requires ValidEnv(env) && IsLog(env, log) && ValidCalls(env, log) && RegistersFree(log) && n < |log.acts|
    requires CoherentUpTo(env, log, n)
    ensures Coherent(env, log.states[n + 1].table) <==> !StaleNonce(log, n)
  {
    var s, a := log.states[n], log.acts[n];
    assert Taken(env, log, n);
    if a.Commit? || a.CommitInDoubt? {
      HoldsInLog(env, log, n, a.tid);
      assert Writes(a, a.tid);
      StepExactly(env, s, a, LoadedKey(log, n, a.tid));
    } else {
      StepExactly(env, s, a, None);
    }
  }

  /**
   * In every interleaving all tables are coherent if and only if no nonce is written to a row
   * whose key has changed since it was loaded for that nonce.
   */
  lemma {:induction false} CoherentExactly(env: Env, log: Log, n: nat)
    requires ValidEnv(env) && IsLog(env, log) && ValidCalls(env, log) && RegistersFree(log) && n <= |log.acts|
    ensures CoherentUpTo(env, log, n) <==> forall m :: 0 <= m < n ==> !StaleNonce(log, m)
  {
    if n > 0 {
      CoherentExactly(env, log, n - 1);
      UpToNext(env, log, n - 1);
    }
  }

  lemma UpToNext(env: Env, log: Log, n: nat)
    requires ValidEnv(env) && IsLog(env, log) && ValidCalls(env, log) && RegistersFree(log) && n < |log.acts|
    ensures CoherentUpTo(env, log, n + 1) <==> CoherentUpTo(env, log, n) && !StaleNonce(log, n)
  {
    if CoherentUpTo(env, log, n) { LogStepExactly(env, log, n); }
    assert CoherentUpTo(env, log, n + 1) <==> CoherentUpTo(env, log, n) && Coherent(env, log.states[n + 1].table);
  }

  /** It does happen: a nonce request that a key update overtakes leaves the row with a nonce for the old key. */
  lemma OvertakenNonce(env: Env, s: State, a: nat, b: nat, nonce: Call, update: Call)
    requires ValidEnv(env) && Coherent(env, s.table) && a !in s.threads && b !in s.threads && a != b
    requires nonce.NewNonce? && update.Update? && nonce.id == update.id
    requires ValidCall(env.g, nonce) && ValidCall(env.g, update) && First(s.table, nonce.id).Some?
    requires var (st, _) := Decide(env, s.table, update);
             st.Change? && st.change.SetKeypair? && st.change.publicKey != First(s.table, nonce.id).value.publicKey
    ensures var acts := Prepare(a, nonce) + (Prepare(b, update) + [Commit(b)]) + [Commit(a)];
            Schedule(env, s, acts) && !Coherent(env, RunFrom(env, s, acts).table)
  {
    var (stN, rN) := Decide(env, s.table, nonce);
    var (stU, rU) := Decide(env, s.table, update);
    NonceComputed(env, s.table, nonce);
    Overtaking(env, s, a, b, nonce, update, stN, rN, stU, rU);
    UpdatedTable(env, s.table, update, stU);
    OvertakenTable(env, s.table, nonce, stU.change);
  }

  lemma Overtaking(env: Env, s: State, a: nat, b: nat, nonce: Call, update: Call,
                   stN: Statement, rN: Response, stU: Statement, rU: Response)
    requires ValidGroup(env.g) && a !in s.threads && b !in s.threads && a != b && !nonce.Count? && !update.Count? && nonce.id == update.id
    requires Computed(env, nonce, LoadKeyData(s.table, nonce.id, WithNonce(nonce))) == (stN, rN) && stN.Change? && stN.change.SetNonce?
    requires Decide(env, s.table, update) == (stU, rU) && stU.Change?
    ensures var acts := Prepare(a, nonce) + (Prepare(b, update) + [Commit(b)]) + [Commit(a)];
            && Schedule(env, s, acts)
            && RunFrom(env, s, acts).table == UpdateRows(UpdateRows(s.table, nonce.id, stU.change), nonce.id, stN.change)
  {
    Prepared(env, s, a, nonce, stN, rN);
    var s1 := Put(s, a, Pending(nonce, stN, rN));
    Committed(env, s1, b, update, stU, rU);
    RunJoins(env, s, Prepare(a, nonce), Prepare(b, update) + [Commit(b)]);
    var s2 := Put(Applied(s1, update.id, stU), b, Stored(update, stU, rU));
    CommitPending(env, s2, a, nonce, stN, rN);
    OneMore(env, s, Prepare(a, nonce) + (Prepare(b, update) + [Commit(b)]), Commit(a));
  }

  lemma CommitPending(env: Env, s: State, tid: nat, c: Call, st: Statement, r: Response)
    requires ValidGroup(env.g) && tid in s.threads && s.threads[tid] == Pending(c, st, r) && Admissible(s.table, c.id, st)
    ensures Enabled(s, Commit(tid)) && Step(env, s, Commit(tid)).table == Perform(s.table, c.id, st)
  {
  }

  lemma UpdatedTable(env: Env, t: Table, update: Call, st: Statement)
    requires ValidEnv(env) && Coherent(env, t) && update.Update? && ValidCall(env.g, update)
    requires Decide(env, t, update).0 == st && st.Change?
    ensures Coherent(env, UpdateRows(t, update.id, st.change))
  {
    HandleKeepsCoherence(env, t, update);
  }

  lemma OvertakenTable(env: Env, t: Table, nonce: Call, change: Change)
    requires ValidEnv(env) && Coherent(env, t) && nonce.NewNonce? && ValidCall(env.g, nonce) && First(t, nonce.id).Some?
    requires Coherent(env, UpdateRows(t, nonce.id, change))
    requires change.SetKeypair? && change.publicKey != First(t, nonce.id).value.publicKey
    ensures IsKey(env.g, First(t, nonce.id).value.publicKey)
    ensures !Coherent(env, UpdateRows(UpdateRows(t, nonce.id, change), nonce.id,
                                      NonceChange(env, nonce.k1, nonce.k2, nonce.nonce, First(t, nonce.id).value.publicKey)))
  {
    CoherentFirst(env, t, nonce.id, Aborted);
    FirstAfterUpdate(t, nonce.id, change);
    NonceWriteExactly(env, UpdateRows(t, nonce.id, change), nonce.id, nonce.k1, nonce.k2, nonce.nonce, First(t, nonce.id).value.publicKey);
  }

  lemma NonceComputed(env: Env, t: Table, c: Call)
    requires ValidEnv(env) && Coherent(env, t) && c.NewNonce? && ValidCall(env.g, c) && First(t, c.id).Some?
    ensures IsKey(env.g, First(t, c.id).value.publicKey)
    ensures Decide(env, t, c).0 == Change(NonceChange(env, c.k1, c.k2, c.nonce, First(t, c.id).value.publicKey))
    ensures Computed(env, c, LoadKeyData(t, c.id, WithNonce(c))) == Decide(env, t, c)
  {
    CoherentFirst(env, t, c.id, Aborted);
  }
}

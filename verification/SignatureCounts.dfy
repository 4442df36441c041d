/** When the counter tells the truth: signatures computed, counted and released, request by request. */
module SignatureCounts {
  import opened Bytes
  import opened Curve
  import opened Lockbox
  import opened Threads
  import Hex
  import LockboxRuns
  import BlindSign

  // ----- a schedule written down ----------------------------------------------------------

  datatype Log = Log(acts: seq<Action>, states: seq<State>)

  ghost predicate Taken(env: Env, log: Log, n: nat)
    requires ValidGroup(env.g)
  {
    && n < |log.acts| && |log.states| == |log.acts| + 1
    && Enabled(log.states[n], log.acts[n]) && log.states[n + 1] == Step(env, log.states[n], log.acts[n])
  }

  ghost predicate IsLog(env: Env, log: Log)
    requires ValidGroup(env.g)
  {
    && |log.states| == |log.acts| + 1 && log.states[0] == Initial
    && forall n :: 0 <= n < |log.acts| ==> Taken(env, log, n)
  }

  function Last(log: Log): State requires log.states != [] { log.states[|log.states| - 1] }

  lemma ExtendLog(env: Env, log: Log, a: Action)
    requires ValidGroup(env.g) && IsLog(env, log) && Enabled(Last(log), a)
    ensures IsLog(env, Log(log.acts + [a], log.states + [Step(env, Last(log), a)]))
  {
    var log' := Log(log.acts + [a], log.states + [Step(env, Last(log), a)]);
    forall n | 0 <= n < |log'.acts| ensures Taken(env, log', n) {
      if n < |log.acts| { assert Taken(env, log, n); }
    }
  }

  lemma {:induction false} LogExists(env: Env, acts: seq<Action>) returns (log: Log)
    requires ValidGroup(env.g) && Schedule(env, Initial, acts)
    ensures IsLog(env, log) && log.acts == acts && Last(log) == RunFrom(env, Initial, acts)
    decreases |acts|
  {
    if acts == [] {
      log := Log([], [Initial]);
    } else {
      var m := |acts| - 1;
      assert acts == acts[..m] + [acts[m]];
      RunSplits(env, Initial, acts[..m], [acts[m]]);
      var before := LogExists(env, acts[..m]);
      var s := Last(before);
      UnfoldRun(env, s, [acts[m]]);
      ExtendLog(env, before, acts[m]);
      log := Log(acts, before.states + [Step(env, s, acts[m])]);
    }
  }

  lemma {:induction false} LogInv(env: Env, log: Log, n: nat)
    requires ValidGroup(env.g) && IsLog(env, log) && n <= |log.acts|
    ensures Inv(log.states[n])
  {
    if n == 0 {
      InitialInv();
    } else {
      LogInv(env, log, n - 1);
      assert Taken(env, log, n - 1);
      StepKeepsInv(env, log.states[n - 1], log.acts[n - 1]);
    }
  }

  // ----- the fate of a request ------------------------------------------------------------

  /** Its commit went through as far as the handler knows, or in doubt; it replied; the counter was full. */
  datatype Fate = Fate(committed: bool, doubtful: bool, replied: bool, refused: bool)

  predicate Writes(a: Action, tid: nat) { a == Commit(tid) || a == CommitInDoubt(tid) }

  /** The database turns the increment of `tid` down in state `s`. */
  predicate TurnedDown(s: State, tid: nat) { tid in s.threads && CountExhausted(s.table, s.threads[tid].call.id) }

  function NextFate(f: Fate, s: State, a: Action, tid: nat): Fate
  {
    Fate(f.committed || a == Commit(tid), f.doubtful || a == CommitInDoubt(tid), f.replied || a == Reply(tid),
         f.refused || (Writes(a, tid) && TurnedDown(s, tid)))
  }

  function FateAt(log: Log, n: nat, tid: nat): Fate
    requires n <= |log.acts| < |log.states|
  {
    if n == 0 then Fate(false, false, false, false)
    else NextFate(FateAt(log, n - 1, tid), log.states[n - 1], log.acts[n - 1], tid)
  }

  /** Some write of `tid` before step `n` was turned down. */
  ghost predicate Refused(log: Log, n: nat, tid: nat)
    requires n <= |log.acts| < |log.states|
  {
    exists i :: 0 <= i < n && Writes(log.acts[i], tid) && TurnedDown(log.states[i], tid)
  }

  /** What the fate records is what the schedule contains. */
  lemma {:induction false} FateMeans(log: Log, n: nat, tid: nat)
    requires n <= |log.acts| < |log.states|
    ensures FateAt(log, n, tid).committed <==> Commit(tid) in log.acts[..n]
    ensures FateAt(log, n, tid).doubtful <==> CommitInDoubt(tid) in log.acts[..n]
    ensures FateAt(log, n, tid).replied <==> Reply(tid) in log.acts[..n]
    ensures FateAt(log, n, tid).refused <==> Refused(log, n, tid)
  {
    if n > 0 {
      FateMeans(log, n - 1, tid);
      assert log.acts[..n] == log.acts[..n - 1] + [log.acts[n - 1]];
    }
  }

  /** How a signing request's record reflects its fate. */
  ghost predicate Story(t: Thread, f: Fate)
  {
    && (t.phase.Ready? || t.phase.Holding? || t.phase.Writing? ==> !f.committed && !f.doubtful && !f.replied && !f.refused)
    && (t.phase.Writing? ==> t.phase.answer.PartialSig?)
    && (t.counted <==> (f.committed || f.doubtful) && !f.refused)
    && (t.phase.Replying? ==> !f.replied && (t.phase.answer.PartialSig? <==> f.committed && !f.refused))
    && (t.reply.Some? <==> f.replied)
    && (t.reply.Some? ==> (t.reply.value.PartialSig? <==> f.committed && !f.refused))
  }

  ghost predicate StoryOf(s: State, tid: nat, f: Fate)
  {
    if tid !in s.threads then f == Fate(false, false, false, false)
    else s.threads[tid].call.Sign? ==> Story(s.threads[tid], f)
  }

  lemma StoryStep(env: Env, s: State, a: Action, tid: nat, f: Fate)
    requires ValidGroup(env.g) && Inv(s) && Enabled(s, a) && StoryOf(s, tid, f)
    ensures StoryOf(Step(env, s, a), tid, NextFate(f, s, a, tid))
  {
    if tid in s.threads {
      var t := s.threads[tid];
      assert ThreadOk(t);
      if a == Compute(tid) { ComputedShape(env, t.call, t.phase.load); }
    }
  }

  lemma {:induction false} StoryAt(env: Env, log: Log, n: nat, tid: nat)
    requires ValidGroup(env.g) && IsLog(env, log) && n <= |log.acts|
    ensures StoryOf(log.states[n], tid, FateAt(log, n, tid))
  {
    if n > 0 {
      StoryAt(env, log, n - 1, tid);
      LogInv(env, log, n - 1);
      assert Taken(env, log, n - 1);
      StoryStep(env, log.states[n - 1], log.acts[n - 1], tid, FateAt(log, n - 1, tid));
    }
  }

  /** A request's signature is counted exactly when a commit of it went through, known to the handler or not. */
  lemma CountedExactly(env: Env, log: Log, id: string, tid: nat)
    requires ValidGroup(env.g) && IsLog(env, log) && tid in ComputedFor(Last(log), id)
    ensures tid in CountedFor(Last(log), id) <==>
            (Commit(tid) in log.acts || CommitInDoubt(tid) in log.acts) && !Refused(log, |log.acts|, tid)
  {
    var n := |log.acts|;
    StoryAt(env, log, n, tid);
    FateMeans(log, n, tid);
    assert log.acts[..n] == log.acts;
  }

  /** And released exactly when the handler saw its commit go through and then answered. */
  lemma ReleasedExactly(env: Env, log: Log, id: string, tid: nat)
    requires ValidGroup(env.g) && IsLog(env, log) && tid in ComputedFor(Last(log), id)
    ensures tid in ReleasedFor(Last(log), id) <==>
            Commit(tid) in log.acts && Reply(tid) in log.acts && !Refused(log, |log.acts|, tid)
  {
    var n := |log.acts|;
    StoryAt(env, log, n, tid);
    FateMeans(log, n, tid);
    assert log.acts[..n] == log.acts;
  }

  // ----- when the counter tells the truth ---------------------------------------------------

  /** Every signature computed for `id` had its commit go through. */
  ghost predicate AllCommitted(log: Log, id: string)
    requires |log.states| == |log.acts| + 1
  {
    forall tid :: tid in ComputedFor(Last(log), id) ==>
      (Commit(tid) in log.acts || CommitInDoubt(tid) in log.acts) && !Refused(log, |log.acts|, tid)
  }

  /** Every signature computed for `id` was committed to the handler's knowledge and then answered. */
  ghost predicate AllAnswered(log: Log, id: string)
    requires |log.states| == |log.acts| + 1
  {
    forall tid :: tid in ComputedFor(Last(log), id) ==>
      Commit(tid) in log.acts && Reply(tid) in log.acts && !Refused(log, |log.acts|, tid)
  }

  lemma SetsNest(env: Env, log: Log, id: string)
    requires ValidGroup(env.g) && IsLog(env, log)
    ensures ReleasedFor(Last(log), id) <= CountedFor(Last(log), id) <= ComputedFor(Last(log), id)
  {
    LogInv(env, log, |log.acts|);
    forall tid | tid in Last(log).threads ensures ThreadOk(Last(log).threads[tid]) {
    }
  }

  lemma SameSize(a: set<nat>, b: set<nat>)
    requires a <= b
    ensures |a| == |b| <==> a == b
  {
    assert b == a + (b - a);
  }

  /**
   * The counter is the number of signatures generated exactly when no commit of one was lost, and
   * the number of signatures released equals it as well exactly when each was also answered.
   */
  lemma CountIsExact(env: Env, log: Log, id: string)
    requires ValidGroup(env.g) && IsLog(env, log) && RegisteredOnce(Last(log), id)
    ensures ReportedCount(Last(log), id) == |ComputedFor(Last(log), id)| <==> AllCommitted(log, id)
    ensures |ReleasedFor(Last(log), id)| == ReportedCount(Last(log), id) == |ComputedFor(Last(log), id)| <==> AllAnswered(log, id)
  {
    var s := Last(log);
    SetsNest(env, log, id);
    LogInv(env, log, |log.acts|);
    assert CountOk(s, id);
    LockboxRuns.FirstOfRows(s.table, id);
    SameSize(CountedFor(s, id), ComputedFor(s, id));
    SameSize(ReleasedFor(s, id), CountedFor(s, id));
    forall tid | tid in ComputedFor(s, id)
      ensures tid in CountedFor(s, id) <==> (Commit(tid) in log.acts || CommitInDoubt(tid) in log.acts) && !Refused(log, |log.acts|, tid)
      ensures tid in ReleasedFor(s, id) <==> Commit(tid) in log.acts && Reply(tid) in log.acts && !Refused(log, |log.acts|, tid)
    {
      CountedExactly(env, log, id, tid);
      ReleasedExactly(env, log, id, tid);
    }
  }

  // ----- and when it does not ---------------------------------------------------------------

  /** From any state, a new request up to the point where it holds its statement. */
  function Prepare(tid: nat, c: Call): seq<Action> { [Accept(tid, c), Load(tid), Compute(tid)] }

  /** The record of a request that holds its statement, and once the statement is applied. */
  function Pending(c: Call, st: Statement, r: Response): Thread
  {
    Thread(c, Writing(st, r), if r.PartialSig? then Some(r.sig) else None, false, None)
  }

  function Stored(c: Call, st: Statement, r: Response): Thread { Pending(c, st, r).(phase := Replying(r), counted := c.Sign?) }

  /** The state with one request's record put in. */
  function Put(s: State, tid: nat, t: Thread): State { s.(threads := s.threads[tid := t]) }

  lemma PutTwice(s: State, tid: nat, t: Thread, t': Thread)
    ensures Put(Put(s, tid, t), tid, t') == Put(s, tid, t')
  {
    assert s.threads[tid := t][tid := t'] == s.threads[tid := t'];
  }

  lemma LoadStep(env: Env, s: State, tid: nat, c: Call)
    requires ValidGroup(env.g) && !c.Count?
    ensures var s1 := Put(s, tid, Thread(c, Ready, None, false, None));
            Enabled(s1, Load(tid)) &&
            Step(env, s1, Load(tid)) == Put(s, tid, Thread(c, Holding(LoadKeyData(s.table, c.id, WithNonce(c))), None, false, None))
  {
    PutTwice(s, tid, Thread(c, Ready, None, false, None), Thread(c, Holding(LoadKeyData(s.table, c.id, WithNonce(c))), None, false, None));
  }

  lemma ComputeStep(env: Env, s: State, tid: nat, c: Call, l: Load, st: Statement, r: Response)
    requires ValidGroup(env.g) && Computed(env, c, l) == (st, r) && !st.Nothing?
    ensures var s2 := Put(s, tid, Thread(c, Holding(l), None, false, None));
            Enabled(s2, Compute(tid)) && Step(env, s2, Compute(tid)) == Put(s, tid, Pending(c, st, r))
  {
    PutTwice(s, tid, Thread(c, Holding(l), None, false, None), Pending(c, st, r));
  }

  lemma CommitStep(env: Env, s: State, tid: nat, c: Call, st: Statement, r: Response)
    requires ValidGroup(env.g) && Admissible(s.table, c.id, st)
    ensures var s3 := Put(s, tid, Pending(c, st, r));
            Enabled(s3, Commit(tid)) && Step(env, s3, Commit(tid)) == Put(Applied(s, c.id, st), tid, Stored(c, st, r))
  {
    PutTwice(s, tid, Pending(c, st, r), Stored(c, st, r));
  }

  /** One more action at the end of a schedule. */
  lemma OneMore(env: Env, s: State, acts: seq<Action>, a: Action)
    requires ValidGroup(env.g) && Schedule(env, s, acts) && Enabled(RunFrom(env, s, acts), a)
    ensures Schedule(env, s, acts + [a]) && RunFrom(env, s, acts + [a]) == Step(env, RunFrom(env, s, acts), a)
  {
    UnfoldRun(env, RunFrom(env, s, acts), [a]);
    RunJoins(env, s, acts, [a]);
  }

  lemma Prepared(env: Env, s: State, tid: nat, c: Call, st: Statement, r: Response)
    requires ValidGroup(env.g) && tid !in s.threads && !c.Count?
    requires Computed(env, c, LoadKeyData(s.table, c.id, WithNonce(c))) == (st, r) && !st.Nothing?
    ensures Schedule(env, s, Prepare(tid, c)) && RunFrom(env, s, Prepare(tid, c)) == Put(s, tid, Pending(c, st, r))
  {
    OneMore(env, s, [], Accept(tid, c));
    LoadStep(env, s, tid, c);
    OneMore(env, s, [] + [Accept(tid, c)], Load(tid));
    ComputeStep(env, s, tid, c, LoadKeyData(s.table, c.id, WithNonce(c)), st, r);
    OneMore(env, s, [] + [Accept(tid, c)] + [Load(tid)], Compute(tid));
    assert [] + [Accept(tid, c)] + [Load(tid)] + [Compute(tid)] == Prepare(tid, c);
  }

  lemma Committed(env: Env, s: State, tid: nat, c: Call, st: Statement, r: Response)
    requires ValidGroup(env.g) && tid !in s.threads && !c.Count? && Decide(env, s.table, c) == (st, r) && !st.Nothing?
    ensures Schedule(env, s, Prepare(tid, c) + [Commit(tid)])
    ensures RunFrom(env, s, Prepare(tid, c) + [Commit(tid)]) == Put(Applied(s, c.id, st), tid, Stored(c, st, r))
  {
    Prepared(env, s, tid, c, st, r);
    CommitStep(env, s, tid, c, st, r);
    OneMore(env, s, Prepare(tid, c), Commit(tid));
  }

  lemma Registers(env: Env, id: string, key: int, nonce: seq<Byte>)
    requires ValidEnv(env) && IsKey(env.g, key) && |nonce| == 24
    ensures var c := NewKey(id, [ToBigEndian(key, 32)], nonce);
            && Decide(env, [], c) == (Insert(Row(id, Some(Seal(env, nonce, KeypairBytes(key))), None, None, key, 0)), PublicKey(key))
            && LockboxRuns.Coherent(env, Handle(env, [], c).0) && First(Handle(env, [], c).0, id).Some?
            && First(Handle(env, [], c).0, id).value.sigCount == 0
  {
    BigEndianRoundTrip(key, 32);
    LockboxRuns.HandleKeepsCoherence(env, [], NewKey(id, [ToBigEndian(key, 32)], nonce));
  }

  /** A statechain with a nonce and room in its counter, ready for a signature. */
  ghost predicate ReadyToSign(env: Env, t: Table, id: string, k1: int, k2: int)
  {
    LockboxRuns.Coherent(env, t) && First(t, id).Some? && First(t, id).value.sigCount < MAX_COUNT
    && LockboxRuns.HoldsNonce(env, First(t, id).value, k1, k2)
  }

  lemma DrawsNonce(env: Env, t: Table, id: string, k1: nat, k2: nat, nonce: seq<Byte>)
    requires ValidEnv(env) && LockboxRuns.Coherent(env, t) && First(t, id).Some? && First(t, id).value.sigCount == 0
    requires LockboxRuns.ValidCall(env.g, NewNonce(id, k1, k2, nonce))
    ensures var c := NewNonce(id, k1, k2, nonce);
            && Decide(env, t, c).0.Change? && Decide(env, t, c).0.change.SetNonce?
            && ReadyToSign(env, Handle(env, t, c).0, id, k1, k2)
  {
    var c := NewNonce(id, k1, k2, nonce);
    LockboxRuns.NonceAlwaysServed(env, t, id, k1, k2, nonce);
    LockboxRuns.NonceStored(env, t, id, k1, k2, nonce);
    LockboxRuns.HandleKeepsCoherence(env, t, c);
    var st := Decide(env, t, c).0;
    assert st.Change? && st.change.SetNonce?;
    LockboxRuns.FirstAfterUpdate(t, id, st.change);
  }

  lemma Signs(env: Env, t: Table, id: string, k1: int, k2: int, negate: int, session: string)
    requires ValidEnv(env) && ReadyToSign(env, t, id, k1, k2) && LockboxRuns.Signable(env, session)
    ensures Decide(env, t, Sign(id, negate, session)).0 == Change(CountSignature)
    ensures Decide(env, t, Sign(id, negate, session)).1.PartialSig?
  {
    LockboxRuns.SignAnswer(env, t, id, negate, session, k1, k2);
    SignDecides(env, t, Sign(id, negate, session));
  }

  lemma SignDecides(env: Env, t: Table, c: Call)
    requires ValidGroup(env.g) && c.Sign? && Handle(env, t, c).1.PartialSig?
    ensures Decide(env, t, c).0 == Change(CountSignature) && Decide(env, t, c).1.PartialSig?
  {
    ComputedShape(env, c, LoadKeyData(t, c.id, WithNonce(c)));
  }

  /** A statechain registered once, and no signature request yet. */
  ghost predicate Unsigned(s: State, id: string)
  {
    && First(s.table, id).Some? && First(s.table, id).value.sigCount == 0 && RegisteredOnce(s, id)
    && forall tid :: tid in s.threads ==> tid < 2 && !s.threads[tid].call.Sign?
  }

  lemma SetUp(env: Env, id: string, key: int, k1: nat, k2: nat, nonce: seq<Byte>) returns (acts: seq<Action>)
    requires ValidEnv(env) && IsKey(env.g, key) && LockboxRuns.ValidCall(env.g, NewNonce(id, k1, k2, nonce))
    ensures Schedule(env, Initial, acts) && Unsigned(RunFrom(env, Initial, acts), id)
    ensures ReadyToSign(env, RunFrom(env, Initial, acts).table, id, k1, k2)
  {
    var a0 := Registration(env, id, key, nonce);
    var s1 := RunFrom(env, Initial, a0);
    DrawsNonce(env, s1.table, id, k1, k2, nonce);
    var c := NewNonce(id, k1, k2, nonce);
    var (st, r) := Decide(env, s1.table, c);
    Committed(env, s1, 1, c, st, r);
    StillUnsigned(s1, id, st, Stored(c, st, r));
    RunJoins(env, Initial, a0, Prepare(1, c) + [Commit(1)]);
    acts := a0 + (Prepare(1, c) + [Commit(1)]);
  }

  lemma StillUnsigned(s: State, id: string, st: Statement, t: Thread)
    requires Unsigned(s, id) && st.Change? && st.change.SetNonce? && !t.call.Sign?
    ensures Unsigned(Put(Applied(s, id, st), 1, t), id)
  {
    LockboxRuns.FirstAfterUpdate(s.table, id, st.change);
  }

  lemma Registration(env: Env, id: string, key: int, nonce: seq<Byte>) returns (acts: seq<Action>)
    requires ValidEnv(env) && IsKey(env.g, key) && |nonce| == 24
    ensures Schedule(env, Initial, acts)
    ensures var s := RunFrom(env, Initial, acts);
            && LockboxRuns.Coherent(env, s.table) && Unsigned(s, id) && 1 !in s.threads
            && |s.table| == 1 && s.table[0].id == id && s.table[0].publicKey == key
  {
    var c := NewKey(id, [ToBigEndian(key, 32)], nonce);
    Registers(env, id, key, nonce);
    var (st, r) := Decide(env, [], c);
    Committed(env, Initial, 0, c, st, r);
    acts := Prepare(0, c) + [Commit(0)];
  }

  /**
   * Two ways to part: a crash between computing and committing leaves a signature that is not
   * counted, a crash between committing and answering one that is counted and never released.
   * Every lockbox that can sign at all has both schedules.
   */
  lemma CrashSeparates(env: Env, id: string, key: int, k1: nat, k2: nat, nonce: seq<Byte>, negate: int, session: string)
    returns (uncounted: seq<Action>, unreleased: seq<Action>)
    requires ValidEnv(env) && IsKey(env.g, key) && LockboxRuns.ValidCall(env.g, NewNonce(id, k1, k2, nonce))
    requires LockboxRuns.Signable(env, session)
    ensures Schedule(env, Initial, uncounted) && RegisteredOnce(RunFrom(env, Initial, uncounted), id)
    ensures ReportedCount(RunFrom(env, Initial, uncounted), id) == 0 < |ComputedFor(RunFrom(env, Initial, uncounted), id)|
    ensures Schedule(env, Initial, unreleased) && RegisteredOnce(RunFrom(env, Initial, unreleased), id)
    ensures ReleasedFor(RunFrom(env, Initial, unreleased), id) == {} && ReportedCount(RunFrom(env, Initial, unreleased), id) == 1
  {
    var acts := SetUp(env, id, key, k1, k2, nonce);
    var s, c := RunFrom(env, Initial, acts), Sign(id, negate, session);
    Signs(env, s.table, id, k1, k2, negate, session);
    var r := Decide(env, s.table, c).1;
    uncounted := acts + (Prepare(2, c) + [Crash]);
    CrashUncounted(env, s, id, c, r);
    RunJoins(env, Initial, acts, Prepare(2, c) + [Crash]);
    unreleased := acts + (Prepare(2, c) + [Commit(2)] + [Crash]);
    CrashUnreleased(env, s, id, c, r);
    RunJoins(env, Initial, acts, Prepare(2, c) + [Commit(2)] + [Crash]);
  }

  lemma CrashUncounted(env: Env, s: State, id: string, c: Call, r: Response)
    requires ValidGroup(env.g) && Unsigned(s, id) && c.Sign? && c.id == id
    requires Decide(env, s.table, c) == (Change(CountSignature), r) && r.PartialSig?
    ensures Schedule(env, s, Prepare(2, c) + [Crash])
    ensures var s' := RunFrom(env, s, Prepare(2, c) + [Crash]);
            RegisteredOnce(s', id) && ReportedCount(s', id) == 0 && 2 in ComputedFor(s', id)
  {
    Prepared(env, s, 2, c, Change(CountSignature), r);
    OneMore(env, s, Prepare(2, c), Crash);
    Uncounted(env, s, id, Pending(c, Change(CountSignature), r));
  }

  lemma Uncounted(env: Env, s: State, id: string, t: Thread)
    requires ValidGroup(env.g) && Unsigned(s, id) && SignsFor(t, id) && t.sig.Some?
    ensures var s' := Step(env, Put(s, 2, t), Crash);
            RegisteredOnce(s', id) && ReportedCount(s', id) == 0 && 2 in ComputedFor(s', id)
  {
  }

  lemma CrashUnreleased(env: Env, s: State, id: string, c: Call, r: Response)
    requires ValidGroup(env.g) && Unsigned(s, id) && c.Sign? && c.id == id
    requires Decide(env, s.table, c) == (Change(CountSignature), r) && r.PartialSig?
    ensures Schedule(env, s, Prepare(2, c) + [Commit(2)] + [Crash])
    ensures var s' := RunFrom(env, s, Prepare(2, c) + [Commit(2)] + [Crash]);
            RegisteredOnce(s', id) && ReportedCount(s', id) == 1 && ReleasedFor(s', id) == {}
  {
    Committed(env, s, 2, c, Change(CountSignature), r);
    OneMore(env, s, Prepare(2, c) + [Commit(2)], Crash);
    Unreleased(env, s, id, Stored(c, Change(CountSignature), r));
  }

  lemma Unreleased(env: Env, s: State, id: string, t: Thread)
    requires ValidGroup(env.g) && Unsigned(s, id) && t.reply.None?
    ensures var s' := Step(env, Put(Applied(s, id, Change(CountSignature)), 2, t), Crash);
            RegisteredOnce(s', id) && ReportedCount(s', id) == 1 && ReleasedFor(s', id) == {}
  {
    LockboxRuns.FirstAfterUpdate(s.table, id, CountSignature);
  }
}

/** What the receiver's check guarantees together with the count the lockbox answers. */
module ReceiverRuns {
  import opened Bytes
  import opened Curve
  import opened Locktime
  import opened Lockbox
  import opened Threads
  import opened SignatureCounts
  import opened Receiver

  // ----- sessions ---------------------------------------------------------------------------

  function SessionsOf(s: State, tids: set<nat>): set<string>
  {
    set tid | tid in tids && tid in s.threads && s.threads[tid].call.Sign? :: s.threads[tid].call.session
  }

  /** The sessions whose half signature has left the lockbox. */
  function ReleasedSessions(s: State, id: string): set<string> { SessionsOf(s, ReleasedFor(s, id)) }

  function Sessions(bs: seq<Backup>): set<string> { set i | 0 <= i < |bs| :: bs[i].session }

  predicate SameSession(s: State, a: nat, b: nat)
  {
    && a in s.threads && b in s.threads && s.threads[a].call.Sign? && s.threads[b].call.Sign?
    && s.threads[a].call.session == s.threads[b].call.session
  }

  /** No two of the requests have the same session. */
  ghost predicate OneEach(s: State, tids: set<nat>)
  {
    forall a, b :: a in tids && b in tids && SameSession(s, a, b) ==> a == b
  }

  /** There are no more sessions than requests, and as many only when each has its own. */
  lemma {:induction false} ImageSize(s: State, tids: set<nat>)
    ensures |SessionsOf(s, tids)| <= |tids|
    ensures |SessionsOf(s, tids)| == |tids| ==> OneEach(s, tids)
    decreases |tids|
  {
    if tids != {} {
      var x :| x in tids;
      ImageSize(s, tids - {x});
      ImageStep(s, tids, x);
    }
  }

  lemma ImageStep(s: State, tids: set<nat>, x: nat)
    requires x in tids && |SessionsOf(s, tids - {x})| <= |tids - {x}|
    requires |SessionsOf(s, tids - {x})| == |tids - {x}| ==> OneEach(s, tids - {x})
    ensures |SessionsOf(s, tids)| <= |tids|
    ensures |SessionsOf(s, tids)| == |tids| ==> OneEach(s, tids)
  {
    var rest := SessionsOf(s, tids - {x});
    if x in s.threads && s.threads[x].call.Sign? {
      var own := s.threads[x].call.session;
      assert SessionsOf(s, tids) == rest + {own};
      if |SessionsOf(s, tids)| == |tids| {
        assert own !in rest;
        assert forall a :: a in tids && a != x ==> a in tids - {x};
        assert forall a :: a in tids - {x} && a in s.threads && s.threads[a].call.Sign? ==> s.threads[a].call.session in rest;
      }
    } else {
      assert SessionsOf(s, tids) == rest;
    }
  }

  // ----- the message has as many sessions as backups ----------------------------------------

  /** Each lock is later than every lock after it by at least the interval. */
  ghost predicate Falling(chain: seq<Backup>, interval: int)
  {
    forall i, j :: 0 <= i < j < |chain| ==> chain[i].tx.lockTime >= chain[j].tx.lockTime + interval
  }

  ghost predicate AllFalling(bs: seq<Backup>, os: seq<Outpoint>, interval: int)
    requires AllSpend(bs)
  {
    forall i :: 0 <= i < |os| ==> Falling(Chain(bs, os[i]), interval)
  }

  lemma AcceptedFalling(bs: seq<Backup>, answers: nat -> Answer, amounts: Outpoint -> int, c: Terms)
    requires ValidTerms(c) && Exact(c) && 0 < c.interval && ValidBackups(bs) && MessageAccepted(bs, answers, amounts, c)
    ensures AllFalling(bs, Sources(bs), c.interval)
  {
    forall k | 0 <= k < |Sources(bs)| ensures Falling(Chain(bs, Sources(bs)[k]), c.interval) {
      var o := Sources(bs)[k];
      var chain := Chain(bs, o);
      assert ChainPasses(bs, k, answers, amounts, c);
      ChainInMessage(bs, o);
      assert ValidBackups(chain);
      forall i, j | 0 <= i < j < |chain| ensures chain[i].tx.lockTime >= chain[j].tx.lockTime + c.interval {
        NewestIsFirst(chain, answers(k).infos, amounts(o), c, i, j);
      }
    }
  }

  /** A chain holds exactly the message's backups on its outpoint. */
  lemma ChainInMessage(bs: seq<Backup>, o: Outpoint)
    requires AllSpend(bs)
    ensures forall i :: 0 <= i < |Chain(bs, o)| ==> Chain(bs, o)[i] in bs
    ensures forall i :: 0 <= i < |bs| && Source(bs[i]) == o ==> bs[i] in Chain(bs, o)
  {
    SpendingMembers(bs, o);
    SortedFacts(Spending(bs, o));
    SameElements(Chain(bs, o), Spending(bs, o));
    SameElements(Spending(bs, o), Chain(bs, o));
    forall i | 0 <= i < |bs| && Source(bs[i]) == o ensures bs[i] in Chain(bs, o) {
      var k :| 0 <= k < |Spending(bs, o)| && Spending(bs, o)[k] == bs[i];
    }
  }

  lemma {:induction false} SpendingMembers(bs: seq<Backup>, o: Outpoint)
    requires AllSpend(bs)
    ensures forall b :: b in Spending(bs, o) ==> b in bs
    ensures forall i :: 0 <= i < |bs| && Source(bs[i]) == o ==> bs[i] in Spending(bs, o)
  {
    if bs != [] { SpendingMembers(bs[..|bs| - 1], o); }
  }

  /** A session signed one transaction: `signed` gives its outpoint and its locktime. */
  ghost predicate SessionsFix(bs: seq<Backup>, signed: string -> (Outpoint, int))
  {
    AllSpend(bs) && forall i :: 0 <= i < |bs| ==> signed(bs[i].session) == (Source(bs[i]), bs[i].tx.lockTime)
  }

  lemma {:induction false} DistinctSize(bs: seq<Backup>)
    requires forall i, j :: 0 <= i < j < |bs| ==> bs[i].session != bs[j].session
    ensures |Sessions(bs)| == |bs|
  {
    if bs != [] {
      var n := |bs| - 1;
      DistinctSize(bs[..n]);
      assert Sessions(bs) == Sessions(bs[..n]) + {bs[n].session};
      assert bs[n].session !in Sessions(bs[..n]);
    }
  }

  lemma ChainSize(bs: seq<Backup>, o: Outpoint, signed: string -> (Outpoint, int), interval: int)
    requires SessionsFix(bs, signed) && 0 < interval && Falling(Chain(bs, o), interval)
    ensures |Sessions(Chain(bs, o))| == |Chain(bs, o)|
    ensures forall session :: session in Sessions(Chain(bs, o)) ==> signed(session).0 == o
  {
    var chain := Chain(bs, o);
    ChainInMessage(bs, o);
    ChainFacts(bs, o);
    forall i | 0 <= i < |chain| ensures signed(chain[i].session) == (o, chain[i].tx.lockTime) {
      var k :| 0 <= k < |bs| && bs[k] == chain[i];
    }
    forall i, j | 0 <= i < j < |chain| ensures chain[i].session != chain[j].session {
      assert chain[i].tx.lockTime >= chain[j].tx.lockTime + interval;
    }
    DistinctSize(chain);
  }

  lemma SessionsJoin(a: seq<Backup>, b: seq<Backup>)
    ensures Sessions(a + b) == Sessions(a) + Sessions(b)
  {
    forall session | session in Sessions(a) + Sessions(b) ensures session in Sessions(a + b) {
      if session in Sessions(a) {
        var i :| 0 <= i < |a| && a[i].session == session;
        assert (a + b)[i].session == session;
      } else {
        var i :| 0 <= i < |b| && b[i].session == session;
        assert (a + b)[|a| + i].session == session;
      }
    }
  }

  lemma DisjointSum(a: set<string>, b: set<string>)
    requires a !! b
    ensures |a + b| == |a| + |b|
  {
  }

  lemma {:induction false} FlatSize(bs: seq<Backup>, os: seq<Outpoint>, signed: string -> (Outpoint, int), interval: int)
    requires SessionsFix(bs, signed) && 0 < interval && AllFalling(bs, os, interval) && Distinct(os)
    ensures |Sessions(Flat(Chains(bs, os)))| == |Flat(Chains(bs, os))|
    ensures forall session :: session in Sessions(Flat(Chains(bs, os))) ==> signed(session).0 in os
    decreases |os|
  {
    if os != [] {
      var first, rest := Chain(bs, os[0]), Flat(Chains(bs, os[1..]));
      assert AllFalling(bs, os[1..], interval) by {
        assert forall i :: 0 <= i < |os| - 1 ==> os[1..][i] == os[i + 1];
      }
      FlatSize(bs, os[1..], signed, interval);
      ChainSize(bs, os[0], signed, interval);
      assert Chains(bs, os)[1..] == Chains(bs, os[1..]);
      SessionsJoin(first, rest);
      assert os[0] !in os[1..];
      DisjointSum(Sessions(first), Sessions(rest));
    }
  }

  lemma SameSessions(a: seq<Backup>, b: seq<Backup>)
    requires multiset(a) == multiset(b)
    ensures |a| == |b| && Sessions(a) == Sessions(b)
  {
    SameElements(a, b);
    SameElements(b, a);
    forall session | session in Sessions(a) ensures session in Sessions(b) {
      var i :| 0 <= i < |a| && a[i].session == session;
      var j :| 0 <= j < |b| && b[j] == a[i];
    }
    forall session | session in Sessions(b) ensures session in Sessions(a) {
      var i :| 0 <= i < |b| && b[i].session == session;
      var j :| 0 <= j < |a| && a[j] == b[i];
    }
  }

  lemma MessageSize(bs: seq<Backup>, signed: string -> (Outpoint, int), interval: int)
    requires SessionsFix(bs, signed) && 0 < interval && AllFalling(bs, Sources(bs), interval)
    ensures |Sessions(bs)| == |bs|
  {
    SplitIsPartition(bs);
    FlatSize(bs, Sources(bs), signed, interval);
    SameSessions(Flat(Chains(bs, Sources(bs))), bs);
  }

  // ----- the answered count -----------------------------------------------------------------

  /** Request `tid` asked for the count of `id` and was told `k`. */
  predicate Told(s: State, tid: nat, id: string, k: int)
  {
    tid in s.threads && s.threads[tid].call == Count(id) && s.threads[tid].reply == Some(SigCount(k))
  }

  /** A count request that has loaded: it replies with that answer or not at all. */
  predicate AnswersWith(s: State, tid: nat, id: string, r: Response)
  {
    && tid in s.threads && s.threads[tid].call == Count(id)
    && var t := s.threads[tid];
       || (t.phase == Replying(r) && t.reply == None)
       || (t.phase == Finished && (t.reply == None || t.reply == Some(r)))
  }

  lemma StepKeepsAnswer(env: Env, s: State, a: Action, tid: nat, id: string, r: Response)
    requires ValidGroup(env.g) && Enabled(s, a) && AnswersWith(s, tid, id, r)
    ensures AnswersWith(Step(env, s, a), tid, id, r)
  {
  }

  lemma {:induction false} AnswerIsLoaded(env: Env, log: Log, asked: nat, n: nat, tid: nat, id: string)
    requires ValidGroup(env.g) && IsLog(env, log) && asked < n <= |log.acts| && log.acts[asked] == Load(tid)
    requires tid in log.states[asked].threads && log.states[asked].threads[tid].call == Count(id)
    requires log.states[asked].threads[tid].reply.None?
    ensures AnswersWith(log.states[n], tid, id, CountAnswer(log.states[asked].table, id))
    decreases n
  {
    assert Taken(env, log, n - 1);
    if n > asked + 1 {
      AnswerIsLoaded(env, log, asked, n - 1, tid, id);
      StepKeepsAnswer(env, log.states[n - 1], log.acts[n - 1], tid, id, CountAnswer(log.states[asked].table, id));
    }
  }

  /** What a request holds that could become a count in its reply. */
  predicate ShowsCount(t: Thread) { (t.phase.Replying? && t.phase.answer.SigCount?) || (t.reply.Some? && t.reply.value.SigCount?) }

  predicate WritesCount(t: Thread) { t.phase.Writing? && t.phase.answer.SigCount? }

  lemma StepShows(env: Env, s: State, a: Action, tid: nat)
    requires ValidGroup(env.g) && Enabled(s, a) && a != Load(tid)
    requires tid in s.threads ==> !ShowsCount(s.threads[tid]) && !WritesCount(s.threads[tid])
    ensures tid in Step(env, s, a).threads ==> !ShowsCount(Step(env, s, a).threads[tid]) && !WritesCount(Step(env, s, a).threads[tid])
  {
    if a == Compute(tid) { NoCountComputed(env, s.threads[tid].call, s.threads[tid].phase.load); }
  }

  lemma NoCountComputed(env: Env, c: Call, l: Load)
    requires ValidGroup(env.g)
    ensures !Computed(env, c, l).1.SigCount?
  {
  }

  /** The step at which a request loaded; -1 before. */
  lemma {:induction false} LoadOf(env: Env, log: Log, n: nat, tid: nat) returns (asked: int)
    requires ValidGroup(env.g) && IsLog(env, log) && n <= |log.acts|
    ensures -1 <= asked < n && (asked >= 0 ==> log.acts[asked] == Load(tid))
    ensures asked == -1 && tid in log.states[n].threads ==> !ShowsCount(log.states[n].threads[tid]) && !WritesCount(log.states[n].threads[tid])
  {
    if n == 0 {
      asked := -1;
    } else {
      asked := LoadOf(env, log, n - 1, tid);
      assert Taken(env, log, n - 1);
      if asked == -1 {
        if log.acts[n - 1] == Load(tid) { asked := n - 1; } else { StepShows(env, log.states[n - 1], log.acts[n - 1], tid); }
      }
    }
  }

  lemma {:induction false} LogGrows(env: Env, log: Log, m: nat, n: nat, id: string)
    requires ValidGroup(env.g) && IsLog(env, log) && m <= n <= |log.acts|
    ensures Grows(log.states[m], log.states[n], id)
    decreases n
  {
    if m < n {
      LogGrows(env, log, m, n - 1, id);
      LogInv(env, log, n - 1);
      assert Taken(env, log, n - 1);
      StepGrows(env, log.states[n - 1], log.acts[n - 1], id);
    }
  }

  /** Every count that is told was the counter at the moment the request loaded it. */
  lemma ToldIsLoaded(env: Env, log: Log, tid: nat, id: string, k: int) returns (asked: nat)
    requires ValidGroup(env.g) && IsLog(env, log) && Told(Last(log), tid, id, k)
    ensures asked < |log.acts| && log.acts[asked] == Load(tid) && ReportedCount(log.states[asked], id) == k
  {
    var n := |log.acts|;
    var at := LoadOf(env, log, n, tid);
    assert at >= 0;
    asked := at;
    LoadedAs(env, log, asked, tid, id);
    AnswerIsLoaded(env, log, asked, n, tid, id);
  }

  lemma LoadedAs(env: Env, log: Log, asked: nat, tid: nat, id: string)
    requires ValidGroup(env.g) && IsLog(env, log) && asked < |log.acts| && log.acts[asked] == Load(tid)
    requires tid in Last(log).threads && Last(log).threads[tid].call == Count(id)
    ensures tid in log.states[asked].threads && log.states[asked].threads[tid].call == Count(id)
    ensures log.states[asked].threads[tid].reply.None?
  {
    assert Taken(env, log, asked);
    LogInv(env, log, asked);
    assert ThreadOk(log.states[asked].threads[tid]);
    LogGrows(env, log, asked, |log.acts|, id);
  }

  /** The request replies with what it loaded, whenever that was. */
  lemma ToldAt(env: Env, log: Log, asked: nat, tid: nat, id: string, k: int)
    requires ValidGroup(env.g) && IsLog(env, log) && Told(Last(log), tid, id, k)
    requires asked < |log.acts| && log.acts[asked] == Load(tid)
    ensures ReportedCount(log.states[asked], id) == k
  {
    LoadedAs(env, log, asked, tid, id);
    AnswerIsLoaded(env, log, asked, |log.acts|, tid, id);
  }

  // ----- receiver safety --------------------------------------------------------------------

  /** The newest backup of a chain runs out before everything else released for its outpoint. */
  ghost predicate NewestFirst(s: State, id: string, chain: seq<Backup>, o: Outpoint, signed: string -> (Outpoint, int), interval: int)
  {
    && chain != []
    && var newest := chain[|chain| - 1];
       forall session :: session in ReleasedSessions(s, id) && signed(session).0 == o ==>
         session == newest.session || signed(session).1 >= newest.tx.lockTime + interval
  }

  /** The backups are all that was ever released, each once, and in every chain the newest comes first. */
  ghost predicate AllSeen(s: State, id: string, bs: seq<Backup>, signed: string -> (Outpoint, int), interval: int)
    requires AllSpend(bs)
  {
    && ReleasedSessions(s, id) == Sessions(bs) && |ReleasedFor(s, id)| == |bs| && OneEach(s, ReleasedFor(s, id))
    && forall k :: 0 <= k < |Sources(bs)| ==> NewestFirst(s, id, Chain(bs, Sources(bs)[k]), Sources(bs)[k], signed, interval)
  }

  lemma FullSubset(a: set<string>, b: set<string>)
    requires a <= b
    ensures |a| <= |b| && (|b| <= |a| ==> a == b)
  {
    assert b == a + (b - a);
  }

  /** A counter equal to the number of backups leaves no room for another release. */
  lemma AllReleased(s: State, id: string, bs: seq<Backup>)
    requires Inv(s) && RegisteredOnce(s, id) && ReportedCount(s, id) == Wrap32(|bs|)
    requires |Sessions(bs)| == |bs| && Sessions(bs) <= ReleasedSessions(s, id)
    ensures ReleasedSessions(s, id) == Sessions(bs) && |ReleasedFor(s, id)| == |bs| && OneEach(s, ReleasedFor(s, id))
  {
    InvBrackets(s, id);
    ImageSize(s, ReleasedFor(s, id));
    FullSubset(Sessions(bs), ReleasedSessions(s, id));
  }

  lemma ChainComesFirst(s: State, id: string, bs: seq<Backup>, k: nat, signed: string -> (Outpoint, int), interval: int)
    requires SessionsFix(bs, signed) && k < |Sources(bs)| && Falling(Chain(bs, Sources(bs)[k]), interval)
    requires ReleasedSessions(s, id) == Sessions(bs)
    ensures NewestFirst(s, id, Chain(bs, Sources(bs)[k]), Sources(bs)[k], signed, interval)
  {
    var o := Sources(bs)[k];
    var chain := Chain(bs, o);
    assert o in Sources(bs);
    ChainFacts(bs, o);
    ChainInMessage(bs, o);
    var newest := chain[|chain| - 1];
    forall session | session in Sessions(bs) && signed(session).0 == o
      ensures session == newest.session || signed(session).1 >= newest.tx.lockTime + interval
    {
      var i :| 0 <= i < |bs| && bs[i].session == session;
      var j :| 0 <= j < |chain| && chain[j] == bs[i];
      assert j < |chain| - 1 ==> chain[j].tx.lockTime >= newest.tx.lockTime + interval;
    }
  }

  lemma SeenAt(s: State, id: string, bs: seq<Backup>, answers: nat -> Answer, amounts: Outpoint -> int, c: Terms, signed: string -> (Outpoint, int))
    requires ValidTerms(c) && Exact(c) && 0 < c.interval && ValidBackups(bs) && MessageAccepted(bs, answers, amounts, c)
    requires SessionsFix(bs, signed) && Inv(s) && RegisteredOnce(s, id)
    requires ReportedCount(s, id) == Wrap32(|bs|) && Sessions(bs) <= ReleasedSessions(s, id)
    ensures AllSeen(s, id, bs, signed, c.interval)
  {
    AcceptedFalling(bs, answers, amounts, c);
    MessageSize(bs, signed, c.interval);
    AllReleased(s, id, bs);
    forall k | 0 <= k < |Sources(bs)|
      ensures NewestFirst(s, id, Chain(bs, Sources(bs)[k]), Sources(bs)[k], signed, c.interval)
    {
      ChainComesFirst(s, id, bs, k, signed, c.interval);
    }
  }

  /**
   * Receiver safety, in every interleaving of the lockbox. Request `tid` was told the count with
   * which the receiver accepted the message, and each presented signature had been released when
   * that request loaded the counter. Then at that moment the message held every signature ever
   * released, each released once, and the newest backup on each outpoint runs out before all
   * others on it by at least the interval.
   */
  lemma ReceiverSafety(env: Env, log: Log, asked: nat, tid: nat, id: string, bs: seq<Backup>, chain: nat, answers: nat -> Answer,
                       amounts: Outpoint -> int, c: Terms, signed: string -> (Outpoint, int))
    requires ValidGroup(env.g) && IsLog(env, log) && asked < |log.acts| && log.acts[asked] == Load(tid)
    requires ValidTerms(c) && Exact(c) && 0 < c.interval && ValidBackups(bs) && MessageAccepted(bs, answers, amounts, c)
    requires chain < |Sources(bs)| && Told(Last(log), tid, id, answers(chain).numSigs)
    requires RegisteredOnce(log.states[asked], id)
    requires SessionsFix(bs, signed) && Sessions(bs) <= ReleasedSessions(log.states[asked], id)
    ensures AllSeen(log.states[asked], id, bs, signed, c.interval)
  {
    assert ChainPasses(bs, chain, answers, amounts, c);
    ToldAt(env, log, asked, tid, id, answers(chain).numSigs);
    LogInv(env, log, asked);
    SeenAt(log.states[asked], id, bs, answers, amounts, c, signed);
  }

  lemma ReleasedGrows(env: Env, log: Log, m: nat, n: nat, id: string)
    requires ValidGroup(env.g) && IsLog(env, log) && m <= n <= |log.acts|
    ensures ReleasedSessions(log.states[m], id) <= ReleasedSessions(log.states[n], id)
  {
    LogGrows(env, log, m, n, id);
    var s, s' := log.states[m], log.states[n];
    forall session | session in ReleasedSessions(s, id) ensures session in ReleasedSessions(s', id) {
      var tid :| tid in ReleasedFor(s, id) && tid in s.threads && s.threads[tid].call.Sign? && s.threads[tid].call.session == session;
      assert tid in ReleasedFor(s', id) && s'.threads[tid].call == s.threads[tid].call;
    }
  }

  /** The receiver's own order is enough: the message is in hand before the count is asked for. */
  lemma MessageFirst(env: Env, log: Log, sent: nat, tid: nat, id: string, bs: seq<Backup>, chain: nat, answers: nat -> Answer,
                     amounts: Outpoint -> int, c: Terms, signed: string -> (Outpoint, int)) returns (asked: nat)
    requires ValidGroup(env.g) && IsLog(env, log) && sent <= |log.acts| && tid !in log.states[sent].threads
    requires ValidTerms(c) && Exact(c) && 0 < c.interval && ValidBackups(bs) && MessageAccepted(bs, answers, amounts, c)
    requires chain < |Sources(bs)| && Told(Last(log), tid, id, answers(chain).numSigs)
    requires forall n :: 0 <= n < |log.acts| && log.acts[n] == Load(tid) ==> RegisteredOnce(log.states[n], id)
    requires SessionsFix(bs, signed) && Sessions(bs) <= ReleasedSessions(log.states[sent], id)
    ensures sent <= asked < |log.acts| && log.acts[asked] == Load(tid) && AllSeen(log.states[asked], id, bs, signed, c.interval)
  {
    asked := ToldIsLoaded(env, log, tid, id, answers(chain).numSigs);
    LoadedAs(env, log, asked, tid, id);
    if asked < sent { LogGrows(env, log, asked, sent, id); }
    ReleasedGrows(env, log, sent, asked, id);
    ReceiverSafety(env, log, asked, tid, id, bs, chain, answers, amounts, c, signed);
  }

  /** And it stays so for as long as the counter does not move. */
  lemma SafetyLasts(env: Env, log: Log, asked: nat, now: nat, id: string, bs: seq<Backup>, answers: nat -> Answer,
                    amounts: Outpoint -> int, c: Terms, signed: string -> (Outpoint, int))
    requires ValidGroup(env.g) && IsLog(env, log) && asked <= now <= |log.acts|
    requires ValidTerms(c) && Exact(c) && 0 < c.interval && ValidBackups(bs) && MessageAccepted(bs, answers, amounts, c)
    requires SessionsFix(bs, signed) && AllSeen(log.states[asked], id, bs, signed, c.interval)
    requires RegisteredOnce(log.states[now], id) && ReportedCount(log.states[now], id) == Wrap32(|bs|)
    ensures AllSeen(log.states[now], id, bs, signed, c.interval)
  {
    ReleasedGrows(env, log, asked, now, id);
    LogInv(env, log, now);
    SeenAt(log.states[now], id, bs, answers, amounts, c, signed);
  }
}

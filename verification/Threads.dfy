/**
 * The lockbox with any number of requests in flight. One step is one database transaction, one
 * enclave computation or one reply; between two steps of a request any other request may move.
 * A commit may fail, or succeed although the handler is told that it failed, and the process
 * may die at any point.
 */
module Threads {
  import opened Bytes
  import opened Curve
  import opened Lockbox
  import LockboxRuns

  datatype Phase =
    | Ready
    | Holding(load: Load)
    | Writing(statement: Statement, answer: Response)
    | Replying(answer: Response)
    | Finished

  /** A request: what it has computed, whether its count was committed, what it has replied. */
  datatype Thread = Thread(call: Call, phase: Phase, sig: Option<int>, counted: bool, reply: Option<Response>)

  /** `inserts` and `deletes` record the registrations and the effective deletions so far. */
  datatype State = State(table: Table, threads: map<nat, Thread>, inserts: multiset<string>, deletes: set<string>)

  datatype Action =
    | Accept(tid: nat, call: Call)
    | Load(tid: nat)
    | LoadFails(tid: nat)
    | Compute(tid: nat)
    | Commit(tid: nat)
    | CommitFails(tid: nat)
    | CommitInDoubt(tid: nat)  // applied, but the handler sees an error
    | Reply(tid: nat)
    | Crash                    // every unfinished request is lost

  const Initial := State([], map[], multiset{}, {})

  // ----- steps ----------------------------------------------------------------------------

  predicate Enabled(s: State, a: Action)
  {
    match a
    case Accept(tid, _) => tid !in s.threads
    case Load(tid) => tid in s.threads && s.threads[tid].phase.Ready?
    case LoadFails(tid) => tid in s.threads && s.threads[tid].phase.Ready?
    case Compute(tid) => tid in s.threads && s.threads[tid].phase.Holding?
    case Commit(tid) => tid in s.threads && s.threads[tid].phase.Writing?
    case CommitFails(tid) => tid in s.threads && s.threads[tid].phase.Writing?
    case CommitInDoubt(tid) => tid in s.threads && s.threads[tid].phase.Writing?
    case Reply(tid) => tid in s.threads && s.threads[tid].phase.Replying?
    case Crash => true
  }

  /** The state after the statement of a request has been applied. */
  function Applied(s: State, id: string, st: Statement): State
  {
    s.(table := Perform(s.table, id, st),
       inserts := if st.Insert? then s.inserts + multiset{id} else s.inserts,
       deletes := if st.Erase? && Rows(s.table, id) != [] then s.deletes + {id} else s.deletes)
  }

  function Dead(t: Thread): Thread { t.(phase := Finished) }

  function Step(env: Env, s: State, a: Action): State
    requires ValidGroup(env.g) && Enabled(s, a)
  {
    match a
    case Accept(tid, call) =>
      s.(threads := s.threads[tid := Thread(call, Ready, None, false, None)])
    case Load(tid) =>
      var t := s.threads[tid];
      var l := LoadKeyData(s.table, t.call.id, WithNonce(t.call));
      s.(threads := s.threads[tid := t.(phase := if t.call.Count? then Replying(CountAnswer(s.table, t.call.id)) else Holding(l))])
    case LoadFails(tid) =>
      s.(threads := s.threads[tid := s.threads[tid].(phase := Replying(Rejected(500)))])
    case Compute(tid) =>
      var t := s.threads[tid];
      var (st, r) := Computed(env, t.call, t.phase.load);
      if st.Nothing? then s.(threads := s.threads[tid := t.(phase := Replying(r))])
      else s.(threads := s.threads[tid := t.(phase := Writing(st, r), sig := if r.PartialSig? then Some(r.sig) else None)])
    case Commit(tid) =>
      var t := s.threads[tid];
      var Writing(st, r) := t.phase;
      if !Admissible(s.table, t.call.id, st) then s.(threads := s.threads[tid := t.(phase := Replying(Rejected(500)))])
      else Applied(s, t.call.id, st).(threads := s.threads[tid := t.(phase := Replying(r), counted := t.call.Sign?)])
    case CommitFails(tid) =>
      s.(threads := s.threads[tid := s.threads[tid].(phase := Replying(Rejected(500)))])
    case CommitInDoubt(tid) =>
      var t := s.threads[tid];
      var st := t.phase.statement;
      if !Admissible(s.table, t.call.id, st) then s.(threads := s.threads[tid := t.(phase := Replying(Rejected(500)))])
      else Applied(s, t.call.id, st).(threads := s.threads[tid := t.(phase := Replying(Rejected(500)), counted := t.call.Sign?)])
    case Reply(tid) =>
      var t := s.threads[tid];
      s.(threads := s.threads[tid := t.(phase := Finished, reply := Some(t.phase.answer))])
    case Crash =>
      s.(threads := map tid | tid in s.threads :: Dead(s.threads[tid]))
  }

  /** A schedule: every action is possible when its turn comes. */
  predicate Schedule(env: Env, s: State, acts: seq<Action>)
    requires ValidGroup(env.g)
    decreases |acts|
  {
    acts == [] || (Enabled(s, acts[0]) && Schedule(env, Step(env, s, acts[0]), acts[1..]))
  }

  function RunFrom(env: Env, s: State, acts: seq<Action>): State
    requires ValidGroup(env.g) && Schedule(env, s, acts)
    decreases |acts|
  {
    if acts == [] then s else RunFrom(env, Step(env, s, acts[0]), acts[1..])
  }

  // ----- one request without interruption -------------------------------------------------

  /** The steps of a request that nothing interrupts. */
  function Uninterrupted(env: Env, t: Table, tid: nat, c: Call): seq<Action>
    requires ValidGroup(env.g)
  {
    if c.Count? then [Accept(tid, c), Load(tid), Reply(tid)]
    else if Computed(env, c, LoadKeyData(t, c.id, WithNonce(c))).0.Nothing?
    then [Accept(tid, c), Load(tid), Compute(tid), Reply(tid)]
    else [Accept(tid, c), Load(tid), Compute(tid), Commit(tid), Reply(tid)]
  }

  /** The two grains agree: an uninterrupted request does what its handler does in one step. */
  lemma UninterruptedIsAtomic(env: Env, s: State, tid: nat, c: Call)
    requires ValidGroup(env.g) && tid !in s.threads
    ensures var acts := Uninterrupted(env, s.table, tid, c);
            && Schedule(env, s, acts)
            && RunFrom(env, s, acts).table == Handle(env, s.table, c).0
            && tid in RunFrom(env, s, acts).threads
            && RunFrom(env, s, acts).threads[tid].reply == Some(Handle(env, s.table, c).1)
  {
    var s1 := Step(env, s, Accept(tid, c));
    var s2 := Step(env, s1, Load(tid));
    if c.Count? {
      FromHere(env, s2, Reply(tid), []);
      FromHere(env, s1, Load(tid), [Reply(tid)]);
      FromHere(env, s, Accept(tid, c), [Load(tid), Reply(tid)]);
    } else {
      var s3 := Step(env, s2, Compute(tid));
      var rest := if Computed(env, c, LoadKeyData(s.table, c.id, WithNonce(c))).0.Nothing? then [Reply(tid)] else [Commit(tid), Reply(tid)];
      AfterCompute(env, s3, tid, rest);
      FromHere(env, s2, Compute(tid), rest);
      FromHere(env, s1, Load(tid), [Compute(tid)] + rest);
      FromHere(env, s, Accept(tid, c), [Load(tid)] + ([Compute(tid)] + rest));
      assert [Accept(tid, c)] + ([Load(tid)] + ([Compute(tid)] + rest)) == Uninterrupted(env, s.table, tid, c);
    }
  }

  /** The last steps of a request that has computed: it commits if it has something to write, and replies. */
  lemma AfterCompute(env: Env, s: State, tid: nat, rest: seq<Action>)
    requires ValidGroup(env.g) && tid in s.threads
    requires || (s.threads[tid].phase.Replying? && rest == [Reply(tid)])
             || (s.threads[tid].phase.Writing? && rest == [Commit(tid), Reply(tid)])
    ensures Schedule(env, s, rest)
    ensures var t, s' := s.threads[tid], RunFrom(env, s, rest);
            && tid in s'.threads
            && if t.phase.Replying? then s'.table == s.table && s'.threads[tid].reply == Some(t.phase.answer)
               else if Admissible(s.table, t.call.id, t.phase.statement)
               then s'.table == Perform(s.table, t.call.id, t.phase.statement) && s'.threads[tid].reply == Some(t.phase.answer)
               else s'.table == s.table && s'.threads[tid].reply == Some(Rejected(500))
  {
    if s.threads[tid].phase.Replying? {
      FromHere(env, s, Reply(tid), []);
      assert [Reply(tid)] + [] == rest;
    } else {
      FromHere(env, Step(env, s, Commit(tid)), Reply(tid), []);
      assert [Reply(tid)] + [] == [Reply(tid)];
      FromHere(env, s, Commit(tid), [Reply(tid)]);
      assert [Commit(tid)] + [Reply(tid)] == rest;
    }
  }

  /** One action, and then a schedule from where it leads. */
  lemma FromHere(env: Env, s: State, a: Action, rest: seq<Action>)
    requires ValidGroup(env.g) && Enabled(s, a) && Schedule(env, Step(env, s, a), rest)
    ensures Schedule(env, s, [a] + rest) && RunFrom(env, s, [a] + rest) == RunFrom(env, Step(env, s, a), rest)
  {
    assert ([a] + rest)[1..] == rest;
  }

  lemma UnfoldRun(env: Env, s: State, acts: seq<Action>)
    requires ValidGroup(env.g) && acts != [] && Enabled(s, acts[0])
    ensures Schedule(env, s, acts) <==> Schedule(env, Step(env, s, acts[0]), acts[1..])
    ensures Schedule(env, s, acts) ==> RunFrom(env, s, acts) == RunFrom(env, Step(env, s, acts[0]), acts[1..])
  {
  }

  lemma {:induction false} RunSplits(env: Env, s: State, before: seq<Action>, after: seq<Action>)
    requires ValidGroup(env.g) && Schedule(env, s, before + after)
    ensures Schedule(env, s, before) && Schedule(env, RunFrom(env, s, before), after)
    ensures RunFrom(env, s, before + after) == RunFrom(env, RunFrom(env, s, before), after)
    decreases |before|
  {
    if before == [] {
      assert before + after == after;
    } else {
      assert (before + after)[1..] == before[1..] + after;
      RunSplits(env, Step(env, s, before[0]), before[1..], after);
    }
  }

  lemma {:induction false} RunJoins(env: Env, s: State, before: seq<Action>, after: seq<Action>)
    requires ValidGroup(env.g) && Schedule(env, s, before) && Schedule(env, RunFrom(env, s, before), after)
    ensures Schedule(env, s, before + after)
    ensures RunFrom(env, s, before + after) == RunFrom(env, RunFrom(env, s, before), after)
    decreases |before|
  {
    if before == [] {
      assert before + after == after;
    } else {
      assert (before + after)[1..] == before[1..] + after;
      RunJoins(env, Step(env, s, before[0]), before[1..], after);
    }
  }

  // ----- signatures of a statechain -------------------------------------------------------

  predicate SignsFor(t: Thread, id: string) { t.call.Sign? && t.call.id == id }

  /** Half signatures the enclave has computed. */
  function ComputedFor(s: State, id: string): set<nat>
  {
    set tid | tid in s.threads && SignsFor(s.threads[tid], id) && s.threads[tid].sig.Some?
  }

  /** Half signatures whose increment of the counter is in the database. */
  function CountedFor(s: State, id: string): set<nat>
  {
    set tid | tid in s.threads && SignsFor(s.threads[tid], id) && s.threads[tid].counted
  }

  /** Half signatures that have left the lockbox. */
  function ReleasedFor(s: State, id: string): set<nat>
  {
    set tid | tid in s.threads && SignsFor(s.threads[tid], id) && s.threads[tid].reply.Some? && s.threads[tid].reply.value.PartialSig?
  }

  predicate RegisteredOnce(s: State, id: string) { s.inserts[id] == 1 && id !in s.deletes }

  // ----- the invariant --------------------------------------------------------------------

  ghost predicate ThreadOk(t: Thread)
  {
    && (t.counted ==> t.sig.Some? && t.call.Sign?)
    && (t.reply.Some? && t.reply.value.PartialSig? && t.call.Sign? ==> t.counted)
    && (t.phase.Ready? || t.phase.Holding? ==> t.sig.None? && t.reply.None?)
    && (t.phase.Writing? ==> StatementOk(t) && !t.counted && t.reply.None?)
    && (t.phase.Replying? ==> t.reply.None? && (t.phase.answer.PartialSig? && t.call.Sign? ==> t.counted))
  }

  /** A signing request counts, no other does; an insert creates a row that starts at zero. */
  ghost predicate StatementOk(t: Thread)
    requires t.phase.Writing?
  {
    && (t.call.Sign? <==> t.phase.statement == Change(CountSignature))
    && (t.call.Sign? ==> t.sig.Some?)
    && (t.phase.statement.Insert? ==> t.phase.statement.row.id == t.call.id && t.phase.statement.row.sigCount == 0)
  }

  /** Nothing is loaded or computed for a statechain that has never been registered. */
  ghost predicate RegisteredFirst(s: State, t: Thread)
  {
    (t.sig.Some? || (t.phase.Holding? && t.phase.load.Loaded?)) && t.call.Sign? ==> s.inserts[t.call.id] > 0
  }

  ghost predicate CountOk(s: State, id: string)
  {
    && (s.inserts[id] == 0 ==> Rows(s.table, id) == [])
    && (RegisteredOnce(s, id) ==> |Rows(s.table, id)| == 1 && Rows(s.table, id)[0].sigCount == |CountedFor(s, id)|)
  }

  ghost predicate Inv(s: State)
  {
    && (forall tid :: tid in s.threads ==> ThreadOk(s.threads[tid]) && RegisteredFirst(s, s.threads[tid]))
    && (forall id :: CountOk(s, id))
  }

  /** A step that moves one request without touching the database or the counted flag. */
  lemma MoveKeepsInv(s: State, tid: nat, t: Thread)
    requires Inv(s) && ThreadOk(t) && RegisteredFirst(s, t)
    requires if tid in s.threads then t.call == s.threads[tid].call && t.counted == s.threads[tid].counted else !t.counted
    ensures Inv(s.(threads := s.threads[tid := t]))
  {
    var s' := s.(threads := s.threads[tid := t]);
    forall id ensures CountOk(s', id) {
      assert CountOk(s, id);
      assert CountedFor(s', id) == CountedFor(s, id);
    }
  }

  lemma ComputeOk(env: Env, s: State, tid: nat)
    requires ValidGroup(env.g) && Inv(s) && Enabled(s, Compute(tid))
    ensures Inv(Step(env, s, Compute(tid)))
  {
    var t := s.threads[tid];
    var (st, r) := Computed(env, t.call, t.phase.load);
    assert ThreadOk(t) && RegisteredFirst(s, t);
    ComputedShape(env, t.call, t.phase.load);
    if st.Nothing? {
      MoveKeepsInv(s, tid, t.(phase := Replying(r)));
    } else {
      MoveKeepsInv(s, tid, t.(phase := Writing(st, r), sig := if r.PartialSig? then Some(r.sig) else None));
    }
  }

  lemma ComputedShape(env: Env, c: Call, l: Load)
    requires ValidGroup(env.g)
    ensures var (st, r) := Computed(env, c, l);
            && (c.Sign? && !st.Nothing? ==> st == Change(CountSignature) && r.PartialSig? && l.Loaded?)
            && (c.Sign? && st.Nothing? ==> !r.PartialSig?)
            && (!c.Sign? ==> st != Change(CountSignature))
            && (st.Insert? ==> st.row.id == c.id && st.row.sigCount == 0)
  {
  }

  /** What a committed statement does to the rows of a statechain. */
  lemma AppliedRows(t: Table, id: string, st: Statement, other: string)
    requires st.Insert? ==> st.row.id == id
    ensures other != id ==> Rows(Perform(t, id, st), other) == Rows(t, other)
    ensures st.Insert? ==> Rows(Perform(t, id, st), id) == Rows(t, id) + [st.row]
    ensures st.Erase? ==> Rows(Perform(t, id, st), id) == []
    ensures st.Change? ==> Rows(Perform(t, id, st), id) == UpdateRows(Rows(t, id), id, st.change)
  {
    LockboxRuns.PerformIsLocal(t, id, st, other);
    LockboxRuns.PerformIsLocal(t, id, st, id);
    if st.Erase? { LockboxRuns.RowsOfDelete(t, id, id); }
  }

  /** A committed statement keeps every statechain's count in step with its counted requests. */
  lemma CommitKeepsCount(s: State, tid: nat, t': Thread, id: string)
    requires Inv(s) && tid in s.threads && s.threads[tid].phase.Writing?
    requires t'.call == s.threads[tid].call && t'.counted == t'.call.Sign?
    ensures CountOk(Applied(s, t'.call.id, s.threads[tid].phase.statement).(threads := s.threads[tid := t']), id)
  {
    var own, st := t'.call.id, s.threads[tid].phase.statement;
    var s' := Applied(s, own, st).(threads := s.threads[tid := t']);
    assert ThreadOk(s.threads[tid]) && CountOk(s, id);
    AppliedRows(s.table, own, st, id);
    if own != id {
      assert CountedFor(s', id) == CountedFor(s, id);
    } else {
      if t'.call.Sign? {
        assert CountedFor(s', id) == CountedFor(s, id) + {tid} && tid !in CountedFor(s, id);
      } else {
        assert CountedFor(s', id) == CountedFor(s, id);
      }
      if st.Insert? && s.inserts[id] == 0 { NothingCountedYet(s, id); }
      if st.Change? && |Rows(s.table, id)| == 1 { ChangedCount(Rows(s.table, id), id, st.change); }
    }
  }

  lemma ChangedCount(t: Table, id: string, c: Change)
    requires |t| == 1 && t[0].id == id
    ensures UpdateRows(t, id, c)[0].sigCount == t[0].sigCount + if c.CountSignature? then 1 else 0
  {
  }

  lemma NothingCountedYet(s: State, id: string)
    requires Inv(s) && s.inserts[id] == 0
    ensures CountedFor(s, id) == {}
  {
    forall tid | tid in s.threads ensures tid !in CountedFor(s, id) {
      assert ThreadOk(s.threads[tid]) && RegisteredFirst(s, s.threads[tid]);
    }
  }

  lemma CommitOk(s: State, tid: nat, answer: Response)
    requires Inv(s) && tid in s.threads && s.threads[tid].phase.Writing?
    requires Admissible(s.table, s.threads[tid].call.id, s.threads[tid].phase.statement)
    ensures var t := s.threads[tid];
            Inv(Applied(s, t.call.id, t.phase.statement).(threads := s.threads[tid := t.(phase := Replying(answer), counted := t.call.Sign?)]))
  {
    var t := s.threads[tid];
    var t' := t.(phase := Replying(answer), counted := t.call.Sign?);
    var s' := Applied(s, t.call.id, t.phase.statement).(threads := s.threads[tid := t']);
    forall id ensures CountOk(s', id) { CommitKeepsCount(s, tid, t', id); }
    forall k | k in s'.threads ensures ThreadOk(s'.threads[k]) && RegisteredFirst(s', s'.threads[k]) {
      assert ThreadOk(s.threads[k]) && RegisteredFirst(s, s.threads[k]);
    }
  }

  lemma LoadOk(env: Env, s: State, tid: nat)
    requires ValidGroup(env.g) && Inv(s) && Enabled(s, Load(tid))
    ensures Inv(Step(env, s, Load(tid)))
  {
    var t := s.threads[tid];
    assert ThreadOk(t) && RegisteredFirst(s, t) && CountOk(s, t.call.id);
    LockboxRuns.FirstOfRows(s.table, t.call.id);
    var l := LoadKeyData(s.table, t.call.id, WithNonce(t.call));
    assert l.Loaded? ==> s.inserts[t.call.id] > 0;
    MoveKeepsInv(s, tid, t.(phase := if t.call.Count? then Replying(CountAnswer(s.table, t.call.id)) else Holding(l)));
  }

  lemma CrashOk(env: Env, s: State)
    requires ValidGroup(env.g) && Inv(s)
    ensures Inv(Step(env, s, Crash))
  {
    var s' := Step(env, s, Crash);
    forall k | k in s'.threads ensures ThreadOk(s'.threads[k]) && RegisteredFirst(s', s'.threads[k]) {
      assert ThreadOk(s.threads[k]) && RegisteredFirst(s, s.threads[k]);
    }
    forall id ensures CountOk(s', id) {
      assert CountOk(s, id);
      assert CountedFor(s', id) == CountedFor(s, id);
    }
  }

  lemma StepKeepsInv(env: Env, s: State, a: Action)
    requires ValidGroup(env.g) && Inv(s) && Enabled(s, a)
    ensures Inv(Step(env, s, a))
  {
    if !a.Accept? && !a.Crash? { assert ThreadOk(s.threads[a.tid]) && RegisteredFirst(s, s.threads[a.tid]); }
    match a
    case Accept(tid, call) => MoveKeepsInv(s, tid, Thread(call, Ready, None, false, None));
    case Load(tid) => LoadOk(env, s, tid);
    case LoadFails(tid) => MoveKeepsInv(s, tid, s.threads[tid].(phase := Replying(Rejected(500))));
    case Compute(tid) => ComputeOk(env, s, tid);
    case Commit(tid) =>
      if Admissible(s.table, s.threads[tid].call.id, s.threads[tid].phase.statement) {
        CommitOk(s, tid, s.threads[tid].phase.answer);
      } else {
        MoveKeepsInv(s, tid, s.threads[tid].(phase := Replying(Rejected(500))));
      }
    case CommitFails(tid) => MoveKeepsInv(s, tid, s.threads[tid].(phase := Replying(Rejected(500))));
    case CommitInDoubt(tid) =>
      if Admissible(s.table, s.threads[tid].call.id, s.threads[tid].phase.statement) {
        CommitOk(s, tid, Rejected(500));
      } else {
        MoveKeepsInv(s, tid, s.threads[tid].(phase := Replying(Rejected(500))));
      }
    case Reply(tid) =>
      MoveKeepsInv(s, tid, s.threads[tid].(phase := Finished, reply := Some(s.threads[tid].phase.answer)));
    case Crash => CrashOk(env, s);
  }

  lemma InitialInv()
    ensures Inv(Initial)
  {
    forall id ensures CountOk(Initial, id) {
    }
  }

  lemma {:induction false} RunKeepsInv(env: Env, s: State, acts: seq<Action>)
    requires ValidGroup(env.g) && Inv(s) && Schedule(env, s, acts)
    ensures Inv(RunFrom(env, s, acts))
    decreases |acts|
  {
    if acts != [] {
      StepKeepsInv(env, s, acts[0]);
      RunKeepsInv(env, Step(env, s, acts[0]), acts[1..]);
    }
  }

  // ----- the signature count --------------------------------------------------------------

  /** The counter a query would report. */
  function ReportedCount(s: State, id: string): int
  {
    if First(s.table, id).None? then -1 else First(s.table, id).value.sigCount
  }

  /** A set of request numbers inside another is no larger. */
  lemma SubsetSize(a: set<nat>, b: set<nat>)
    requires a <= b
    ensures |a| <= |b|
  {
    assert b == a + (b - a);
  }

  /**
   * In every interleaving: for a statechain registered once and not deleted, no more half
   * signatures have been released than the counter shows, and no more are counted than the
   * enclave has computed.
   */
  lemma CountBrackets(env: Env, acts: seq<Action>, id: string)
    requires ValidGroup(env.g) && Schedule(env, Initial, acts)
    requires RegisteredOnce(RunFrom(env, Initial, acts), id)
    ensures var s := RunFrom(env, Initial, acts);
            && |ReleasedFor(s, id)| <= ReportedCount(s, id) <= |ComputedFor(s, id)|
            && ReleasedFor(s, id) <= CountedFor(s, id) <= ComputedFor(s, id)
            && ReportedCount(s, id) == |CountedFor(s, id)|
  {
    InitialInv();
    RunKeepsInv(env, Initial, acts);
    InvBrackets(RunFrom(env, Initial, acts), id);
  }

  lemma InvBrackets(s: State, id: string)
    requires Inv(s) && RegisteredOnce(s, id)
    ensures |ReleasedFor(s, id)| <= ReportedCount(s, id) <= |ComputedFor(s, id)|
    ensures ReleasedFor(s, id) <= CountedFor(s, id) <= ComputedFor(s, id)
    ensures ReportedCount(s, id) == |CountedFor(s, id)|
  {
    assert CountOk(s, id);
    LockboxRuns.FirstOfRows(s.table, id);
    forall tid | tid in ReleasedFor(s, id) || tid in CountedFor(s, id)
      ensures tid in CountedFor(s, id) && tid in ComputedFor(s, id)
    {
      assert ThreadOk(s.threads[tid]);
    }
    SubsetSize(ReleasedFor(s, id), CountedFor(s, id));
    SubsetSize(CountedFor(s, id), ComputedFor(s, id));
  }

  // ----- growth ---------------------------------------------------------------------------

  /** What only grows: registrations, deletions, counted and released requests. */
  ghost predicate Grows(s: State, s': State, id: string)
  {
    && s.inserts[id] <= s'.inserts[id] && s.deletes <= s'.deletes
    && CountedFor(s, id) <= CountedFor(s', id)
    && ReleasedFor(s, id) <= ReleasedFor(s', id)
    && (forall tid :: tid in s.threads ==> tid in s'.threads && s'.threads[tid].call == s.threads[tid].call)
  }

  lemma StepGrows(env: Env, s: State, a: Action, id: string)
    requires ValidGroup(env.g) && Inv(s) && Enabled(s, a)
    ensures Grows(s, Step(env, s, a), id)
  {
    forall tid | tid in s.threads ensures ThreadGrows(s, Step(env, s, a), tid) {
      StepGrowsThread(env, s, a, tid);
    }
  }

  ghost predicate ThreadGrows(s: State, s': State, tid: nat)
    requires tid in s.threads
  {
    && tid in s'.threads && s'.threads[tid].call == s.threads[tid].call
    && (s.threads[tid].counted ==> s'.threads[tid].counted)
    && (s.threads[tid].reply.Some? ==> s'.threads[tid].reply == s.threads[tid].reply)
  }

  lemma StepGrowsThread(env: Env, s: State, a: Action, tid: nat)
    requires ValidGroup(env.g) && Inv(s) && Enabled(s, a) && tid in s.threads
    ensures ThreadGrows(s, Step(env, s, a), tid)
  {
    assert ThreadOk(s.threads[tid]);
  }

  lemma {:induction false} RunGrows(env: Env, s: State, acts: seq<Action>, id: string)
    requires ValidGroup(env.g) && Inv(s) && Schedule(env, s, acts)
    ensures Grows(s, RunFrom(env, s, acts), id)
    decreases |acts|
  {
    if acts != [] {
      StepGrows(env, s, acts[0], id);
      StepKeepsInv(env, s, acts[0]);
      RunGrows(env, Step(env, s, acts[0]), acts[1..], id);
    }
  }

  /** The counter never falls, key updates included, while the statechain stays registered. */
  lemma CountNeverFalls(env: Env, before: seq<Action>, after: seq<Action>, id: string)
    requires ValidGroup(env.g) && Schedule(env, Initial, before)
    requires Schedule(env, RunFrom(env, Initial, before), after)
    requires RegisteredOnce(RunFrom(env, Initial, before), id)
    requires RegisteredOnce(RunFrom(env, RunFrom(env, Initial, before), after), id)
    ensures ReportedCount(RunFrom(env, Initial, before), id)
            <= ReportedCount(RunFrom(env, RunFrom(env, Initial, before), after), id)
  {
    var s := RunFrom(env, Initial, before);
    InitialInv();
    RunKeepsInv(env, Initial, before);
    RunGrows(env, s, after, id);
    RunKeepsInv(env, s, after);
    var s' := RunFrom(env, s, after);
    assert CountOk(s, id) && CountOk(s', id);
    LockboxRuns.FirstOfRows(s.table, id);
    LockboxRuns.FirstOfRows(s'.table, id);
    SubsetSize(CountedFor(s, id), CountedFor(s', id));
  }
}

/** The races do happen: schedules from the empty lockbox that contain them. */
module RaceInstances {
  import opened Bytes
  import opened Curve
  import opened Lockbox
  import opened LockboxRuns
  import opened Threads
  import opened SignatureCounts
  import opened Races
  import opened ReceiverRuns
  import Hex
  import KeyShares
  import BlindSign

  // ----- a count that comes late ------------------------------------------------------------

  lemma StaysReady(env: Env, t: Table, id: string, k1: int, k2: int)
    requires ReadyToSign(env, t, id, k1, k2) && First(t, id).value.sigCount + 1 < MAX_COUNT
    ensures ReadyToSign(env, UpdateRows(t, id, CountSignature), id, k1, k2)
  {
    CountKeepsCoherence(env, t, id);
    FirstAfterUpdate(t, id, CountSignature);
  }

  /** One signature released, nothing else signed. */
  ghost predicate SignedOnce(s: State, id: string, session: string)
  {
    && First(s.table, id).Some? && First(s.table, id).value.sigCount == 1 && RegisteredOnce(s, id)
    && (forall tid :: tid in s.threads ==> tid <= 2 && (s.threads[tid].call.Sign? ==> tid == 2))
    && 2 in s.threads && s.threads[2].call.Sign? && s.threads[2].call.session == session && ReleasedFor(s, id) == {2}
  }

  lemma FirstSignature(env: Env, s: State, id: string, c: Call, r: Response)
    requires ValidGroup(env.g) && Unsigned(s, id) && c.Sign? && c.id == id
    requires Decide(env, s.table, c) == (Change(CountSignature), r) && r.PartialSig?
    ensures Schedule(env, s, Answering(2, c)) && SignedOnce(RunFrom(env, s, Answering(2, c)), id, c.session)
    ensures RunFrom(env, s, Answering(2, c)).table == UpdateRows(s.table, id, CountSignature)
  {
    Answered(env, s, 2, c, Change(CountSignature), r);
    OneReleased(s, id, c, r);
  }

  lemma OneReleased(s: State, id: string, c: Call, r: Response)
    requires Unsigned(s, id) && c.Sign? && c.id == id && r.PartialSig?
    ensures SignedOnce(Put(Applied(s, id, Change(CountSignature)), 2, Done(c, Change(CountSignature), r)), id, c.session)
  {
    var s' := Put(Applied(s, id, Change(CountSignature)), 2, Done(c, Change(CountSignature), r));
    FirstAfterUpdate(s.table, id, CountSignature);
    forall tid ensures tid in ReleasedFor(s', id) <==> tid == 2 {
      if tid != 2 && tid in s.threads { assert s'.threads[tid] == s.threads[tid]; }
    }
    assert ReleasedFor(s', id) == {2};
  }

  lemma TwoSessions(s: State, id: string, first: string, sign: Call, r: Response)
    requires SignedOnce(s, id, first) && sign.Sign? && sign.id == id && r.PartialSig?
    ensures ReleasedSessions(OvertakenState(s, 3, 4, sign, r), id) == {first, sign.session}
  {
    var s' := OvertakenState(s, 3, 4, sign, r);
    OvertakenReleased(s, 3, 4, sign, r);
    assert s'.threads[2] == s.threads[2] && s'.threads[4].call == sign;
    assert 2 in ReleasedFor(s', id) && 4 in ReleasedFor(s', id);
  }

  /**
   * Every lockbox that can sign has a schedule in which a count request is told 1 although two
   * sessions have been released when the answer arrives.
   */
  lemma LateCountHappens(env: Env, id: string, key: int, k1: nat, k2: nat, nonce: seq<Byte>, negate: int, first: string, second: string)
    returns (acts: seq<Action>)
    requires ValidEnv(env) && IsKey(env.g, key) && ValidCall(env.g, NewNonce(id, k1, k2, nonce))
    requires Signable(env, first) && Signable(env, second)
    ensures Schedule(env, Initial, acts)
    ensures var s := RunFrom(env, Initial, acts);
            && Told(s, 3, id, 1) && ReportedCount(s, id) == 2 && ReleasedSessions(s, id) == {first, second} && RegisteredOnce(s, id)
  {
    var before := SignedSetUp(env, id, key, k1, k2, nonce, negate, first);
    var s, sign := RunFrom(env, Initial, before), Sign(id, negate, second);
    Signs(env, s.table, id, k1, k2, negate, second);
    OvertakenOnce(env, s, id, first, sign, Decide(env, s.table, sign).1);
    RunJoins(env, Initial, before, Overtaken(3, 4, sign));
    acts := before + Overtaken(3, 4, sign);
  }

  lemma SignedSetUp(env: Env, id: string, key: int, k1: nat, k2: nat, nonce: seq<Byte>, negate: int, session: string) returns (acts: seq<Action>)
    requires ValidEnv(env) && IsKey(env.g, key) && ValidCall(env.g, NewNonce(id, k1, k2, nonce)) && Signable(env, session)
    ensures Schedule(env, Initial, acts) && SignedOnce(RunFrom(env, Initial, acts), id, session)
    ensures ReadyToSign(env, RunFrom(env, Initial, acts).table, id, k1, k2)
  {
    var before := SetUp(env, id, key, k1, k2, nonce);
    var s, c := RunFrom(env, Initial, before), Sign(id, negate, session);
    Signs(env, s.table, id, k1, k2, negate, session);
    FirstSignature(env, s, id, c, Decide(env, s.table, c).1);
    StaysReady(env, s.table, id, k1, k2);
    RunJoins(env, Initial, before, Answering(2, c));
    acts := before + Answering(2, c);
  }

  lemma OvertakenOnce(env: Env, s: State, id: string, first: string, sign: Call, r: Response)
    requires ValidGroup(env.g) && SignedOnce(s, id, first) && sign.Sign? && sign.id == id
    requires Decide(env, s.table, sign) == (Change(CountSignature), r) && r.PartialSig?
    ensures Schedule(env, s, Overtaken(3, 4, sign))
    ensures var s' := RunFrom(env, s, Overtaken(3, 4, sign));
            Told(s', 3, id, 1) && ReportedCount(s', id) == 2 && ReleasedSessions(s', id) == {first, sign.session} && RegisteredOnce(s', id)
  {
    LateCount(env, s, 3, 4, sign, r);
    TwoSessions(s, id, first, sign, r);
    StillOnce(s, id, sign, r);
  }

  lemma StillOnce(s: State, id: string, sign: Call, r: Response)
    ensures RegisteredOnce(OvertakenState(s, 3, 4, sign, r), id) <==> RegisteredOnce(s, id)
  {
  }

  // ----- a lockbox over a group of seven ----------------------------------------------------

  /** Encryption that changes nothing, and one signing session for all texts. */
  function Example(): Env
  {
    Env(Group(7, k => k > 3), [], (_, _, text) => (text, seq(16, _ => 0)), (_, _, _, data) => Some(data),
        _ => Some(BlindSign.Session(1, false, 1, 1, 1)))
  }

  lemma ExampleIsValid()
    ensures ValidEnv(Example())
  {
    assert Pow256(1) == 256;
    assert Pow256(32) >= Pow256(1);
    forall nonce, text ensures Sealable(Example(), nonce, text) {
    }
  }

  function SomeSession(): string { Hex.PrintHex(seq(133, _ => 0)) }

  lemma SomeSessionIsSignable()
    ensures Signable(Example(), SomeSession())
  {
    Hex.RoutesReadPrinters(seq(133, _ => 0));
  }

  function Text(v: nat): string { Hex.PrintHex(ToBigEndian(v, 32)) }

  lemma TextCarries(v: nat)
    requires v < 7
    ensures Carries(Text(v), v)
  {
    ExampleIsValid();
    ScalarRoute(v);
  }

  lemma TextsCarry()
    ensures Carries(Text(1), 1) && Carries(Text(3), 3) && Carries(Text(5), 5)
  {
    TextCarries(1);
    TextCarries(3);
    TextCarries(5);
  }

  const NONCE: seq<Byte> := seq(24, _ => 0)

  /** A registered statechain with the server share 1. */
  lemma Registered1(id: string) returns (acts: seq<Action>)
    ensures ValidEnv(Example()) && Schedule(Example(), Initial, acts)
    ensures var s := RunFrom(Example(), Initial, acts);
            && Coherent(Example(), s.table) && 1 !in s.threads && 2 !in s.threads
            && |s.table| == 1 && s.table[0].id == id && First(s.table, id) == Some(s.table[0]) && s.table[0].publicKey == 1
  {
    ExampleIsValid();
    acts := Registration(Example(), id, 1, NONCE);
  }

  /** Two transfers away from the owner's share 1: to 3 blinded with 3, and to 4 blinded with 1. */
  lemma TransferExamples(g: Group)
    requires g.n == 7
    ensures KeyShares.TransferMessage(g, 1, 3, 3) == Some(1) && KeyShares.Transfer(g, 1, 1, 3, 3) == Some(6)
    ensures KeyShares.TransferMessage(g, 1, 4, 1) == Some(5) && KeyShares.Transfer(g, 1, 1, 4, 1) == Some(5)
  {
    assert Add(g, 1, 3) == 4 && Neg(g, 3) == 4 && Add(g, 4, 4) == 1 && Add(g, 1, 1) == 2 && Add(g, 2, 4) == 6;
    assert Neg(g, 4) == 3 && Add(g, 3, 2) == 5 && Add(g, 1, 5) == 6 && Neg(g, 1) == 6 && Add(g, 6, 6) == 5;
  }

  lemma SendsExample(env: Env, t: Table, c: Call, newOwner: int, x1: int, t2: int)
    requires ValidGroup(env.g) && c.Update? && |t| == 1 && t[0].id == c.id && First(t, c.id) == Some(t[0]) && t[0].publicKey == 1
    requires KeyShares.TransferMessage(env.g, 1, newOwner, x1) == Some(t2) && KeyShares.Transfer(env.g, 1, 1, newOwner, x1).Some?
    requires IsKey(env.g, newOwner) && IsKey(env.g, x1) && Carries(c.t2, t2) && Carries(c.x1, x1)
    ensures Sends(env, t, c, 1, newOwner, x1)
  {
  }

  /** A nonce request is overtaken by a key update: the row is left with a foreign nonce, and signing stops the enclave. */
  lemma OvertakenNonceHappens(id: string) returns (acts: seq<Action>)
    ensures ValidEnv(Example()) && Schedule(Example(), Initial, acts)
    ensures !Coherent(Example(), RunFrom(Example(), Initial, acts).table)
    ensures Handle(Example(), RunFrom(Example(), Initial, acts).table, Sign(id, 0, SomeSession())).1 == Aborted
  {
    var env := Example();
    var before := Registered1(id);
    var s := RunFrom(env, Initial, before);
    var nonce, update := NewNonce(id, 1, 1, NONCE), Update(id, Text(1), Text(3), NONCE);
    TransferExamples(env.g);
    TextsCarry();
    SendsExample(env, s.table, update, 3, 3, 1);
    var key := SentUpdate(env, s.table, update, 1, 3, 3);
    assert key != 1;
    SomeSessionIsSignable();
    AbortedSignature(env, s, 1, 2, nonce, update, 0, SomeSession());
    var race := Prepare(1, nonce) + (Prepare(2, update) + [Commit(2)]) + [Commit(1)];
    RunJoins(env, Initial, before, race);
    acts := before + race;
  }

  /** Two transfers of one coin race: both receivers get a key, and the first one's share is of no use with the stored one. */
  lemma RacingUpdatesHappen(id: string) returns (acts: seq<Action>, keyA: int, keyB: int)
    ensures ValidEnv(Example()) && Schedule(Example(), Initial, acts)
    ensures var s := RunFrom(Example(), Initial, acts);
            && GotKey(s, 1, keyA) && GotKey(s, 2, keyB) && First(s.table, id).Some? && First(s.table, id).value.publicKey == keyB
    ensures Add(Example().g, keyA, 3) == 2 && Add(Example().g, keyB, 4) == 2 && Add(Example().g, keyB, 3) != 2
  {
    var env := Example();
    var before := Registered1(id);
    var s := RunFrom(env, Initial, before);
    var first, second := Update(id, Text(1), Text(3), NONCE), Update(id, Text(5), Text(1), NONCE);
    TransferExamples(env.g);
    TextsCarry();
    SendsExample(env, s.table, first, 3, 3, 1);
    SendsExample(env, s.table, second, 4, 1, 5);
    keyA, keyB := RacingUpdates(env, s, 1, 2, first, second, 1, 3, 3, 4, 1);
    RunJoins(env, Initial, before, Racing(1, 2, first, second));
    acts := before + Racing(1, 2, first, second);
  }
}

/** What the signature count means in a run of uninterrupted requests. */
module RunCounts {
  import opened Bytes
  import opened Curve
  import opened Lockbox
  import opened LockboxRuns

  predicate Registered(tr: Trace, i: int, id: string)
  {
    0 <= i < |tr.calls| && i < |tr.answers| && tr.calls[i].NewKey? && tr.calls[i].id == id && tr.answers[i].PublicKey?
  }

  /** The last deletion of `id` among the first `n` calls; -1 when there is none. */
  function LastDelete(tr: Trace, n: nat, id: string): (d: int)
    requires n <= |tr.calls|
    ensures -1 <= d < n
    ensures d >= 0 ==> tr.calls[d] == Delete(id)
    ensures forall m :: d < m < n ==> tr.calls[m] != Delete(id)
  {
    if n == 0 then -1 else if tr.calls[n - 1] == Delete(id) then n - 1 else LastDelete(tr, n - 1, id)
  }

  /** `id` has been registered and not deleted since. */
  ghost predicate Live(tr: Trace, n: nat, id: string)
    requires n <= |tr.calls|
  {
    exists r :: LastDelete(tr, n, id) < r < n && Registered(tr, r, id)
  }

  /** The half signatures answered strictly between two calls. */
  function Signatures(tr: Trace, from: int, to: int, id: string): set<int> { set i | from < i < to && Signed(tr, i, id) }

  /** What a trace says the answer to a count request after `n` calls must be. */
  ghost function Tally(tr: Trace, n: nat, id: string): Response
    requires n <= |tr.calls|
  {
    if Live(tr, n, id) then SigCount(|Signatures(tr, LastDelete(tr, n, id), n, id)|) else Unspecified
  }

  // ----- one call ---------------------------------------------------------------------------

  /** The counter in the row, -1 without one. */
  function RowCount(t: Table, id: string): int { if First(t, id).None? then -1 else First(t, id).value.sigCount }

  lemma FirstElsewhere(t: Table, own: string, s: Statement, id: string)
    requires own != id && (s.Insert? ==> s.row.id == own)
    ensures First(Perform(t, own, s), id) == First(t, id)
  {
    PerformIsLocal(t, own, s, id);
    FirstOfRows(t, id);
    FirstOfRows(Perform(t, own, s), id);
  }

  lemma FirstAppended(t: Table, r: Row)
    ensures First(t + [r], r.id) == if First(t, r.id).None? then Some(r) else First(t, r.id)
  {
    RowsOfAppend(t, r, r.id);
    FirstOfRows(t, r.id);
    FirstOfRows(t + [r], r.id);
    assert First(t, r.id).None? ==> Rows(t, r.id) == [] by { if Rows(t, r.id) != [] { assert First(Rows(t, r.id), r.id).Some?; } }
    if First(t, r.id).Some? { FirstAfterAppend(t, r, r.id); }
  }

  /** What each statement does to the counter. */
  lemma StatementCounts(t: Table, id: string, s: Statement)
    requires s.Insert? ==> s.row.id == id && s.row.sigCount == 0
    ensures RowCount(Perform(t, id, s), id) ==
            if s.Erase? then -1
            else if s.Insert? && RowCount(t, id) == -1 then 0
            else if s == Change(CountSignature) && RowCount(t, id) >= 0 then RowCount(t, id) + 1
            else RowCount(t, id)
  {
    match s
    case Nothing =>
    case Insert(row) => FirstAppended(t, row);
    case Change(c) => FirstAfterUpdate(t, id, c);
    case Erase =>
  }

  /** Which statement a call issues, as far as the counter is concerned. */
  lemma CallStatement(env: Env, t: Table, c: Call)
    requires ValidGroup(env.g)
    ensures var (s, r) := Decide(env, t, c);
            && (s.Erase? <==> c.Delete?)
            && (s.Insert? <==> c.NewKey? && r.PublicKey?)
            && (s.Insert? ==> s.row.id == c.id && s.row.sigCount == 0)
            && (s == Change(CountSignature) <==> c.Sign? && r.PartialSig?)
            && (c.Sign? && r.PartialSig? ==> First(t, c.id).Some?)
  {
  }

  lemma CallCounts(env: Env, t: Table, c: Call, id: string)
    requires ValidGroup(env.g)
    ensures var (t', r) := Handle(env, t, c);
            && (c.id == id && c.Sign? && r.PartialSig? ==> RowCount(t, id) >= 0)
            && RowCount(t', id) ==
               if c == Delete(id) then -1
               else if c.id == id && c.NewKey? && r.PublicKey? && RowCount(t, id) == -1 then 0
               else if c.id == id && c.Sign? && r.PartialSig? then RowCount(t, id) + 1
               else RowCount(t, id)
  {
    var s := Decide(env, t, c).0;
    CallStatement(env, t, c);
    if c.id == id { StatementCounts(t, id, s); } else { FirstElsewhere(t, c.id, s, id); }
  }

  lemma StepCounts(env: Env, tr: Trace, n: nat, id: string)
    requires ValidGroup(env.g) && IsTrace(env, tr) && n < |tr.calls|
    ensures Signed(tr, n, id) ==> RowCount(tr.tables[n], id) >= 0
    ensures RowCount(tr.tables[n + 1], id) ==
            if tr.calls[n] == Delete(id) then -1
            else if Registered(tr, n, id) && RowCount(tr.tables[n], id) == -1 then 0
            else if Signed(tr, n, id) then RowCount(tr.tables[n], id) + 1
            else RowCount(tr.tables[n], id)
  {
    assert StepAt(env, tr, n);
    CallCounts(env, tr.tables[n], tr.calls[n], id);
  }

  // ----- whole runs -------------------------------------------------------------------------

  ghost predicate CountedSoFar(tr: Trace, n: nat, id: string)
    requires n <= |tr.calls| < |tr.tables|
  {
    && (Live(tr, n, id) <==> RowCount(tr.tables[n], id) >= 0)
    && var signed := Signatures(tr, LastDelete(tr, n, id), n, id);
       if Live(tr, n, id) then RowCount(tr.tables[n], id) == |signed| else signed == {}
  }

  lemma LiveStep(tr: Trace, n: nat, id: string)
    requires n < |tr.calls|
    ensures Live(tr, n + 1, id) <==> tr.calls[n] != Delete(id) && (Live(tr, n, id) || Registered(tr, n, id))
  {
    if tr.calls[n] != Delete(id) {
      assert LastDelete(tr, n + 1, id) == LastDelete(tr, n, id);
      if Registered(tr, n, id) { assert Live(tr, n + 1, id); }
      if Live(tr, n, id) {
        var r :| LastDelete(tr, n, id) < r < n && Registered(tr, r, id);
        assert LastDelete(tr, n + 1, id) < r < n + 1;
      }
    }
  }

  lemma SignaturesStep(tr: Trace, n: nat, id: string)
    requires n < |tr.calls|
    ensures var before, after := Signatures(tr, LastDelete(tr, n, id), n, id), Signatures(tr, LastDelete(tr, n + 1, id), n + 1, id);
            after == if tr.calls[n] == Delete(id) then {} else if Signed(tr, n, id) then before + {n} else before
  {
  }

  lemma {:induction false} CountsInRun(env: Env, tr: Trace, n: nat, id: string)
    requires ValidGroup(env.g) && IsTrace(env, tr) && n <= |tr.calls|
    ensures CountedSoFar(tr, n, id)
  {
    if n > 0 {
      CountsInRun(env, tr, n - 1, id);
      StepCounts(env, tr, n - 1, id);
      LiveStep(tr, n - 1, id);
      SignaturesStep(tr, n - 1, id);
    }
  }

  /**
   * In every run, with no assumption on it: a count request is answered with the number of half
   * signatures answered since the last deletion if the statechain has been registered since, and
   * has no answer of its own otherwise.
   */
  lemma CountAnswered(env: Env, tr: Trace, n: nat, id: string)
    requires ValidGroup(env.g) && IsTrace(env, tr) && n <= |tr.calls|
    ensures CountAnswer(tr.tables[n], id) == Tally(tr, n, id)
    ensures n < |tr.calls| && tr.calls[n] == Count(id) ==> tr.answers[n] == Tally(tr, n, id)
  {
    CountsInRun(env, tr, n, id);
    if n < |tr.calls| { assert StepAt(env, tr, n); }
  }

  /** No half signature precedes a registration, so for a free id the count is since its registration. */
  lemma CountSinceRegistration(env: Env, tr: Trace, r: nat, n: nat, id: string)
    requires ValidGroup(env.g) && IsTrace(env, tr) && r < n <= |tr.calls|
    requires Registered(tr, r, id) && First(tr.tables[r], id).None? && Delete(id) !in tr.calls[r..n]
    ensures CountAnswer(tr.tables[n], id) == SigCount(|Signatures(tr, r, n, id)|)
  {
    CountsInRun(env, tr, r, id);
    CountsInRun(env, tr, n, id);
    SameDeletion(tr, r, n, id);
    var d := LastDelete(tr, n, id);
    assert Signatures(tr, d, n, id) == Signatures(tr, r, n, id) by {
      forall i | i in Signatures(tr, d, n, id) ensures i in Signatures(tr, r, n, id) {
        assert i < r ==> i in Signatures(tr, d, r, id);
      }
    }
  }

  lemma {:induction false} SameDeletion(tr: Trace, r: nat, n: nat, id: string)
    requires r <= n <= |tr.calls| && Delete(id) !in tr.calls[r..n]
    ensures LastDelete(tr, n, id) == LastDelete(tr, r, id)
    decreases n
  {
    if r < n {
      assert tr.calls[n - 1] == tr.calls[r..n][n - 1 - r];
      assert forall i :: 0 <= i < n - 1 - r ==> tr.calls[r..n - 1][i] == tr.calls[r..n][i];
      SameDeletion(tr, r, n - 1, id);
    }
  }
}

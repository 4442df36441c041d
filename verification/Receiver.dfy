/** The receiver's check of the backup transactions in a transfer message. */
module Receiver {
  import opened Bytes
  import opened Locktime

  datatype Outpoint = Outpoint(txid: string, vout: int)

  datatype Input = Input(previous: Outpoint, sequence: int)

  /** The library's word on a signature; `Malformed` where its calls panic instead of answering. */
  datatype Verdict = Valid | Invalid | Malformed

  type Size = x: int | 0 < x witness 1

  /** A parsed transaction; `exact` when its text is the serialization of what was parsed. */
  datatype Tx = Tx(version: int, inputs: seq<Input>, outputs: seq<int>, lockTime: int, vsize: Size, signature: Verdict, exact: bool)

  /** A presented backup, the signing session it came from and the challenge rebuilt from its nonces. */
  datatype Backup = Backup(txN: int, tx: Tx, session: string, challenge: Option<string>)

  /** What the server has stored about one signature. */
  datatype Info = Info(txN: int, challenge: string)

  datatype Terms = Terms(tolerance: real, feeRate: real, height: int, initlock: int, interval: int)

  predicate ValidTerms(c: Terms) { IsU32(c.height) && IsU32(c.initlock) && IsU32(c.interval) }

  predicate ValidBackups(bs: seq<Backup>) { forall i :: 0 <= i < |bs| ==> IsU32(bs[i].tx.lockTime) }

  // ----- one transaction --------------------------------------------------------------------

  function FindInfo(infos: seq<Info>, txN: int): Option<Info>
  {
    if infos == [] then None else if infos[0].txN == txN then Some(infos[0]) else FindInfo(infos[1..], txN)
  }

  /** The fee rate; the subtraction is of 64-bit numbers. */
  function FeeRate(tx: Tx, amount: int): real
    requires tx.outputs != []
  {
    ((amount - tx.outputs[0]) % 0x1_0000_0000_0000_0000) as real / tx.vsize as real
  }

  /** verify_transaction_signature. */
  function CheckSignature(tx: Tx, amount: int, c: Terms): Outcome<bool>
  {
    if tx.inputs == [] || tx.signature.Malformed? || tx.outputs == [] then Panic
    else if FeeRate(tx, amount) + c.tolerance < c.feeRate || FeeRate(tx, amount) - c.tolerance > c.feeRate then Err
    else if tx.signature.Invalid? then Err
    else Ok(true)
  }

  /** verify_if_locktime_is_reasonable: a block height ahead of the chain, at most initlock ahead. */
  predicate Reasonable(lockTime: int, height: int, initlock: int)
  {
    lockTime < THRESHOLD && lockTime > height && !(Wrap32(height + initlock) < lockTime)
  }

  /** The checks on one backup, in the order of the loop. */
  function Check(b: Backup, infos: seq<Info>, amount: int, c: Terms): Outcome<bool>
  {
    var info := FindInfo(infos, b.txN);
    if info.None? then Err
    else
      var signature := CheckSignature(b.tx, amount, c);
      if !signature.Ok? then signature
      else if b.challenge != Some(info.value.challenge) then Err
      else if |b.tx.inputs| > 1 || b.tx.inputs[0].sequence != 0 then Err
      else if b.tx.version != 2 || |b.tx.outputs| > 1 then Err
      else if !Reasonable(b.tx.lockTime, c.height, c.initlock) then Err
      else if !b.tx.exact || b.tx.(version := 2, inputs := [b.tx.inputs[0]], outputs := [b.tx.outputs[0]]) != b.tx then Err
      else Ok(true)
  }

  /** What a backup must be by itself. */
  ghost predicate Sound(b: Backup, infos: seq<Info>, amount: int, c: Terms)
  {
    && FindInfo(infos, b.txN).Some? && b.challenge == Some(FindInfo(infos, b.txN).value.challenge)
    && b.tx.version == 2 && |b.tx.inputs| == 1 && |b.tx.outputs| == 1 && b.tx.inputs[0].sequence == 0
    && b.tx.signature.Valid? && b.tx.exact
    && c.feeRate - c.tolerance <= FeeRate(b.tx, amount) <= c.feeRate + c.tolerance
    && Reasonable(b.tx.lockTime, c.height, c.initlock)
  }

  /** The checks pass exactly a sound backup, and stop the process exactly where an index or an unwrapping fails. */
  lemma CheckExactly(b: Backup, infos: seq<Info>, amount: int, c: Terms)
    ensures Check(b, infos, amount, c).Ok? <==> Sound(b, infos, amount, c)
    ensures Check(b, infos, amount, c).Panic? <==>
            FindInfo(infos, b.txN).Some? && (b.tx.inputs == [] || b.tx.outputs == [] || b.tx.signature.Malformed?)
  {
    var t := b.tx;
    if |t.inputs| == 1 && |t.outputs| == 1 { assert t.inputs == [t.inputs[0]] && t.outputs == [t.outputs[0]]; }
  }

  // ----- one chain --------------------------------------------------------------------------

  /** The comparison of two neighbouring locktimes, on wrapped 32-bit differences. */
  predicate StepsDown(previous: int, current: int, interval: int)
  {
    AsI32(Wrap32(previous - current)) == AsI32(interval)
  }

  /** The first `n` backups are sound and step down. */
  ghost predicate Clean(bs: seq<Backup>, n: int, infos: seq<Info>, amount: int, c: Terms)
    requires n <= |bs|
  {
    && (forall i :: 0 <= i < n ==> Sound(bs[i], infos, amount, c))
    && (forall i :: 0 < i < n ==> StepsDown(bs[i - 1].tx.lockTime, bs[i].tx.lockTime, c.interval))
  }

  ghost predicate Accepted(bs: seq<Backup>, infos: seq<Info>, amount: int, c: Terms)
  {
    bs != [] && Clean(bs, |bs|, infos, amount, c)
  }

  /** The first backup that is not right stops the process. */
  ghost predicate Stops(bs: seq<Backup>, infos: seq<Info>, amount: int, c: Terms)
  {
    exists n :: 0 <= n < |bs| && Clean(bs, n, infos, amount, c) && Check(bs[n], infos, amount, c).Panic?
  }

  lemma FirstFault(bs: seq<Backup>, n: nat, infos: seq<Info>, amount: int, c: Terms)
    requires n < |bs| && Clean(bs, n, infos, amount, c) && !Clean(bs, n + 1, infos, amount, c)
    ensures !Accepted(bs, infos, amount, c)
    ensures Stops(bs, infos, amount, c) <==> Check(bs[n], infos, amount, c).Panic?
  {
    forall k | 0 <= k < |bs| ensures k > n ==> !Clean(bs, k, infos, amount, c) {
    }
    forall k | 0 <= k < n ensures !Check(bs[k], infos, amount, c).Panic? {
      CheckExactly(bs[k], infos, amount, c);
    }
  }

  /** validate_signature_scheme: the newest locktime, or an error. */
  method ValidateSignatureScheme(bs: seq<Backup>, infos: seq<Info>, amount: int, c: Terms) returns (r: Outcome<int>)
    ensures r.Ok? <==> Accepted(bs, infos, amount, c)
    ensures r.Ok? ==> r.value == bs[|bs| - 1].tx.lockTime
    ensures r.Panic? <==> Stops(bs, infos, amount, c)
  {
    var previousLockTime: Option<int> := None;
    var i := 0;
    while i < |bs|
      invariant 0 <= i <= |bs| && Clean(bs, i, infos, amount, c)
      invariant previousLockTime == if i == 0 then None else Some(bs[i - 1].tx.lockTime)
    {
      CheckExactly(bs[i], infos, amount, c);
      var checked := Check(bs[i], infos, amount, c);
      if !checked.Ok? {
        FirstFault(bs, i, infos, amount, c);
        return if checked.Panic? then Panic else Err;
      }
      if previousLockTime.Some? {
        if !StepsDown(previousLockTime.value, bs[i].tx.lockTime, c.interval) {
          FirstFault(bs, i, infos, amount, c);
          return Err;
        }
      }
      previousLockTime := GetBlockHeight(bs[i].tx.lockTime);
      i := i + 1;
    }
    NeverStops(bs, infos, amount, c);
    return if previousLockTime.None? then Err else Ok(previousLockTime.value);
  }

  lemma NeverStops(bs: seq<Backup>, infos: seq<Info>, amount: int, c: Terms)
    requires Clean(bs, |bs|, infos, amount, c)
    ensures !Stops(bs, infos, amount, c)
  {
    forall n | 0 <= n < |bs| ensures !Check(bs[n], infos, amount, c).Panic? { CheckExactly(bs[n], infos, amount, c); }
  }

  // ----- what the comparison means ----------------------------------------------------------

  /** The latest lock that is still reasonable. */
  function LatestLock(height: int, initlock: int): int
  {
    if Wrap32(height + initlock) < THRESHOLD then Wrap32(height + initlock) else THRESHOLD - 1
  }

  /** The interval, taken modulo 2^32, is not also a rise that reasonable locks have room for. */
  predicate Exact(c: Terms)
  {
    !(1 <= TWO32 - c.interval <= LatestLock(c.height, c.initlock) - (c.height + 1))
  }

  ghost predicate TrueStep(a: int, b: int, c: Terms)
  {
    Reasonable(a, c.height, c.initlock) && Reasonable(b, c.height, c.initlock) && StepsDown(a, b, c.interval) ==> a - b == c.interval
  }

  lemma StepMeans(a: int, b: int, interval: int)
    requires IsU32(a) && IsU32(b) && IsU32(interval)
    ensures StepsDown(a, b, interval) <==> a - b == interval || a - b == interval - TWO32
  {
  }

  /** The wrapped comparison says what it seems to say exactly under that condition. */
  lemma StepsDownExactly(c: Terms)
    requires ValidTerms(c)
    ensures (forall a, b :: IsU32(a) && IsU32(b) ==> TrueStep(a, b, c)) <==> Exact(c)
  {
    if Exact(c) {
      forall a, b | IsU32(a) && IsU32(b) ensures TrueStep(a, b, c) { StepMeans(a, b, c.interval); }
    } else {
      var a, b := c.height + 1, c.height + 1 + TWO32 - c.interval;
      StepMeans(a, b, c.interval);
      assert !TrueStep(a, b, c);
    }
  }

  /** Where the condition fails: an interval ten short of 2^32, and an accepted chain whose locks rise by ten. */
  lemma RisingChain() returns (bs: seq<Backup>, infos: seq<Info>, c: Terms)
    ensures ValidTerms(c) && !Exact(c) && Accepted(bs, infos, 1, c)
    ensures |bs| == 2 && bs[0].tx.lockTime == 1 && bs[1].tx.lockTime == 11
  {
    c := Terms(0.0, 0.0, 0, 1000, 0xFFFF_FFF6);
    infos := [Info(0, "")];
    var t := Tx(2, [Input(Outpoint("", 0), 0)], [1], 1, 1, Valid, true);
    bs := [Backup(0, t, "a", Some("")), Backup(0, t.(lockTime := 11), "b", Some(""))];
    assert FindInfo(infos, 0) == Some(infos[0]);
    assert FeeRate(t, 1) == 0.0;
    StepMeans(1, 11, 0xFFFF_FFF6);
    assert Sound(bs[0], infos, 1, c) && Sound(bs[1], infos, 1, c);
  }

  /** Neighbours in an accepted chain differ by the interval itself. */
  lemma AcceptedFalls(bs: seq<Backup>, infos: seq<Info>, amount: int, c: Terms, k: nat)
    requires ValidTerms(c) && Exact(c) && ValidBackups(bs) && Accepted(bs, infos, amount, c) && 0 < k < |bs|
    ensures bs[k].tx.lockTime == bs[k - 1].tx.lockTime - c.interval
  {
    StepsDownExactly(c);
    assert Sound(bs[k - 1], infos, amount, c) && Sound(bs[k], infos, amount, c);
    assert TrueStep(bs[k - 1].tx.lockTime, bs[k].tx.lockTime, c);
  }

  /** In an accepted chain every lock but the newest is later than it by at least the interval. */
  lemma {:induction false} NewestIsFirst(bs: seq<Backup>, infos: seq<Info>, amount: int, c: Terms, i: nat, j: nat)
    requires ValidTerms(c) && Exact(c) && 0 < c.interval && ValidBackups(bs) && Accepted(bs, infos, amount, c) && i < j < |bs|
    ensures bs[i].tx.lockTime >= bs[j].tx.lockTime + c.interval
    decreases j
  {
    AcceptedFalls(bs, infos, amount, c, j);
    if i < j - 1 { NewestIsFirst(bs, infos, amount, c, i, j - 1); }
  }

  // ----- the chains of a message ------------------------------------------------------------

  /** get_previous_outpoint answers for such a transaction; for any other the grouping stops the process. */
  predicate Spends(b: Backup) { |b.tx.inputs| == 1 && |b.tx.outputs| <= 1 }

  predicate AllSpend(bs: seq<Backup>) { forall i :: 0 <= i < |bs| ==> Spends(bs[i]) }

  function Source(b: Backup): Outpoint
    requires Spends(b)
  {
    b.tx.inputs[0].previous
  }

  /** The backups that spend `o`, in the order of the message. */
  function Spending(bs: seq<Backup>, o: Outpoint): seq<Backup>
    requires AllSpend(bs)
  {
    if bs == [] then []
    else
      var n := |bs| - 1;
      if Source(bs[n]) == o then Spending(bs[..n], o) + [bs[n]] else Spending(bs[..n], o)
  }

  /** The outpoints of a message in the order of their first appearance. */
  function Sources(bs: seq<Backup>): seq<Outpoint>
    requires AllSpend(bs)
  {
    if bs == [] then []
    else
      var n := |bs| - 1;
      if Source(bs[n]) in Sources(bs[..n]) then Sources(bs[..n]) else Sources(bs[..n]) + [Source(bs[n])]
  }

  /** Stable sorting by tx_n. */
  function Placed(b: Backup, s: seq<Backup>): seq<Backup>
  {
    if s == [] || b.txN < s[0].txN then [b] + s else [s[0]] + Placed(b, s[1..])
  }

  function Sorted(s: seq<Backup>): seq<Backup>
  {
    if s == [] then [] else Placed(s[|s| - 1], Sorted(s[..|s| - 1]))
  }

  function Chain(bs: seq<Backup>, o: Outpoint): seq<Backup>
    requires AllSpend(bs)
  {
    Sorted(Spending(bs, o))
  }

  function Chains(bs: seq<Backup>, sources: seq<Outpoint>): seq<seq<Backup>>
    requires AllSpend(bs)
  {
    seq(|sources|, i requires 0 <= i < |sources| => Chain(bs, sources[i]))
  }

  lemma SpendingMore(bs: seq<Backup>, b: Backup, o: Outpoint)
    requires AllSpend(bs) && Spends(b)
    ensures AllSpend(bs + [b]) && Spending(bs + [b], o) == if Source(b) == o then Spending(bs, o) + [b] else Spending(bs, o)
  {
    assert (bs + [b])[..|bs|] == bs;
  }

  lemma SourcesMore(bs: seq<Backup>, b: Backup)
    requires AllSpend(bs) && Spends(b)
    ensures AllSpend(bs + [b]) && Sources(bs + [b]) == if Source(b) in Sources(bs) then Sources(bs) else Sources(bs) + [Source(b)]
  {
    assert (bs + [b])[..|bs|] == bs;
  }

  lemma {:induction false} SpendsOnlySources(bs: seq<Backup>, o: Outpoint)
    requires AllSpend(bs)
    ensures o in Sources(bs) <==> Spending(bs, o) != []
  {
    if bs != [] { SpendsOnlySources(bs[..|bs| - 1], o); }
  }

  /** The state of the grouping loop: the order of appearance, and the group of each outpoint. */
  ghost predicate Grouped(grouped: map<Outpoint, seq<Backup>>, order: seq<Outpoint>, bs: seq<Backup>)
  {
    && AllSpend(bs) && order == Sources(bs)
    && (forall o :: o in grouped <==> o in order)
    && (forall o :: o in grouped ==> grouped[o] == Spending(bs, o))
  }

  /** A backup filed in the group of its outpoint, and the outpoint listed when it is new. */
  function Filed(grouped: map<Outpoint, seq<Backup>>, b: Backup): map<Outpoint, seq<Backup>>
    requires Spends(b)
  {
    var o := Source(b);
    grouped[o := if o in grouped then grouped[o] + [b] else [b]]
  }

  function Seen(order: seq<Outpoint>, o: Outpoint): seq<Outpoint> { if o in order then order else order + [o] }

  lemma OneMoreBackup(grouped: map<Outpoint, seq<Backup>>, order: seq<Outpoint>, bs: seq<Backup>, b: Backup)
    requires Grouped(grouped, order, bs) && Spends(b)
    ensures Grouped(Filed(grouped, b), Seen(order, Source(b)), bs + [b])
  {
    var o := Source(b);
    SourcesMore(bs, b);
    SpendsOnlySources(bs, o);
    forall p ensures Spending(bs + [b], p) == if o == p then Spending(bs, p) + [b] else Spending(bs, p) {
      SpendingMore(bs, b, p);
    }
  }

  /** split_backup_transactions: `None` where a transaction without a single outpoint stops the process. */
  method SplitBackups(bs: seq<Backup>) returns (r: Option<seq<seq<Backup>>>)
    ensures r.Some? <==> AllSpend(bs)
    ensures r.Some? ==> r.value == Chains(bs, Sources(bs))
  {
    var grouped: map<Outpoint, seq<Backup>>, order: seq<Outpoint> := map[], [];
    var i := 0;
    while i < |bs|
      invariant 0 <= i <= |bs| && Grouped(grouped, order, bs[..i])
    {
      if !Spends(bs[i]) { return None; }
      OneMoreBackup(grouped, order, bs[..i], bs[i]);
      assert bs[..i + 1] == bs[..i] + [bs[i]];
      grouped, order := Filed(grouped, bs[i]), Seen(order, Source(bs[i]));
      i := i + 1;
    }
    assert bs[..i] == bs;
    var chains := SortGroups(grouped, order, bs);
    return Some(chains);
  }

  method SortGroups(grouped: map<Outpoint, seq<Backup>>, order: seq<Outpoint>, ghost bs: seq<Backup>) returns (r: seq<seq<Backup>>)
    requires Grouped(grouped, order, bs)
    ensures r == Chains(bs, order)
  {
    r := [];
    var k := 0;
    while k < |order|
      invariant 0 <= k <= |order| && r == Chains(bs, order[..k])
    {
      r := r + [Sorted(grouped[order[k]])];
      k := k + 1;
    }
    assert order[..k] == order;
  }

  // ----- the chains make up the message -----------------------------------------------------

  predicate ByTxN(s: seq<Backup>) { forall i :: 0 < i < |s| ==> s[i - 1].txN <= s[i].txN }

  lemma {:induction false} PlacedHolds(b: Backup, s: seq<Backup>)
    ensures multiset(Placed(b, s)) == multiset(s) + multiset{b}
  {
    if s != [] && b.txN >= s[0].txN {
      PlacedHolds(b, s[1..]);
      assert s == [s[0]] + s[1..];
    }
  }

  /** A sorted sequence goes on from each of its elements without falling. */
  lemma OrderedFrom(x: Backup, s: seq<Backup>)
    ensures ByTxN([x] + s) <==> ByTxN(s) && (s != [] ==> x.txN <= s[0].txN)
  {
    var r := [x] + s;
    assert forall i :: 0 < i < |s| ==> r[i] == s[i - 1] && r[i + 1] == s[i];
    if ByTxN(r) {
      forall i | 0 < i < |s| ensures s[i - 1].txN <= s[i].txN { assert r[i].txN <= r[i + 1].txN; }
      assert s != [] ==> r[0].txN <= r[1].txN;
    }
  }

  lemma {:induction false} PlacedOrders(b: Backup, s: seq<Backup>)
    requires ByTxN(s)
    ensures ByTxN(Placed(b, s)) && Placed(b, s) != []
    ensures Placed(b, s)[0] == b || (s != [] && Placed(b, s)[0] == s[0])
  {
    if s == [] || b.txN < s[0].txN {
      OrderedFrom(b, s);
    } else {
      assert s == [s[0]] + s[1..];
      OrderedFrom(s[0], s[1..]);
      PlacedOrders(b, s[1..]);
      OrderedFrom(s[0], Placed(b, s[1..]));
    }
  }

  lemma {:induction false} SortedFacts(s: seq<Backup>)
    ensures multiset(Sorted(s)) == multiset(s) && ByTxN(Sorted(s))
  {
    if s != [] {
      var n := |s| - 1;
      SortedFacts(s[..n]);
      PlacedHolds(s[n], Sorted(s[..n]));
      PlacedOrders(s[n], Sorted(s[..n]));
      assert s == s[..n] + [s[n]];
    }
  }

  lemma {:induction false} SpendingFacts(bs: seq<Backup>, o: Outpoint)
    requires AllSpend(bs)
    ensures forall b :: b in Spending(bs, o) ==> Spends(b) && Source(b) == o
  {
    if bs != [] { SpendingFacts(bs[..|bs| - 1], o); }
  }

  predicate Distinct(os: seq<Outpoint>) { forall i, j :: 0 <= i < j < |os| ==> os[i] != os[j] }

  lemma {:induction false} SourcesDistinct(bs: seq<Backup>)
    requires AllSpend(bs)
    ensures Distinct(Sources(bs))
  {
    if bs != [] { SourcesDistinct(bs[..|bs| - 1]); }
  }

  function Flat(cs: seq<seq<Backup>>): seq<Backup> { if cs == [] then [] else cs[0] + Flat(cs[1..]) }

  /** One more backup goes to one chain. */
  lemma {:induction false} FlatMore(bs: seq<Backup>, b: Backup, os: seq<Outpoint>)
    requires AllSpend(bs) && Spends(b) && AllSpend(bs + [b]) && Distinct(os)
    ensures multiset(Flat(Chains(bs + [b], os))) == multiset(Flat(Chains(bs, os))) + if Source(b) in os then multiset{b} else multiset{}
    decreases |os|
  {
    if os != [] {
      FlatMore(bs, b, os[1..]);
      FlatFirst(bs, os);
      FlatFirst(bs + [b], os);
      SpendingMore(bs, b, os[0]);
      InRest(os, Source(b));
    }
  }

  lemma InRest(os: seq<Outpoint>, o: Outpoint)
    requires os != [] && Distinct(os)
    ensures o in os <==> o == os[0] || o in os[1..]
    ensures os[0] !in os[1..]
  {
    assert os == [os[0]] + os[1..];
  }

  lemma FlatFirst(bs: seq<Backup>, os: seq<Outpoint>)
    requires AllSpend(bs) && os != []
    ensures multiset(Flat(Chains(bs, os))) == multiset(Spending(bs, os[0])) + multiset(Flat(Chains(bs, os[1..])))
  {
    SortedFacts(Spending(bs, os[0]));
    assert Chains(bs, os)[1..] == Chains(bs, os[1..]);
  }

  lemma {:induction false} FlatNone(os: seq<Outpoint>)
    ensures Flat(Chains([], os)) == []
  {
    if os != [] {
      assert Chains([], os)[1..] == Chains([], os[1..]);
      FlatNone(os[1..]);
    }
  }

  lemma {:induction false} FlatAll(bs: seq<Backup>, os: seq<Outpoint>)
    requires AllSpend(bs) && Distinct(os) && forall i :: 0 <= i < |bs| ==> Source(bs[i]) in os
    ensures multiset(Flat(Chains(bs, os))) == multiset(bs)
    decreases |bs|
  {
    if bs == [] {
      FlatNone(os);
    } else {
      var n := |bs| - 1;
      FlatAll(bs[..n], os);
      assert bs[..n] + [bs[n]] == bs;
      FlatMore(bs[..n], bs[n], os);
    }
  }

  lemma {:induction false} SourcesCover(bs: seq<Backup>)
    requires AllSpend(bs)
    ensures forall i :: 0 <= i < |bs| ==> Source(bs[i]) in Sources(bs)
  {
    if bs != [] { SourcesCover(bs[..|bs| - 1]); }
  }

  /** A chain is sorted, spends one outpoint, and is there exactly for the outpoints of the message. */
  ghost predicate ChainOf(bs: seq<Backup>, o: Outpoint)
    requires AllSpend(bs)
  {
    && ByTxN(Chain(bs, o)) && (Chain(bs, o) != [] <==> o in Sources(bs))
    && (forall i :: 0 <= i < |Chain(bs, o)| ==> Spends(Chain(bs, o)[i]) && Source(Chain(bs, o)[i]) == o)
  }

  lemma SameElements(a: seq<Backup>, b: seq<Backup>)
    requires multiset(a) == multiset(b)
    ensures |a| == |b| && forall i :: 0 <= i < |a| ==> a[i] in b
  {
    assert |multiset(a)| == |multiset(b)|;
    forall i | 0 <= i < |a| ensures a[i] in b { assert a[i] in multiset(a); }
  }

  lemma ChainFacts(bs: seq<Backup>, o: Outpoint)
    requires AllSpend(bs)
    ensures ChainOf(bs, o)
  {
    SpendingFacts(bs, o);
    SortedFacts(Spending(bs, o));
    SpendsOnlySources(bs, o);
    SameElements(Chain(bs, o), Spending(bs, o));
  }

  /**
   * The grouping is a partition: outpoints are distinct, each chain is not empty, spends its own
   * outpoint and is sorted, and the chains together hold the message's backups, each as often.
   */
  lemma SplitIsPartition(bs: seq<Backup>)
    requires AllSpend(bs)
    ensures Distinct(Sources(bs)) && multiset(Flat(Chains(bs, Sources(bs)))) == multiset(bs)
    ensures forall o :: ChainOf(bs, o)
  {
    SourcesDistinct(bs);
    SourcesCover(bs);
    FlatAll(bs, Sources(bs));
    forall o ensures ChainOf(bs, o) { ChainFacts(bs, o); }
  }

  // ----- a whole message --------------------------------------------------------------------

  /** The statechain's data as the server sends it, with the lockbox's signature count. */
  datatype Answer = Answer(numSigs: int, infos: seq<Info>)

  /** The first `n` chains pass, each against data asked for anew; the count is compared with the whole message. */
  ghost predicate ChainsPass(bs: seq<Backup>, n: int, answers: nat -> Answer, amounts: Outpoint -> int, c: Terms)
    requires AllSpend(bs) && n <= |Sources(bs)|
  {
    forall i :: 0 <= i < n ==> ChainPasses(bs, i, answers, amounts, c)
  }

  ghost predicate ChainPasses(bs: seq<Backup>, i: nat, answers: nat -> Answer, amounts: Outpoint -> int, c: Terms)
    requires AllSpend(bs) && i < |Sources(bs)|
  {
    var o := Sources(bs)[i];
    answers(i).numSigs == Wrap32(|bs|) && Accepted(Chain(bs, o), answers(i).infos, amounts(o), c)
  }

  ghost predicate MessageAccepted(bs: seq<Backup>, answers: nat -> Answer, amounts: Outpoint -> int, c: Terms)
  {
    AllSpend(bs) && ChainsPass(bs, |Sources(bs)|, answers, amounts, c)
  }

  /** The first chain that does not pass stops the process. */
  ghost predicate MessageStops(bs: seq<Backup>, answers: nat -> Answer, amounts: Outpoint -> int, c: Terms)
    requires AllSpend(bs)
  {
    exists i :: 0 <= i < |Sources(bs)| && ChainsPass(bs, i, answers, amounts, c) && ChainStops(bs, i, answers, amounts, c)
  }

  ghost predicate ChainStops(bs: seq<Backup>, i: nat, answers: nat -> Answer, amounts: Outpoint -> int, c: Terms)
    requires AllSpend(bs) && i < |Sources(bs)|
  {
    var o := Sources(bs)[i];
    answers(i).numSigs == Wrap32(|bs|) && Stops(Chain(bs, o), answers(i).infos, amounts(o), c)
  }

  lemma FirstChainFault(bs: seq<Backup>, n: nat, answers: nat -> Answer, amounts: Outpoint -> int, c: Terms)
    requires AllSpend(bs) && n < |Sources(bs)| && ChainsPass(bs, n, answers, amounts, c) && !ChainPasses(bs, n, answers, amounts, c)
    ensures !MessageAccepted(bs, answers, amounts, c)
    ensures MessageStops(bs, answers, amounts, c) <==> ChainStops(bs, n, answers, amounts, c)
  {
    forall i | 0 <= i < n ensures !ChainStops(bs, i, answers, amounts, c) { PassingGoesOn(bs, i, answers, amounts, c); }
  }

  lemma PassingGoesOn(bs: seq<Backup>, i: nat, answers: nat -> Answer, amounts: Outpoint -> int, c: Terms)
    requires AllSpend(bs) && i < |Sources(bs)| && ChainPasses(bs, i, answers, amounts, c)
    ensures !ChainStops(bs, i, answers, amounts, c)
  {
    var o := Sources(bs)[i];
    NeverStops(Chain(bs, o), answers(i).infos, amounts(o), c);
  }

  /** validate_encrypted_message, as far as it looks at the backups. */
  method ValidateMessage(bs: seq<Backup>, answers: nat -> Answer, amounts: Outpoint -> int, c: Terms) returns (r: Outcome<bool>)
    ensures r.Ok? <==> MessageAccepted(bs, answers, amounts, c)
    ensures r.Panic? <==> !AllSpend(bs) || MessageStops(bs, answers, amounts, c)
  {
    var grouped := SplitBackups(bs);
    if grouped.None? { return Panic; }
    var chains := grouped.value;
    ghost var sources := Sources(bs);
    SpendsOne(bs);
    var index := 0;
    while index < |chains|
      invariant 0 <= index <= |chains| && ChainsPass(bs, index, answers, amounts, c)
    {
      assert chains[index] == Chain(bs, sources[index]);
      var outpoint := Source(chains[index][0]);
      var info := answers(index);
      if info.numSigs != Wrap32(|bs|) {
        FirstChainFault(bs, index, answers, amounts, c);
        return Err;
      }
      var newest := ValidateSignatureScheme(chains[index], info.infos, amounts(outpoint), c);
      if !newest.Ok? {
        FirstChainFault(bs, index, answers, amounts, c);
        return if newest.Panic? then Panic else Err;
      }
      assert ChainPasses(bs, index, answers, amounts, c);
      index := index + 1;
    }
    forall i | 0 <= i < |sources| ensures !ChainStops(bs, i, answers, amounts, c) { PassingGoesOn(bs, i, answers, amounts, c); }
    return Ok(true);
  }

  /** The first transaction of a chain names its outpoint. */
  lemma SpendsOne(bs: seq<Backup>)
    requires AllSpend(bs)
    ensures forall i :: 0 <= i < |Sources(bs)| ==>
              var chain := Chain(bs, Sources(bs)[i]);
              chain != [] && Spends(chain[0]) && Source(chain[0]) == Sources(bs)[i]
  {
    forall i | 0 <= i < |Sources(bs)|
      ensures var chain := Chain(bs, Sources(bs)[i]);
              chain != [] && Spends(chain[0]) && Source(chain[0]) == Sources(bs)[i]
    {
      var o := Sources(bs)[i];
      ChainFacts(bs, o);
      assert o in Sources(bs);
    }
  }
}

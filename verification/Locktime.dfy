/** The locktimes of a coin's backup transactions, in the 32-bit arithmetic of the wallet library. */
module Locktime {
  import opened Bytes

  const TWO32 := 0x1_0000_0000
  /** Below this a locktime is a block height, from it on a time (LOCKTIME_THRESHOLD). */
  const THRESHOLD := 500_000_000

  predicate IsU32(x: int) { 0 <= x < TWO32 }

  function Wrap32(x: int): (r: int)
    ensures IsU32(r)
  {
    x % TWO32
  }

  // ----- one locktime ---------------------------------------------------------------------

  /** calculate_block_height for a backup, with wrapping arithmetic at every operator. */
  function BackupHeight(blockHeight: int, initlock: int, interval: int, qtBackupTx: int): (r: int)
    ensures IsU32(r)
  {
    var init := if qtBackupTx == 0 then initlock else 0;
    Wrap32(Wrap32(blockHeight + init) - Wrap32(interval * qtBackupTx))
  }

  /** absolute::LockTime::from_height */
  function FromHeight(height: int): (r: Option<int>)
  {
    if height < THRESHOLD then Some(height) else None
  }

  /** get_blockheight on a transaction's locktime field. */
  function GetBlockHeight(lockTime: int): (r: Option<int>)
  {
    if lockTime < THRESHOLD then Some(lockTime) else None
  }

  function AsI32(x: int): (r: int)
    ensures -0x8000_0000 <= r < 0x8000_0000
  {
    var y := x % TWO32;
    if y < 0x8000_0000 then y else y - TWO32
  }

  /** The withdrawal locktime for a pair of random draws; the subtraction wraps like the rest. */
  method WithdrawalLocktime(blockHeight: int, number: int, back: int) returns (r: int)
    requires IsU32(blockHeight) && 0 <= number <= 10 && 0 <= back <= 99
    ensures IsU32(r) && r <= blockHeight
    ensures number != 0 && blockHeight < 0x8000_0000 ==> r == blockHeight
    ensures number == 0 && back <= blockHeight < 0x8000_0000 ==> r == blockHeight - back
    ensures number == 0 && blockHeight < back ==> r == 0
  {
    var locktime := AsI32(blockHeight);
    if number == 0 {
      locktime := AsI32(locktime - back);
    }
    r := if locktime > 0 then locktime else 0;
  }

  // ----- the chain of backups -------------------------------------------------------------

  datatype Config = Config(initlock: int, interval: int)

  predicate ValidConfig(c: Config) { IsU32(c.initlock) && IsU32(c.interval) }

  /**
   * The locktimes of the first `count` backups of a coin deposited at `height`. The first counts
   * from the chain height, every later one from the first backup's own locktime.
   */
  function BackupLocks(c: Config, height: int, count: nat): (r: Option<seq<int>>)
    ensures r.Some? ==> |r.value| == count
  {
    if count == 0 then Some([])
    else
      var before := BackupLocks(c, height, count - 1);
      if before.None? then None
      else
        var base := if count == 1 then Some(height) else GetBlockHeight(before.value[0]);
        if base.None? then None
        else
          var lock := FromHeight(BackupHeight(base.value, c.initlock, c.interval, count - 1));
          if lock.None? then None else Some(before.value + [lock.value])
  }

  ghost predicate Decrementing(locks: seq<int>, first: int, interval: int)
  {
    forall k :: 0 <= k < |locks| ==> locks[k] == first - k * interval && 0 <= locks[k] < THRESHOLD
  }

  /**
   * Neither the first lock nor the second comes out of a wrap as something that passes for a block
   * height. A caller can look at this before making any backup.
   */
  predicate NoWrap(c: Config, height: int, count: nat)
  {
    var first := height + c.initlock;
    || count == 0
    || (&& !(TWO32 <= first < TWO32 + THRESHOLD)
        && (count == 1 || first >= THRESHOLD || c.interval <= first + TWO32 - THRESHOLD))
  }

  /**
   * The schedule: the k-th lock is height + initlock - k * interval, and a backup can be made
   * precisely while that is a block height and not negative.
   */
  lemma {:induction false} ScheduleIsExact(c: Config, height: int, count: nat)
    requires ValidConfig(c) && IsU32(height) && NoWrap(c, height, count)
    ensures BackupLocks(c, height, count).Some? <==>
            count == 0 || (height + c.initlock < THRESHOLD && (count - 1) * c.interval <= height + c.initlock)
    ensures BackupLocks(c, height, count).Some? ==>
              Decrementing(BackupLocks(c, height, count).value, height + c.initlock, c.interval)
    decreases count
  {
    var first := height + c.initlock;
    if count == 1 {
      FirstLock(c, height);
    } else if count > 1 {
      var k := count - 1;
      ScheduleIsExact(c, height, k);
      var before := BackupLocks(c, height, k);
      assert k * c.interval == (k - 1) * c.interval + c.interval;
      if before.Some? {
        assert before.value[0] == first - 0 * c.interval;
        NextBackup(c, first, k);
        if k * c.interval <= first {
          OneMore(before.value, first, c.interval, first - k * c.interval);
        }
      }
    }
  }

  /** The first lock on any inputs: the sum, wrapped, if that passes for a block height. */
  lemma FirstLock(c: Config, height: int)
    requires ValidConfig(c) && IsU32(height)
    ensures var first := height + c.initlock;
            BackupLocks(c, height, 1) ==
            if first < THRESHOLD then Some([first])
            else if TWO32 <= first < TWO32 + THRESHOLD then Some([first - TWO32])
            else None
  {
    var first := height + c.initlock;
    var lock := if first < TWO32 then first else first - TWO32;
    FirstHeight(height, c.initlock, c.interval);
    assert BackupLocks(c, height, 0) == Some([]);
    assert [] + [lock] == [lock];
  }

  lemma FirstHeight(height: int, initlock: int, interval: int)
    requires IsU32(height) && IsU32(initlock)
    ensures var first := height + initlock;
            BackupHeight(height, initlock, interval, 0) == if first < TWO32 then first else first - TWO32
  {
    assert interval * 0 == 0;
  }

  /** The second lock when the interval is larger than the first lock allows: it wraps into the block heights. */
  lemma SecondWraps(c: Config, height: int)
    requires ValidConfig(c) && 0 <= height && height + c.initlock < THRESHOLD
    requires c.interval > height + c.initlock + TWO32 - THRESHOLD
    ensures var first := height + c.initlock;
            BackupLocks(c, height, 2) == Some([first, first + TWO32 - c.interval])
  {
    var first := height + c.initlock;
    FirstLock(c, height);
    assert BackupHeight(first, c.initlock, c.interval, 1) == first + TWO32 - c.interval;
    assert [first] + [first + TWO32 - c.interval] == [first, first + TWO32 - c.interval];
  }

  ghost predicate Right(c: Config, height: int, count: nat)
  {
    BackupLocks(c, height, count).Some? ==> Decrementing(BackupLocks(c, height, count).value, height + c.initlock, c.interval)
  }

  lemma NotRight(c: Config, height: int, count: nat, k: nat)
    requires BackupLocks(c, height, count).Some? && k < count
    requires BackupLocks(c, height, count).value[k] != height + c.initlock - k * c.interval
    ensures !Right(c, height, count)
  {
  }

  /** For every 32-bit height, initlock and interval: all chains up to a length are right exactly when nothing wraps. */
  lemma ScheduleExactly(c: Config, height: int, count: nat)
    requires ValidConfig(c) && IsU32(height)
    ensures (forall k: nat :: k <= count ==> Right(c, height, k)) <==> NoWrap(c, height, count)
  {
    var first := height + c.initlock;
    if NoWrap(c, height, count) {
      forall k: nat | k <= count ensures Right(c, height, k) { ScheduleIsExact(c, height, k); }
    } else {
      FirstLock(c, height);
      if TWO32 <= first < TWO32 + THRESHOLD {
        NotRight(c, height, 1, 0);
      } else {
        SecondWraps(c, height);
        NotRight(c, height, 2, 1);
      }
    }
  }

  /** Both halves of the condition are needed: an initlock near 2^32, and an interval near 2^32. */
  lemma WrapsHappen()
    ensures BackupLocks(Config(0xFFFF_FFFF, 100), 800_000, 1) == Some([799_999]) && !Right(Config(0xFFFF_FFFF, 100), 800_000, 1)
    ensures BackupLocks(Config(0, 0xF000_0000), 0, 2) == Some([0, 0x1000_0000]) && !Right(Config(0, 0xF000_0000), 0, 2)
  {
    FirstLock(Config(0xFFFF_FFFF, 100), 800_000);
    NotRight(Config(0xFFFF_FFFF, 100), 800_000, 1, 0);
    SecondWraps(Config(0, 0xF000_0000), 0);
    NotRight(Config(0, 0xF000_0000), 0, 2, 1);
  }

  lemma OneMore(locks: seq<int>, first: int, interval: int, lock: int)
    requires Decrementing(locks, first, interval)
    requires lock == first - |locks| * interval && 0 <= lock < THRESHOLD
    ensures Decrementing(locks + [lock], first, interval)
  {
  }

  /** One later backup: exact while it is not negative, refused at the first step below zero. */
  lemma NextBackup(c: Config, first: int, k: nat)
    requires ValidConfig(c) && 0 <= first < THRESHOLD && c.interval <= first + TWO32 - THRESHOLD
    requires k >= 1 && (k - 1) * c.interval <= first
    ensures FromHeight(BackupHeight(first, c.initlock, c.interval, k))
            == if k * c.interval <= first then Some(first - k * c.interval) else None
  {
    var p, before := c.interval * k, (k - 1) * c.interval;
    assert p == k * c.interval == before + c.interval;
    assert before >= 0;
    if k > 1 { AtLeastOnce(k - 1, c.interval); }
    assert k == 1 ==> before == 0;
    assert Wrap32(first) == first;
    assert p < TWO32 && Wrap32(p) == p;
  }

  lemma AtLeastOnce(k: nat, interval: int)
    requires k >= 1 && interval >= 0
    ensures k * interval >= interval
  {
    assert k * interval == (k - 1) * interval + interval;
    assert (k - 1) * interval >= 0;
  }

  // ----- withdrawals ----------------------------------------------------------------------

  /** While the chain is below the newest lock, a withdrawal can be mined before any backup. */
  method WithdrawalPrecedesBackups(c: Config, height: int, count: nat, now: int, number: int, back: int) returns (r: int)
    requires ValidConfig(c) && IsU32(height) && NoWrap(c, height, count)
    requires IsU32(now) && 0 <= number <= 10 && 0 <= back <= 99
    requires BackupLocks(c, height, count).Some? && count > 0
    requires now < BackupLocks(c, height, count).value[count - 1]
    ensures 0 <= r <= now
    ensures forall k :: 0 <= k < count ==> r < BackupLocks(c, height, count).value[k]
  {
    r := WithdrawalLocktime(now, number, back);
    ghost var locks := BackupLocks(c, height, count).value;
    ScheduleIsExact(c, height, count);
    forall k | 0 <= k < count ensures r < locks[k] {
      LocksOrdered(locks, height + c.initlock, c.interval, k, count - 1);
    }
  }

  lemma LocksOrdered(locks: seq<int>, first: int, interval: int, i: int, j: int)
    requires Decrementing(locks, first, interval) && interval >= 0 && 0 <= i <= j < |locks|
    ensures locks[i] == locks[j] + (j - i) * interval && locks[i] >= locks[j]
  {
    assert j * interval == i * interval + (j - i) * interval;
    assert (j - i) * interval >= 0;
  }

  // ----- the life of a coin ---------------------------------------------------------------

  /** A coin on the chain: the height at deposit, the height now, the locks of its backups. */
  datatype Coin = Coin(deposit: int, height: int, locks: seq<int>)

  datatype Event = Mine(blocks: nat) | Transfer

  /** The sender refuses an expired coin; the receiver wants the new lock ahead of the chain. */
  predicate CanTransfer(c: Config, coin: Coin)
  {
    && coin.locks != []
    && coin.height <= coin.locks[|coin.locks| - 1]
    && var more := BackupLocks(c, coin.deposit, |coin.locks| + 1);
       && more.Some?
       && coin.height < more.value[|coin.locks|] <= coin.height + c.initlock
  }

  predicate CanHappen(c: Config, coin: Coin, e: Event)
  {
    match e
    case Mine(b) => coin.height + b < THRESHOLD
    case Transfer => CanTransfer(c, coin)
  }

  function After(c: Config, coin: Coin, e: Event): Coin
    requires CanHappen(c, coin, e)
  {
    match e
    case Mine(b) => coin.(height := coin.height + b)
    case Transfer => coin.(locks := BackupLocks(c, coin.deposit, |coin.locks| + 1).value)
  }

  predicate History(c: Config, coin: Coin, es: seq<Event>)
    decreases |es|
  {
    es == [] || (CanHappen(c, coin, es[0]) && History(c, After(c, coin, es[0]), es[1..]))
  }

  function Live(c: Config, coin: Coin, es: seq<Event>): Coin
    requires History(c, coin, es)
    decreases |es|
  {
    if es == [] then coin else Live(c, After(c, coin, es[0]), es[1..])
  }

  ghost predicate CoinOk(c: Config, coin: Coin)
  {
    && 0 <= coin.deposit <= coin.height < THRESHOLD
    && coin.locks != [] && BackupLocks(c, coin.deposit, |coin.locks|) == Some(coin.locks)
    && (|coin.locks| > 1 ==> (|coin.locks| - 1) * c.interval < c.initlock)
  }

  /** The first lock is a block height and no later one can wrap. */
  predicate Regular(c: Config, deposit: int)
  {
    deposit + c.initlock < THRESHOLD && c.interval <= deposit + c.initlock + TWO32 - THRESHOLD
  }

  lemma {:induction false} LifeKeepsOk(c: Config, coin: Coin, es: seq<Event>)
    requires ValidConfig(c) && Regular(c, coin.deposit)
    requires CoinOk(c, coin) && History(c, coin, es)
    ensures CoinOk(c, Live(c, coin, es)) && Live(c, coin, es).deposit == coin.deposit
    decreases |es|
  {
    if es != [] {
      var next := After(c, coin, es[0]);
      if es[0].Transfer? { ScheduleIsExact(c, coin.deposit, |coin.locks| + 1); }
      LifeKeepsOk(c, next, es[1..]);
    }
  }

  /** (newest lock - chain height): every event lowers it, a transfer by exactly the interval. */
  function Margin(coin: Coin): int
    requires coin.locks != []
  {
    coin.locks[|coin.locks| - 1] - coin.height
  }

  lemma MarginFalls(c: Config, coin: Coin, e: Event)
    requires ValidConfig(c) && Regular(c, coin.deposit)
    requires CoinOk(c, coin) && CanHappen(c, coin, e)
    ensures After(c, coin, e).locks != []
    ensures Margin(After(c, coin, e)) == Margin(coin) - if e.Transfer? then c.interval else e.blocks
  {
    if e.Transfer? {
      var k := |coin.locks|;
      ScheduleIsExact(c, coin.deposit, k + 1);
      ScheduleIsExact(c, coin.deposit, k);
      assert k * c.interval == (k - 1) * c.interval + c.interval;
    }
  }

  /**
   * A coin can change hands only so often: over any history from its deposit the transfers times
   * the interval stay below initlock, so there are at most (initlock - 1) / interval of them.
   */
  lemma BoundedLife(c: Config, deposit: int, es: seq<Event>)
    requires ValidConfig(c) && 0 < c.interval && 0 <= deposit && Regular(c, deposit)
    requires History(c, Deposited(c, deposit), es)
    ensures var coin := Live(c, Deposited(c, deposit), es);
            && |coin.locks| >= 1
            && (|coin.locks| == 1 || (|coin.locks| - 1) * c.interval < c.initlock)
            && (|coin.locks| == 1 || |coin.locks| - 1 <= (c.initlock - 1) / c.interval)
            && Decrementing(coin.locks, deposit + c.initlock, c.interval)
  {
    var start := Deposited(c, deposit);
    FirstBackup(c, deposit);
    assert CoinOk(c, start);
    LifeKeepsOk(c, start, es);
    CoinBound(c, Live(c, start, es));
  }

  function Deposited(c: Config, deposit: int): Coin { Coin(deposit, deposit, [deposit + c.initlock]) }

  lemma FirstBackup(c: Config, deposit: int)
    requires ValidConfig(c) && 0 <= deposit && deposit + c.initlock < THRESHOLD
    ensures BackupLocks(c, deposit, 1) == Some([deposit + c.initlock])
  {
    FirstLock(c, deposit);
  }

  /** And so often it can: that many transfers in a row go through right after the deposit. */
  lemma {:induction false} BoundIsReached(c: Config, deposit: int, k: nat)
    requires ValidConfig(c) && 0 < c.interval && 0 <= deposit && Regular(c, deposit)
    requires k == 0 || k * c.interval < c.initlock
    ensures var es := seq(k, _ => Transfer);
            History(c, Deposited(c, deposit), es) && |Live(c, Deposited(c, deposit), es).locks| == k + 1
  {
    FirstBackup(c, deposit);
    TransfersGoThrough(c, Deposited(c, deposit), k);
  }

  lemma {:induction false} TransfersGoThrough(c: Config, coin: Coin, k: nat)
    requires ValidConfig(c) && 0 < c.interval && 0 <= coin.deposit == coin.height && Regular(c, coin.deposit)
    requires coin.locks != [] && BackupLocks(c, coin.deposit, |coin.locks|) == Some(coin.locks)
    requires k == 0 || (|coin.locks| - 1 + k) * c.interval < c.initlock
    ensures var es := seq(k, _ => Transfer);
            History(c, coin, es) && |Live(c, coin, es).locks| == |coin.locks| + k
    decreases k
  {
    var es := seq(k, _ => Transfer);
    if k > 0 {
      OneTransfer(c, coin, k);
      var next := After(c, coin, Transfer);
      TransfersGoThrough(c, next, k - 1);
      assert es[1..] == seq(k - 1, _ => Transfer);
    }
  }

  lemma OneTransfer(c: Config, coin: Coin, k: nat)
    requires ValidConfig(c) && 0 < c.interval && 0 <= coin.deposit == coin.height && Regular(c, coin.deposit)
    requires coin.locks != [] && BackupLocks(c, coin.deposit, |coin.locks|) == Some(coin.locks)
    requires k > 0 && (|coin.locks| - 1 + k) * c.interval < c.initlock
    ensures CanHappen(c, coin, Transfer)
  {
    var n := |coin.locks|;
    ScheduleIsExact(c, coin.deposit, n);
    ScheduleIsExact(c, coin.deposit, n + 1);
    Room(n, k, c.interval, c.initlock);
    assert coin.locks[n - 1] == coin.deposit + c.initlock - (n - 1) * c.interval;
    assert BackupLocks(c, coin.deposit, n + 1).value[n] == coin.deposit + c.initlock - n * c.interval;
  }

  lemma Room(n: nat, k: nat, interval: int, initlock: int)
    requires n > 0 && k > 0 && interval > 0 && (n - 1 + k) * interval < initlock
    ensures 0 <= (n - 1) * interval < n * interval < initlock
  {
    assert (n - 1 + k) * interval == n * interval + (k - 1) * interval;
    assert n * interval == (n - 1) * interval + interval;
    assert (k - 1) * interval >= 0 && (n - 1) * interval >= 0;
  }

  lemma CoinBound(c: Config, coin: Coin)
    requires ValidConfig(c) && 0 < c.interval && Regular(c, coin.deposit) && CoinOk(c, coin)
    ensures |coin.locks| == 1 || (|coin.locks| - 1) * c.interval < c.initlock
    ensures |coin.locks| == 1 || |coin.locks| - 1 <= (c.initlock - 1) / c.interval
    ensures Decrementing(coin.locks, coin.deposit + c.initlock, c.interval)
  {
    ScheduleIsExact(c, coin.deposit, |coin.locks|);
    if |coin.locks| > 1 { QuotientBound(|coin.locks| - 1, c.interval, c.initlock - 1); }
  }

  lemma QuotientBound(k: int, interval: int, initlock: int)
    requires interval > 0 && k >= 0 && k * interval <= initlock
    ensures k <= initlock / interval
  {
    var q := initlock / interval;
    assert initlock == interval * q + initlock % interval;
    assert (k - q) * interval == k * interval - interval * q;
    assert k - q >= 1 ==> (k - q) * interval >= interval;
  }
}

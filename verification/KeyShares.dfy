/**
 * The key shares of a statechain coin: the enclave's key update, the blinded transfer that
 * feeds it, and what a whole chain of transfers keeps.
 */
module KeyShares {
  import opened Bytes
  import opened Curve

  // ----- one key update -------------------------------------------------------------------

  /** secp256k1_ec_seckey_tweak_add: fails on a bad key, a tweak out of range or a zero sum. */
  function TweakAdd(g: Group, key: int, tweak: int): (r: Option<int>)
    requires g.n > 0
    ensures r.Some? ==> IsKey(g, r.value)
  {
    if IsKey(g, key) && IsScalar(g, tweak) && Add(g, key, tweak) != 0
    then Some(Add(g, key, tweak)) else None
  }

  /** The share that replaces `server`: the steps of the enclave, `None` where an assertion stops it. */
  function UpdatedShare(g: Group, server: int, x1: int, t2: int): (r: Option<int>)
    requires g.n > 0
    ensures r.Some? ==> IsKey(g, r.value)
  {
    var first := TweakAdd(g, server, t2);
    if first.None? || !IsKey(g, x1) then None else TweakAdd(g, first.value, Neg(g, x1))
  }

  lemma AddNeg(g: Group, a: int, b: int, c: int)
    requires g.n > 0
    ensures Add(g, Add(g, a, b), Neg(g, c)) == (a + b - c) % g.n
  {
    CongMod(g.n, a + b);
    CongMod(g.n, -c);
    CongAdd(g.n, Add(g, a, b), a + b, Neg(g, c), -c);
  }

  /** When an update goes through, and the share it then stores. */
  lemma UpdatedShareExactly(g: Group, server: int, x1: int, t2: int)
    requires g.n > 0
    ensures UpdatedShare(g, server, x1, t2).Some? <==>
            && IsKey(g, server) && IsKey(g, x1) && IsScalar(g, t2)
            && (server + t2) % g.n != 0 && (server + t2 - x1) % g.n != 0
    ensures UpdatedShare(g, server, x1, t2).Some? ==>
              UpdatedShare(g, server, x1, t2).value == (server + t2 - x1) % g.n
  {
    AddNeg(g, server, t2, x1);
  }

  // ----- the enclave's buffers ------------------------------------------------------------

  /** secp256k1_ec_seckey_tweak_add on a 32-byte buffer: the buffer is zeroed on failure. */
  method SeckeyTweakAdd(g: Group, seckey: array<Byte>, tweak: array<Byte>) returns (ok: bool)
    requires ValidGroup(g)
    requires seckey.Length == 32 && tweak.Length == 32
    modifies seckey
    ensures var sum := TweakAdd(g, old(FromBigEndian(seckey[..])), old(FromBigEndian(tweak[..])));
            && ok == sum.Some?
            && FromBigEndian(seckey[..]) == if ok then sum.value else 0
  {
    var sum := TweakAdd(g, FromBigEndian(seckey[..]), FromBigEndian(tweak[..]));
    ok := sum.Some?;
    Store(seckey, if ok then sum.value else 0);
  }

  /** secp256k1_ec_seckey_negate on a 32-byte buffer: the buffer is zeroed on failure. */
  method SeckeyNegate(g: Group, seckey: array<Byte>) returns (ok: bool)
    requires ValidGroup(g) && seckey.Length == 32
    modifies seckey
    ensures ok == IsKey(g, old(FromBigEndian(seckey[..])))
    ensures FromBigEndian(seckey[..]) == if ok then Neg(g, old(FromBigEndian(seckey[..]))) else 0
  {
    var k := FromBigEndian(seckey[..]);
    ok := IsKey(g, k);
    Store(seckey, if ok then Neg(g, k) else 0);
  }

  method Store(a: array<Byte>, v: nat)
    requires a.Length == 32 && v < Pow256(32)
    modifies a
    ensures FromBigEndian(a[..]) == v
  {
    var s := ToBigEndian(v, 32);
    forall i | 0 <= i < 32 { a[i] := s[i]; }
    assert a[..] == s;
    BigEndianRoundTrip(v, 32);
  }

  method Copy(a: array<Byte>) returns (b: array<Byte>)
    ensures fresh(b) && b[..] == a[..]
  {
    b := new Byte[a.Length](_ => 0);
    forall i | 0 <= i < a.Length { b[i] := a[i]; }
  }

  /** The lockbox's key update: `None` where one of its assertions would stop the process. */
  method LockboxKeyUpdate(g: Group, serverSeckey: array<Byte>, serializedX1: array<Byte>, serializedT2: array<Byte>)
    returns (r: Option<array<Byte>>)
    requires ValidGroup(g)
    requires serverSeckey.Length == 32 && serializedX1.Length == 32 && serializedT2.Length == 32
    ensures var share := UpdatedShare(g, FromBigEndian(serverSeckey[..]), FromBigEndian(serializedX1[..]),
                                      FromBigEndian(serializedT2[..]));
            && r.Some? == share.Some?
            && (r.Some? ==> fresh(r.value) && r.value.Length == 32 && FromBigEndian(r.value[..]) == share.value)
  {
    var newServerSeckey := Copy(serverSeckey);
    var ok := SeckeyTweakAdd(g, newServerSeckey, serializedT2);
    if !ok { return None; }
    var x1 := Copy(serializedX1);
    if !IsKey(g, FromBigEndian(x1[..])) { return None; }
    ok := SeckeyNegate(g, x1);
    assert ok;
    ok := SeckeyTweakAdd(g, newServerSeckey, x1);
    if !ok { return None; }
    return Some(newServerSeckey);
  }

  /** The SGX enclave's key update, which checks the lengths of its inputs itself. */
  method SgxKeyUpdate(g: Group, serverSeckey: array<Byte>, serializedX1: array<Byte>, serializedT2: array<Byte>)
    returns (r: Option<array<Byte>>)
    requires ValidGroup(g) && serverSeckey.Length == 32
    ensures serializedX1.Length != 32 || serializedT2.Length != 32 ==> r.None?
    ensures serializedX1.Length == 32 && serializedT2.Length == 32 ==>
              var share := UpdatedShare(g, FromBigEndian(serverSeckey[..]), FromBigEndian(serializedX1[..]),
                                        FromBigEndian(serializedT2[..]));
              && r.Some? == share.Some?
              && (r.Some? ==> fresh(r.value) && r.value.Length == 32 && FromBigEndian(r.value[..]) == share.value)
  {
    if serializedX1.Length != 32 || serializedT2.Length != 32 { return None; }
    var newServerSeckey := Copy(serverSeckey);
    var ok := SeckeyTweakAdd(g, newServerSeckey, serializedT2);
    if !ok { return None; }
    var x1 := Copy(serializedX1);
    if !IsKey(g, FromBigEndian(x1[..])) { return None; }
    ok := SeckeyNegate(g, x1);
    assert ok;
    ok := SeckeyTweakAdd(g, newServerSeckey, x1);
    if !ok { return None; }
    return Some(newServerSeckey);
  }

  /** Drawing a server key: the first 32-byte draw that is a valid secret key. */
  method DrawSeckey(g: Group, draws: seq<seq<Byte>>) returns (r: Option<int>)
    ensures r.Some? ==> exists i :: 0 <= i < |draws| && r.value == FromBigEndian(draws[i]) && IsKey(g, r.value)
                                    && forall j :: 0 <= j < i ==> !IsKey(g, FromBigEndian(draws[j]))
    ensures r.None? ==> forall i :: 0 <= i < |draws| ==> !IsKey(g, FromBigEndian(draws[i]))
  {
    var i := 0;
    while i < |draws|
      invariant 0 <= i <= |draws|
      invariant forall j :: 0 <= j < i ==> !IsKey(g, FromBigEndian(draws[j]))
    {
      if IsKey(g, FromBigEndian(draws[i])) {
        return Some(FromBigEndian(draws[i]));
      }
      i := i + 1;
    }
    return None;
  }

  // ----- one transfer ---------------------------------------------------------------------

  /** The sender's blinded share t1. */
  function BlindShare(g: Group, owner: int, x1: int): (t1: Option<int>)
    requires g.n > 0
    ensures t1.Some? ==> IsKey(g, t1.value)
  {
    TweakAdd(g, owner, x1)
  }

  /** The receiver's check of t1 against the sender's public share and X1. `None` is an error. */
  function ValidateT1(g: Group, t1: int, x1Pub: int, senderPub: int): (ok: Option<bool>)
    requires g.n > 0
  {
    if !IsKey(g, t1) then None
    else match Combine(g, senderPub, x1Pub)
      case None => None
      case Some(p) => Some(p == t1)
  }

  /** The receiver's message t2. */
  function UnblindShare(g: Group, t1: int, newOwner: int): (t2: Option<int>)
    requires g.n > 0
    ensures t2.Some? ==> IsKey(g, t2.value)
  {
    TweakAdd(g, Neg(g, newOwner), t1)
  }

  /** Sender and receiver in turn: the t2 that reaches the enclave, if they get that far. */
  function TransferMessage(g: Group, owner: int, newOwner: int, x1: int): (t2: Option<int>)
    requires g.n > 0
    ensures t2.Some? ==> IsKey(g, t2.value)
  {
    var t1 := BlindShare(g, owner, x1);
    if t1.None? || ValidateT1(g, t1.value, x1, owner) != Some(true) then None
    else UnblindShare(g, t1.value, newOwner)
  }

  /** A whole transfer: the enclave's new share or `None`. */
  function Transfer(g: Group, server: int, owner: int, newOwner: int, x1: int): (r: Option<int>)
    requires g.n > 0
    ensures r.Some? ==> IsKey(g, r.value)
  {
    var t2 := TransferMessage(g, owner, newOwner, x1);
    if t2.None? then None else UpdatedShare(g, server, x1, t2.value)
  }

  /** No blinded value vanishes on the way. */
  predicate TransferDefined(g: Group, server: int, owner: int, newOwner: int, x1: int)
    requires g.n > 0
  {
    && (owner + x1) % g.n != 0
    && (owner + x1 - newOwner) % g.n != 0
    && (server + owner + x1 - newOwner) % g.n != 0
    && (server + owner - newOwner) % g.n != 0
  }

  /**
   * A transfer between honest parties succeeds exactly when none of its four sums is zero, and
   * then moves the server's share by the difference of the owners' shares; x1 cancels out.
   */
  lemma TransferMovesShare(g: Group, server: int, owner: int, newOwner: int, x1: int)
    requires ValidGroup(g)
    requires IsKey(g, server) && IsKey(g, owner) && IsKey(g, newOwner) && IsKey(g, x1)
    ensures Transfer(g, server, owner, newOwner, x1).Some? <==> TransferDefined(g, server, owner, newOwner, x1)
    ensures Transfer(g, server, owner, newOwner, x1).Some? ==>
              Transfer(g, server, owner, newOwner, x1).value == (server + owner - newOwner) % g.n
  {
    var n := g.n;
    var t1 := Add(g, owner, x1);
    if t1 != 0 {
      ModUnique(n, 0, n - newOwner);
      CongShift(n, -newOwner, 1);
      assert Neg(g, newOwner) == n - newOwner;
      var t2 := Add(g, Neg(g, newOwner), t1);
      assert Cong(n, t2, owner + x1 - newOwner) by {
        CongMod(n, owner + x1);
        CongMod(n, -newOwner);
        CongAdd(n, Neg(g, newOwner), -newOwner, t1, owner + x1);
        CongMod(n, Neg(g, newOwner) + t1);
      }
      CongMod(n, owner + x1 - newOwner);
      CongUnique(n, t2, (owner + x1 - newOwner) % n);
      if t2 != 0 {
        UpdatedShareExactly(g, server, x1, t2);
        CongAdd(n, server, server, t2, owner + x1 - newOwner);
        CongAdd(n, server - x1, server - x1, t2, owner + x1 - newOwner);
      }
    }
  }

  /** A transfer that is refused: the sender draws the one x1 that cancels the owner's share. */
  lemma CancelledTransfer(g: Group, server: int, owner: int, newOwner: int)
    requires ValidGroup(g) && IsKey(g, server) && IsKey(g, owner) && IsKey(g, newOwner)
    ensures IsKey(g, g.n - owner) && Transfer(g, server, owner, newOwner, g.n - owner) == None
  {
    TransferMovesShare(g, server, owner, newOwner, g.n - owner);
    assert (owner + (g.n - owner)) % g.n == 0;
  }

  // ----- runs of transfers ----------------------------------------------------------------

  datatype Handover = Handover(newOwner: int, x1: int)

  datatype Shares = Shares(server: int, owner: int)

  predicate ValidShares(g: Group, c: Shares) { IsKey(g, c.server) && IsKey(g, c.owner) }

  /** Every share and every blinding scalar is drawn as a secret key. */
  predicate ValidHandovers(g: Group, hs: seq<Handover>)
  {
    forall i :: 0 <= i < |hs| ==> IsKey(g, hs[i].newOwner) && IsKey(g, hs[i].x1)
  }

  /** The shares after a sequence of transfers, or `None` when one of them is refused. */
  function RunTransfers(g: Group, c: Shares, hs: seq<Handover>): (r: Option<Shares>)
    requires g.n > 0
    decreases |hs|
  {
    if hs == [] then Some(c)
    else match Transfer(g, c.server, c.owner, hs[0].newOwner, hs[0].x1)
      case None => None
      case Some(s) => RunTransfers(g, Shares(s, hs[0].newOwner), hs[1..])
  }

  /** Transfers never change the joint key. */
  lemma {:induction false} JointKeyConserved(g: Group, c: Shares, hs: seq<Handover>)
    requires ValidGroup(g) && ValidShares(g, c) && ValidHandovers(g, hs)
    requires RunTransfers(g, c, hs).Some?
    ensures var d := RunTransfers(g, c, hs).value;
            && ValidShares(g, d)
            && Add(g, d.server, d.owner) == Add(g, c.server, c.owner)
            && d.owner == (if hs == [] then c.owner else hs[|hs| - 1].newOwner)
    decreases |hs|
  {
    if hs != [] {
      var h := hs[0];
      TransferMovesShare(g, c.server, c.owner, h.newOwner, h.x1);
      var s := Transfer(g, c.server, c.owner, h.newOwner, h.x1).value;
      CongMod(g.n, c.server + c.owner - h.newOwner);
      CongAdd(g.n, s, c.server + c.owner - h.newOwner, h.newOwner, h.newOwner);
      JointKeyConserved(g, Shares(s, h.newOwner), hs[1..]);
    }
  }

  datatype Verdict = Error | Answer(holds: bool)

  /** Whether the user's and the enclave's public shares add up to the coin's aggregate key. */
  function IsEnclavePubkeyPartOfCoin(g: Group, aggregate: Option<int>, userPub: int, enclavePub: int): (v: Verdict)
    requires g.n > 0
  {
    match aggregate
    case None => Error
    case Some(a) =>
      match Combine(g, userPub, enclavePub)
      case None => Error
      case Some(p) => Answer(p == a)
  }

  /**
   * After any run of transfers the check against the deposit's aggregate key singles out the
   * current owner: it answers yes for that share and for no other, an earlier owner's included.
   */
  lemma OnlyCurrentOwnerPasses(g: Group, deposit: Shares, hs: seq<Handover>, share: int)
    requires ValidGroup(g) && ValidShares(g, deposit) && ValidHandovers(g, hs) && IsKey(g, share)
    requires Combine(g, deposit.owner, deposit.server).Some?
    requires RunTransfers(g, deposit, hs).Some?
    ensures var now := RunTransfers(g, deposit, hs).value;
            IsEnclavePubkeyPartOfCoin(g, Combine(g, deposit.owner, deposit.server), share, now.server) == Answer(true)
            <==> share == now.owner
  {
    JointKeyConserved(g, deposit, hs);
    var now := RunTransfers(g, deposit, hs).value;
    if Add(g, share, now.server) == Add(g, now.owner, now.server) {
      CongAdd(g.n, share + now.server, now.owner + now.server, -now.server, -now.server);
      CongUnique(g.n, share, now.owner);
    }
  }
}

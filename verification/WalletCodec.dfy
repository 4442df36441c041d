/** The wallet record and the records in it, as the bindings put them on the wire. */
module WalletCodec {
  import opened Bytes
  import opened Uniffi
  import opened UniffiBuffers

  /** A Python string: its code points. */
  type Chars = seq<int>

  datatype CoinStatus =
    Initialised | InMempool | Unconfirmed | Confirmed | InTransfer | Withdrawing | Transferred | Withdrawn

  // ----- records as values ------------------------------------------------------------------

  function Record(ss: seq<Schema>): Schema { if ss == [] then End else Field(ss[0], Record(ss[1..])) }

  function Fields(vs: seq<Value>): Value { if vs == [] then Nil else Cons(vs[0], Fields(vs[1..])) }

  function Items(v: Value): seq<Value> { if v.Cons? then [v.first] + Items(v.rest) else [] }

  function Item(vs: seq<Value>, i: nat): Value { if i < |vs| then vs[i] else Nil }

  lemma {:induction false} ItemsOfFields(vs: seq<Value>)
    ensures Items(Fields(vs)) == vs
  {
    if vs != [] { ItemsOfFields(vs[1..]); }
  }

  /** A record fits when each of its fields does. */
  lemma {:induction false} RecordFits(ss: seq<Schema>, vs: seq<Value>)
    requires |ss| == |vs|
    ensures Fits(Record(ss), Fields(vs)) <==> forall i :: 0 <= i < |ss| ==> Fits(ss[i], vs[i])
  {
    if ss != [] {
      RecordFits(ss[1..], vs[1..]);
      assert forall i :: 1 <= i < |ss| ==> ss[i] == ss[1..][i - 1] && vs[i] == vs[1..][i - 1];
      assert forall i :: 0 <= i < |ss| - 1 ==> ss[1..][i] == ss[i + 1] && vs[1..][i] == vs[i + 1];
    }
  }

  function OptStr(o: Option<Chars>): Value { if o.None? then Nothing else Just(Str(o.value)) }

  function OptNum(o: Option<int>): Value { if o.None? then Nothing else Just(Num(o.value)) }

  function StatusIndex(s: CoinStatus): nat
  {
    match s
    case Initialised => 0 case InMempool => 1 case Unconfirmed => 2 case Confirmed => 3
    case InTransfer => 4 case Withdrawing => 5 case Transferred => 6 case Withdrawn => 7
  }

  function AsNum(v: Value): int { if v.Num? then v.n else 0 }

  function AsFlag(v: Value): bool { v.Flag? && v.b }

  function AsStr(v: Value): Chars { if v.Str? then v.t else [] }

  function AsOptStr(v: Value): Option<Chars> { if v.Just? then Some(AsStr(v.v)) else None }

  function AsOptNum(v: Value): Option<int> { if v.Just? then Some(AsNum(v.v)) else None }

  function AsStatus(v: Value): CoinStatus
  {
    var k := if v.Variant? then v.k else 0;
    if k == 0 then Initialised else if k == 1 then InMempool else if k == 2 then Unconfirmed
    else if k == 3 then Confirmed else if k == 4 then InTransfer else if k == 5 then Withdrawing
    else if k == 6 then Transferred else Withdrawn
  }

  // ----- Activity --------------------------------------------------------------------------

  datatype Activity = Activity(
    utxo: Chars, amount: int, action: Chars, date: Chars)

  function ActivityWrites(): Schema
  {
    Record([
      Text, U32, Text, Text])
  }

  function ActivityReads(): Schema
  {
    Record([
      Text, U32, Text, Text])
  }

  function ActivityFields(a: Activity): seq<Value>
  {
    [
      Str(a.utxo), Num(a.amount), Str(a.action), Str(a.date)]
  }

  function ActivityValue(a: Activity): Value { Fields(ActivityFields(a)) }

  function AsActivity(value: Value): Activity
  {
    var f := Items(value);
    Activity(
      AsStr(Item(f, 0)), AsNum(Item(f, 1)), AsStr(Item(f, 2)), AsStr(Item(f, 3)))
  }

  lemma ActivityRoundTrip(a: Activity)
    ensures AsActivity(ActivityValue(a)) == a
  {
    ItemsOfFields(ActivityFields(a));
  }

  function ActivitiesValues(items: seq<Activity>): seq<Value> { seq(|items|, i requires 0 <= i < |items| => ActivityValue(items[i])) }

  function AsActivities(value: Value): seq<Activity>
  {
    if value.List? then seq(|value.vs|, i requires 0 <= i < |value.vs| => AsActivity(value.vs[i])) else []
  }

  lemma ActivitiesRoundTrip(items: seq<Activity>)
    ensures AsActivities(List(ActivitiesValues(items))) == items
  {
    forall i | 0 <= i < |items| ensures AsActivity(ActivityValue(items[i])) == items[i] { ActivityRoundTrip(items[i]); }
  }

  // ----- Token -----------------------------------------------------------------------------

  datatype Token = Token(
    btcPaymentAddress: Chars, fee: Chars, lightningInvoice: Chars, processorId: Chars, tokenId: Chars,
    confirmed: bool, spent: bool, expiry: Chars)

  function TokenWrites(): Schema
  {
    Record([
      Text, Text, Text, Text, Text, Boolean, Boolean, Text])
  }

  function TokenReads(): Schema
  {
    Record([
      Text, Text, Text, Text, Text, Boolean, Boolean, Text])
  }

  function TokenFields(t: Token): seq<Value>
  {
    [
      Str(t.btcPaymentAddress), Str(t.fee), Str(t.lightningInvoice), Str(t.processorId), Str(t.tokenId),
      Flag(t.confirmed), Flag(t.spent), Str(t.expiry)]
  }

  function TokenValue(t: Token): Value { Fields(TokenFields(t)) }

  function AsToken(value: Value): Token
  {
    var f := Items(value);
    Token(
      AsStr(Item(f, 0)), AsStr(Item(f, 1)), AsStr(Item(f, 2)), AsStr(Item(f, 3)), AsStr(Item(f, 4)),
      AsFlag(Item(f, 5)), AsFlag(Item(f, 6)), AsStr(Item(f, 7)))
  }

  lemma TokenRoundTrip(t: Token)
    ensures AsToken(TokenValue(t)) == t
  {
    ItemsOfFields(TokenFields(t));
  }

  function TokensValues(items: seq<Token>): seq<Value> { seq(|items|, i requires 0 <= i < |items| => TokenValue(items[i])) }

  function AsTokens(value: Value): seq<Token>
  {
    if value.List? then seq(|value.vs|, i requires 0 <= i < |value.vs| => AsToken(value.vs[i])) else []
  }

  lemma TokensRoundTrip(items: seq<Token>)
    ensures AsTokens(List(TokensValues(items))) == items
  {
    forall i | 0 <= i < |items| ensures AsToken(TokenValue(items[i])) == items[i] { TokenRoundTrip(items[i]); }
  }

  // ----- Settings --------------------------------------------------------------------------

  datatype Settings = Settings(
    network: Chars, blockExplorerUrl: Option<Chars>, torProxyHost: Option<Chars>, torProxyPort: Option<Chars>,
    torProxyControlPassword: Option<Chars>, torProxyControlPort: Option<Chars>, statechainEntityApi: Chars,
    torStatechainEntityApi: Option<Chars>, electrumProtocol: Chars, electrumHost: Chars, electrumPort: Chars,
    electrumType: Chars, notifications: bool, tutorials: bool)

  function SettingsWrites(): Schema
  {
    Record([
      Text, OptionOf(Text), OptionOf(Text), OptionOf(Text), OptionOf(Text), OptionOf(Text), Text,
      OptionOf(Text), Text, Text, Text, Text, Boolean, Boolean])
  }

  function SettingsReads(): Schema
  {
    Record([
      Text, OptionOf(Text), OptionOf(Text), OptionOf(Text), OptionOf(Text), OptionOf(Text), Text,
      OptionOf(Text), Text, Text, Text, Text, Boolean, Boolean])
  }

  function SettingsFields(s: Settings): seq<Value>
  {
    [
      Str(s.network), OptStr(s.blockExplorerUrl), OptStr(s.torProxyHost), OptStr(s.torProxyPort),
      OptStr(s.torProxyControlPassword), OptStr(s.torProxyControlPort), Str(s.statechainEntityApi),
      OptStr(s.torStatechainEntityApi), Str(s.electrumProtocol), Str(s.electrumHost), Str(s.electrumPort),
      Str(s.electrumType), Flag(s.notifications), Flag(s.tutorials)]
  }

  function SettingsValue(s: Settings): Value { Fields(SettingsFields(s)) }

  function AsSettings(value: Value): Settings
  {
    var f := Items(value);
    Settings(
      AsStr(Item(f, 0)), AsOptStr(Item(f, 1)), AsOptStr(Item(f, 2)), AsOptStr(Item(f, 3)),
      AsOptStr(Item(f, 4)), AsOptStr(Item(f, 5)), AsStr(Item(f, 6)), AsOptStr(Item(f, 7)), AsStr(Item(f, 8)),
      AsStr(Item(f, 9)), AsStr(Item(f, 10)), AsStr(Item(f, 11)), AsFlag(Item(f, 12)), AsFlag(Item(f, 13)))
  }

  lemma SettingsRoundTrip(s: Settings)
    ensures AsSettings(SettingsValue(s)) == s
  {
    ItemsOfFields(SettingsFields(s));
  }

  // ----- Coin ------------------------------------------------------------------------------

  datatype Coin = Coin(
    index: int, userPrivkey: Chars, userPubkey: Chars, authPrivkey: Chars, authPubkey: Chars,
    derivationPath: Chars, fingerprint: Chars, address: Chars, backupAddress: Chars,
    serverPubkey: Option<Chars>, aggregatedPubkey: Option<Chars>, aggregatedAddress: Option<Chars>,
    utxoTxid: Option<Chars>, utxoVout: Option<int>, amount: Option<int>, statechainId: Option<Chars>,
    signedStatechainId: Option<Chars>, locktime: Option<int>, secretNonce: Option<Chars>,
    publicNonce: Option<Chars>, blindingFactor: Option<Chars>, serverPublicNonce: Option<Chars>,
    txCpfp: Option<Chars>, txWithdraw: Option<Chars>, withdrawalAddress: Option<Chars>, status: CoinStatus)

  function CoinWrites(): Schema
  {
    Record([
      U32, Text, Text, Text, Text, Text, Text, Text, Text, OptionOf(Text), OptionOf(Text), OptionOf(Text),
      OptionOf(Text), OptionOf(U32), OptionOf(U32), OptionOf(Text), OptionOf(Text), OptionOf(U32),
      OptionOf(Text), OptionOf(Text), OptionOf(Text), OptionOf(Text), OptionOf(Text), OptionOf(Text),
      OptionOf(Text), Status])
  }

  function CoinReads(): Schema
  {
    Record([
      U32, Text, Text, Text, Text, Text, Text, Text, Text, OptionOf(Text), OptionOf(Text), OptionOf(Text),
      OptionOf(Text), OptionOf(U32), OptionOf(U32), OptionOf(Text), OptionOf(Text), OptionOf(U32),
      OptionOf(Text), OptionOf(Text), OptionOf(Text), OptionOf(Text), OptionOf(Text), OptionOf(Text),
      OptionOf(Text), Status])
  }

  function CoinFields(c: Coin): seq<Value>
  {
    [
      Num(c.index), Str(c.userPrivkey), Str(c.userPubkey), Str(c.authPrivkey), Str(c.authPubkey),
      Str(c.derivationPath), Str(c.fingerprint), Str(c.address), Str(c.backupAddress), OptStr(c.serverPubkey),
      OptStr(c.aggregatedPubkey), OptStr(c.aggregatedAddress), OptStr(c.utxoTxid), OptNum(c.utxoVout),
      OptNum(c.amount), OptStr(c.statechainId), OptStr(c.signedStatechainId), OptNum(c.locktime),
      OptStr(c.secretNonce), OptStr(c.publicNonce), OptStr(c.blindingFactor), OptStr(c.serverPublicNonce),
      OptStr(c.txCpfp), OptStr(c.txWithdraw), OptStr(c.withdrawalAddress), Variant(StatusIndex(c.status))]
  }

  function CoinValue(c: Coin): Value { Fields(CoinFields(c)) }

  function AsCoin(value: Value): Coin
  {
    var f := Items(value);
    Coin(
      AsNum(Item(f, 0)), AsStr(Item(f, 1)), AsStr(Item(f, 2)), AsStr(Item(f, 3)), AsStr(Item(f, 4)),
      AsStr(Item(f, 5)), AsStr(Item(f, 6)), AsStr(Item(f, 7)), AsStr(Item(f, 8)), AsOptStr(Item(f, 9)),
      AsOptStr(Item(f, 10)), AsOptStr(Item(f, 11)), AsOptStr(Item(f, 12)), AsOptNum(Item(f, 13)),
      AsOptNum(Item(f, 14)), AsOptStr(Item(f, 15)), AsOptStr(Item(f, 16)), AsOptNum(Item(f, 17)),
      AsOptStr(Item(f, 18)), AsOptStr(Item(f, 19)), AsOptStr(Item(f, 20)), AsOptStr(Item(f, 21)),
      AsOptStr(Item(f, 22)), AsOptStr(Item(f, 23)), AsOptStr(Item(f, 24)), AsStatus(Item(f, 25)))
  }

  lemma StatusRoundTrip(s: CoinStatus)
    ensures AsStatus(Variant(StatusIndex(s))) == s && StatusIndex(s) < 8
  {
  }

  lemma CoinRoundTrip(c: Coin)
    ensures AsCoin(CoinValue(c)) == c
  {
    ItemsOfFields(CoinFields(c));
    StatusRoundTrip(c.status);
  }

  function CoinsValues(items: seq<Coin>): seq<Value> { seq(|items|, i requires 0 <= i < |items| => CoinValue(items[i])) }

  function AsCoins(value: Value): seq<Coin>
  {
    if value.List? then seq(|value.vs|, i requires 0 <= i < |value.vs| => AsCoin(value.vs[i])) else []
  }

  lemma CoinsRoundTrip(items: seq<Coin>)
    ensures AsCoins(List(CoinsValues(items))) == items
  {
    forall i | 0 <= i < |items| ensures AsCoin(CoinValue(items[i])) == items[i] { CoinRoundTrip(items[i]); }
  }

  // ----- Wallet ----------------------------------------------------------------------------

  datatype Wallet = Wallet(
    name: Chars, mnemonic: Chars, version: Chars, stateEntityEndpoint: Chars, electrumEndpoint: Chars,
    network: Chars, blockheight: int, initlock: int, interval: int, tokens: seq<Token>,
    activities: seq<Activity>, coins: seq<Coin>, settings: Settings)

  function WalletWrites(): Schema
  {
    Record([
      Text, Text, Text, Text, Text, Text, U32, U32, U32, SeqOf(TokenWrites()), SeqOf(ActivityWrites()),
      SeqOf(CoinWrites()), SettingsWrites()])
  }

  function WalletReads(): Schema
  {
    Record([
      Text, Text, Text, Text, Text, Text, U32, U32, U32, SeqOf(TokenReads()), SeqOf(ActivityReads()),
      SeqOf(CoinReads()), SettingsReads()])
  }

  function WalletFields(w: Wallet): seq<Value>
  {
    [
      Str(w.name), Str(w.mnemonic), Str(w.version), Str(w.stateEntityEndpoint), Str(w.electrumEndpoint),
      Str(w.network), Num(w.blockheight), Num(w.initlock), Num(w.interval), List(TokensValues(w.tokens)),
      List(ActivitiesValues(w.activities)), List(CoinsValues(w.coins)), SettingsValue(w.settings)]
  }

  function WalletValue(w: Wallet): Value { Fields(WalletFields(w)) }

  function AsWallet(value: Value): Wallet
  {
    var f := Items(value);
    Wallet(
      AsStr(Item(f, 0)), AsStr(Item(f, 1)), AsStr(Item(f, 2)), AsStr(Item(f, 3)), AsStr(Item(f, 4)),
      AsStr(Item(f, 5)), AsNum(Item(f, 6)), AsNum(Item(f, 7)), AsNum(Item(f, 8)), AsTokens(Item(f, 9)),
      AsActivities(Item(f, 10)), AsCoins(Item(f, 11)), AsSettings(Item(f, 12)))
  }

  /** Every field, at every depth, fits its wire type. */
  predicate ValidWallet(w: Wallet) { Fits(WalletWrites(), WalletValue(w)) }

  lemma WalletRoundTrip(w: Wallet)
    ensures AsWallet(WalletValue(w)) == w
  {
    ItemsOfFields(WalletFields(w));
    SettingsRoundTrip(w.settings);
    TokensRoundTrip(w.tokens);
    ActivitiesRoundTrip(w.activities);
    CoinsRoundTrip(w.coins);
  }

  /** The kinds in the writing converters' order are those in the reading converters'. */
  lemma ReadsMatchWrites()
    ensures ActivityReads() == ActivityWrites() && TokenReads() == TokenWrites() && SettingsReads() == SettingsWrites()
    ensures CoinReads() == CoinWrites() && WalletReads() == WalletWrites()
  {
  }

  /** A wallet sent through the bindings and back is unchanged, or refused when it cannot be written. */
  method LowerAndLiftWallet(w: Wallet) returns (r: Option<Wallet>)
    ensures r == if ValidWallet(w) then Some(w) else None
  {
    ReadsMatchWrites();
    WalletRoundTrip(w);
    var value := LowerAndLift(WalletWrites(), WalletReads(), WalletValue(w));
    r := if value.None? then None else Some(AsWallet(value.value));
  }
}

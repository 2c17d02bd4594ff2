/** Coins, accounts and transactions, and the state a transaction works on. */
module TxTypes {
  import opened ByteStrings
  import opened CacheLayers
  import opened Words

  type Address = a: Bytes | |a| <= 255 witness []
  type Denom = Bytes
  type PubKey = Bytes
  type Amount = U256

  datatype Coin = Coin(denom: Denom, amount: Amount)

  /** A base account, or with a name a module's. */
  datatype Account = Account(address: Address, pubKey: Option<PubKey>, number: U64, sequence: U64, moduleName: Option<Bytes>)

  datatype MsgSend = MsgSend(from: Address, to: Address, amount: seq<Coin>)

  datatype SignerInfo = SignerInfo(publicKey: Option<PubKey>, sequence: U64)

  datatype RawTx = RawTx(msgs: seq<MsgSend>, memo: Bytes, timeout: U64, fee: Option<seq<Coin>>, payer: Option<Address>,
                         infos: seq<SignerInfo>, signatures: seq<Bytes>)

  /** Decoding refuses a transaction whose signatures and signer infos differ in number. */
  type Tx = t: RawTx | |t.signatures| == |t.infos| witness RawTx([], [], 0, None, None, [], [])

  /** What a stored value decodes to; reading the other kind is a panic. */
  datatype BankValue = CoinValue(coin: Coin) | SupplyValue(amount: Amount)
  datatype AuthValue = AccountValue(account: Account) | NumberValue(number: U64)

  type Bank = map<Bytes, BankValue>
  type Auth = map<Bytes, AuthValue>

  /** What the two stores read as. */
  datatype World = World(bank: Bank, auth: Auth)

  /** How a piece of a transaction ends; a failed one may have written part of its effects. */
  datatype Step<S> = Done(state: S) | Failed(state: S) | Panicked

  datatype Outcome = Ok | Err | Panic

  /** How the method's outcome and new view relate to what was to be done. */
  ghost predicate Ended<S>(r: Outcome, now: S, step: Step<S>)
  {
    match r
    case Ok => step == Done(now)
    case Err => step == Failed(now)
    case Panic => step.Panicked?
  }

  datatype Verdict = Valid | Invalid | Malformed

  /** What the program gets from outside the two stores: whether a block header is set, the block height,
      the memo limit, key hashing and signature checking. */
  datatype Env = Env(headerSet: bool, height: U64, maxMemo: nat, feeCollector: Address,
                     addressOf: PubKey -> Address, verify: (PubKey, U64, Tx, nat) -> Verdict)

  // ---------------------------------------------------------------- keys

  const NUMBER_KEY: Bytes := [103, 108, 111, 98, 97, 108, 65, 99, 99, 111, 117, 110, 116, 78, 117, 109, 98, 101, 114]

  function BalanceKey(addr: Address, denom: Denom): Bytes
  {
    [2, |addr|] + addr + denom
  }

  function SupplyKey(denom: Denom): Bytes
  {
    [0] + denom
  }

  function AccountKey(addr: Address): Bytes
  {
    [1] + addr
  }

  /** The length byte keeps address and denomination apart. */
  lemma BalanceKeysApart(a: Address, d: Denom, b: Address, e: Denom)
    ensures BalanceKey(a, d) == BalanceKey(b, e) <==> a == b && d == e
    ensures BalanceKey(a, d) != SupplyKey(e)
  {
    var x, y := BalanceKey(a, d), BalanceKey(b, e);
    assert x[0] == 2 && x[1] == |a| && y[1] == |b|;
    assert x[2..2 + |a|] == a && x[2 + |a|..] == d;
    assert y[2..2 + |b|] == b && y[2 + |b|..] == e;
  }

  lemma SupplyKeysApart(d: Denom, e: Denom)
    ensures SupplyKey(d) == SupplyKey(e) <==> d == e
  {
    assert SupplyKey(d)[1..] == d && SupplyKey(e)[1..] == e;
  }

  lemma AccountKeysApart(a: Address, b: Address)
    ensures AccountKey(a) == AccountKey(b) <==> a == b
    ensures AccountKey(a) != NUMBER_KEY
  {
    assert AccountKey(a)[1..] == a && AccountKey(b)[1..] == b;
    assert AccountKey(a)[0] == 1 && NUMBER_KEY[0] == 103;
  }

  // ---------------------------------------------------------------- signers

  /** One more name, unless it is there already. */
  function AddNew(signers: seq<Address>, addr: Address): seq<Address>
  {
    if addr in signers then signers else signers + [addr]
  }

  function Senders(msgs: seq<MsgSend>): seq<Address>
  {
    if msgs == [] then [] else AddNew(Senders(msgs[..|msgs| - 1]), msgs[|msgs| - 1].from)
  }

  /** The senders, each once, in order of first appearance, and the fee payer last if named and new. */
  function Signers(tx: Tx): seq<Address>
  {
    if tx.payer.Some? then AddNew(Senders(tx.msgs), tx.payer.value) else Senders(tx.msgs)
  }

  method GetSigners(tx: Tx) returns (signers: seq<Address>)
    ensures signers == Signers(tx)
  {
    signers := [];
    for i := 0 to |tx.msgs|
      invariant signers == Senders(tx.msgs[..i])
    {
      assert tx.msgs[..i + 1][..i] == tx.msgs[..i];
      if tx.msgs[i].from !in signers {
        signers := signers + [tx.msgs[i].from];
      }
    }
    assert tx.msgs[..|tx.msgs|] == tx.msgs;
    if tx.payer.Some? && tx.payer.value !in signers {
      signers := signers + [tx.payer.value];
    }
  }

  predicate Distinct(s: seq<Address>)
  {
    forall i, j :: 0 <= i < j < |s| ==> s[i] != s[j]
  }

  /** Every sender and the named payer sign, nobody else, and nobody twice. */
  lemma SignersExactly(tx: Tx)
    ensures Distinct(Signers(tx))
    ensures forall a :: a in Signers(tx) <==> tx.payer == Some(a) || exists i :: 0 <= i < |tx.msgs| && tx.msgs[i].from == a
  {
    SendersExactly(tx.msgs);
  }

  lemma {:induction false} SendersExactly(msgs: seq<MsgSend>)
    ensures Distinct(Senders(msgs))
    ensures forall a :: a in Senders(msgs) <==> exists i :: 0 <= i < |msgs| && msgs[i].from == a
  {
    if msgs != [] {
      var n := |msgs| - 1;
      SendersExactly(msgs[..n]);
      forall a ensures a in Senders(msgs) <==> exists i :: 0 <= i < |msgs| && msgs[i].from == a {
        if a in Senders(msgs[..n]) {
          var i :| 0 <= i < n && msgs[..n][i].from == a;
          assert msgs[i].from == a;
        }
        if i :| 0 <= i < |msgs| && msgs[i].from == a {
          if i < n { assert msgs[..n][i].from == a; }
        }
      }
    }
  }

  /** The first message an address sends, or their number. */
  function FirstFrom(msgs: seq<MsgSend>, a: Address): (i: nat)
    ensures i <= |msgs| && (i < |msgs| ==> msgs[i].from == a) && forall j :: 0 <= j < i ==> msgs[j].from != a
  {
    if msgs == [] || msgs[0].from == a then 0 else 1 + FirstFrom(msgs[1..], a)
  }

  lemma {:induction false} SendersInOrder(msgs: seq<MsgSend>, i: nat, j: nat)
    requires i < j < |Senders(msgs)|
    ensures FirstFrom(msgs, Senders(msgs)[i]) < FirstFrom(msgs, Senders(msgs)[j])
  {
    var n := |msgs| - 1;
    var last := msgs[n].from;
    SendersExactly(msgs[..n]);
    assert Senders(msgs)[i] in Senders(msgs[..n]);
    var h :| 0 <= h < n && msgs[..n][h].from == Senders(msgs)[i];
    assert msgs[h].from == Senders(msgs)[i];
    if j < |Senders(msgs[..n])| {
      SendersInOrder(msgs[..n], i, j);
      assert Senders(msgs)[j] in Senders(msgs[..n]);
      var k :| 0 <= k < n && msgs[..n][k].from == Senders(msgs)[j];
      assert msgs[k].from == Senders(msgs)[j];
      FirstStays(msgs, n, Senders(msgs)[i]);
      FirstStays(msgs, n, Senders(msgs)[j]);
    } else {
      assert forall k :: 0 <= k < n ==> msgs[k].from != last by {
        forall k | 0 <= k < n ensures msgs[k].from != last { assert msgs[..n][k].from == msgs[k].from; }
      }
    }
  }

  lemma FirstStays(msgs: seq<MsgSend>, n: nat, a: Address)
    requires n <= |msgs| && FirstFrom(msgs[..n], a) < n
    ensures FirstFrom(msgs, a) == FirstFrom(msgs[..n], a)
  {
    var k := FirstFrom(msgs[..n], a);
    assert msgs[k].from == a;
    forall h | 0 <= h < k ensures msgs[h].from != a { assert msgs[..n][h].from == msgs[h].from; }
  }

  /** They sign in the order of their first messages, and a payer that sends nothing signs last. */
  lemma SignersInOrder(tx: Tx, i: nat, j: nat)
    requires i < j < |Signers(tx)|
    ensures FirstFrom(tx.msgs, Signers(tx)[i]) < FirstFrom(tx.msgs, Signers(tx)[j])
  {
    SendersExactly(tx.msgs);
    if j < |Senders(tx.msgs)| {
      SendersInOrder(tx.msgs, i, j);
    } else {
      assert Senders(tx.msgs)[i] in Senders(tx.msgs);
    }
  }

  /** The payer named, or else the first signer. */
  function FeePayer(tx: Tx): Option<Address>
  {
    if tx.payer.Some? then tx.payer
    else if Signers(tx) != [] then Some(Signers(tx)[0])
    else None
  }

  // ---------------------------------------------------------------- the stores in a transaction

  class Context {
    var bank: Layers<BankValue>
    var auth: Layers<AuthValue>

    constructor (bank: Layers<BankValue>, auth: Layers<AuthValue>)
      ensures this.bank == bank && this.auth == auth
    {
      this.bank, this.auth := bank, auth;
    }

    function View(): World
      reads this
    {
      World(bank.View(), auth.View())
    }

    /** Only the transaction caches have been written. */
    twostate predicate OnlyCached()
      reads this
    {
      && bank.base == old(bank.base) && bank.block == old(bank.block)
      && auth.base == old(auth.base) && auth.block == old(auth.block)
    }

    method SetBank(key: Bytes, value: BankValue)
      modifies this`bank
      ensures OnlyCached()
      ensures View() == old(View()).(bank := old(View()).bank[key := value])
    {
      PutInView(bank, key, value);
      bank := bank.Put(key, value);
    }

    method SetAuth(key: Bytes, value: AuthValue)
      modifies this`auth
      ensures OnlyCached()
      ensures View() == old(View()).(auth := old(View()).auth[key := value])
    {
      PutInView(auth, key, value);
      auth := auth.Put(key, value);
    }

    method GetBank(key: Bytes) returns (r: Option<BankValue>)
      ensures r == if key in View().bank then Some(View().bank[key]) else None
    {
      ReadsOneMap(bank, key);
      r := bank.Get(key);
    }

    method GetAuth(key: Bytes) returns (r: Option<AuthValue>)
      ensures r == if key in View().auth then Some(View().auth[key]) else None
    {
      ReadsOneMap(auth, key);
      r := auth.Get(key);
    }
  }
}

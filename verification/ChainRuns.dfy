/** Any run of transactions and block ends: the coins stay conserved, and a transaction is used once. */
module ChainRuns {
  import opened ByteStrings
  import opened CacheLayers
  import opened Words
  import opened TxTypes
  import opened BankKeeper
  import opened BankGenesis
  import opened AuthKeeper
  import opened AnteHandler
  import opened BaseApp
  import opened Payments
  import opened AnteExact
  import opened Settlement

  // ---------------------------------------------------------------- conservation

  ghost predicate WorldOk(w: World)
  {
    Conserved(w.bank) && AuthOk(w.auth)
  }

  ghost predicate SameSupply(a: Bank, b: Bank)
  {
    forall d :: Supply(a, d) == Supply(b, d)
  }

  /** Every outcome of a transaction conserves every denomination. */
  lemma TxConserves(w: World, tx: Option<Tx>, env: Env)
    requires WorldOk(w)
    ensures WorldOk(AfterTx(w, tx, env)) && SameSupply(AfterTx(w, tx, env).bank, w.bank)
  {
    hide Conserved, AuthOk, Ante, RunMsgs, Payments.Pay, OfFee, OfMsgs, Covered, Signers, AccountOf, SignerLeft, Standing, Supply;
    if tx.Some? && tx.value.msgs != [] && env.headerSet && Ante(w, tx.value, env).Done? {
      AnteLeaves(w, tx.value, env);
      BothPaid(w, tx.value, env);
      MessagesSettle(Ante(w, tx.value, env).state, tx.value.msgs);
      PayExactly(w.bank, OfFee(tx.value, env));
      PayExactly(w.bank, AllPayments(tx.value, env));
    }
  }

  // ---------------------------------------------------------------- panics

  /** A transaction with messages panics on a sound state exactly if there is no block header, or over a
      signature: never over coins or balances. */
  lemma TxPanicsExactly(w: World, tx: Option<Tx>, env: Env)
    requires WorldOk(w)
    ensures TxResultOf(w, tx, env) == TxPanic
            <==> tx.Some? && tx.value.msgs != [] && (!env.headerSet || SignerPanics(w, tx.value, env))
  {
    hide SignerPanics, Ante, RunMsgs, Conserved, AuthOk, Admissible, Covered;
    if tx.Some? && tx.value.msgs != [] && env.headerSet { TxEndsExactly(w, tx.value, env); }
  }

  /** It does happen: the one signer has the right sequence, but no key stored, and gives none. */
  lemma UnkeyedSignerPanics(w: World, tx: Tx, env: Env, account: Account)
    requires WorldOk(w) && env.headerSet && tx.msgs != [] && tx.fee.None?
    requires |tx.memo| <= env.maxMemo && (tx.timeout == 0 || env.height <= tx.timeout)
    requires |tx.signatures| == |Signers(tx)| == 1 && Payer(tx) == Signers(tx)[0]
    requires AccountOf(w.auth, Signers(tx)[0]) == Some(account) && account.pubKey.None?
    requires tx.infos[0].publicKey.None? && tx.infos[0].sequence == account.sequence
    ensures TxResultOf(w, Some(tx), env) == TxPanic
  {
    hide Conserved, AuthOk, AccountOf, Signers;
    assert KeyStands(w, tx, env, 0);
    assert SignaturePanics(w, tx, env, 0);
    TxPanicsExactly(w, Some(tx), env);
  }

  // ---------------------------------------------------------------- sequences

  function Once(yes: bool): nat
  {
    if yes then 1 else 0
  }

  /** A transaction that passes the ante handler carries every signer's own sequence, and raises each of
      them by exactly one and nobody else's, in 64 bits. */
  lemma AnteRaises(w: World, tx: Tx, env: Env, a: Address, j: nat)
    requires WorldOk(w) && Ante(w, tx, env).Done?
    ensures |tx.infos| == |Signers(tx)| > 0
    ensures SeqOf(Ante(w, tx, env).state.auth, a) == (SeqOf(w.auth, a) + Once(a in Signers(tx))) % TWO_64
    ensures j < |tx.infos| ==> SeqOf(w.auth, Signers(tx)[j]) == tx.infos[j].sequence
  {
    hide Conserved, AuthOk, AccountOf, Signers, Ante, Covered, KeyStands, WithKey;
    AnteExactly(w, tx, env);
    AnteLeaves(w, tx, env);
    forall i: nat | i < |tx.infos|
      ensures SeqOf(w.auth, Signers(tx)[i]) == tx.infos[i].sequence
      ensures SeqOf(Ante(w, tx, env).state.auth, Signers(tx)[i]) == (tx.infos[i].sequence + 1) % TWO_64
    {
      assert SignatureStands(w, tx, env, i);
      KeyKeepsSequence(Standing(w, tx, env, Signers(tx)[i]).value, tx.infos[i].publicKey);
    }
  }

  lemma KeyKeepsSequence(account: Account, key: Option<PubKey>)
    ensures WithKey(account, key).sequence == account.sequence
  {
  }

  lemma AnteKeepsOk(w: World, tx: Tx, env: Env)
    requires WorldOk(w) && Ante(w, tx, env).Done?
    ensures WorldOk(Ante(w, tx, env).state)
  {
    AnteLeaves(w, tx, env);
  }

  /** Messages change nobody's sequence. */
  lemma MessagesKeepSequences(w: World, msgs: seq<MsgSend>, a: Address)
    requires WorldOk(w) && RunMsgs(w, msgs).Done?
    ensures SeqOf(RunMsgs(w, msgs).state.auth, a) == SeqOf(w.auth, a)
  {
    hide Conserved, AuthOk, AccountOf, RunMsgs, IsReceiver;
    MessagesSettle(w, msgs);
  }

  /** The transaction passed the ante handler, whatever became of its messages. */
  predicate Passes(w: World, tx: Option<Tx>, env: Env)
  {
    TxResultOf(w, tx, env) in {Success, MessageError}
  }

  lemma TxRaises(w: World, tx: Option<Tx>, env: Env, a: Address)
    requires WorldOk(w)
    ensures SeqOf(AfterTx(w, tx, env).auth, a)
            == (SeqOf(w.auth, a) + Once(Passes(w, tx, env) && a in Signers(tx.value))) % TWO_64
  {
    hide AuthKeeper.SeqOf, WorldOk, AnteHandler.Ante, BaseApp.RunMsgs, TxTypes.Signers;
    if Passes(w, tx, env) {
      AnteRaises(w, tx.value, env, a, 0);
      AnteKeepsOk(w, tx.value, env);
      if TxResultOf(w, tx, env) == Success { MessagesKeepSequences(Ante(w, tx.value, env).state, tx.value.msgs, a); }
    }
  }

  // ---------------------------------------------------------------- runs

  /** The two stores with their caches, between transactions. */
  datatype Chain = Chain(bank: Layers<BankValue>, auth: Layers<AuthValue>)
  {
    function View(): World
    {
      World(bank.View(), auth.View())
    }
  }

  datatype ChainOp = Deliver(tx: Option<Tx>, env: Env) | EndBlock

  /** A transaction that does not panic leaves what `RunTx` promises; the end of a block commits. */
  ghost predicate NextChain(c: Chain, op: ChainOp, c': Chain)
  {
    match op
    case Deliver(tx, env) =>
      && TxResultOf(c.View(), tx, env) != TxPanic && c'.View() == AfterTx(c.View(), tx, env)
      && c'.bank.base == c.bank.base && c'.auth.base == c.auth.base && c'.bank.tx == map[] && c'.auth.tx == map[]
    case EndBlock => c' == Chain(c.bank.Flush(), c.auth.Flush())
  }

  ghost predicate ChainStep(run: seq<Chain>, ops: seq<ChainOp>, i: nat)
  {
    i < |ops| && i + 1 < |run| && NextChain(run[i], ops[i], run[i + 1])
  }

  /** From a genesis whose balances match its supply. */
  ghost predicate IsChainRun(run: seq<Chain>, ops: seq<ChainOp>)
  {
    |run| == |ops| + 1 && WorldOk(run[0].View()) && forall i :: 0 <= i < |ops| ==> ChainStep(run, ops, i)
  }

  lemma {:induction false} AllAccountsOk(auth: Auth, accounts: seq<Account>)
    requires AuthOk(auth)
    ensures AuthOk(WithAll(auth, accounts))
    decreases |accounts|
  {
    if accounts != [] {
      CountedOk(auth);
      WithAccountOk(Counted(auth), accounts[0].(number := NextNumber(auth)));
      AllAccountsOk(WithNumbered(auth, accounts[0]), accounts[1..]);
    }
  }

  /** Runs may start from what the two modules' genesis leaves, exactly when the listed balances replace
      nothing. */
  lemma GenesisStartsExactly(entries: seq<Entry>, bank: Bank, accounts: seq<Account>, feeCollector: Address)
    requires IsGenesis(entries, bank)
    ensures WorldOk(World(bank, WithModule(WithAll(map[], accounts), feeCollector, FEE_COLLECTOR_NAME)))
            <==> NothingReplaced(entries)
  {
    GenesisConservesExactly(entries, bank);
    AllAccountsOk(map[], accounts);
    WithNewOk(WithAll(map[], accounts), feeCollector, Some(FEE_COLLECTOR_NAME));
  }

  lemma FlushKeepsView(c: Chain)
    ensures Chain(c.bank.Flush(), c.auth.Flush()).View() == c.View()
  {
    ReadsOneMap(c.bank, []);
    ReadsOneMap(c.auth, []);
  }

  lemma StepConserves(c: Chain, op: ChainOp, c': Chain)
    requires WorldOk(c.View()) && NextChain(c, op, c')
    ensures WorldOk(c'.View()) && SameSupply(c'.View().bank, c.View().bank)
  {
    match op
    case Deliver(tx, env) => TxConserves(c.View(), tx, env);
    case EndBlock => FlushKeepsView(c);
  }

  /** In every state of every run each denomination's balances sum to its supply, which is that of the
      genesis state; so no addition of balances ever leaves 256 bits. */
  lemma {:induction false} RunConserves(run: seq<Chain>, ops: seq<ChainOp>, n: nat)
    requires IsChainRun(run, ops) && n <= |ops|
    ensures WorldOk(run[n].View()) && SameSupply(run[n].View().bank, run[0].View().bank)
  {
    if n > 0 {
      RunConserves(run, ops, n - 1);
      assert ChainStep(run, ops, n - 1);
      StepConserves(run[n - 1], ops[n - 1], run[n]);
    }
  }

  /** The `i`th operation is a transaction that passed the ante handler, signed by `a`. */
  predicate SignedBy(run: seq<Chain>, ops: seq<ChainOp>, i: nat, a: Address)
    requires i < |ops| < |run|
  {
    PassedAt(run, ops, i) && a in Signers(ops[i].tx.value)
  }

  predicate PassedAt(run: seq<Chain>, ops: seq<ChainOp>, i: nat)
    requires i < |ops| < |run|
  {
    ops[i].Deliver? && Passes(run[i].View(), ops[i].tx, ops[i].env)
  }

  function Uses(run: seq<Chain>, ops: seq<ChainOp>, m: nat, n: nat, a: Address): nat
    requires m <= n <= |ops| < |run|
    decreases n
  {
    if m == n then 0 else Uses(run, ops, m, n - 1, a) + Once(SignedBy(run, ops, n - 1, a))
  }

  lemma StepRaises(run: seq<Chain>, ops: seq<ChainOp>, i: nat, a: Address)
    requires IsChainRun(run, ops) && i < |ops|
    ensures SeqOf(run[i + 1].View().auth, a) == (SeqOf(run[i].View().auth, a) + Once(SignedBy(run, ops, i, a))) % TWO_64
  {
    hide AuthKeeper.SeqOf, WorldOk, BaseApp.TxResultOf, BaseApp.AfterTx;
    RunConserves(run, ops, i);
    assert ChainStep(run, ops, i);
    match ops[i]
    case Deliver(tx, env) => TxRaises(run[i].View(), tx, env, a);
    case EndBlock => FlushKeepsView(run[i]);
  }

  /** An account's sequence counts the passed transactions it signed, in 64 bits; nothing else moves it. */
  lemma {:induction false} SequenceCounts(run: seq<Chain>, ops: seq<ChainOp>, m: nat, n: nat, a: Address)
    requires IsChainRun(run, ops) && m <= n <= |ops|
    ensures SeqOf(run[n].View().auth, a) == (SeqOf(run[m].View().auth, a) + Uses(run, ops, m, n, a)) % TWO_64
    decreases n
  {
    hide ChainStep, WorldOk, SignedBy, AuthKeeper.SeqOf;
    if m < n {
      SequenceCounts(run, ops, m, n - 1, a);
      StepRaises(run, ops, n - 1, a);
    }
  }

  lemma {:induction false} UsesBounded(run: seq<Chain>, ops: seq<ChainOp>, m: nat, n: nat, a: Address)
    requires m < n <= |ops| < |run|
    ensures Once(SignedBy(run, ops, m, a)) <= Uses(run, ops, m, n, a) <= n - m
    decreases n
  {
    hide SignedBy;
    if m < n - 1 { UsesBounded(run, ops, m, n - 1, a); }
  }

  /** One transaction passes the ante handler at most once in a run: a second time only after a sequence
      could have gone all the way round its 64 bits. */
  lemma UsedOnce(run: seq<Chain>, ops: seq<ChainOp>, i: nat, j: nat)
    requires IsChainRun(run, ops) && i < j < |ops|
    requires PassedAt(run, ops, i) && PassedAt(run, ops, j) && ops[i].tx == ops[j].tx
    ensures j - i >= TWO_64
  {
    hide ChainStep, WorldOk, AnteHandler.Ante, BaseApp.RunMsgs, AuthKeeper.SeqOf, TxTypes.Signers;
    var tx := ops[i].tx.value;
    RunConserves(run, ops, i);
    RunConserves(run, ops, j);
    AnteRaises(run[i].View(), tx, ops[i].env, tx.msgs[0].from, 0);
    AnteRaises(run[j].View(), tx, ops[j].env, tx.msgs[0].from, 0);
    var a := Signers(tx)[0];
    assert SignedBy(run, ops, i, a);
    SequenceCounts(run, ops, i, j, a);
    UsesBounded(run, ops, i, j, a);
  }
}

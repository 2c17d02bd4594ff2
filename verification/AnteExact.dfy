/** What the ante handler makes of a transaction, told from the accounts and balances before it: when it passes,
    when it panics, and what it leaves. */
module AnteExact {
  import opened ByteStrings
  import opened Words
  import opened TxTypes
  import opened BankKeeper
  import opened AuthKeeper
  import opened AnteHandler
  import opened Payments

  // ---------------------------------------------------------------- what has to hold

  /** The payer named, or else the sender of the first message. */
  function Payer(tx: Tx): Address
  {
    if tx.payer.Some? then tx.payer.value else if tx.msgs != [] then tx.msgs[0].from else []
  }

  /** The fee as payments to the fee collector. */
  function OfFee(tx: Tx, env: Env): seq<Payment>
  {
    if tx.fee.Some? then OfSend(Payer(tx), env.feeCollector, tx.fee.value) else []
  }

  /** The account at an address once the fee is paid: the fee collector's is there then. */
  function Standing(w: World, tx: Tx, env: Env, a: Address): Option<Account>
  {
    if AccountOf(w.auth, a).None? && tx.fee.Some? && a == env.feeCollector
    then Some(Account(a, None, NextNumber(w.auth), 0, Some(FEE_COLLECTOR_NAME)))
    else AccountOf(w.auth, a)
  }

  /** A key that is set stays; one that is given is set where there is none. */
  function WithKey(account: Account, key: Option<PubKey>): Account
  {
    if account.pubKey.Some? then account else account.(pubKey := key)
  }

  /** The `j`th signer's account as its signature is checked. */
  function SignerOf(w: World, tx: Tx, env: Env, j: nat): Option<Account>
    requires j < |tx.infos| == |Signers(tx)|
  {
    var account := Standing(w, tx, env, Signers(tx)[j]);
    if account.Some? then Some(WithKey(account.value, tx.infos[j].publicKey)) else None
  }

  /** A key that is given is its signer's, who has an account. */
  predicate KeyStands(w: World, tx: Tx, env: Env, j: nat)
    requires j < |tx.infos| == |Signers(tx)|
  {
    var key := tx.infos[j].publicKey;
    key.Some? ==> env.addressOf(key.value) == Signers(tx)[j] && Standing(w, tx, env, Signers(tx)[j]).Some?
  }

  predicate InSequence(w: World, tx: Tx, env: Env, j: nat)
    requires j < |tx.infos| == |Signers(tx)|
  {
    SignerOf(w, tx, env, j).Some? && SignerOf(w, tx, env, j).value.sequence == tx.infos[j].sequence
  }

  function VerdictOf(account: Account, tx: Tx, env: Env, j: nat): Option<Verdict>
  {
    if account.pubKey.Some? then Some(env.verify(account.pubKey.value, account.number, tx, j)) else None
  }

  /** The signer's account has the sequence and a key, stored or just given, and the signature is valid under it. */
  predicate SignatureStands(w: World, tx: Tx, env: Env, j: nat)
    requires j < |tx.infos| == |Signers(tx)|
  {
    InSequence(w, tx, env, j) && VerdictOf(SignerOf(w, tx, env, j).value, tx, env, j) == Some(Valid)
  }

  /** The sequence is right, but there is no key, or key or signature is malformed. */
  predicate SignaturePanics(w: World, tx: Tx, env: Env, j: nat)
    requires j < |tx.infos| == |Signers(tx)|
  {
    InSequence(w, tx, env, j) && VerdictOf(SignerOf(w, tx, env, j).value, tx, env, j) in {None, Some(Malformed)}
  }

  /** Everything before the signatures: their number, the timeout, the memo, the fee, and the keys given. */
  predicate Entered(w: World, tx: Tx, env: Env)
  {
    && |tx.signatures| == |tx.infos| == |Signers(tx)| > 0
    && (tx.timeout == 0 || env.height <= tx.timeout) && |tx.memo| <= env.maxMemo
    && AccountOf(w.auth, Payer(tx)).Some? && Covered(w.bank, OfFee(tx, env))
    && forall j :: 0 <= j < |tx.infos| ==> KeyStands(w, tx, env, j)
  }

  predicate Admissible(w: World, tx: Tx, env: Env)
  {
    Entered(w, tx, env) && forall j :: 0 <= j < |tx.infos| ==> SignatureStands(w, tx, env, j)
  }

  /** The first signature that does not stand panics. */
  predicate SignerPanics(w: World, tx: Tx, env: Env)
  {
    && Entered(w, tx, env)
    && exists j :: 0 <= j < |tx.infos| && SignaturePanics(w, tx, env, j)
                   && forall i :: 0 <= i < j ==> SignatureStands(w, tx, env, i)
  }

  // ---------------------------------------------------------------- the fee

  lemma {:induction false} FirstSigner(msgs: seq<MsgSend>)
    ensures msgs == [] <==> Senders(msgs) == []
    ensures msgs != [] ==> Senders(msgs)[0] == msgs[0].from
  {
    if |msgs| > 1 { FirstSigner(msgs[..|msgs| - 1]); }
  }

  lemma PayerPays(tx: Tx)
    requires Signers(tx) != []
    ensures FeePayer(tx) == Some(Payer(tx))
  {
    FirstSigner(tx.msgs);
  }

  lemma FeeExactly(w: World, tx: Tx, env: Env)
    requires Conserved(w.bank) && AuthOk(w.auth) && Signers(tx) != []
    ensures DeductFee(w, tx, env).Done? <==> AccountOf(w.auth, Payer(tx)).Some? && Covered(w.bank, OfFee(tx, env))
    ensures !DeductFee(w, tx, env).Panicked?
    ensures DeductFee(w, tx, env).Done? ==>
              var w' := DeductFee(w, tx, env).state;
              && Done(w'.bank) == Pay(w.bank, OfFee(tx, env)) && Conserved(w'.bank) && AuthOk(w'.auth)
              && (forall a :: AccountOf(w'.auth, a) == Standing(w, tx, env, a))
              && NextNumber(w'.auth) == (NextNumber(w.auth)
                   + if tx.fee.Some? && AccountOf(w.auth, env.feeCollector).None? then 1 else 0) % TWO_64
  {
    hide Conserved, AuthOk, AccountOf, Signers, MoveCoins, Covered, WithNew;
    PayerPays(tx);
    PayExactly(w.bank, OfFee(tx, env));
    if tx.fee.Some? {
      SendPays(w.bank, Payer(tx), env.feeCollector, tx.fee.value);
      WithNewOk(w.auth, env.feeCollector, Some(FEE_COLLECTOR_NAME));
      forall a { WithNewReads(w.auth, env.feeCollector, Some(FEE_COLLECTOR_NAME), a); }
      WithNewReads(w.auth, env.feeCollector, Some(FEE_COLLECTOR_NAME), env.feeCollector);
    }
  }

  // ---------------------------------------------------------------- the keys

  /** A given key is its signer's, who has an account, from the `i`th on. */
  predicate KeysFit(auth: Auth, infos: seq<SignerInfo>, signers: seq<Address>, i: nat, env: Env)
    requires i <= |infos| == |signers|
  {
    forall j :: i <= j < |infos| && infos[j].publicKey.Some? ==>
      env.addressOf(infos[j].publicKey.value) == signers[j] && AccountOf(auth, signers[j]).Some?
  }

  ghost predicate KeysSet(auth: Auth, infos: seq<SignerInfo>, signers: seq<Address>, i: nat, after: Auth)
    requires i <= |infos| == |signers|
  {
    && AuthOk(after) && NextNumber(after) == NextNumber(auth)
    && (forall j :: i <= j < |infos| ==>
          AccountOf(after, signers[j])
          == if AccountOf(auth, signers[j]).Some? then Some(WithKey(AccountOf(auth, signers[j]).value, infos[j].publicKey)) else None)
    && (forall a :: a !in signers[i..] ==> AccountOf(after, a) == AccountOf(auth, a))
  }

  lemma KeySet(auth: Auth, key: Option<PubKey>, signer: Address, env: Env)
    requires AuthOk(auth)
    ensures !SetPubKey(auth, key, signer, env).Panicked?
    ensures SetPubKey(auth, key, signer, env).Done?
            <==> key.Some? ==> env.addressOf(key.value) == signer && AccountOf(auth, signer).Some?
    ensures SetPubKey(auth, key, signer, env).Done? ==>
              var after := SetPubKey(auth, key, signer, env).state;
              && AuthOk(after) && NextNumber(after) == NextNumber(auth)
              && (forall a :: AccountOf(after, a)
                    == if a == signer && AccountOf(auth, a).Some? then Some(WithKey(AccountOf(auth, a).value, key)) else AccountOf(auth, a))
  {
    if SetPubKey(auth, key, signer, env).Done? && key.Some? {
      var account := AccountOf(auth, signer).value.(pubKey := key);
      WithAccountOk(auth, account);
      forall a { WithAccountReads(auth, account, a); }
      WithAccountReads(auth, account, signer);
    }
  }

  lemma {:induction false} KeysExactly(auth: Auth, infos: seq<SignerInfo>, signers: seq<Address>, i: nat, env: Env)
    requires AuthOk(auth) && i <= |infos| == |signers| && Distinct(signers)
    ensures !SetPubKeys(auth, infos, signers, i, env).Panicked?
    ensures SetPubKeys(auth, infos, signers, i, env).Done? <==> KeysFit(auth, infos, signers, i, env)
    ensures SetPubKeys(auth, infos, signers, i, env).Done? ==>
              KeysSet(auth, infos, signers, i, SetPubKeys(auth, infos, signers, i, env).state)
    decreases |infos| - i
  {
    hide AuthOk, AccountOf, NextNumber, SetPubKey;
    if i < |infos| {
      KeySet(auth, infos[i].publicKey, signers[i], env);
      var first := SetPubKey(auth, infos[i].publicKey, signers[i], env);
      if first.Done? {
        KeysExactly(first.state, infos, signers, i + 1, env);
        assert signers[i..] == [signers[i]] + signers[i + 1..];
      }
    }
  }

  // ---------------------------------------------------------------- the signatures

  lemma {:induction false} SignaturesExactly(auth: Auth, tx: Tx, signers: seq<Address>, i: nat, env: Env)
    requires i <= |tx.infos| == |signers|
    ensures CheckSignatures(auth, tx, signers, i, env) == Ok
            <==> forall j :: i <= j < |tx.infos| ==> CheckSignature(auth, tx, signers, j, env) == Ok
    ensures CheckSignatures(auth, tx, signers, i, env) == Panic
            <==> exists j :: i <= j < |tx.infos| && CheckSignature(auth, tx, signers, j, env) == Panic
                             && forall h :: i <= h < j ==> CheckSignature(auth, tx, signers, h, env) == Ok
    decreases |tx.infos| - i
  {
    hide CheckSignature;
    if i < |tx.infos| { SignaturesExactly(auth, tx, signers, i + 1, env); }
  }

  // ---------------------------------------------------------------- the sequences

  ghost predicate AllRaised(auth: Auth, signers: seq<Address>, after: Auth)
  {
    && AuthOk(after) && NextNumber(after) == NextNumber(auth)
    && (forall a :: AccountOf(after, a)
          == if a in signers && AccountOf(auth, a).Some? then Some(Raised(AccountOf(auth, a).value)) else AccountOf(auth, a))
  }

  lemma {:induction false} IncrementExactly(auth: Auth, signers: seq<Address>)
    requires AuthOk(auth) && Distinct(signers) && forall a :: a in signers ==> AccountOf(auth, a).Some?
    ensures Increment(auth, signers).Done? && AllRaised(auth, signers, Increment(auth, signers).state)
    decreases |signers|
  {
    hide Raised;
    if signers != [] {
      var account := AccountOf(auth, signers[0]).value;
      RaisedKeepsAddress(auth, signers[0]);
      WithAccountOk(auth, Raised(account));
      forall a { WithAccountReads(auth, Raised(account), a); }
      WithAccountReads(auth, Raised(account), signers[0]);
      IncrementExactly(WithAccount(auth, Raised(account)), signers[1..]);
    }
  }

  lemma RaisedKeepsAddress(auth: Auth, a: Address)
    requires AuthOk(auth) && AccountOf(auth, a).Some?
    ensures Raised(AccountOf(auth, a).value).address == a
  {
  }

  // ---------------------------------------------------------------- all of it

  /** What the signatures are checked against. */
  ghost predicate Keyed(w: World, tx: Tx, env: Env, auth: Auth)
    requires |tx.infos| == |Signers(tx)|
  {
    && AuthOk(auth)
    && (forall j :: 0 <= j < |tx.infos| ==> AccountOf(auth, Signers(tx)[j]) == SignerOf(w, tx, env, j))
    && (forall a :: a !in Signers(tx) ==> AccountOf(auth, a) == Standing(w, tx, env, a))
  }

  lemma CheckedAsStands(w: World, tx: Tx, env: Env, auth: Auth, j: nat)
    requires j < |tx.infos| == |Signers(tx)| && Keyed(w, tx, env, auth)
    ensures CheckSignature(auth, tx, Signers(tx), j, env) == Ok <==> SignatureStands(w, tx, env, j)
    ensures CheckSignature(auth, tx, Signers(tx), j, env) == Panic <==> SignaturePanics(w, tx, env, j)
  {
    hide SignerOf, AccountOf, Signers, AuthOk;
  }

  lemma SignedExactly(w: World, tx: Tx, env: Env, auth: Auth)
    requires |tx.infos| == |Signers(tx)| && Keyed(w, tx, env, auth)
    ensures CheckSignatures(auth, tx, Signers(tx), 0, env) == Ok
            <==> forall j :: 0 <= j < |tx.infos| ==> SignatureStands(w, tx, env, j)
    ensures CheckSignatures(auth, tx, Signers(tx), 0, env) == Panic
            <==> exists j :: 0 <= j < |tx.infos| && SignaturePanics(w, tx, env, j)
                             && forall i :: 0 <= i < j ==> SignatureStands(w, tx, env, i)
  {
    hide SignatureStands, SignaturePanics, CheckSignature, CheckSignatures, Keyed, Signers;
    forall j: nat | j < |tx.infos|
      ensures CheckSignature(auth, tx, Signers(tx), j, env) == Ok <==> SignatureStands(w, tx, env, j)
      ensures CheckSignature(auth, tx, Signers(tx), j, env) == Panic <==> SignaturePanics(w, tx, env, j)
    {
      CheckedAsStands(w, tx, env, auth, j);
    }
    SignaturesExactly(auth, tx, Signers(tx), 0, env);
  }

  /** Where the fee was paid the given keys decide whether the signatures are reached. */
  lemma KeyedExactly(w: World, tx: Tx, env: Env, paid: World)
    requires |tx.infos| == |Signers(tx)| && AuthOk(paid.auth) && forall a :: AccountOf(paid.auth, a) == Standing(w, tx, env, a)
    ensures var step := SetPubKeys(paid.auth, tx.infos, Signers(tx), 0, env);
            && !step.Panicked? && (step.Done? <==> forall j :: 0 <= j < |tx.infos| ==> KeyStands(w, tx, env, j))
            && (step.Done? ==> Keyed(w, tx, env, step.state) && NextNumber(step.state) == NextNumber(paid.auth))
  {
    hide AuthOk, AccountOf, Signers, SetPubKeys, Standing, WithKey;
    SignersExactly(tx);
    KeysExactly(paid.auth, tx.infos, Signers(tx), 0, env);
    assert Signers(tx)[0..] == Signers(tx);
    forall j: nat | j < |tx.infos|
      ensures KeyStands(w, tx, env, j)
              <==> (tx.infos[j].publicKey.Some? ==>
                      env.addressOf(tx.infos[j].publicKey.value) == Signers(tx)[j] && AccountOf(paid.auth, Signers(tx)[j]).Some?)
    {
    }
  }

  /** On a sound state a transaction passes the ante handler exactly if it is admissible, and panics exactly over
      a signature; otherwise it is refused. */
  lemma AnteExactly(w: World, tx: Tx, env: Env)
    requires Conserved(w.bank) && AuthOk(w.auth)
    ensures Ante(w, tx, env).Done? <==> Admissible(w, tx, env)
    ensures Ante(w, tx, env).Panicked? <==> SignerPanics(w, tx, env)
  {
    hide Conserved, AuthOk, AccountOf, Signers, DeductFee, SetPubKeys, CheckSignatures, Increment, Covered, Standing,
      SignatureStands, SignaturePanics, KeyStands, Keyed, OfFee;
    if SignaturesCounted(tx) && InTime(tx, env) && MemoFits(tx, env) {
      FeeExactly(w, tx, env);
      if DeductFee(w, tx, env).Done? {
        var paid := DeductFee(w, tx, env).state;
        KeyedExactly(w, tx, env, paid);
        if SetPubKeys(paid.auth, tx.infos, Signers(tx), 0, env).Done? {
          var auth := SetPubKeys(paid.auth, tx.infos, Signers(tx), 0, env).state;
          SignedExactly(w, tx, env, auth);
          if CheckSignatures(auth, tx, Signers(tx), 0, env) == Ok { AllHaveAccounts(w, tx, env, auth); IncrementExactly(auth, Signers(tx)); }
        }
      }
    }
  }

  lemma AllHaveAccounts(w: World, tx: Tx, env: Env, auth: Auth)
    requires |tx.infos| == |Signers(tx)| && Keyed(w, tx, env, auth)
    requires forall j :: 0 <= j < |tx.infos| ==> SignatureStands(w, tx, env, j)
    ensures AuthOk(auth) && Distinct(Signers(tx)) && forall a :: a in Signers(tx) ==> AccountOf(auth, a).Some?
  {
    hide AuthOk, AccountOf, Signers, Standing;
    SignersExactly(tx);
    forall a | a in Signers(tx) ensures AccountOf(auth, a).Some? {
      var j :| 0 <= j < |Signers(tx)| && Signers(tx)[j] == a;
      assert SignatureStands(w, tx, env, j);
    }
  }

  /** With its key, and the next sequence in 64 bits. */
  predicate SignerLeft(w: World, tx: Tx, env: Env, j: nat, after: Option<Account>)
    requires j < |tx.infos| == |Signers(tx)|
  {
    && SignerOf(w, tx, env, j).Some?
    && var account := SignerOf(w, tx, env, j).value;
       after == Some(account.(sequence := (account.sequence + 1) % TWO_64))
  }

  /** What a transaction that passes leaves: the fee paid, every signer with its key and the next sequence, the
      fee collector's account, and nothing else. */
  lemma AnteLeaves(w: World, tx: Tx, env: Env)
    requires Conserved(w.bank) && AuthOk(w.auth) && Ante(w, tx, env).Done?
    ensures var after := Ante(w, tx, env).state;
            && Done(after.bank) == Pay(w.bank, OfFee(tx, env)) && Conserved(after.bank) && AuthOk(after.auth)
            && |tx.infos| == |Signers(tx)|
            && (forall j :: 0 <= j < |tx.infos| ==> SignerLeft(w, tx, env, j, AccountOf(after.auth, Signers(tx)[j])))
            && (forall a :: a !in Signers(tx) ==> AccountOf(after.auth, a) == Standing(w, tx, env, a))
            && NextNumber(after.auth) == (NextNumber(w.auth)
                 + if tx.fee.Some? && AccountOf(w.auth, env.feeCollector).None? then 1 else 0) % TWO_64
  {
    hide Conserved, AuthOk, AccountOf, Signers, DeductFee, SetPubKeys, CheckSignatures, Increment, Covered, Standing, NextNumber,
      SignatureStands, SignerOf, KeyStands, OfFee, Payments.Pay;
    var paid := DeductFee(w, tx, env).state;
    FeeExactly(w, tx, env);
    KeyedExactly(w, tx, env, paid);
    var auth := SetPubKeys(paid.auth, tx.infos, Signers(tx), 0, env).state;
    SignedExactly(w, tx, env, auth);
    AllHaveAccounts(w, tx, env, auth);
    IncrementExactly(auth, Signers(tx));
  }
}

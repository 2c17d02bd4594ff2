/** The checks and payments before a transaction's messages run, in their order. */
module AnteHandler {
  import opened ByteStrings
  import opened Words
  import opened TxTypes
  import opened BankKeeper
  import opened AuthKeeper

  /** "fee_collector" */
  const FEE_COLLECTOR_NAME: Bytes := [102, 101, 101, 95, 99, 111, 108, 108, 101, 99, 116, 111, 114]

  // ---------------------------------------------------------------- what each handler does

  predicate SignaturesCounted(tx: Tx)
  {
    tx.signatures != [] && |tx.signatures| == |Signers(tx)|
  }

  /** A timeout of zero is none. */
  predicate InTime(tx: Tx, env: Env)
  {
    tx.timeout == 0 || env.height <= tx.timeout
  }

  predicate MemoFits(tx: Tx, env: Env)
  {
    |tx.memo| <= env.maxMemo
  }

  function AfterSend(w: World, moved: Step<Bank>): Step<World>
  {
    match moved
    case Done(bank) => Done(w.(bank := bank))
    case Failed(bank) => Failed(w.(bank := bank))
    case Panicked => Panicked
  }

  /** The fee, if any, to the fee collector, whose account is created first if it is missing. */
  function DeductFee(w: World, tx: Tx, env: Env): Step<World>
  {
    if FeePayer(tx).None? then Panicked
    else if AccountOf(w.auth, FeePayer(tx).value).None? then Failed(w)
    else if tx.fee.None? then Done(w)
    else
      var w' := w.(auth := WithModule(w.auth, env.feeCollector, FEE_COLLECTOR_NAME));
      AfterSend(w', MoveCoins(w'.bank, FeePayer(tx).value, env.feeCollector, tx.fee.value))
  }

  function SetPubKey(auth: Auth, key: Option<PubKey>, signer: Address, env: Env): Step<Auth>
  {
    if key.None? then Done(auth)
    else if env.addressOf(key.value) != signer then Failed(auth)
    else if AccountOf(auth, signer).None? then Failed(auth)
    else if AccountOf(auth, signer).value.pubKey.Some? then Done(auth)
    else Done(WithAccount(auth, AccountOf(auth, signer).value.(pubKey := key)))
  }

  /** The keys of the signers from the `i`th on; a key that is set stays. */
  function SetPubKeys(auth: Auth, infos: seq<SignerInfo>, signers: seq<Address>, i: nat, env: Env): Step<Auth>
    requires i <= |infos| == |signers|
    decreases |infos| - i
  {
    if i == |infos| then Done(auth)
    else
      match SetPubKey(auth, infos[i].publicKey, signers[i], env)
      case Done(auth') => SetPubKeys(auth', infos, signers, i + 1, env)
      case Failed(auth') => Failed(auth')
      case Panicked => Panicked
  }

  /** One signature: the account's sequence, then the signature over it. A missing key, or a key or
      signature of the wrong form, is a panic. */
  function CheckSignature(auth: Auth, tx: Tx, signers: seq<Address>, i: nat, env: Env): Outcome
    requires i < |tx.infos| == |signers|
  {
    match AccountOf(auth, signers[i])
    case None => Err
    case Some(account) =>
      if account.sequence != tx.infos[i].sequence then Err
      else if account.pubKey.None? then Panic
      else
        match env.verify(account.pubKey.value, account.number, tx, i)
        case Valid => Ok
        case Invalid => Err
        case Malformed => Panic
  }

  function CheckSignatures(auth: Auth, tx: Tx, signers: seq<Address>, i: nat, env: Env): Outcome
    requires i <= |tx.infos| == |signers|
    decreases |tx.infos| - i
  {
    if i == |tx.infos| then Ok
    else
      var r := CheckSignature(auth, tx, signers, i, env);
      if r == Ok then CheckSignatures(auth, tx, signers, i + 1, env) else r
  }

  function Raised(account: Account): Account
  {
    account.(sequence := (account.sequence + 1) % TWO_64)
  }

  /** Every signer's sequence one further, in 64 bits. */
  function Increment(auth: Auth, signers: seq<Address>): Step<Auth>
    decreases |signers|
  {
    if signers == [] then Done(auth)
    else
      match AccountOf(auth, signers[0])
      case None => Failed(auth)
      case Some(account) => Increment(WithAccount(auth, Raised(account)), signers[1..])
  }

  function OnAuth(w: World, step: Step<Auth>): Step<World>
  {
    match step
    case Done(auth) => Done(w.(auth := auth))
    case Failed(auth) => Failed(w.(auth := auth))
    case Panicked => Panicked
  }

  function Signed(w: World, tx: Tx, env: Env): Step<World>
    requires |tx.infos| == |Signers(tx)|
  {
    match SetPubKeys(w.auth, tx.infos, Signers(tx), 0, env)
    case Failed(auth) => Failed(w.(auth := auth))
    case Panicked => Panicked
    case Done(auth) =>
      match CheckSignatures(auth, tx, Signers(tx), 0, env)
      case Ok => OnAuth(w, Increment(auth, Signers(tx)))
      case Err => Failed(w.(auth := auth))
      case Panic => Panicked
  }

  /** All handlers, up to the first that refuses. */
  function Ante(w: World, tx: Tx, env: Env): Step<World>
  {
    if !SignaturesCounted(tx) || !InTime(tx, env) || !MemoFits(tx, env) then Failed(w)
    else
      match DeductFee(w, tx, env)
      case Done(w') => Signed(w', tx, env)
      case Failed(w') => Failed(w')
      case Panicked => Panicked
  }

  // ---------------------------------------------------------------- the handlers

  method SendCoinsFromAccountToModule(ctx: Context, from: Address, amount: seq<Coin>, env: Env) returns (r: Outcome)
    requires AuthOk(ctx.View().auth)
    modifies ctx
    ensures ctx.OnlyCached() && AuthOk(ctx.View().auth)
    ensures var w := old(ctx.View()).(auth := WithModule(old(ctx.View().auth), env.feeCollector, FEE_COLLECTOR_NAME));
            Ended(r, ctx.View(), AfterSend(w, MoveCoins(w.bank, from, env.feeCollector, amount)))
  {
    CheckCreateNewModuleAccount(ctx, env.feeCollector, FEE_COLLECTOR_NAME);
    r := SendCoins(ctx, MsgSend(from, env.feeCollector, amount));
  }

  method DeductFeeHandler(ctx: Context, tx: Tx, env: Env) returns (r: Outcome)
    requires AuthOk(ctx.View().auth)
    modifies ctx
    ensures ctx.OnlyCached() && AuthOk(ctx.View().auth)
    ensures Ended(r, ctx.View(), DeductFee(old(ctx.View()), tx, env))
  {
    var payer: Address;
    if tx.payer.Some? {
      payer := tx.payer.value;
    } else {
      var signers := GetSigners(tx);
      if |signers| == 0 {
        return Panic;
      }
      payer := signers[0];
    }
    var account := GetAccount(ctx, payer);
    if account.None? {
      return Err;
    }
    if tx.fee.None? {
      return Ok;
    }
    r := SendCoinsFromAccountToModule(ctx, payer, tx.fee.value, env);
  }

  method SetPubKeyHandler(ctx: Context, tx: Tx, env: Env) returns (r: Outcome)
    requires AuthOk(ctx.View().auth)
    modifies ctx`auth
    ensures ctx.OnlyCached() && AuthOk(ctx.View().auth) && ctx.View().bank == old(ctx.View().bank)
    ensures |tx.infos| != |Signers(tx)| ==> r == Err && ctx.View() == old(ctx.View())
    ensures |tx.infos| == |Signers(tx)| ==>
              Ended(r, ctx.View().auth, SetPubKeys(old(ctx.View().auth), tx.infos, Signers(tx), 0, env))
  {
    var signers := GetSigners(tx);
    if |signers| != |tx.infos| {
      return Err;
    }
    for i := 0 to |tx.infos|
      invariant ctx.OnlyCached() && AuthOk(ctx.View().auth) && ctx.View().bank == old(ctx.View().bank)
      invariant SetPubKeys(ctx.View().auth, tx.infos, signers, i, env)
                == SetPubKeys(old(ctx.View().auth), tx.infos, signers, 0, env)
    {
      var key := tx.infos[i].publicKey;
      if key.Some? {
        if env.addressOf(key.value) != signers[i] {
          return Err;
        }
        var account := GetAccount(ctx, signers[i]);
        if account.None? {
          return Err;
        }
        if account.value.pubKey.None? {
          SetAccount(ctx, account.value.(pubKey := key));
        }
      }
    }
    r := Ok;
  }

  method SigVerificationHandler(ctx: Context, tx: Tx, env: Env) returns (r: Outcome)
    requires AuthOk(ctx.View().auth)
    ensures |tx.infos| != |Signers(tx)| ==> r == Err
    ensures |tx.infos| == |Signers(tx)| ==> r == CheckSignatures(ctx.View().auth, tx, Signers(tx), 0, env)
  {
    var signers := GetSigners(tx);
    if |tx.infos| != |signers| {
      return Err;
    }
    for i := 0 to |tx.infos|
      invariant CheckSignatures(ctx.View().auth, tx, signers, i, env) == CheckSignatures(ctx.View().auth, tx, signers, 0, env)
    {
      var account := GetAccount(ctx, signers[i]);
      if account.None? || account.value.sequence != tx.infos[i].sequence {
        return Err;
      }
      if account.value.pubKey.None? {
        return Panic;
      }
      match env.verify(account.value.pubKey.value, account.value.number, tx, i) {
        case Valid =>
        case Invalid => return Err;
        case Malformed => return Panic;
      }
    }
    r := Ok;
  }

  method IncrementSequenceHandler(ctx: Context, tx: Tx) returns (r: Outcome)
    requires AuthOk(ctx.View().auth)
    modifies ctx`auth
    ensures ctx.OnlyCached() && AuthOk(ctx.View().auth) && ctx.View().bank == old(ctx.View().bank)
    ensures Ended(r, ctx.View().auth, Increment(old(ctx.View().auth), Signers(tx)))
  {
    var signers := GetSigners(tx);
    assert signers[0..] == signers;
    for i := 0 to |signers|
      invariant ctx.OnlyCached() && AuthOk(ctx.View().auth) && ctx.View().bank == old(ctx.View().bank)
      invariant Increment(ctx.View().auth, signers[i..]) == Increment(old(ctx.View().auth), signers)
    {
      assert signers[i..][0] == signers[i] && signers[i..][1..] == signers[i + 1..];
      var account := GetAccount(ctx, signers[i]);
      if account.None? {
        return Err;
      }
      SetAccount(ctx, Raised(account.value));
    }
    r := Ok;
  }

  method Run(ctx: Context, tx: Tx, env: Env) returns (r: Outcome)
    requires AuthOk(ctx.View().auth)
    modifies ctx
    ensures ctx.OnlyCached() && AuthOk(ctx.View().auth)
    ensures Ended(r, ctx.View(), Ante(old(ctx.View()), tx, env))
  {
    var signers := GetSigners(tx);
    if |tx.signatures| == 0 || |tx.signatures| != |signers| {
      return Err;
    }
    if tx.timeout != 0 && env.height > tx.timeout {
      return Err;
    }
    if |tx.memo| > env.maxMemo {
      return Err;
    }
    r := DeductFeeHandler(ctx, tx, env);
    if r != Ok {
      return;
    }
    r := RunSigned(ctx, tx, env);
  }

  /** The last three handlers. */
  method RunSigned(ctx: Context, tx: Tx, env: Env) returns (r: Outcome)
    requires AuthOk(ctx.View().auth) && |tx.infos| == |Signers(tx)|
    modifies ctx
    ensures ctx.OnlyCached() && AuthOk(ctx.View().auth)
    ensures Ended(r, ctx.View(), Signed(old(ctx.View()), tx, env))
  {
    r := SetPubKeyHandler(ctx, tx, env);
    if r != Ok {
      return;
    }
    r := SigVerificationHandler(ctx, tx, env);
    if r != Ok {
      return;
    }
    r := IncrementSequenceHandler(ctx, tx);
  }
}

/** What a transaction does to every balance and every account, and when, told from the state before it. */
module Settlement {
  import opened ByteStrings
  import opened TxTypes
  import opened BankKeeper
  import opened AuthKeeper
  import opened AnteHandler
  import opened BaseApp
  import opened Payments
  import opened AnteExact

  predicate IsReceiver(msgs: seq<MsgSend>, a: Address)
  {
    exists i :: 0 <= i < |msgs| && msgs[i].to == a
  }

  /** A receiver without an account has a fresh one afterwards; every other account stays as it was. */
  predicate Received(before: Option<Account>, receives: bool, a: Address, after: Option<Account>)
  {
    if before.Some? || !receives then after == before
    else after.Some? && after.value == Account(a, None, after.value.number, 0, None)
  }

  ghost predicate AllReceived(auth: Auth, msgs: seq<MsgSend>, after: Auth)
  {
    forall a :: Received(AccountOf(auth, a), IsReceiver(msgs, a), a, AccountOf(after, a))
  }

  lemma SendSettles(w: World, msg: MsgSend)
    requires Conserved(w.bank) && AuthOk(w.auth)
    ensures !SendToAccount(w, msg).Panicked?
    ensures SendToAccount(w, msg).Done? <==> Pay(w.bank, OfSend(msg.from, msg.to, msg.amount)).Done?
    ensures SendToAccount(w, msg).Done? ==>
              var w' := SendToAccount(w, msg).state;
              && Done(w'.bank) == Pay(w.bank, OfSend(msg.from, msg.to, msg.amount)) && Conserved(w'.bank) && AuthOk(w'.auth)
              && forall a :: Received(AccountOf(w.auth, a), a == msg.to, a, AccountOf(w'.auth, a))
  {
    hide Conserved, AuthOk, AccountOf, MoveCoins, Payments.Pay, WithNew;
    SendPays(w.bank, msg.from, msg.to, msg.amount);
    PayExactly(w.bank, OfSend(msg.from, msg.to, msg.amount));
    WithNewOk(w.auth, msg.to, None);
    forall a { WithNewReads(w.auth, msg.to, None, a); }
  }

  lemma ReceiverNext(msgs: seq<MsgSend>, a: Address)
    requires msgs != []
    ensures IsReceiver(msgs, a) <==> a == msgs[0].to || IsReceiver(msgs[1..], a)
  {
    if i :| 0 <= i < |msgs[1..]| && msgs[1..][i].to == a { assert msgs[i + 1].to == a; }
    if i :| 0 < i < |msgs| && msgs[i].to == a { assert msgs[1..][i - 1].to == a; }
  }

  /** The messages go through exactly if all they pay is covered, in turn. */
  lemma {:induction false} MessagesSettle(w: World, msgs: seq<MsgSend>)
    requires Conserved(w.bank) && AuthOk(w.auth)
    ensures !RunMsgs(w, msgs).Panicked?
    ensures RunMsgs(w, msgs).Done? <==> Pay(w.bank, OfMsgs(msgs)).Done?
    ensures RunMsgs(w, msgs).Done? ==>
              && Done(RunMsgs(w, msgs).state.bank) == Pay(w.bank, OfMsgs(msgs))
              && AllReceived(w.auth, msgs, RunMsgs(w, msgs).state.auth) && AuthOk(RunMsgs(w, msgs).state.auth)
    decreases |msgs|
  {
    hide Conserved, AuthOk, AccountOf, SendToAccount, Payments.Pay, IsReceiver;
    if msgs == [] {
      NothingPaid(w.bank);
      forall a { NobodyReceives(a); }
    } else {
      var first := OfSend(msgs[0].from, msgs[0].to, msgs[0].amount);
      SendSettles(w, msgs[0]);
      PayInTwo(w.bank, first, OfMsgs(msgs[1..]));
      var step := SendToAccount(w, msgs[0]);
      if step.Done? {
        MessagesSettle(step.state, msgs[1..]);
        forall a { ReceiverNext(msgs, a); }
      }
    }
  }

  lemma NobodyReceives(a: Address)
    ensures !IsReceiver([], a)
  {
  }

  lemma NothingPaid(bank: Bank)
    ensures Pay(bank, []) == Done(bank)
  {
  }

  // ---------------------------------------------------------------- a transaction

  /** Fee and messages, in the order they are paid. */
  function AllPayments(tx: Tx, env: Env): seq<Payment>
  {
    OfFee(tx, env) + OfMsgs(tx.msgs)
  }

  /** How a transaction with messages ends on a sound state: by the ante handler's conditions and what its
      payments meet. */
  lemma TxEndsExactly(w: World, tx: Tx, env: Env)
    requires Conserved(w.bank) && AuthOk(w.auth) && tx.msgs != [] && env.headerSet
    ensures TxResultOf(w, Some(tx), env) == Success <==> Admissible(w, tx, env) && Covered(w.bank, AllPayments(tx, env))
    ensures TxResultOf(w, Some(tx), env) == MessageError <==> Admissible(w, tx, env) && !Covered(w.bank, AllPayments(tx, env))
    ensures TxResultOf(w, Some(tx), env) == TxPanic <==> SignerPanics(w, tx, env)
  {
    hide Conserved, AuthOk, Ante, RunMsgs, Admissible, SignerPanics, Covered, Payments.Pay, OfFee, OfMsgs;
    AnteExactly(w, tx, env);
    if Ante(w, tx, env).Done? { BothPaid(w, tx, env); }
  }

  lemma BothPaid(w: World, tx: Tx, env: Env)
    requires Conserved(w.bank) && AuthOk(w.auth) && Ante(w, tx, env).Done?
    ensures var step := RunMsgs(Ante(w, tx, env).state, tx.msgs);
            && !step.Panicked? && (step.Done? <==> Covered(w.bank, AllPayments(tx, env)))
            && (step.Done? ==> Done(step.state.bank) == Pay(w.bank, AllPayments(tx, env)))
  {
    hide Conserved, AuthOk, Ante, RunMsgs, Covered, Payments.Pay, OfFee, OfMsgs, Signers, AccountOf, SignerLeft, Standing;
    AnteLeaves(w, tx, env);
    MessagesSettle(Ante(w, tx, env).state, tx.msgs);
    PayInTwo(w.bank, OfFee(tx, env), OfMsgs(tx.msgs));
    PayExactly(w.bank, AllPayments(tx, env));
  }

  /** What was paid of a transaction that ended so. */
  function Settled(result: TxResult, tx: Tx, env: Env): seq<Payment>
  {
    match result
    case Success => AllPayments(tx, env)
    case MessageError => OfFee(tx, env)
    case _ => []
  }

  /** Afterwards every balance is what it was, less all that was paid from it and plus all that was paid to it:
      fee and messages after a success, the fee alone after a failed message, nothing otherwise. */
  lemma TxSettlesBalances(w: World, tx: Tx, env: Env)
    requires Conserved(w.bank) && AuthOk(w.auth)
    ensures Shifted(w.bank, Settled(TxResultOf(w, Some(tx), env), tx, env), AfterTx(w, Some(tx), env).bank)
  {
    hide Conserved, AuthOk, Ante, RunMsgs, Covered, Payments.Pay, OfFee, OfMsgs, BalanceOf, Signers, AccountOf, SignerLeft, Standing;
    if tx.msgs != [] && env.headerSet && Ante(w, tx, env).Done? {
      BothPaid(w, tx, env);
      AnteLeaves(w, tx, env);
      PayExactly(w.bank, AllPayments(tx, env));
      PayExactly(w.bank, OfFee(tx, env));
    }
  }

  /** And every account: after a success a receiver that had none has a fresh one; after it or a failed message
      each signer has its key and the next sequence, and the fee collector's account is there if a fee was paid.
      Nothing else changes. */
  lemma TxSettlesAccounts(w: World, tx: Tx, env: Env)
    requires Conserved(w.bank) && AuthOk(w.auth)
    ensures var result, after := TxResultOf(w, Some(tx), env), AfterTx(w, Some(tx), env);
            && (result !in {Success, MessageError} ==> after == w)
            && (result in {Success, MessageError} ==>
                  && |tx.infos| == |Signers(tx)|
                  && (forall j :: 0 <= j < |tx.infos| ==> SignerLeft(w, tx, env, j, AccountOf(after.auth, Signers(tx)[j])))
                  && (forall a :: a !in Signers(tx) ==>
                        Received(Standing(w, tx, env, a), result == Success && IsReceiver(tx.msgs, a), a, AccountOf(after.auth, a))))
  {
    hide Conserved, AuthOk, Ante, RunMsgs, Payments.Pay, OfFee, OfMsgs, Signers, AccountOf, Standing, IsReceiver, SignerOf;
    if TxResultOf(w, Some(tx), env) in {Success, MessageError} {
      AnteLeaves(w, tx, env);
      MessagesSettle(Ante(w, tx, env).state, tx.msgs);
    }
  }
}

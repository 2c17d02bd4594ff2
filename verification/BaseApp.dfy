/** Transactions one after another: all or nothing, coins conserved, sequences used once. */
module BaseApp {
  import opened ByteStrings
  import opened CacheLayers
  import opened TxTypes
  import opened BankKeeper
  import opened AuthKeeper
  import opened AnteHandler

  // ---------------------------------------------------------------- one message, all messages

  /** A send, and an account for a receiver that had none. */
  function SendToAccount(w: World, msg: MsgSend): Step<World>
  {
    match AfterSend(w, MoveCoins(w.bank, msg.from, msg.to, msg.amount))
    case Done(w') => Done(if AccountOf(w'.auth, msg.to).Some? then w' else w'.(auth := WithNew(w'.auth, msg.to, None)))
    case Failed(w') => Failed(w')
    case Panicked => Panicked
  }

  function RunMsgs(w: World, msgs: seq<MsgSend>): Step<World>
    decreases |msgs|
  {
    if msgs == [] then Done(w)
    else
      match SendToAccount(w, msgs[0])
      case Done(w') => RunMsgs(w', msgs[1..])
      case Failed(w') => Failed(w')
      case Panicked => Panicked
  }

  datatype TxResult = ParseError | NoMessages | AnteError | MessageError | Success | TxPanic

  /** What a transaction does to the stores: nothing, the ante handler's effects, or those and the
      messages'. Never a part of either. */
  function TxResultOf(w: World, tx: Option<Tx>, env: Env): TxResult
  {
    if tx.None? then ParseError
    else if tx.value.msgs == [] then NoMessages
    else if !env.headerSet then TxPanic
    else
      match Ante(w, tx.value, env)
      case Failed(_) => AnteError
      case Panicked => TxPanic
      case Done(w') =>
        match RunMsgs(w', tx.value.msgs)
        case Done(_) => Success
        case Failed(_) => MessageError
        case Panicked => TxPanic
  }

  function AfterTx(w: World, tx: Option<Tx>, env: Env): World
  {
    match TxResultOf(w, tx, env)
    case Success => RunMsgs(Ante(w, tx.value, env).state, tx.value.msgs).state
    case MessageError => Ante(w, tx.value, env).state
    case _ => w
  }

  // ---------------------------------------------------------------- the methods

  method SendCoinsFromAccountToAccount(ctx: Context, msg: MsgSend) returns (r: Outcome)
    requires AuthOk(ctx.View().auth)
    modifies ctx
    ensures ctx.OnlyCached() && AuthOk(ctx.View().auth)
    ensures Ended(r, ctx.View(), SendToAccount(old(ctx.View()), msg))
  {
    r := SendCoins(ctx, msg);
    if r != Ok {
      return;
    }
    var account := GetAccount(ctx, msg.to);
    if account.None? {
      CreateNewBaseAccount(ctx, msg.to);
    }
  }

  method RunMessages(ctx: Context, msgs: seq<MsgSend>) returns (r: Outcome)
    requires AuthOk(ctx.View().auth)
    modifies ctx
    ensures ctx.OnlyCached() && AuthOk(ctx.View().auth)
    ensures Ended(r, ctx.View(), RunMsgs(old(ctx.View()), msgs))
  {
    assert msgs[0..] == msgs;
    for i := 0 to |msgs|
      invariant ctx.OnlyCached() && AuthOk(ctx.View().auth)
      invariant RunMsgs(ctx.View(), msgs[i..]) == RunMsgs(old(ctx.View()), msgs)
    {
      assert msgs[i..][0] == msgs[i] && msgs[i..][1..] == msgs[i + 1..];
      r := SendCoinsFromAccountToAccount(ctx, msgs[i]);
      if r != Ok {
        return;
      }
    }
    r := Ok;
  }

  /** Nothing is pending from an earlier transaction. */
  predicate Clean(ctx: Context)
    reads ctx
  {
    ctx.bank.tx == map[] && ctx.auth.tx == map[]
  }

  /** `write_then_clear_tx_caches` */
  method Promote(ctx: Context)
    modifies ctx
    ensures Clean(ctx) && ctx.View() == old(ctx.View())
    ensures ctx.bank.base == old(ctx.bank.base) && ctx.auth.base == old(ctx.auth.base)
  {
    ReadsOneMap(ctx.bank, []);
    ReadsOneMap(ctx.auth, []);
    ctx.bank, ctx.auth := ctx.bank.Promote(), ctx.auth.Promote();
  }

  /** `clear_tx_caches` */
  method Discard(ctx: Context)
    modifies ctx
    ensures ctx.bank == old(ctx.bank).Discard() && ctx.auth == old(ctx.auth).Discard()
  {
    ctx.bank, ctx.auth := ctx.bank.Discard(), ctx.auth.Discard();
  }

  /** One transaction. After an error the caches are as before it, or as after the ante handler; after a
      panic nothing is promised. */
  method RunTx(ctx: Context, tx: Option<Tx>, env: Env) returns (result: TxResult)
    requires Clean(ctx) && AuthOk(ctx.View().auth)
    modifies ctx
    ensures result == TxResultOf(old(ctx.View()), tx, env)
    ensures result != TxPanic ==> Clean(ctx) && AuthOk(ctx.View().auth) && ctx.View() == AfterTx(old(ctx.View()), tx, env)
    ensures result != TxPanic ==> ctx.bank.base == old(ctx.bank.base) && ctx.auth.base == old(ctx.auth.base)
    ensures result in {ParseError, NoMessages, AnteError} ==> ctx.bank == old(ctx.bank) && ctx.auth == old(ctx.auth)
  {
    if tx.None? {
      return ParseError;
    }
    if |tx.value.msgs| == 0 {
      return NoMessages;
    }
    if !env.headerSet {
      return TxPanic;
    }
    var r := AnteHandler.Run(ctx, tx.value, env);
    match r {
      case Panic => return TxPanic;
      case Err =>
        Discard(ctx);
        return AnteError;
      case Ok => Promote(ctx);
    }
    result := FinishTx(ctx, tx.value.msgs);
  }

  /** The messages, on top of what the ante handler left. */
  method FinishTx(ctx: Context, msgs: seq<MsgSend>) returns (result: TxResult)
    requires Clean(ctx) && AuthOk(ctx.View().auth)
    modifies ctx
    ensures var step := RunMsgs(old(ctx.View()), msgs);
            && result == (if step.Done? then Success else if step.Failed? then MessageError else TxPanic)
            && (result == Success ==> ctx.View() == step.state)
            && (result == MessageError ==> ctx.bank == old(ctx.bank) && ctx.auth == old(ctx.auth))
    ensures result != TxPanic ==> Clean(ctx) && AuthOk(ctx.View().auth)
    ensures result != TxPanic ==> ctx.bank.base == old(ctx.bank.base) && ctx.auth.base == old(ctx.auth.base)
  {
    var r := RunMessages(ctx, msgs);
    match r {
      case Panic => return TxPanic;
      case Err =>
        Discard(ctx);
        return MessageError;
      case Ok =>
        Promote(ctx);
        return Success;
    }
  }
}

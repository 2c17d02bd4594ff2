/** Balances and supply: sending coins, the genesis balances, and what keeps the two in step. */
module BankKeeper {
  import opened ByteStrings
  import opened Words
  import opened TxTypes

  // ---------------------------------------------------------------- sending coins

  /** One coin from one balance to another. Missing or too small a balance fails; an addition past 256
      bits is a panic. Paying oneself reads the balance just lowered. */
  function MoveCoin(bank: Bank, from: Address, to: Address, coin: Coin): Step<Bank>
  {
    var source, target := BalanceKey(from, coin.denom), BalanceKey(to, coin.denom);
    if source !in bank then Failed(bank)
    else if !bank[source].CoinValue? then Panicked
    else if bank[source].coin.amount < coin.amount then Failed(bank)
    else
      var lowered := bank[source := CoinValue(bank[source].coin.(amount := bank[source].coin.amount - coin.amount))];
      if target in lowered && !lowered[target].CoinValue? then Panicked
      else
        var balance := if target in lowered then lowered[target].coin else Coin(coin.denom, 0);
        if balance.amount + coin.amount < TWO_256
        then Done(lowered[target := CoinValue(balance.(amount := balance.amount + coin.amount))])
        else Panicked
  }

  /** The coins one after the other, up to the first that does not go through. */
  function MoveCoins(bank: Bank, from: Address, to: Address, coins: seq<Coin>): Step<Bank>
    decreases |coins|
  {
    if coins == [] then Done(bank)
    else
      match MoveCoin(bank, from, to, coins[0])
      case Done(bank') => MoveCoins(bank', from, to, coins[1..])
      case Failed(bank') => Failed(bank')
      case Panicked => Panicked
  }

  /** The body of the loop over the coins. */
  method SendCoin(ctx: Context, from: Address, to: Address, coin: Coin) returns (r: Outcome)
    modifies ctx`bank
    ensures ctx.OnlyCached() && ctx.View().auth == old(ctx.View().auth)
    ensures Ended(r, ctx.View().bank, MoveCoin(old(ctx.View().bank), from, to, coin))
  {
    hide BalanceKey, Context.View;
    var balance := ctx.GetBank(BalanceKey(from, coin.denom));
    if balance.None? {
      return Err;
    }
    if !balance.value.CoinValue? {
      return Panic;
    }
    var fromBalance := balance.value.coin;
    if fromBalance.amount < coin.amount {
      return Err;
    }
    fromBalance := fromBalance.(amount := fromBalance.amount - coin.amount);
    ctx.SetBank(BalanceKey(from, coin.denom), CoinValue(fromBalance));
    balance := ctx.GetBank(BalanceKey(to, coin.denom));
    if balance.Some? && !balance.value.CoinValue? {
      return Panic;
    }
    var toBalance := if balance.Some? then balance.value.coin else Coin(coin.denom, 0);
    if toBalance.amount + coin.amount >= TWO_256 {
      return Panic;
    }
    toBalance := toBalance.(amount := toBalance.amount + coin.amount);
    ctx.SetBank(BalanceKey(to, coin.denom), CoinValue(toBalance));
    r := Ok;
  }

  /** What has been written when a coin does not go through stays written. */
  method SendCoins(ctx: Context, msg: MsgSend) returns (r: Outcome)
    modifies ctx`bank
    ensures ctx.OnlyCached() && ctx.View().auth == old(ctx.View().auth)
    ensures Ended(r, ctx.View().bank, MoveCoins(old(ctx.View().bank), msg.from, msg.to, msg.amount))
  {
    var coins := msg.amount;
    assert coins[0..] == coins;
    for i := 0 to |coins|
      invariant ctx.OnlyCached() && ctx.View().auth == old(ctx.View().auth)
      invariant MoveCoins(ctx.View().bank, msg.from, msg.to, coins[i..])
                == MoveCoins(old(ctx.View().bank), msg.from, msg.to, coins)
    {
      r := SendCoin(ctx, msg.from, msg.to, coins[i]);
      assert coins[i..][0] == coins[i] && coins[i..][1..] == coins[i + 1..];
      if r != Ok {
        return;
      }
    }
    r := Ok;
  }

  // ---------------------------------------------------------------- sums

  /** What an entry holds of a denomination. */
  function Holds(v: BankValue, denom: Denom): nat
  {
    if v.CoinValue? && v.coin.denom == denom then v.coin.amount else 0
  }

  /** All balances of a denomination together. */
  ghost function Total(bank: Bank, denom: Denom): nat
    decreases |bank|
  {
    if bank == map[] then 0
    else
      var k :| k in bank;
      Holds(bank[k], denom) + Total(bank - {k}, denom)
  }

  /** The sum does not depend on which entry is taken first. */
  lemma {:induction false} TotalWithout(bank: Bank, denom: Denom, k: Bytes)
    requires k in bank
    ensures Total(bank, denom) == Holds(bank[k], denom) + Total(bank - {k}, denom)
    decreases |bank|
  {
    var first :| first in bank && Total(bank, denom) == Holds(bank[first], denom) + Total(bank - {first}, denom);
    if first != k {
      TotalWithout(bank - {first}, denom, k);
      TotalWithout(bank - {k}, denom, first);
      assert bank - {first} - {k} == bank - {k} - {first};
    }
  }

  lemma TotalAfterPut(bank: Bank, denom: Denom, k: Bytes, v: BankValue)
    ensures Total(bank[k := v], denom) ==
            Total(bank, denom) + Holds(v, denom) - if k in bank then Holds(bank[k], denom) else 0
  {
    TotalWithout(bank[k := v], denom, k);
    assert bank[k := v] - {k} == bank - {k};
    if k in bank {
      TotalWithout(bank, denom, k);
    } else {
      assert bank - {k} == bank;
    }
  }

  /** Two different entries together. */
  lemma TwoWithinTotal(bank: Bank, denom: Denom, k: Bytes, j: Bytes)
    requires k in bank && j in bank && k != j
    ensures Holds(bank[k], denom) + Holds(bank[j], denom) <= Total(bank, denom)
  {
    TotalWithout(bank, denom, k);
    TotalWithout(bank - {k}, denom, j);
  }

  // ---------------------------------------------------------------- conservation

  function Supply(bank: Bank, denom: Denom): nat
  {
    if SupplyKey(denom) in bank && bank[SupplyKey(denom)].SupplyValue? then bank[SupplyKey(denom)].amount else 0
  }

  /** A balance key holds a coin of its own denomination, and a supply key a supply. */
  ghost predicate WellKeyed(bank: Bank)
  {
    && (forall a, d :: BalanceKey(a, d) in bank ==> bank[BalanceKey(a, d)].CoinValue? && bank[BalanceKey(a, d)].coin.denom == d)
    && (forall d :: SupplyKey(d) in bank ==> bank[SupplyKey(d)].SupplyValue?)
  }

  /** Every denomination's balances sum to the supply recorded for it. */
  ghost predicate Conserved(bank: Bank)
  {
    WellKeyed(bank) && forall d :: Total(bank, d) == Supply(bank, d)
  }

  /** A balance rewritten, with the keys still well used. */
  lemma PutKeepsKeys(bank: Bank, addr: Address, denom: Denom, amount: Amount)
    requires WellKeyed(bank)
    ensures WellKeyed(bank[BalanceKey(addr, denom) := CoinValue(Coin(denom, amount))])
    ensures forall d :: Supply(bank[BalanceKey(addr, denom) := CoinValue(Coin(denom, amount))], d) == Supply(bank, d)
  {
    forall d ensures BalanceKey(addr, denom) != SupplyKey(d) { BalanceKeysApart(addr, denom, addr, d); }
    forall a, d | BalanceKey(a, d) == BalanceKey(addr, denom) ensures d == denom { BalanceKeysApart(a, d, addr, denom); }
  }

  /** A move never panics on a conserved bank, so the addition stays within 256 bits, and keeps it
      conserved, to oneself or to another. */
  lemma MoveConserves(bank: Bank, from: Address, to: Address, coin: Coin)
    requires Conserved(bank)
    ensures !MoveCoin(bank, from, to, coin).Panicked? && Conserved(MoveCoin(bank, from, to, coin).state)
    ensures forall d :: Supply(MoveCoin(bank, from, to, coin).state, d) == Supply(bank, d)
  {
    var source, target := BalanceKey(from, coin.denom), BalanceKey(to, coin.denom);
    if source in bank && coin.amount <= bank[source].coin.amount {
      var held := bank[source].coin.amount;
      var lowered := bank[source := CoinValue(Coin(coin.denom, held - coin.amount))];
      PutKeepsKeys(bank, from, coin.denom, held - coin.amount);
      MoveFits(bank, from, to, coin, lowered);
      var balance := if target in lowered then lowered[target].coin.amount else 0;
      var raised := lowered[target := CoinValue(Coin(coin.denom, balance + coin.amount))];
      PutKeepsKeys(lowered, to, coin.denom, balance + coin.amount);
      assert MoveCoin(bank, from, to, coin) == Done(raised);
      forall d ensures Total(raised, d) == Supply(raised, d) {
        TotalAfterPut(bank, d, source, lowered[source]);
        TotalAfterPut(lowered, d, target, raised[target]);
      }
    }
  }

  lemma MoveFits(bank: Bank, from: Address, to: Address, coin: Coin, lowered: Bank)
    requires Conserved(bank)
    requires var source := BalanceKey(from, coin.denom);
             source in bank && coin.amount <= bank[source].coin.amount
             && lowered == bank[source := CoinValue(Coin(coin.denom, bank[source].coin.amount - coin.amount))]
    ensures var target := BalanceKey(to, coin.denom);
            target in lowered ==> lowered[target].CoinValue? && lowered[target].coin.denom == coin.denom
                                  && lowered[target].coin.amount + coin.amount < TWO_256
  {
    var source, target := BalanceKey(from, coin.denom), BalanceKey(to, coin.denom);
    if target in bank && target != source { TwoWithinTotal(bank, coin.denom, source, target); }
  }

  /** Sending, all the way or part of the way, conserves and never panics. */
  lemma {:induction false} SendConserves(bank: Bank, from: Address, to: Address, coins: seq<Coin>)
    requires Conserved(bank)
    ensures !MoveCoins(bank, from, to, coins).Panicked? && Conserved(MoveCoins(bank, from, to, coins).state)
    ensures forall d :: Supply(MoveCoins(bank, from, to, coins).state, d) == Supply(bank, d)
    decreases |coins|
  {
    if coins != [] {
      MoveConserves(bank, from, to, coins[0]);
      if MoveCoin(bank, from, to, coins[0]).Done? {
        SendConserves(MoveCoin(bank, from, to, coins[0]).state, from, to, coins[1..]);
      }
    }
  }

  // ---------------------------------------------------------------- what a send does

  function BalanceOf(bank: Bank, addr: Address, denom: Denom): nat
  {
    if BalanceKey(addr, denom) in bank && bank[BalanceKey(addr, denom)].CoinValue?
    then bank[BalanceKey(addr, denom)].coin.amount
    else 0
  }

  /** How much of a denomination the coins carry. */
  function Sent(coins: seq<Coin>, denom: Denom): nat
  {
    if coins == [] then 0 else (if coins[0].denom == denom then coins[0].amount else 0) + Sent(coins[1..], denom)
  }

  predicate DistinctDenoms(coins: seq<Coin>)
  {
    forall i, j :: 0 <= i < j < |coins| ==> coins[i].denom != coins[j].denom
  }

  /** The balance is there, and large enough. */
  predicate CanPay(bank: Bank, from: Address, coin: Coin)
  {
    BalanceKey(from, coin.denom) in bank && coin.amount <= BalanceOf(bank, from, coin.denom)
  }

  lemma MoveMeans(bank: Bank, from: Address, to: Address, coin: Coin, addr: Address, denom: Denom)
    requires Conserved(bank)
    ensures MoveCoin(bank, from, to, coin).Done? <==> CanPay(bank, from, coin)
    ensures MoveCoin(bank, from, to, coin).Done? ==>
              var after, amount := MoveCoin(bank, from, to, coin).state, if denom == coin.denom then coin.amount else 0;
              && BalanceOf(after, addr, denom) + (if addr == from then amount else 0)
                 == BalanceOf(bank, addr, denom) + (if addr == to then amount else 0)
              && (BalanceKey(addr, denom) in after <==> BalanceKey(addr, denom) in bank || (addr == to && denom == coin.denom))
  {
    MoveConserves(bank, from, to, coin);
    BalanceKeysApart(from, coin.denom, addr, denom);
    BalanceKeysApart(to, coin.denom, addr, denom);
    BalanceKeysApart(to, coin.denom, from, coin.denom);
  }

  /** Moving one coin changes nothing about whether another denomination can be paid. */
  lemma OthersStillPay(bank: Bank, from: Address, to: Address, coin: Coin, coins: seq<Coin>)
    requires Conserved(bank) && MoveCoin(bank, from, to, coin).Done?
    requires forall i :: 0 <= i < |coins| ==> coins[i].denom != coin.denom
    ensures forall i :: 0 <= i < |coins| ==>
              (CanPay(MoveCoin(bank, from, to, coin).state, from, coins[i]) <==> CanPay(bank, from, coins[i]))
  {
    forall i | 0 <= i < |coins|
      ensures CanPay(MoveCoin(bank, from, to, coin).state, from, coins[i]) <==> CanPay(bank, from, coins[i])
    {
      MoveMeans(bank, from, to, coin, from, coins[i].denom);
    }
  }

  /** With each denomination listed once, a send goes through exactly when every coin could be paid at the
      start. Then the sender's balances are lower and the receiver's higher by just what was sent, and no
      other balance changes. */
  lemma {:induction false} SendMeans(bank: Bank, from: Address, to: Address, coins: seq<Coin>, addr: Address, denom: Denom)
    requires Conserved(bank) && DistinctDenoms(coins)
    ensures MoveCoins(bank, from, to, coins).Done? <==> forall i :: 0 <= i < |coins| ==> CanPay(bank, from, coins[i])
    ensures MoveCoins(bank, from, to, coins).Done? ==>
              var after := MoveCoins(bank, from, to, coins).state;
              BalanceOf(after, addr, denom) + (if addr == from then Sent(coins, denom) else 0)
              == BalanceOf(bank, addr, denom) + (if addr == to then Sent(coins, denom) else 0)
    decreases |coins|
  {
    if coins != [] {
      MoveMeans(bank, from, to, coins[0], addr, denom);
      MoveConserves(bank, from, to, coins[0]);
      assert forall i :: 0 <= i < |coins[1..]| ==> coins[1..][i] == coins[i + 1];
      if MoveCoin(bank, from, to, coins[0]).Done? {
        var next := MoveCoin(bank, from, to, coins[0]).state;
        OthersStillPay(bank, from, to, coins[0], coins[1..]);
        SendMeans(next, from, to, coins[1..], addr, denom);
        assert (forall i :: 0 <= i < |coins| ==> CanPay(bank, from, coins[i]))
          <==> (forall i :: 0 <= i < |coins[1..]| ==> CanPay(bank, from, coins[1..][i]));
      } else {
        assert !CanPay(bank, from, coins[0]);
      }
    }
  }
}

/** Payments one after another: when all of them are covered, and what they leave of every balance. */
module Payments {
  import opened TxTypes
  import opened BankKeeper

  datatype Payment = Payment(from: Address, to: Address, coin: Coin)

  /** The payments of one send. */
  function OfSend(from: Address, to: Address, coins: seq<Coin>): seq<Payment>
  {
    if coins == [] then [] else [Payment(from, to, coins[0])] + OfSend(from, to, coins[1..])
  }

  /** And of all messages in their order. */
  function OfMsgs(msgs: seq<MsgSend>): seq<Payment>
    decreases |msgs|
  {
    if msgs == [] then [] else OfSend(msgs[0].from, msgs[0].to, msgs[0].amount) + OfMsgs(msgs[1..])
  }

  /** What an address pays of a denomination, and what it is paid. */
  function Out(ps: seq<Payment>, addr: Address, denom: Denom): nat
  {
    if ps == [] then 0
    else (if ps[0].from == addr && ps[0].coin.denom == denom then ps[0].coin.amount else 0) + Out(ps[1..], addr, denom)
  }

  function In(ps: seq<Payment>, addr: Address, denom: Denom): nat
  {
    if ps == [] then 0
    else (if ps[0].to == addr && ps[0].coin.denom == denom then ps[0].coin.amount else 0) + In(ps[1..], addr, denom)
  }

  /** Is paid some of the denomination, if only nothing. */
  predicate IsPaid(ps: seq<Payment>, addr: Address, denom: Denom)
  {
    exists i :: 0 <= i < |ps| && ps[i].to == addr && ps[i].coin.denom == denom
  }

  /** When its turn comes the payer has a balance, and of what it had and got has enough left. */
  predicate CoveredAt(bank: Bank, ps: seq<Payment>, i: nat)
    requires i < |ps|
  {
    var payer, coin, before := ps[i].from, ps[i].coin, ps[..i];
    && (BalanceKey(payer, coin.denom) in bank || IsPaid(before, payer, coin.denom))
    && coin.amount + Out(before, payer, coin.denom) <= BalanceOf(bank, payer, coin.denom) + In(before, payer, coin.denom)
  }

  predicate Covered(bank: Bank, ps: seq<Payment>)
  {
    forall i :: 0 <= i < |ps| ==> CoveredAt(bank, ps, i)
  }

  /** Every balance is what it was, less what was paid, plus what was got. */
  ghost predicate Shifted(bank: Bank, ps: seq<Payment>, after: Bank)
  {
    forall addr: Address, denom ::
      BalanceOf(after, addr, denom) + Out(ps, addr, denom) == BalanceOf(bank, addr, denom) + In(ps, addr, denom)
  }

  // ---------------------------------------------------------------- paying

  /** One payment after the other, up to the first that does not go through. */
  function Pay(bank: Bank, ps: seq<Payment>): Step<Bank>
    decreases |ps|
  {
    if ps == [] then Done(bank)
    else
      match MoveCoin(bank, ps[0].from, ps[0].to, ps[0].coin)
      case Done(bank') => Pay(bank', ps[1..])
      case Failed(bank') => Failed(bank')
      case Panicked => Panicked
  }

  lemma {:induction false} SendPays(bank: Bank, from: Address, to: Address, coins: seq<Coin>)
    ensures MoveCoins(bank, from, to, coins) == Pay(bank, OfSend(from, to, coins))
    decreases |coins|
  {
    hide MoveCoin;
    if coins != [] {
      assert OfSend(from, to, coins)[1..] == OfSend(from, to, coins[1..]);
      if MoveCoin(bank, from, to, coins[0]).Done? { SendPays(MoveCoin(bank, from, to, coins[0]).state, from, to, coins[1..]); }
    }
  }

  lemma {:induction false} PayInTwo(bank: Bank, ps: seq<Payment>, qs: seq<Payment>)
    ensures Pay(bank, ps + qs) == if Pay(bank, ps).Done? then Pay(Pay(bank, ps).state, qs) else Pay(bank, ps)
    decreases |ps|
  {
    hide MoveCoin;
    if ps == [] {
      assert ps + qs == qs;
    } else {
      assert (ps + qs)[1..] == ps[1..] + qs;
      var first := MoveCoin(bank, ps[0].from, ps[0].to, ps[0].coin);
      if first.Done? { PayInTwo(first.state, ps[1..], qs); }
    }
  }

  /** One payment less to look back on: its effect is in the bank instead. */
  lemma CoveredNext(bank: Bank, ps: seq<Payment>, bank': Bank, i: nat)
    requires Conserved(bank) && i + 1 < |ps|
    requires MoveCoin(bank, ps[0].from, ps[0].to, ps[0].coin) == Done(bank')
    ensures CoveredAt(bank', ps[1..], i) <==> CoveredAt(bank, ps, i + 1)
  {
    hide MoveCoin, BalanceOf, BalanceKey, Conserved;
    var payer, denom := ps[i + 1].from, ps[i + 1].coin.denom;
    MoveMeans(bank, ps[0].from, ps[0].to, ps[0].coin, payer, denom);
    assert ps[..i + 1][1..] == ps[1..][..i] && ps[..i + 1][0] == ps[0];
    PaidNext(ps[..i + 1], payer, denom);
  }

  lemma PaidNext(ps: seq<Payment>, addr: Address, denom: Denom)
    requires ps != []
    ensures IsPaid(ps, addr, denom) <==> (ps[0].to == addr && ps[0].coin.denom == denom) || IsPaid(ps[1..], addr, denom)
  {
    if i :| 0 <= i < |ps[1..]| && ps[1..][i].to == addr && ps[1..][i].coin.denom == denom { assert ps[i + 1].to == addr; }
    if i :| 0 < i < |ps| && ps[i].to == addr && ps[i].coin.denom == denom { assert ps[1..][i - 1].to == addr; }
  }

  /** On a conserved bank payments never panic and conserve, all of them go through exactly if they are covered,
      and then they shift the balances by just what was paid. */
  lemma {:induction false} PayExactly(bank: Bank, ps: seq<Payment>)
    requires Conserved(bank)
    ensures !Pay(bank, ps).Panicked? && Conserved(Pay(bank, ps).state)
    ensures forall d :: Supply(Pay(bank, ps).state, d) == Supply(bank, d)
    ensures Pay(bank, ps).Done? <==> Covered(bank, ps)
    ensures Pay(bank, ps).Done? ==> Shifted(bank, ps, Pay(bank, ps).state)
    decreases |ps|
  {
    hide MoveCoin, BalanceOf, BalanceKey, Supply, Conserved, CoveredAt;
    if ps != [] {
      var p := ps[0];
      var first := MoveCoin(bank, p.from, p.to, p.coin);
      MoveConserves(bank, p.from, p.to, p.coin);
      FirstCovered(bank, ps);
      if first.Done? {
        PayExactly(first.state, ps[1..]);
        forall i | 0 <= i < |ps| - 1 ensures CoveredAt(first.state, ps[1..], i) <==> CoveredAt(bank, ps, i + 1) {
          CoveredNext(bank, ps, first.state, i);
        }
        assert forall i :: 0 < i < |ps| ==> (CoveredAt(bank, ps, i) <==> CoveredAt(first.state, ps[1..], i - 1));
        forall addr: Address, denom { MoveMeans(bank, p.from, p.to, p.coin, addr, denom); }
      }
    }
  }

  lemma FirstCovered(bank: Bank, ps: seq<Payment>)
    requires Conserved(bank) && ps != []
    ensures MoveCoin(bank, ps[0].from, ps[0].to, ps[0].coin).Done? <==> CoveredAt(bank, ps, 0)
  {
    hide MoveCoin, BalanceOf, BalanceKey, Conserved;
    MoveMeans(bank, ps[0].from, ps[0].to, ps[0].coin, ps[0].from, ps[0].coin.denom);
    assert ps[..0] == [];
  }
}

/** The genesis balances and the supply recorded from them. */
module BankGenesis {
  import opened ByteStrings
  import opened Words
  import opened TxTypes
  import opened BankKeeper

  datatype Holding = Holding(address: Address, coins: seq<Coin>)
  type Entry = (Address, Coin)

  function EntriesOf(address: Address, coins: seq<Coin>): seq<Entry>
  {
    seq(|coins|, i requires 0 <= i < |coins| => (address, coins[i]))
  }

  /** All coins listed, in order, each with its owner. */
  function Listing(holdings: seq<Holding>): seq<Entry>
  {
    if holdings == [] then []
    else Listing(holdings[..|holdings| - 1]) + EntriesOf(holdings[|holdings| - 1].address, holdings[|holdings| - 1].coins)
  }

  /** The balances written one after the other: a later one replaces an earlier one. */
  function Written(entries: seq<Entry>): Bank
  {
    if entries == [] then map[]
    else
      var (address, coin) := entries[|entries| - 1];
      Written(entries[..|entries| - 1])[BalanceKey(address, coin.denom) := CoinValue(coin)]
  }

  /** What is listed of a denomination, replaced or not. */
  function Listed(entries: seq<Entry>, denom: Denom): nat
  {
    if entries == [] then 0
    else
      Listed(entries[..|entries| - 1], denom)
      + if entries[|entries| - 1].1.denom == denom then entries[|entries| - 1].1.amount else 0
  }

  predicate Mentions(entries: seq<Entry>, denom: Denom)
  {
    exists i :: 0 <= i < |entries| && entries[i].1.denom == denom
  }

  predicate Addable(entries: seq<Entry>)
  {
    forall i :: 0 <= i < |entries| ==> Listed(entries, entries[i].1.denom) < TWO_256
  }

  /** The running totals of the loop. */
  ghost predicate Totals(entries: seq<Entry>, totals: map<Denom, Amount>)
  {
    (forall d :: d in totals <==> Mentions(entries, d)) && forall d :: d in totals ==> totals[d] == Listed(entries, d)
  }

  lemma {:induction false} UnmentionedListsNothing(entries: seq<Entry>, denom: Denom)
    requires !Mentions(entries, denom)
    ensures Listed(entries, denom) == 0
  {
    if entries != [] {
      assert entries[|entries| - 1].1.denom != denom;
      UnmentionedListsNothing(entries[..|entries| - 1], denom);
    }
  }

  lemma {:induction false} ListedGrows(entries: seq<Entry>, more: seq<Entry>, denom: Denom)
    ensures Listed(entries, denom) <= Listed(entries + more, denom)
  {
    if more == [] {
      assert entries + more == entries;
    } else {
      var n := |more| - 1;
      assert (entries + more)[..|entries + more| - 1] == entries + more[..n];
      ListedGrows(entries, more[..n], denom);
    }
  }

  lemma TotalsNext(entries: seq<Entry>, totals: map<Denom, Amount>, e: Entry)
    requires Totals(entries, totals)
    ensures var sum := e.1.amount + if e.1.denom in totals then totals[e.1.denom] else 0;
            sum == Listed(entries + [e], e.1.denom)
            && (sum < TWO_256 ==> Totals(entries + [e], totals[e.1.denom := sum]))
  {
    var all := entries + [e];
    assert all[..|all| - 1] == entries;
    if e.1.denom !in totals { UnmentionedListsNothing(entries, e.1.denom); }
    forall d ensures Mentions(all, d) <==> Mentions(entries, d) || d == e.1.denom {
      if Mentions(entries, d) {
        var i :| 0 <= i < |entries| && entries[i].1.denom == d;
        assert all[i].1.denom == d;
      }
      if d == e.1.denom { assert all[|entries|].1.denom == d; }
    }
  }

  lemma {:induction false} AddableSoFar(entries: seq<Entry>, more: seq<Entry>)
    requires Addable(entries + more)
    ensures Addable(entries)
  {
    forall i | 0 <= i < |entries| ensures Listed(entries, entries[i].1.denom) < TWO_256 {
      assert (entries + more)[i] == entries[i];
      ListedGrows(entries, more, entries[i].1.denom);
    }
  }

  /** The balances as written, and for every denomination listed the sum of what is listed. */
  ghost predicate IsGenesis(entries: seq<Entry>, bank: Bank)
  {
    && (forall k :: !([0] <= k) ==> (k in bank <==> k in Written(entries)) && (k in bank ==> bank[k] == Written(entries)[k]))
    && (forall d :: SupplyKey(d) in bank <==> Mentions(entries, d))
    && (forall d :: SupplyKey(d) in bank ==> bank[SupplyKey(d)].SupplyValue? && bank[SupplyKey(d)].amount == Listed(entries, d))
  }

  /** The balances as written, and the supply of the denominations done. */
  ghost predicate Supplied(balances: Bank, totals: map<Denom, Amount>, done: set<Denom>, bank: Bank)
  {
    && (forall k :: !([0] <= k) ==> (k in bank <==> k in balances) && (k in bank ==> bank[k] == balances[k]))
    && (forall d :: SupplyKey(d) in bank <==> d in done)
    && (forall d :: d in done ==> d in totals && bank[SupplyKey(d)] == SupplyValue(totals[d]))
  }

  lemma SupplyNext(balances: Bank, totals: map<Denom, Amount>, done: set<Denom>, bank: Bank, denom: Denom)
    requires Supplied(balances, totals, done, bank) && denom in totals
    ensures Supplied(balances, totals, done + {denom}, bank[SupplyKey(denom) := SupplyValue(totals[denom])])
  {
    forall d ensures SupplyKey(d) == SupplyKey(denom) <==> d == denom { SupplyKeysApart(d, denom); }
    assert [0] <= SupplyKey(denom);
  }

  lemma {:induction false} WrittenHasNoSupply(entries: seq<Entry>)
    ensures forall k :: k in Written(entries) ==> !([0] <= k)
  {
    if entries != [] {
      WrittenHasNoSupply(entries[..|entries| - 1]);
      var (address, coin) := entries[|entries| - 1];
      assert BalanceKey(address, coin.denom)[0] == 2;
    }
  }

  /** One coin of the inner loop; `None` is a panic in the running total. */
  method AddCoin(ctx: Context, address: Address, coin: Coin, totals: map<Denom, Amount>, ghost entries: seq<Entry>)
    returns (r: Option<map<Denom, Amount>>)
    requires ctx.View().bank == Written(entries) && Totals(entries, totals)
    modifies ctx`bank
    ensures ctx.View().bank == Written(entries + [(address, coin)])
    ensures r.Some? <==> Listed(entries + [(address, coin)], coin.denom) < TWO_256
    ensures r.Some? ==> Totals(entries + [(address, coin)], r.value)
  {
    assert (entries + [(address, coin)])[..|entries|] == entries;
    TotalsNext(entries, totals, (address, coin));
    ctx.SetBank(BalanceKey(address, coin.denom), CoinValue(coin));
    var sum := coin.amount + if coin.denom in totals then totals[coin.denom] else 0;
    if sum >= TWO_256 {
      return None;
    }
    r := Some(totals[coin.denom := sum]);
  }

  method AddHolding(ctx: Context, holding: Holding, totals: map<Denom, Amount>, ghost entries: seq<Entry>)
    returns (r: Option<map<Denom, Amount>>)
    requires ctx.View().bank == Written(entries) && Totals(entries, totals)
    modifies ctx`bank
    ensures r.Some? ==> ctx.View().bank == Written(entries + EntriesOf(holding.address, holding.coins))
    ensures r.Some? ==> Totals(entries + EntriesOf(holding.address, holding.coins), r.value)
    ensures Addable(entries + EntriesOf(holding.address, holding.coins)) ==> r.Some?
    ensures r.None? ==> !Addable(entries + EntriesOf(holding.address, holding.coins))
  {
    hide Written, Totals, Addable;
    r := Some(totals);
    ghost var all := EntriesOf(holding.address, holding.coins);
    assert entries + all[..0] == entries;
    for i := 0 to |holding.coins|
      invariant r.Some? && ctx.View().bank == Written(entries + all[..i]) && Totals(entries + all[..i], r.value)
    {
      assert entries + all[..i + 1] == entries + all[..i] + [(holding.address, holding.coins[i])];
      r := AddCoin(ctx, holding.address, holding.coins[i], r.value, entries + all[..i]);
      if r.None? {
        TooMuch(entries + all[..i + 1], all[i + 1..], |entries| + i);
        assert entries + all[..i + 1] + all[i + 1..] == entries + all;
        return;
      }
    }
    assert all[..|holding.coins|] == all;
  }

  lemma TooMuch(entries: seq<Entry>, more: seq<Entry>, i: nat)
    requires i < |entries| && Listed(entries, entries[i].1.denom) >= TWO_256
    ensures !Addable(entries + more)
  {
    assert (entries + more)[i] == entries[i];
    ListedGrows(entries, more, entries[i].1.denom);
  }

  /** All balances are written, then the supply of every denomination in any order. `false` is a panic:
      some denomination adds up past 256 bits. */
  method InitGenesis(ctx: Context, holdings: seq<Holding>) returns (ok: bool)
    requires ctx.View().bank == map[]
    modifies ctx`bank
    ensures ok <==> Addable(Listing(holdings))
    ensures ok ==> IsGenesis(Listing(holdings), ctx.View().bank)
  {
    hide Totals, Addable, IsGenesis, Supplied, Written, EntriesOf, Context.View;
    NothingTotalled();
    var totals: map<Denom, Amount> := map[];
    ghost var entries: seq<Entry> := [];
    for i := 0 to |holdings|
      invariant entries == Listing(holdings[..i])
      invariant ctx.View().bank == Written(entries) && Totals(entries, totals)
      invariant entries <= Listing(holdings)
    {
      assert holdings[..i + 1][..i] == holdings[..i];
      ListingGrows(holdings, i + 1);
      var r := AddHolding(ctx, holdings[i], totals, entries);
      entries := entries + EntriesOf(holdings[i].address, holdings[i].coins);
      if r.None? {
        NeverAddable(entries, Listing(holdings));
        return false;
      }
      totals := r.value;
    }
    assert holdings[..|holdings|] == holdings;
    WrittenHasNoSupply(entries);
    SetSupplies(ctx, totals);
    AllSupplied(entries, totals, ctx.View().bank);
    ok := true;
  }

  lemma NothingTotalled()
    ensures Totals([], map[]) && Written([]) == map[]
  {
  }

  lemma AllSupplied(entries: seq<Entry>, totals: map<Denom, Amount>, bank: Bank)
    requires Totals(entries, totals) && Supplied(Written(entries), totals, totals.Keys, bank)
    ensures IsGenesis(entries, bank) && Addable(entries)
  {
    forall i | 0 <= i < |entries| ensures Listed(entries, entries[i].1.denom) < TWO_256 {
      assert Mentions(entries, entries[i].1.denom);
    }
  }

  lemma {:induction false} ListingGrows(holdings: seq<Holding>, i: nat)
    requires i <= |holdings|
    ensures Listing(holdings[..i]) <= Listing(holdings)
    decreases |holdings| - i
  {
    if i == |holdings| {
      assert holdings[..i] == holdings;
    } else {
      ListingGrows(holdings, i + 1);
      assert holdings[..i + 1][..i] == holdings[..i];
    }
  }

  lemma NeverAddable(entries: seq<Entry>, all: seq<Entry>)
    requires !Addable(entries) && entries <= all
    ensures !Addable(all)
  {
    assert all == entries + all[|entries|..];
    if Addable(all) { AddableSoFar(entries, all[|entries|..]); }
  }

  method SetSupplies(ctx: Context, totals: map<Denom, Amount>)
    requires forall k :: k in ctx.View().bank ==> !([0] <= k)
    modifies ctx`bank
    ensures Supplied(old(ctx.View().bank), totals, totals.Keys, ctx.View().bank)
  {
    var rest := totals.Keys;
    assert forall d :: [0] <= SupplyKey(d);
    while rest != {}
      invariant rest <= totals.Keys
      invariant Supplied(old(ctx.View().bank), totals, totals.Keys - rest, ctx.View().bank)
      decreases |rest|
    {
      var denom :| denom in rest;
      SupplyNext(old(ctx.View().bank), totals, totals.Keys - rest, ctx.View().bank, denom);
      assert totals.Keys - rest + {denom} == totals.Keys - (rest - {denom});
      ctx.SetBank(SupplyKey(denom), SupplyValue(totals[denom]));
      rest := rest - {denom};
    }
    assert totals.Keys - rest == totals.Keys;
  }

  // ---------------------------------------------------------------- does the supply match?

  lemma {:induction false} WrittenWellKeyed(entries: seq<Entry>)
    ensures WellKeyed(Written(entries))
  {
    if entries != [] {
      var (address, coin) := entries[|entries| - 1];
      WrittenWellKeyed(entries[..|entries| - 1]);
      PutKeepsKeys(Written(entries[..|entries| - 1]), address, coin.denom, coin.amount);
    }
  }

  /** What the replaced balances of a denomination held. */
  function Lost(entries: seq<Entry>, denom: Denom): nat
  {
    if entries == [] then 0
    else
      var (address, coin) := entries[|entries| - 1];
      Lost(entries[..|entries| - 1], denom)
      + if coin.denom == denom then BalanceOf(Written(entries[..|entries| - 1]), address, denom) else 0
  }

  lemma {:induction false} ListedIsHeldAndLost(entries: seq<Entry>, denom: Denom)
    ensures Listed(entries, denom) == Total(Written(entries), denom) + Lost(entries, denom)
  {
    if entries != [] {
      var before := entries[..|entries| - 1];
      var (address, coin) := entries[|entries| - 1];
      ListedIsHeldAndLost(before, denom);
      WrittenWellKeyed(before);
      TotalAfterPut(Written(before), denom, BalanceKey(address, coin.denom), CoinValue(coin));
    }
  }

  predicate SameSlot(a: Entry, b: Entry)
  {
    a.0 == b.0 && a.1.denom == b.1.denom
  }

  /** The balance in a slot is that of the last entry for it. */
  lemma {:induction false} LastEntry(entries: seq<Entry>, e: Entry) returns (i: int)
    ensures -1 <= i < |entries|
    ensures forall j :: i < j < |entries| ==> !SameSlot(entries[j], e)
    ensures BalanceOf(Written(entries), e.0, e.1.denom) == if i == -1 then 0 else entries[i].1.amount
    ensures i != -1 ==> SameSlot(entries[i], e)
  {
    if entries == [] {
      i := -1;
    } else {
      var n := |entries| - 1;
      BalanceKeysApart(entries[n].0, entries[n].1.denom, e.0, e.1.denom);
      if SameSlot(entries[n], e) {
        i := n;
      } else {
        i := LastEntry(entries[..n], e);
      }
    }
  }

  /** After genesis a balance is the last amount listed for its address and denomination, or nothing, and the
      supply is the sum of all amounts listed. */
  lemma GenesisBalances(entries: seq<Entry>, bank: Bank, e: Entry) returns (i: int)
    requires IsGenesis(entries, bank)
    ensures -1 <= i < |entries| && (i != -1 ==> SameSlot(entries[i], e))
    ensures forall j :: i < j < |entries| ==> !SameSlot(entries[j], e)
    ensures BalanceOf(bank, e.0, e.1.denom) == if i == -1 then 0 else entries[i].1.amount
    ensures Supply(bank, e.1.denom) == Listed(entries, e.1.denom)
  {
    i := LastEntry(entries, e);
    assert BalanceKey(e.0, e.1.denom)[0] == 2;
    if !Mentions(entries, e.1.denom) { UnmentionedListsNothing(entries, e.1.denom); }
  }

  /** Whatever is replaced is nothing. */
  predicate NothingReplaced(entries: seq<Entry>)
  {
    forall i, j :: 0 <= i < j < |entries| && SameSlot(entries[i], entries[j]) ==> entries[i].1.amount == 0
  }

  /** One more entry replaces nothing exactly when the balance it is written over is nothing. */
  lemma ReplacedNext(entries: seq<Entry>)
    requires entries != []
    ensures var (before, e) := (entries[..|entries| - 1], entries[|entries| - 1]);
            NothingReplaced(entries) <==> NothingReplaced(before) && BalanceOf(Written(before), e.0, e.1.denom) == 0
  {
    var n := |entries| - 1;
    var before, e := entries[..n], entries[n];
    var last := LastEntry(before, e);
    if NothingReplaced(entries) {
      forall i, j | 0 <= i < j < |before| && SameSlot(before[i], before[j]) ensures before[i].1.amount == 0 {
        assert SameSlot(entries[i], entries[j]);
      }
      if last != -1 { assert SameSlot(entries[last], entries[n]); }
    }
    if NothingReplaced(before) && BalanceOf(Written(before), e.0, e.1.denom) == 0 {
      forall i, j | 0 <= i < j < |entries| && SameSlot(entries[i], entries[j]) ensures entries[i].1.amount == 0 {
        if j < n {
          assert SameSlot(before[i], before[j]);
        } else if i != last {
          assert SameSlot(before[i], before[last]);
        }
      }
    }
  }

  lemma {:induction false} NothingLost(entries: seq<Entry>, denom: Denom)
    requires NothingReplaced(entries)
    ensures Lost(entries, denom) == 0
  {
    if entries != [] {
      ReplacedNext(entries);
      NothingLost(entries[..|entries| - 1], denom);
    }
  }

  lemma {:induction false} SomethingLost(entries: seq<Entry>) returns (denom: Denom)
    requires !NothingReplaced(entries)
    ensures Lost(entries, denom) > 0
  {
    ReplacedNext(entries);
    if NothingReplaced(entries[..|entries| - 1]) {
      denom := entries[|entries| - 1].1.denom;
    } else {
      denom := SomethingLost(entries[..|entries| - 1]);
    }
  }

  function WithoutSupplies(bank: Bank): Bank
  {
    map k | k in bank && !([0] <= k) :: bank[k]
  }

  lemma {:induction false} SuppliesHoldNothing(bank: Bank, denom: Denom)
    requires forall k :: k in bank && [0] <= k ==> bank[k].SupplyValue?
    ensures Total(bank, denom) == Total(WithoutSupplies(bank), denom)
    decreases |bank|
  {
    if k :| k in bank && [0] <= k {
      TotalWithout(bank, denom, k);
      SuppliesHoldNothing(bank - {k}, denom);
      assert WithoutSupplies(bank - {k}) == WithoutSupplies(bank);
    } else {
      assert WithoutSupplies(bank) == bank;
    }
  }

  lemma SupplyKeyOf(k: Bytes)
    requires [0] <= k
    ensures k == SupplyKey(k[1..])
  {
  }

  lemma GenesisSums(entries: seq<Entry>, bank: Bank, denom: Denom)
    requires IsGenesis(entries, bank)
    ensures Supply(bank, denom) == Total(bank, denom) + Lost(entries, denom)
  {
    forall k | k in bank && [0] <= k ensures bank[k].SupplyValue? { SupplyKeyOf(k); }
    SuppliesHoldNothing(bank, denom);
    WrittenHasNoSupply(entries);
    assert WithoutSupplies(bank) == Written(entries);
    ListedIsHeldAndLost(entries, denom);
    if !Mentions(entries, denom) { UnmentionedListsNothing(entries, denom); }
  }

  lemma GenesisWellKeyed(entries: seq<Entry>, bank: Bank)
    requires IsGenesis(entries, bank)
    ensures WellKeyed(bank)
  {
    WrittenWellKeyed(entries);
    forall a, d | BalanceKey(a, d) in bank
      ensures bank[BalanceKey(a, d)].CoinValue? && bank[BalanceKey(a, d)].coin.denom == d
    {
      assert BalanceKey(a, d)[0] == 2;
      assert BalanceKey(a, d) in Written(entries);
    }
  }

  /** After genesis the balances sum to the supply exactly when no listed amount above zero is replaced by a
      later one for the same address and denomination; so always, if no such pair is listed twice. */
  lemma GenesisConservesExactly(entries: seq<Entry>, bank: Bank)
    requires IsGenesis(entries, bank)
    ensures Conserved(bank) <==> NothingReplaced(entries)
    ensures (forall i, j :: 0 <= i < j < |entries| ==> !SameSlot(entries[i], entries[j])) ==> Conserved(bank)
  {
    GenesisWellKeyed(entries, bank);
    if NothingReplaced(entries) {
      forall d ensures Total(bank, d) == Supply(bank, d) {
        NothingLost(entries, d);
        GenesisSums(entries, bank, d);
      }
    } else {
      var d := SomethingLost(entries);
      GenesisSums(entries, bank, d);
    }
  }
}

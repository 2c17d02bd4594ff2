/** Accounts: their numbers, sequences and keys. */
module AuthKeeper {
  import opened ByteStrings
  import opened Words
  import opened TxTypes

  /** Every stored account decodes and sits under its own address. */
  ghost predicate AuthOk(auth: Auth)
  {
    && (forall a :: AccountKey(a) in auth ==> auth[AccountKey(a)].AccountValue? && auth[AccountKey(a)].account.address == a)
    && (NUMBER_KEY in auth ==> auth[NUMBER_KEY].NumberValue?)
  }

  function AccountOf(auth: Auth, addr: Address): Option<Account>
  {
    if AccountKey(addr) in auth && auth[AccountKey(addr)].AccountValue? then Some(auth[AccountKey(addr)].account) else None
  }

  /** The next number to give out; none stored is zero. */
  function NextNumber(auth: Auth): U64
  {
    if NUMBER_KEY in auth && auth[NUMBER_KEY].NumberValue? then auth[NUMBER_KEY].number else 0
  }

  function WithAccount(auth: Auth, account: Account): Auth
  {
    auth[AccountKey(account.address) := AccountValue(account)]
  }

  /** The counter one further, in 64 bits. */
  function Counted(auth: Auth): Auth
  {
    auth[NUMBER_KEY := NumberValue((NextNumber(auth) + 1) % TWO_64)]
  }

  /** An account written under the next number, whatever was there before. */
  function WithNumbered(auth: Auth, account: Account): Auth
  {
    WithAccount(Counted(auth), account.(number := NextNumber(auth)))
  }

  /** A new account, without a key and at sequence zero. */
  function WithNew(auth: Auth, addr: Address, moduleName: Option<Bytes>): Auth
  {
    WithNumbered(auth, Account(addr, None, 0, 0, moduleName))
  }

  method GetAccount(ctx: Context, addr: Address) returns (r: Option<Account>)
    requires AuthOk(ctx.View().auth)
    ensures r == AccountOf(ctx.View().auth, addr)
  {
    var value := ctx.GetAuth(AccountKey(addr));
    r := if value.Some? then Some(value.value.account) else None;
  }

  method SetAccount(ctx: Context, account: Account)
    requires AuthOk(ctx.View().auth)
    modifies ctx`auth
    ensures ctx.OnlyCached() && AuthOk(ctx.View().auth)
    ensures ctx.View() == old(ctx.View()).(auth := WithAccount(old(ctx.View().auth), account))
  {
    WithAccountOk(ctx.View().auth, account);
    ctx.SetAuth(AccountKey(account.address), AccountValue(account));
  }

  method GetNextAccountNumber(ctx: Context) returns (number: U64)
    requires AuthOk(ctx.View().auth)
    modifies ctx`auth
    ensures ctx.OnlyCached() && AuthOk(ctx.View().auth) && number == NextNumber(old(ctx.View().auth))
    ensures ctx.View() == old(ctx.View()).(auth := Counted(old(ctx.View().auth)))
  {
    CountedOk(ctx.View().auth);
    var value := ctx.GetAuth(NUMBER_KEY);
    number := if value.Some? then value.value.number else 0;
    ctx.SetAuth(NUMBER_KEY, NumberValue((number + 1) % TWO_64));
  }

  /** Overwrites an account that is there. */
  method CreateNewBaseAccount(ctx: Context, addr: Address)
    requires AuthOk(ctx.View().auth)
    modifies ctx`auth
    ensures ctx.OnlyCached() && AuthOk(ctx.View().auth)
    ensures ctx.View() == old(ctx.View()).(auth := WithNew(old(ctx.View().auth), addr, None))
  {
    var number := GetNextAccountNumber(ctx);
    SetAccount(ctx, Account(addr, None, number, 0, None));
  }

  /** A module's account, unless it is there already. */
  function WithModule(auth: Auth, addr: Address, name: Bytes): Auth
  {
    if AccountOf(auth, addr).Some? then auth else WithNew(auth, addr, Some(name))
  }

  method CheckCreateNewModuleAccount(ctx: Context, addr: Address, name: Bytes)
    requires AuthOk(ctx.View().auth)
    modifies ctx`auth
    ensures ctx.OnlyCached() && AuthOk(ctx.View().auth)
    ensures ctx.View() == old(ctx.View()).(auth := WithModule(old(ctx.View().auth), addr, name))
  {
    var account := GetAccount(ctx, addr);
    if account.None? {
      var number := GetNextAccountNumber(ctx);
      SetAccount(ctx, Account(addr, None, number, 0, Some(name)));
    }
  }

  // ---------------------------------------------------------------- what these keep

  lemma WithAccountOk(auth: Auth, account: Account)
    requires AuthOk(auth)
    ensures AuthOk(WithAccount(auth, account))
  {
    AccountKeysApart(account.address, account.address);
    forall a ensures AccountKey(a) == AccountKey(account.address) <==> a == account.address { AccountKeysApart(a, account.address); }
  }

  lemma CountedOk(auth: Auth)
    requires AuthOk(auth)
    ensures AuthOk(Counted(auth))
  {
    forall a ensures AccountKey(a) != NUMBER_KEY { AccountKeysApart(a, a); }
  }

  /** One account written, every other as it was. */
  lemma WithAccountReads(auth: Auth, account: Account, addr: Address)
    ensures AccountOf(WithAccount(auth, account), addr) == if addr == account.address then Some(account) else AccountOf(auth, addr)
    ensures NextNumber(WithAccount(auth, account)) == NextNumber(auth)
  {
    AccountKeysApart(account.address, addr);
  }

  lemma WithNumberedReads(auth: Auth, account: Account, other: Address)
    ensures AccountOf(WithNumbered(auth, account), other) ==
            if other == account.address then Some(account.(number := NextNumber(auth))) else AccountOf(auth, other)
    ensures NextNumber(WithNumbered(auth, account)) == (NextNumber(auth) + 1) % TWO_64
  {
    AccountKeysApart(other, account.address);
    WithAccountReads(Counted(auth), account.(number := NextNumber(auth)), other);
  }

  lemma WithNewReads(auth: Auth, addr: Address, moduleName: Option<Bytes>, other: Address)
    ensures AccountOf(WithNew(auth, addr, moduleName), other) ==
            if other == addr then Some(Account(addr, None, NextNumber(auth), 0, moduleName)) else AccountOf(auth, other)
    ensures NextNumber(WithNew(auth, addr, moduleName)) == (NextNumber(auth) + 1) % TWO_64
  {
    WithNumberedReads(auth, Account(addr, None, 0, 0, moduleName), other);
  }

  lemma WithNewOk(auth: Auth, addr: Address, moduleName: Option<Bytes>)
    requires AuthOk(auth)
    ensures AuthOk(WithNew(auth, addr, moduleName))
  {
    CountedOk(auth);
    WithAccountOk(Counted(auth), Account(addr, None, NextNumber(auth), 0, moduleName));
  }

  /** No two accounts have one number, and every number given out is behind the counter. */
  ghost predicate NumbersApart(auth: Auth)
  {
    && (forall a :: AccountOf(auth, a).Some? ==> AccountOf(auth, a).value.number < NextNumber(auth))
    && (forall a, b :: a != b && AccountOf(auth, a).Some? && AccountOf(auth, b).Some? ==>
          AccountOf(auth, a).value.number != AccountOf(auth, b).value.number)
  }

  /** A new account gets a number nobody has, as long as the counter does not wrap. */
  lemma NewNumberIsFresh(auth: Auth, account: Account)
    requires NumbersApart(auth) && NextNumber(auth) + 1 < TWO_64
    ensures NumbersApart(WithNumbered(auth, account)) && NextNumber(WithNumbered(auth, account)) == NextNumber(auth) + 1
  {
    var after := WithNumbered(auth, account);
    forall a ensures AccountOf(after, a) == if a == account.address then Some(account.(number := NextNumber(auth))) else AccountOf(auth, a) {
      WithNumberedReads(auth, account, a);
    }
    WithNumberedReads(auth, account, account.address);
  }

  // ---------------------------------------------------------------- sequences

  /** The sequence of an account; an account that is not there counts from zero. */
  function SeqOf(auth: Auth, addr: Address): U64
  {
    if AccountOf(auth, addr).Some? then AccountOf(auth, addr).value.sequence else 0
  }

  // ---------------------------------------------------------------- genesis

  /** The genesis accounts, each under the next number. */
  function WithAll(auth: Auth, accounts: seq<Account>): Auth
    decreases |accounts|
  {
    if accounts == [] then auth else WithAll(WithNumbered(auth, accounts[0]), accounts[1..])
  }

  /** The accounts, then the fee collector's. */
  method InitGenesis(ctx: Context, accounts: seq<Account>, feeCollector: Address, name: Bytes)
    requires AuthOk(ctx.View().auth)
    modifies ctx`auth
    ensures ctx.OnlyCached() && AuthOk(ctx.View().auth)
    ensures ctx.View() == old(ctx.View()).(auth := WithModule(WithAll(old(ctx.View().auth), accounts), feeCollector, name))
  {
    assert accounts[0..] == accounts;
    for i := 0 to |accounts|
      invariant ctx.OnlyCached() && AuthOk(ctx.View().auth) && ctx.View().bank == old(ctx.View().bank)
      invariant WithAll(ctx.View().auth, accounts[i..]) == WithAll(old(ctx.View().auth), accounts)
    {
      assert accounts[i..][1..] == accounts[i + 1..];
      var number := GetNextAccountNumber(ctx);
      SetAccount(ctx, accounts[i].(number := number));
    }
    CheckCreateNewModuleAccount(ctx, feeCollector, name);
  }

  lemma {:induction false} AllNumbersApart(auth: Auth, accounts: seq<Account>)
    requires NumbersApart(auth) && NextNumber(auth) + |accounts| < TWO_64
    ensures NumbersApart(WithAll(auth, accounts)) && NextNumber(WithAll(auth, accounts)) == NextNumber(auth) + |accounts|
    decreases |accounts|
  {
    if accounts != [] {
      NewNumberIsFresh(auth, accounts[0]);
      AllNumbersApart(WithNumbered(auth, accounts[0]), accounts[1..]);
    }
  }

  /** From an empty store, every account of the genesis state has a number of its own, repeated addresses
      or not. */
  lemma GenesisNumbersApart(accounts: seq<Account>, feeCollector: Address, name: Bytes)
    requires |accounts| + 1 < TWO_64
    ensures NumbersApart(WithModule(WithAll(map[], accounts), feeCollector, name))
  {
    AllNumbersApart(map[], accounts);
    NewNumberIsFresh(WithAll(map[], accounts), Account(feeCollector, None, 0, 0, Some(name)));
  }
}

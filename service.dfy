/** The account service as an object over the database it changes in place.
    Each mutating operation changes the fields step by step, as the service
    does, and is proved to return and leave behind exactly what the matching
    function of module Bank describes. */
module AccountServices {
  import opened AccountNumbers
  import opened Bank

  class AccountService {
    var accounts: map<AccountId, Account>
    var customers: map<CustomerId, Customer>
    var accountTypes: set<AccountTypeId>
    var currencies: set<CurrencyId>
    var nextIdentity: nat

    /** The database as a value. */
    function State(): Store
      reads this
    {
      Store(accounts, customers, accountTypes, currencies, nextIdentity)
    }

    ghost predicate Valid()
      reads this
    {
      Bank.Valid(State())
    }

    /** The service over a database whose contents satisfy the store invariant. */
    constructor (s: Store)
      requires Bank.Valid(s)
      ensures Valid()
      ensures State() == s
    {
      accounts := s.accounts;
      customers := s.customers;
      accountTypes := s.accountTypes;
      currencies := s.currencies;
      nextIdentity := s.nextIdentity;
    }

    /** CreateAccountAsync (lines 46-90), keeping the database invariant. */
    method CreateAccount(request: CreateAccountRequest) returns (r: Result<Account>)
      requires Valid()
      modifies this
      ensures Valid()
      ensures r == Bank.CreateAccount(old(State()), request).result
      ensures State() == Bank.CreateAccount(old(State()), request).store
    {
      CreatePreservesValid(State(), request);
      r := CreateAccountSteps(request);
    }

    /** The steps of CreateAccountAsync: the three lookups in order, the next
        number, the insert and the link to the customer. */
    method CreateAccountSteps(request: CreateAccountRequest) returns (r: Result<Account>)
      modifies this
      ensures r == Bank.CreateAccount(old(State()), request).result
      ensures State() == Bank.CreateAccount(old(State()), request).store
    {
      var accountTypeFound := request.accountTypeId in accountTypes;
      var currencyFound := request.currencyId in currencies;
      var customerFound := request.customerId in customers;
      if !accountTypeFound {
        return Err(AppError(ACCOUNT_TYPE_NOT_FOUND));
      }
      if !currencyFound {
        return Err(AppError(CURRENCY_NOT_FOUND));
      }
      if !customerFound {
        return Err(AppError(CUSTOMER_NOT_FOUND));
      }
      var accountNumber := NextAccountNumber(accounts.Keys);
      var paddedId := FormatAccountNumber(accountNumber);
      if nextIdentity > LONG_MAX {
        // the insert fails and the transaction is never committed
        return Err(StorageError(IDENTITY_EXHAUSTED));
      }
      var account := Account(nextIdentity, paddedId, request.balance, request.transferLimit,
                             request.isActive, request.accountTypeId, request.currencyId);
      var customer := customers[request.customerId];
      customers := customers[request.customerId := customer.(bankAccounts := customer.bankAccounts + [account.id])];
      accounts := accounts[account.id := account];
      nextIdentity := nextIdentity + 1;
      r := Ok(account);
    }

    /** UpdateAccountAsync (lines 92-100), keeping the database invariant. */
    method UpdateAccount(request: UpdateAccountRequest, id: AccountId) returns (r: Result<Account>)
      requires Valid()
      modifies this
      ensures Valid()
      ensures r == Bank.UpdateAccount(old(State()), request, id).result
      ensures State() == Bank.UpdateAccount(old(State()), request, id).store
    {
      UpdatePreservesValid(State(), request, id);
      r := UpdateAccountSteps(request, id);
    }

    /** The steps of UpdateAccountAsync: the lookup, then each supplied field
        written over the stored one. */
    method UpdateAccountSteps(request: UpdateAccountRequest, id: AccountId) returns (r: Result<Account>)
      modifies this
      ensures r == Bank.UpdateAccount(old(State()), request, id).result
      ensures State() == Bank.UpdateAccount(old(State()), request, id).store
    {
      var found := GetAccountById(State(), id);
      if found.Err? {
        return Err(found.error);
      }
      var account := found.value;
      account := account.(balance := Patch(request.balance, account.balance));
      account := account.(transferLimit := Patch(request.transferLimit, account.transferLimit));
      account := account.(isActive := Patch(request.isActive, account.isActive));
      accounts := accounts[id := account];
      r := Ok(account);
    }

    /** DeleteAccountAsync (lines 102-108), keeping the database invariant. */
    method DeleteAccount(id: AccountId) returns (r: Result<bool>)
      requires Valid()
      modifies this
      ensures Valid()
      ensures r == Bank.DeleteAccount(old(State()), id).result
      ensures State() == Bank.DeleteAccount(old(State()), id).store
    {
      DeletePreservesValid(State(), id);
      r := DeleteAccountSteps(id);
    }

    /** The steps of DeleteAccountAsync: the lookup, then the removal of the
        row, which also leaves its owner's list. */
    method DeleteAccountSteps(id: AccountId) returns (r: Result<bool>)
      modifies this
      ensures r == Bank.DeleteAccount(old(State()), id).result
      ensures State() == Bank.DeleteAccount(old(State()), id).store
    {
      var found := GetAccountById(State(), id);
      if found.Err? {
        return Err(found.error);
      }
      accounts := accounts - {id};
      customers := DetachAccount(customers, id);
      r := Ok(true);
    }
  }

  /** On a fresh database, whose customers own no accounts yet, the first
      creation that passes the three lookups succeeds, numbers the account
      "0000000000000001" and makes the requested customer, and nobody else,
      its owner. */
  method FirstCreation(accountTypes: set<AccountTypeId>, currencies: set<CurrencyId>,
                       customers: map<CustomerId, Customer>, request: CreateAccountRequest)
    returns (service: AccountService, account: Account)
    requires forall c | c in customers :: customers[c].bankAccounts == []
    requires request.accountTypeId in accountTypes && request.currencyId in currencies
    requires request.customerId in customers
    ensures service.Valid()
    ensures account.number == "0000000000000001"
    ensures IsCustomerAccountOwner(service.State(), request.customerId, account.id) == Ok(true)
    ensures forall c | c != request.customerId :: IsCustomerAccountOwner(service.State(), c, account.id) != Ok(true)
  {
    var empty := Store(map[], customers, accountTypes, currencies, 1);
    assert forall c, id :: !Lists(empty, c, id);
    service := new AccountService(empty);
    var r := service.CreateAccount(request);
    assert r.Ok?;
    account := r.value;
    FirstAccountIsNumberOne(empty, request);
    CreateAssociatesCustomer(empty, request);
  }
}

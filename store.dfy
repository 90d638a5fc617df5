/** The data the account service works on and its operations as functions from
    one store to the next: accounts by id, customers by id with the ids of the
    accounts they own, and the known account-type and currency ids. An
    operation gives back its result (an entity or a typed error in place of an
    exception) together with the store it leaves behind. */
module Bank {
  import opened AccountNumbers

  type AccountId = Int64
  type CustomerId = string
  type AccountTypeId = int
  type CurrencyId = int

  /** A `decimal` amount; the service only copies amounts, never computes with them. */
  type Money = int

  datatype Option<T> = None | Some(value: T)

  datatype Error =
    | NotFound(field: string, message: string)   // NotFoundError
    | AppError(message: string)                   // AppException
    | StorageError(message: string)               // a failure of SaveChangesAsync

  datatype Result<T> = Ok(value: T) | Err(error: Error)

  const ACCOUNT_NOT_FOUND: string := "Account with requested id could not be found"
  const CUSTOMER_NOT_FOUND: string := "Customer with requested id could not be found"
  const ACCOUNT_TYPE_NOT_FOUND: string := "Account type with requested id could not be found"
  const CURRENCY_NOT_FOUND: string := "Currency with requested id could not be found"
  const IDENTITY_EXHAUSTED: string := "No account id left in the identity column"

  datatype Account = Account(
    id: AccountId,
    number: string,
    balance: Money,
    transferLimit: Money,
    isActive: bool,
    accountTypeId: AccountTypeId,
    currencyId: CurrencyId)

  datatype Customer = Customer(
    firstName: string,
    middleName: string,
    lastName: string,
    nationalId: string,
    bankAccounts: seq<AccountId>)

  /** The database. `nextIdentity` is the value the storage engine's identity
      column hands to the next inserted account: it only grows, so ids of
      deleted accounts are never handed out again. */
  datatype Store = Store(
    accounts: map<AccountId, Account>,
    customers: map<CustomerId, Customer>,
    accountTypes: set<AccountTypeId>,
    currencies: set<CurrencyId>,
    nextIdentity: nat)

  datatype CreateAccountRequest = CreateAccountRequest(
    accountTypeId: AccountTypeId,
    currencyId: CurrencyId,
    customerId: CustomerId,
    balance: Money,
    transferLimit: Money,
    isActive: bool)

  /** Every field is optional: an absent one leaves the account's value alone. */
  datatype UpdateAccountRequest = UpdateAccountRequest(
    balance: Option<Money>,
    transferLimit: Option<Money>,
    isActive: Option<bool>)

  /** What an operation returns, and the store it leaves behind. */
  datatype Outcome<T> = Outcome(result: Result<T>, store: Store)

  // ---------------------------------------------------------------------
  // The store invariant
  // ---------------------------------------------------------------------

  /** Customer `c` lists account `id` among its bank accounts. */
  ghost predicate Lists(s: Store, c: CustomerId, id: AccountId)
  {
    c in s.customers && id in s.customers[c].bankAccounts
  }

  ghost predicate NoDuplicates(ids: seq<AccountId>)
  {
    forall k, m | 0 <= k < m < |ids| :: ids[k] != ids[m]
  }

  /** `number` stands for a value in 1..`id`. */
  ghost predicate NumberedAtMost(number: string, id: AccountId)
  {
    1 <= AccountNumberValue(number) <= id
  }

  /** Every account sits under its own id, below the next identity value. */
  ghost predicate IdsBelowIdentity(s: Store)
  {
    && 1 <= s.nextIdentity <= LONG_MAX + 1
    && forall id | id in s.accounts :: s.accounts[id].id == id && 1 <= id < s.nextIdentity
  }

  /** Every account's number stands for a value no larger than its id. */
  ghost predicate WellNumbered(s: Store)
  {
    && IdsBelowIdentity(s)
    && forall id | id in s.accounts :: NumberedAtMost(s.accounts[id].number, id)
  }

  /** No two accounts share a number. */
  ghost predicate NumbersDistinct(s: Store)
  {
    forall i, j | i in s.accounts && j in s.accounts && i != j ::
      s.accounts[i].number != s.accounts[j].number
  }

  /** Customers list existing accounts, each at most once, and every account
      is listed by exactly one customer. */
  ghost predicate OwnedOnce(s: Store)
  {
    && (forall c | c in s.customers :: NoDuplicates(s.customers[c].bankAccounts))
    && (forall c, id | Lists(s, c, id) :: id in s.accounts)
    && (forall c, d, id | Lists(s, c, id) && Lists(s, d, id) :: c == d)
    && (forall id | id in s.accounts :: exists c :: Lists(s, c, id))
  }

  ghost predicate Valid(s: Store)
  {
    WellNumbered(s) && NumbersDistinct(s) && OwnedOnce(s)
  }

  // ---------------------------------------------------------------------
  // Lookups
  // ---------------------------------------------------------------------

  /** GetAccountByIdAsync (lines 38-44). */
  function GetAccountById(s: Store, id: AccountId): (r: Result<Account>)
    ensures r.Ok? <==> id in s.accounts
    ensures r.Ok? ==> r.value == s.accounts[id]
    ensures r.Err? ==> r.error == NotFound("Id", ACCOUNT_NOT_FOUND)
  {
    if id in s.accounts then Ok(s.accounts[id]) else Err(NotFound("Id", ACCOUNT_NOT_FOUND))
  }

  /** IsCustomerAccountOwnerAsync (lines 26-36): an unknown customer is an
      `AppException` whatever the account id; otherwise whether some account in
      the customer's list has the given id. */
  function IsCustomerAccountOwner(s: Store, userId: CustomerId, accountId: AccountId): (r: Result<bool>)
    ensures userId !in s.customers ==> r == Err(AppError(CUSTOMER_NOT_FOUND))
    ensures userId in s.customers ==>
      r == Ok(exists k | 0 <= k < |s.customers[userId].bankAccounts| ::
                s.customers[userId].bankAccounts[k] == accountId)
  {
    if userId !in s.customers then Err(AppError(CUSTOMER_NOT_FOUND))
    else Ok(accountId in s.customers[userId].bankAccounts)
  }

  /** An account a customer owns can be fetched. */
  lemma OwnedAccountExists(s: Store, userId: CustomerId, accountId: AccountId)
    requires Valid(s)
    requires IsCustomerAccountOwner(s, userId, accountId) == Ok(true)
    ensures GetAccountById(s, accountId).Ok?
  {
    assert Lists(s, userId, accountId);
  }

  /** Every account has exactly one owner. */
  lemma OwnerIsUnique(s: Store, accountId: AccountId)
    requires Valid(s)
    requires accountId in s.accounts
    ensures exists c :: IsCustomerAccountOwner(s, c, accountId) == Ok(true)
    ensures forall c, d |
      IsCustomerAccountOwner(s, c, accountId) == Ok(true) &&
      IsCustomerAccountOwner(s, d, accountId) == Ok(true) :: c == d
  {
    var c :| Lists(s, c, accountId);
    assert IsCustomerAccountOwner(s, c, accountId) == Ok(true);
    forall c, d |
      IsCustomerAccountOwner(s, c, accountId) == Ok(true) &&
      IsCustomerAccountOwner(s, d, accountId) == Ok(true)
      ensures c == d
    {
      assert Lists(s, c, accountId) && Lists(s, d, accountId);
    }
  }

  // ---------------------------------------------------------------------
  // Creation
  // ---------------------------------------------------------------------

  /** On success, `a` and `t` are what CreateAccountAsync (lines 59-86) makes of
      `s` and `request`. */
  ghost predicate CreatedAsRequested(s: Store, request: CreateAccountRequest, a: Account, t: Store)
  {
    && request.customerId in s.customers
    && a.id == s.nextIdentity
    && a.number == FormatAccountNumber(NextAccountNumber(s.accounts.Keys))
    && a.accountTypeId == request.accountTypeId && a.accountTypeId in s.accountTypes
    && a.currencyId == request.currencyId && a.currencyId in s.currencies
    && a.isActive == request.isActive
    && a.balance == request.balance
    && a.transferLimit == request.transferLimit
    && t.accounts == s.accounts[a.id := a]
    && t.customers.Keys == s.customers.Keys
    && t.customers[request.customerId] == s.customers[request.customerId].(
         bankAccounts := s.customers[request.customerId].bankAccounts + [a.id])
    && (forall c | c in s.customers && c != request.customerId :: t.customers[c] == s.customers[c])
    && t.accountTypes == s.accountTypes
    && t.currencies == s.currencies
    && t.nextIdentity == s.nextIdentity + 1
  }

  /** CreateAccountAsync (lines 46-90). The three lookups are checked in the
      order account type, currency, customer; the first that is missing is the
      error. Any failure, including the insert failing once the identity
      column is used up, leaves the store as it was (the transaction is not
      committed). */
  function CreateAccount(s: Store, request: CreateAccountRequest): (r: Outcome<Account>)
    ensures r.result.Err? ==> r.store == s
    ensures request.accountTypeId !in s.accountTypes ==>
      r.result == Err(AppError(ACCOUNT_TYPE_NOT_FOUND))
    ensures request.accountTypeId in s.accountTypes && request.currencyId !in s.currencies ==>
      r.result == Err(AppError(CURRENCY_NOT_FOUND))
    ensures request.accountTypeId in s.accountTypes && request.currencyId in s.currencies
      && request.customerId !in s.customers
      ==> r.result == Err(AppError(CUSTOMER_NOT_FOUND))
    ensures request.accountTypeId in s.accountTypes && request.currencyId in s.currencies
      && request.customerId in s.customers && s.nextIdentity > LONG_MAX
      ==> r.result == Err(StorageError(IDENTITY_EXHAUSTED))
    ensures r.result.Ok? <==>
      request.accountTypeId in s.accountTypes && request.currencyId in s.currencies &&
      request.customerId in s.customers && s.nextIdentity <= LONG_MAX
    ensures r.result.Ok? ==> CreatedAsRequested(s, request, r.result.value, r.store)
  {
    if request.accountTypeId !in s.accountTypes then Outcome(Err(AppError(ACCOUNT_TYPE_NOT_FOUND)), s)
    else if request.currencyId !in s.currencies then Outcome(Err(AppError(CURRENCY_NOT_FOUND)), s)
    else if request.customerId !in s.customers then Outcome(Err(AppError(CUSTOMER_NOT_FOUND)), s)
    else if s.nextIdentity > LONG_MAX then Outcome(Err(StorageError(IDENTITY_EXHAUSTED)), s)
    else
      var number := FormatAccountNumber(NextAccountNumber(s.accounts.Keys));
      var account := Account(s.nextIdentity, number, request.balance, request.transferLimit,
                             request.isActive, request.accountTypeId, request.currencyId);
      var customer := s.customers[request.customerId];
      var customers := s.customers[request.customerId := customer.(bankAccounts := customer.bankAccounts + [account.id])];
      Outcome(Ok(account), s.(accounts := s.accounts[account.id := account],
                              customers := customers,
                              nextIdentity := s.nextIdentity + 1))
  }

  /** The number given to a new account stands for a value above every
      existing id, so it differs from every existing account's number; it is
      all digits and at least sixteen characters long. */
  lemma CreatedNumberIsFresh(s: Store, request: CreateAccountRequest)
    requires Valid(s)
    requires CreateAccount(s, request).result.Ok?
    ensures var a := CreateAccount(s, request).result.value;
      && 1 <= AccountNumberValue(a.number) <= a.id
      && (forall id | id in s.accounts :: id < AccountNumberValue(a.number))
      && (forall id | id in s.accounts :: s.accounts[id].number != a.number)
      && AllDigits(a.number) && |a.number| >= NUMBER_WIDTH
  {
    var a := CreateAccount(s, request).result.value;
    assert CreatedAsRequested(s, request, a, CreateAccount(s, request).store);
    var v := NextNumberBounds(s);
    FormatRoundTrip(v);
    FormatShape(v);
    NewNumberIsUnused(s, v);
  }

  /** While the identity column has room, the next number's value lies above
      every id and at most at the identity value the new account receives. */
  lemma NextNumberBounds(s: Store) returns (v: Int64)
    requires IdsBelowIdentity(s) && s.nextIdentity <= LONG_MAX
    ensures v == NextAccountNumber(s.accounts.Keys)
    ensures 1 <= v <= s.nextIdentity
    ensures forall id | id in s.accounts :: id < v
  {
    v := NextAccountNumber(s.accounts.Keys);
    assert LONG_MAX !in s.accounts.Keys;
    if s.accounts != map[] {
      assert v - 1 in s.accounts;
    }
  }

  /** A value above every id renders to a number no account has. */
  lemma NewNumberIsUnused(s: Store, v: Int64)
    requires WellNumbered(s)
    requires v >= 1 && forall id | id in s.accounts :: id < v
    ensures forall id | id in s.accounts :: s.accounts[id].number != FormatAccountNumber(v)
  {
    forall id | id in s.accounts
      ensures s.accounts[id].number != FormatAccountNumber(v)
    {
      assert NumberedAtMost(s.accounts[id].number, id);
      FormatRoundTrip(v);
    }
  }

  /** With no accounts in the store, creation numbers the account 1. */
  lemma FirstAccountIsNumberOne(s: Store, request: CreateAccountRequest)
    requires s.accounts == map[]
    requires CreateAccount(s, request).result.Ok?
    ensures CreateAccount(s, request).result.value.number == "0000000000000001"
  {
    assert s.accounts.Keys == {};
    FirstAccountNumber();
  }

  /** After a creation the new account is owned by the requested customer and
      by nobody else, and who owns the other accounts is unchanged. */
  lemma CreateAssociatesCustomer(s: Store, request: CreateAccountRequest)
    requires Valid(s)
    requires CreateAccount(s, request).result.Ok?
    ensures var r := CreateAccount(s, request); var a := r.result.value;
      && IsCustomerAccountOwner(r.store, request.customerId, a.id) == Ok(true)
      && (forall c | c != request.customerId :: IsCustomerAccountOwner(r.store, c, a.id) != Ok(true))
      && (forall c, x | x != a.id :: IsCustomerAccountOwner(r.store, c, x) == IsCustomerAccountOwner(s, c, x))
  {
    var r := CreateAccount(s, request);
    var a, t := r.result.value, r.store;
    assert CreatedAsRequested(s, request, a, t);
    CreatedIsAppended(s, request, a, t);
    assert a.id !in s.accounts;
    AppendAssociates(s, request.customerId, a.id, t);
  }

  /** A creation adds the account and appends it to the requested customer's list. */
  lemma CreatedIsAppended(s: Store, request: CreateAccountRequest, a: Account, t: Store)
    requires CreatedAsRequested(s, request, a, t)
    ensures Appended(s, request.customerId, a.id, t)
  {
  }

  /** Appending a new account to one customer's list makes that customer, and
      nobody else, its owner, and changes no other ownership. */
  lemma AppendAssociates(s: Store, cid: CustomerId, x: AccountId, t: Store)
    requires forall c, id | Lists(s, c, id) :: id in s.accounts
    requires x !in s.accounts
    requires Appended(s, cid, x, t)
    ensures IsCustomerAccountOwner(t, cid, x) == Ok(true)
    ensures forall c | c != cid :: IsCustomerAccountOwner(t, c, x) != Ok(true)
    ensures forall c, y | y != x :: IsCustomerAccountOwner(t, c, y) == IsCustomerAccountOwner(s, c, y)
  {
    AppendedLists(s, cid, x, t);
    forall c, y
      ensures IsCustomerAccountOwner(t, c, y) ==
        if c in s.customers then Ok(Lists(s, c, y) || (c == cid && y == x))
        else Err(AppError(CUSTOMER_NOT_FOUND))
    {
      OwnerIsListed(t, c, y);
    }
    forall c, y
      ensures IsCustomerAccountOwner(s, c, y) ==
        if c in s.customers then Ok(Lists(s, c, y)) else Err(AppError(CUSTOMER_NOT_FOUND))
    {
      OwnerIsListed(s, c, y);
    }
  }

  lemma OwnerIsListed(s: Store, c: CustomerId, x: AccountId)
    ensures IsCustomerAccountOwner(s, c, x) ==
      if c in s.customers then Ok(Lists(s, c, x)) else Err(AppError(CUSTOMER_NOT_FOUND))
  {
  }

  lemma CreatePreservesValid(s: Store, request: CreateAccountRequest)
    requires Valid(s)
    ensures Valid(CreateAccount(s, request).store)
  {
    var r := CreateAccount(s, request);
    if r.result.Ok? {
      CreateKeepsNumbering(s, request, r.result.value, r.store);
      assert CreatedAsRequested(s, request, r.result.value, r.store);
      CreateKeepsOwnership(s, request, r.result.value, r.store);
    }
  }

  lemma CreateKeepsNumbering(s: Store, request: CreateAccountRequest, a: Account, t: Store)
    requires WellNumbered(s) && NumbersDistinct(s) && s.nextIdentity <= LONG_MAX
    requires CreatedAsRequested(s, request, a, t)
    ensures WellNumbered(t) && NumbersDistinct(t)
  {
    var v := NextNumberBounds(s);
    FormatRoundTrip(v);
    NewNumberIsUnused(s, v);
    InsertKeepsNumbering(s, a, t);
  }

  /** Adding under the next identity value an account whose number is new and
      stands for a value no larger than that id keeps the numbering invariant. */
  lemma InsertKeepsNumbering(s: Store, a: Account, t: Store)
    requires WellNumbered(s) && NumbersDistinct(s)
    requires a.id == s.nextIdentity && NumberedAtMost(a.number, a.id)
    requires forall id | id in s.accounts :: s.accounts[id].number != a.number
    requires t.accounts == s.accounts[a.id := a] && t.nextIdentity == s.nextIdentity + 1
    ensures WellNumbered(t) && NumbersDistinct(t)
  {
    forall id | id in t.accounts
      ensures t.accounts[id].id == id && 1 <= id < t.nextIdentity
      ensures NumberedAtMost(t.accounts[id].number, id)
    {
      if id != a.id {
        assert t.accounts[id] == s.accounts[id];
      }
    }
    forall i, j | i in t.accounts && j in t.accounts && i != j
      ensures t.accounts[i].number != t.accounts[j].number
    {
      if i == a.id {
        assert t.accounts[j] == s.accounts[j];
      } else if j == a.id {
        assert t.accounts[i] == s.accounts[i];
      } else {
        assert t.accounts[i] == s.accounts[i] && t.accounts[j] == s.accounts[j];
      }
    }
  }

  lemma CreateKeepsOwnership(s: Store, request: CreateAccountRequest, a: Account, t: Store)
    requires OwnedOnce(s) && a.id !in s.accounts
    requires CreatedAsRequested(s, request, a, t)
    ensures OwnedOnce(t)
  {
    CreatedIsAppended(s, request, a, t);
    AppendKeepsOwnership(s, request.customerId, a.id, t);
  }

  /** `t` is `s` with account `x` added and appended to the list of customer `cid`. */
  ghost predicate Appended(s: Store, cid: CustomerId, x: AccountId, t: Store)
  {
    && cid in s.customers
    && t.accounts.Keys == s.accounts.Keys + {x}
    && t.customers.Keys == s.customers.Keys
    && t.customers[cid].bankAccounts == s.customers[cid].bankAccounts + [x]
    && (forall c | c in s.customers && c != cid :: t.customers[c] == s.customers[c])
  }

  lemma AppendedLists(s: Store, cid: CustomerId, x: AccountId, t: Store)
    requires Appended(s, cid, x, t)
    ensures forall c, id :: Lists(t, c, id) <==> Lists(s, c, id) || (c == cid && id == x)
  {
    forall c, id
      ensures Lists(t, c, id) <==> Lists(s, c, id) || (c == cid && id == x)
    {
      if c == cid {
        assert id in t.customers[cid].bankAccounts <==> id in s.customers[cid].bankAccounts || id == x;
      }
    }
  }

  lemma AppendKeepsOwnership(s: Store, cid: CustomerId, x: AccountId, t: Store)
    requires OwnedOnce(s) && x !in s.accounts
    requires Appended(s, cid, x, t)
    ensures OwnedOnce(t)
  {
    AppendedLists(s, cid, x, t);
    AppendKeepsNoDuplicates(s, cid, x, t);
    AppendKeepsListed(s, cid, x, t);
  }

  lemma AppendKeepsNoDuplicates(s: Store, cid: CustomerId, x: AccountId, t: Store)
    requires forall c | c in s.customers :: NoDuplicates(s.customers[c].bankAccounts)
    requires !Lists(s, cid, x)
    requires Appended(s, cid, x, t)
    ensures forall c | c in t.customers :: NoDuplicates(t.customers[c].bankAccounts)
  {
    forall c | c in t.customers
      ensures NoDuplicates(t.customers[c].bankAccounts)
    {
      if c == cid {
        NoDuplicatesSnoc(s.customers[cid].bankAccounts, x);
      } else {
        assert t.customers[c] == s.customers[c];
      }
    }
  }

  lemma AppendKeepsListed(s: Store, cid: CustomerId, x: AccountId, t: Store)
    requires forall id | id in s.accounts :: exists c :: Lists(s, c, id)
    requires Appended(s, cid, x, t)
    requires forall c, id :: Lists(t, c, id) <==> Lists(s, c, id) || (c == cid && id == x)
    ensures forall id | id in t.accounts :: exists c :: Lists(t, c, id)
  {
    forall id | id in t.accounts
      ensures exists c :: Lists(t, c, id)
    {
      if id == x {
        assert Lists(t, cid, id);
      } else {
        var c :| Lists(s, c, id);
        assert Lists(t, c, id);
      }
    }
  }

  lemma NoDuplicatesSnoc(ids: seq<AccountId>, x: AccountId)
    requires NoDuplicates(ids) && x !in ids
    ensures NoDuplicates(ids + [x])
  {
    var l := ids + [x];
    forall k, m | 0 <= k < m < |l|
      ensures l[k] != l[m]
    {
      if m == |ids| {
        assert l[k] == ids[k];
      }
    }
  }

  // ---------------------------------------------------------------------
  // Update
  // ---------------------------------------------------------------------

  /** `value ?? current`. */
  function Patch<T>(value: Option<T>, current: T): (r: T)
    ensures value.Some? ==> r == value.value
    ensures value.None? ==> r == current
  {
    match value
    case Some(v) => v
    case None => current
  }

  /** `b` is `a` with the request's present fields applied and nothing else changed. */
  ghost predicate PatchedAsRequested(a: Account, request: UpdateAccountRequest, b: Account)
  {
    && (if request.balance.Some? then b.balance == request.balance.value else b.balance == a.balance)
    && (if request.transferLimit.Some? then b.transferLimit == request.transferLimit.value
        else b.transferLimit == a.transferLimit)
    && (if request.isActive.Some? then b.isActive == request.isActive.value else b.isActive == a.isActive)
    && b.id == a.id && b.number == a.number
    && b.accountTypeId == a.accountTypeId && b.currencyId == a.currencyId
  }

  /** UpdateAccountAsync (lines 92-100). */
  function UpdateAccount(s: Store, request: UpdateAccountRequest, id: AccountId): (r: Outcome<Account>)
    ensures r.result.Err? <==> id !in s.accounts
    ensures r.result.Err? ==> r.result.error == NotFound("Id", ACCOUNT_NOT_FOUND) && r.store == s
    ensures r.result.Ok? ==>
      && PatchedAsRequested(s.accounts[id], request, r.result.value)
      && r.store == s.(accounts := s.accounts[id := r.result.value])
  {
    match GetAccountById(s, id)
    case Err(e) => Outcome(Err(e), s)
    case Ok(account) =>
      var updated := account.(
        balance := Patch(request.balance, account.balance),
        transferLimit := Patch(request.transferLimit, account.transferLimit),
        isActive := Patch(request.isActive, account.isActive));
      Outcome(Ok(updated), s.(accounts := s.accounts[id := updated]))
  }

  /** An update touches no other account and no customer. */
  lemma UpdateKeepsOthers(s: Store, request: UpdateAccountRequest, id: AccountId)
    ensures var t := UpdateAccount(s, request, id).store;
      && (forall x | x != id :: GetAccountById(t, x) == GetAccountById(s, x))
      && (forall c, x :: IsCustomerAccountOwner(t, c, x) == IsCustomerAccountOwner(s, c, x))
  {
  }

  /** Applying the same update twice is the same as applying it once. */
  lemma UpdateIsIdempotent(s: Store, request: UpdateAccountRequest, id: AccountId)
    ensures var r := UpdateAccount(s, request, id);
      UpdateAccount(r.store, request, id) == r
  {
  }

  /** An update with no field present changes nothing. */
  lemma EmptyUpdateChangesNothing(s: Store, id: AccountId)
    ensures UpdateAccount(s, UpdateAccountRequest(None, None, None), id).store == s
  {
    if id in s.accounts {
      assert s.accounts[id := s.accounts[id]] == s.accounts;
    }
  }

  lemma UpdatePreservesValid(s: Store, request: UpdateAccountRequest, id: AccountId)
    requires Valid(s)
    ensures Valid(UpdateAccount(s, request, id).store)
  {
    var r := UpdateAccount(s, request, id);
    if r.result.Ok? {
      PatchKeepsValid(s, id, r.result.value);
    }
  }

  lemma PatchKeepsValid(s: Store, id: AccountId, b: Account)
    requires Valid(s) && id in s.accounts
    requires b.id == s.accounts[id].id && b.number == s.accounts[id].number
    ensures Valid(s.(accounts := s.accounts[id := b]))
  {
    PatchKeepsNumbering(s, id, b);
    PatchKeepsOwnership(s, id, b);
  }

  lemma PatchKeepsNumbering(s: Store, id: AccountId, b: Account)
    requires WellNumbered(s) && NumbersDistinct(s) && id in s.accounts
    requires b.id == s.accounts[id].id && b.number == s.accounts[id].number
    ensures WellNumbered(s.(accounts := s.accounts[id := b]))
    ensures NumbersDistinct(s.(accounts := s.accounts[id := b]))
  {
  }

  lemma PatchKeepsOwnership(s: Store, id: AccountId, b: Account)
    requires OwnedOnce(s) && id in s.accounts
    ensures OwnedOnce(s.(accounts := s.accounts[id := b]))
  {
    var t := s.(accounts := s.accounts[id := b]);
    assert t.accounts.Keys == s.accounts.Keys;
    assert forall c, x :: Lists(t, c, x) == Lists(s, c, x);
  }

  // ---------------------------------------------------------------------
  // Delete
  // ---------------------------------------------------------------------

  /** `ids` without any occurrence of `id`. */
  function Without(ids: seq<AccountId>, id: AccountId): (r: seq<AccountId>)
    ensures forall x :: x in r <==> x in ids && x != id
    ensures id !in ids ==> r == ids
  {
    if ids == [] then []
    else if ids[0] == id then Without(ids[1..], id)
    else [ids[0]] + Without(ids[1..], id)
  }

  lemma {:induction false} WithoutKeepsNoDuplicates(ids: seq<AccountId>, id: AccountId)
    requires NoDuplicates(ids)
    ensures NoDuplicates(Without(ids, id))
    decreases |ids|
  {
    if ids != [] {
      var tail := ids[1..];
      assert NoDuplicates(tail) by {
        forall k, m | 0 <= k < m < |tail| ensures tail[k] != tail[m] {
          assert tail[k] == ids[k + 1] && tail[m] == ids[m + 1];
        }
      }
      WithoutKeepsNoDuplicates(tail, id);
      if ids[0] != id {
        var rest := Without(tail, id);
        assert ids[0] !in tail by {
          forall k | 0 <= k < |tail| ensures tail[k] != ids[0] {
            assert tail[k] == ids[k + 1];
          }
        }
        var l := [ids[0]] + rest;
        forall k, m | 0 <= k < m < |l| ensures l[k] != l[m] {
          if k == 0 {
            assert l[m] == rest[m - 1] && l[m] in rest;
          } else {
            assert l[k] == rest[k - 1] && l[m] == rest[m - 1];
          }
        }
      }
    }
  }

  /** Drops `id` from every customer's list: the accounts navigation of a
      customer follows the account rows that name the customer as owner. */
  function DetachAccount(customers: map<CustomerId, Customer>, id: AccountId): (r: map<CustomerId, Customer>)
    ensures r.Keys == customers.Keys
    ensures forall c | c in customers :: r[c] == customers[c].(bankAccounts := Without(customers[c].bankAccounts, id))
  {
    map c | c in customers :: customers[c].(bankAccounts := Without(customers[c].bankAccounts, id))
  }

  /** DeleteAccountAsync (lines 102-108). */
  function DeleteAccount(s: Store, id: AccountId): (r: Outcome<bool>)
    ensures r.result.Ok? <==> id in s.accounts
    ensures r.result.Err? ==> r.result.error == NotFound("Id", ACCOUNT_NOT_FOUND) && r.store == s
    ensures r.result.Ok? ==>
      && r.result.value
      && r.store == s.(accounts := s.accounts - {id}, customers := DetachAccount(s.customers, id))
  {
    match GetAccountById(s, id)
    case Err(e) => Outcome(Err(e), s)
    case Ok(_) => Outcome(Ok(true), s.(accounts := s.accounts - {id}, customers := DetachAccount(s.customers, id)))
  }

  /** After a deletion the account can no longer be fetched nor is owned by
      anyone, and every other account and its owner are as before. */
  lemma DeleteRemovesExactlyOne(s: Store, id: AccountId)
    requires id in s.accounts
    ensures var t := DeleteAccount(s, id).store;
      && GetAccountById(t, id).Err?
      && (forall c :: IsCustomerAccountOwner(t, c, id) != Ok(true))
      && (forall x | x != id :: GetAccountById(t, x) == GetAccountById(s, x))
      && (forall c, x | x != id :: IsCustomerAccountOwner(t, c, x) == IsCustomerAccountOwner(s, c, x))
  {
    var t := DeleteAccount(s, id).store;
    DetachedLists(s, id);
    forall c ensures IsCustomerAccountOwner(t, c, id) != Ok(true) {
      assert !Lists(t, c, id);
    }
    forall c, x | x != id
      ensures IsCustomerAccountOwner(t, c, x) == IsCustomerAccountOwner(s, c, x)
    {
      assert Lists(t, c, x) == Lists(s, c, x);
    }
  }

  /** What detaching `id` does to the customers' lists. */
  lemma DetachedLists(s: Store, id: AccountId)
    ensures var t := s.(accounts := s.accounts - {id}, customers := DetachAccount(s.customers, id));
      && (forall c :: !Lists(t, c, id))
      && (forall c, x | x != id :: Lists(t, c, x) == Lists(s, c, x))
  {
    var t := s.(accounts := s.accounts - {id}, customers := DetachAccount(s.customers, id));
    forall c | c in s.customers
      ensures id !in t.customers[c].bankAccounts
      ensures forall x | x != id :: x in t.customers[c].bankAccounts <==> x in s.customers[c].bankAccounts
    {
      assert t.customers[c].bankAccounts == Without(s.customers[c].bankAccounts, id);
    }
  }

  lemma DeletePreservesValid(s: Store, id: AccountId)
    requires Valid(s)
    ensures Valid(DeleteAccount(s, id).store)
  {
    if id in s.accounts {
      DetachKeepsOwnership(s, id);
    }
  }

  lemma DetachKeepsOwnership(s: Store, id: AccountId)
    requires OwnedOnce(s)
    ensures OwnedOnce(s.(accounts := s.accounts - {id}, customers := DetachAccount(s.customers, id)))
  {
    var t := s.(accounts := s.accounts - {id}, customers := DetachAccount(s.customers, id));
    DetachedLists(s, id);
    forall c | c in t.customers
      ensures NoDuplicates(t.customers[c].bankAccounts)
    {
      WithoutKeepsNoDuplicates(s.customers[c].bankAccounts, id);
    }
    forall c, x | Lists(t, c, x)
      ensures x in t.accounts
    {
      assert Lists(s, c, x);
    }
    forall c, d, x | Lists(t, c, x) && Lists(t, d, x)
      ensures c == d
    {
      assert Lists(s, c, x) && Lists(s, d, x);
    }
    forall x | x in t.accounts
      ensures exists c :: Lists(t, c, x)
    {
      var c :| Lists(s, c, x);
      assert Lists(t, c, x);
    }
  }

  // ---------------------------------------------------------------------
  // Numbers after a deletion
  // ---------------------------------------------------------------------

  /** Numbers come from the largest remaining id, ids from the identity column:
      once the account with the largest id is deleted, the next account gets
      that account's number back under a new id. */
  lemma DeletedNumberIsReused(s: Store, id: AccountId, request: CreateAccountRequest)
    requires IdsBelowIdentity(s)
    requires id in s.accounts && id - 1 in s.accounts
    requires forall x | x in s.accounts :: x <= id
    requires s.accounts[id].number == FormatAccountNumber(id)
    ensures var r := CreateAccount(DeleteAccount(s, id).store, request).result;
      r.Ok? ==> r.value.number == s.accounts[id].number && r.value.id > id
  {
    var t := DeleteAccount(s, id).store;
    assert t.accounts.Keys == s.accounts.Keys - {id};
    NextAfterRemovingLargest(s.accounts.Keys, id);
  }

  /** Removing the largest id, when the id just below it remains, makes the
      next number that largest id again. */
  lemma NextAfterRemovingLargest(ids: set<AccountId>, id: AccountId)
    requires id in ids && id - 1 in ids
    requires forall x | x in ids :: x <= id
    ensures NextAccountNumber(ids - {id}) == id
  {
    var rest := ids - {id};
    assert id - 1 in rest;
    assert MaxId(rest) == id - 1;
  }
}

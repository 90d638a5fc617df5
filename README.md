# AccountService — a verified model

This project models the account service of a banking back office
(`BankApp/Services/AccountService/AccountService.cs`). It covers these
operations:

- **ownership check**: an unknown customer raises an `AppException`;
  otherwise the result is whether the customer's account list holds the id;
- **lookup by id**: a missing account raises `NotFoundError("Id", …)`;
- **creation**:
  1. look up the account type, currency and customer, and raise the error
     for the first one that is missing;
  2. number the account from `Max(Id) + 1`, or from 1 when the table is
     empty;
  3. render that value with `long.ToString()` and `PadLeft(16, '0')`;
  4. link the account to the customer and commit;
- **update**: a patch; absent fields keep their values;
- **deletion**.

It is built from three modules:

- `AccountNumbers` (`numbers.dfy`) covers the numbering arithmetic:
  - unchecked `long` addition;
  - `Max()` over the ids;
  - the empty-table fallback;
  - `long.ToString()`;
  - `string.PadLeft`.

  It also defines the reverse reading of a number (strip the leading
  zeros, then read the digits). The rendering is proved against that
  reading.
- `Bank` (`store.dfy`) models the database as a value (`Store`):
  - each operation is a function from one store to its result and the next
    store;
  - an exception becomes an `Err` carrying the message the code throws;
  - a store invariant (`Valid`) is stated and proved preserved by every
    operation.
- `AccountServices` (`service.dfy`) is the service as a class whose fields
  are the database tables. The mutating operations update them in place.
  Each one is proved to return, and to leave behind, exactly what the
  matching `Bank` function describes, and to keep `Valid`.

The storage engine's identity column is the store field `nextIdentity`:

- it starts at 1;
- every insert takes the current value and increases it;
- a value is never handed out again, even after a deletion.

This is an assumption about the database, not something the code states.
It has two consequences:

- an account's number stands for a value no larger than its id;
- a deleted account's number can be handed out again. When the largest id
  is deleted, the id just below it remains, and the deleted account was
  numbered from its own id, the next account gets the deleted account's
  number under a new id (`Bank.DeletedNumberIsReused`).

So the number is derived from the largest remaining id, not from the new
account's own id. Even so, no two live accounts ever share a number
(`Bank.CreatedNumberIsFresh` together with `Bank.CreatePreservesValid`).

Two properties of the code that a reader might expect otherwise:

- **Width of the number.** `PadLeft` never truncates, so from 10^16 on the
  number is the bare digit string and is longer than 16 characters
  (`AccountNumbers.NumberWidth`).
- **Unknown customer in the ownership check.** It raises an `AppException`,
  unlike the `NotFoundError` of the id lookup (`Bank.IsCustomerAccountOwner`).

## Model

| member | source | states |
|---|---|---|
| AccountNumbers.Wrap64 | BankApp/Services/AccountService/AccountService.cs:72 | unchecked `long` arithmetic: values in range are unchanged, and `long.MaxValue + 1` wraps to `long.MinValue` |
| AccountNumbers.MaxId | BankApp/Services/AccountService/AccountService.cs:72 | `Max()` over a non-empty set of ids is one of the ids, and no id exceeds it |
| AccountNumbers.NextAccountNumber | BankApp/Services/AccountService/AccountService.cs:69-77 | 1 for an empty table; otherwise one more than the largest id, so above every id; `long.MinValue` when the largest id is `long.MaxValue` |
| AccountNumbers.Digits | BankApp/Services/AccountService/AccountService.cs:79 | a non-empty string of decimal digits with a leading '0' only for the value 0 |
| AccountNumbers.LongToString | BankApp/Services/AccountService/AccountService.cs:79 | `long.ToString()`: for a non-negative value, all digits, reading back as the value, with no leading zero except for 0 itself; for a negative value, a '-' followed by digits with no leading zero that read back as the magnitude |
| AccountNumbers.PadLeft | BankApp/Services/AccountService/AccountService.cs:80 | the result is max(width, length) long, ends with the input, and is filled in front with the pad character; a long input is never truncated |
| AccountNumbers.FormatAccountNumber | BankApp/Services/AccountService/AccountService.cs:79-80 | `accountNumber.ToString().PadLeft(16, '0')`: always at least 16 characters, and all digits for a non-negative value |
| AccountNumbers.FormatShape | BankApp/Services/AccountService/AccountService.cs:79-80 | a non-negative value renders as '0's followed by its digits: all digits, max(16, digit count) long |
| AccountNumbers.NumberWidth | BankApp/Services/AccountService/AccountService.cs:80 | exactly 16 characters below 10^16; from 10^16 on, longer than 16 and equal to the bare digits |
| AccountNumbers.DigitsLength | BankApp/Services/AccountService/AccountService.cs:79 | the digit count of n is at most k exactly when n < 10^k |
| AccountNumbers.FormatRoundTrip | BankApp/Services/AccountService/AccountService.cs:79-80 | stripping the leading zeros of a rendered number and reading its digits gives back the value |
| AccountNumbers.FormatInjective | BankApp/Services/AccountService/AccountService.cs:79-80 | distinct non-negative values render to distinct numbers |
| AccountNumbers.FirstAccountNumber | BankApp/Services/AccountService/AccountService.cs:69-81 | with no accounts the value is 1 and the number is "0000000000000001" |
| AccountNumbers.NextNumberAtLongMax | BankApp/Services/AccountService/AccountService.cs:72-80 | when an id equals `long.MaxValue`, the value wraps to `long.MinValue` and its rendering starts with '-', so it is not all digits |
| Bank.GetAccountById | BankApp/Services/AccountService/AccountService.cs:38-44 | the account stored under the id if there is one, otherwise NotFound("Id", "Account with requested id could not be found") |
| Bank.IsCustomerAccountOwner | BankApp/Services/AccountService/AccountService.cs:26-36 | an unknown customer gives the AppException "Customer with requested id could not be found" whatever the account id; otherwise true exactly when some entry of the customer's list equals the account id |
| Bank.OwnedAccountExists | BankApp/Services/AccountService/AccountService.cs:26-44 | in a valid store, an account a customer owns can be fetched by id |
| Bank.OwnerIsUnique | BankApp/Services/AccountService/AccountService.cs:34 | in a valid store, every account has an owner, and only one |
| Bank.CreateAccount | BankApp/Services/AccountService/AccountService.cs:46-90 | errors in the order account type, currency, customer, then identity column exhausted; any error leaves the store unchanged; success exactly when all three exist and an identity value is left; on success, the account has the next identity value, the next number, the request's type, currency, amounts and active flag, and is stored; the customer's list gains exactly that id at the end; other customers are untouched |
| Bank.NextNumberBounds | BankApp/Services/AccountService/AccountService.cs:72-77 | while the identity column has room, the next value is at least 1, above every existing id, and at most the id the new account receives |
| Bank.CreatedNumberIsFresh | BankApp/Services/AccountService/AccountService.cs:69-81 | the new number stands for a value of at least 1, no larger than the new id, and above every existing id; it differs from every existing account's number, is all digits, and is at least 16 long |
| Bank.FirstAccountIsNumberOne | BankApp/Services/AccountService/AccountService.cs:69-81 | in an empty table, a successful creation numbers the account "0000000000000001" |
| Bank.CreateAssociatesCustomer | BankApp/Services/AccountService/AccountService.cs:83 | after creation the requested customer owns the new account and no other customer does; ownership of every other account is as before |
| Bank.AppendAssociates | BankApp/Services/AccountService/AccountService.cs:83 | appending a fresh id to one customer's list makes that customer its only owner and leaves all other ownership answers unchanged |
| Bank.CreatePreservesValid | BankApp/Services/AccountService/AccountService.cs:46-90 | creation keeps the store invariant: ids below the identity value, numbers valued within 1..id and pairwise distinct, every account listed by exactly one customer, lists without repeats |
| Bank.InsertKeepsNumbering | BankApp/Services/AccountService/AccountService.cs:79-85 | inserting under the next identity value an account whose number is new and valued within 1..its id keeps numbering and distinctness |
| Bank.AppendKeepsOwnership | BankApp/Services/AccountService/AccountService.cs:83-85 | appending a fresh account to one customer's list keeps single ownership and lists without repeats |
| Bank.Patch | BankApp/Services/AccountService/AccountService.cs:95-97 | `value ?? current`: the supplied value when present, the current one otherwise |
| Bank.UpdateAccount | BankApp/Services/AccountService/AccountService.cs:92-100 | NotFound, with the store unchanged, exactly when the id is absent; otherwise each supplied field replaces the stored one, absent fields, id, number, type and currency are kept, and only that account changes |
| Bank.UpdateKeepsOthers | BankApp/Services/AccountService/AccountService.cs:92-100 | an update changes no other account and no ownership answer |
| Bank.UpdateIsIdempotent | BankApp/Services/AccountService/AccountService.cs:95-97 | applying the same update twice gives the same result and store as applying it once |
| Bank.EmptyUpdateChangesNothing | BankApp/Services/AccountService/AccountService.cs:95-97 | an update with no field supplied leaves the store as it was |
| Bank.UpdatePreservesValid | BankApp/Services/AccountService/AccountService.cs:92-100 | an update keeps the store invariant |
| Bank.Without | BankApp/Services/AccountService/AccountService.cs:105 | a list without one id holds exactly the other ids, and is unchanged when the id is absent |
| Bank.DetachAccount | BankApp/Services/AccountService/AccountService.cs:105 | every customer is kept, with the removed id dropped from its list |
| Bank.DeleteAccount | BankApp/Services/AccountService/AccountService.cs:102-108 | NotFound, with the store unchanged, exactly when the id is absent; otherwise true, with the account removed and its id dropped from the customers' lists |
| Bank.DeleteRemovesExactlyOne | BankApp/Services/AccountService/AccountService.cs:102-108 | after deleting an existing account it can no longer be fetched and nobody owns it; every other account and ownership answer is as before |
| Bank.DeletePreservesValid | BankApp/Services/AccountService/AccountService.cs:102-108 | deletion keeps the store invariant |
| Bank.DeletedNumberIsReused | BankApp/Services/AccountService/AccountService.cs:72-80 | after deleting the account with the largest id (numbered from its own id, with id - 1 also present), a successful creation gets the deleted account's number under a larger id |
| AccountServices.AccountService.constructor | BankApp/Services/AccountService/AccountService.cs:15-18 | the service wraps the given database as it is: its state is exactly that store, and the invariant holds |
| AccountServices.AccountService.CreateAccount | BankApp/Services/AccountService/AccountService.cs:46-90 | returns and leaves behind exactly what `Bank.CreateAccount` gives for the old state, and keeps the invariant |
| AccountServices.AccountService.CreateAccountSteps | BankApp/Services/AccountService/AccountService.cs:50-86 | the in-place steps (three lookups, checks in order, next number, insert, link to the customer) produce `Bank.CreateAccount`'s result and store |
| AccountServices.AccountService.UpdateAccount | BankApp/Services/AccountService/AccountService.cs:92-100 | returns and leaves behind exactly what `Bank.UpdateAccount` gives for the old state, and keeps the invariant |
| AccountServices.AccountService.UpdateAccountSteps | BankApp/Services/AccountService/AccountService.cs:94-98 | the lookup and the three field assignments produce `Bank.UpdateAccount`'s result and store |
| AccountServices.AccountService.DeleteAccount | BankApp/Services/AccountService/AccountService.cs:102-108 | returns and leaves behind exactly what `Bank.DeleteAccount` gives for the old state, and keeps the invariant |
| AccountServices.AccountService.DeleteAccountSteps | BankApp/Services/AccountService/AccountService.cs:104-106 | the lookup and the removal produce `Bank.DeleteAccount`'s result and store |
| AccountServices.FirstCreation | BankApp/Services/AccountService/AccountService.cs:46-90 | a service built over a database with no accounts and customers who own none: a creation that passes the three lookups succeeds, numbers the account "0000000000000001", and makes the requested customer, and nobody else, its owner |

## Left out

- GetAllAccountsAsync (lines 20-24): a plain listing. It is the `accounts` field itself and has no logic of its own.
- CustomerService and ICustomerService are not part of this model. The account service does not call them.
- Transactions, `SaveChangesAsync`, `CommitAsync` and `async`/`await` have no counterpart. Each operation is one atomic step. A failed creation leaves the store as it was, which is what the uncommitted transaction does.
- AccountServices.AccountService.constructor: the database the service is built over is assumed to satisfy `Valid`, as every database this service alone has written does. That means ids below the identity value, numbers valued within 1..id and distinct, and every account listed by exactly one customer. Pre-existing data that breaks this (written by other code) is not modelled.
- Concurrency: two creations racing for the same `Max() + 1` are not modelled. The model has a single thread.
- The identity column: how the storage engine assigns ids is not visible in the code. It is modelled as a counter that starts at 1, grows by one per insert and is never reused. Running out of values is a `StorageError`.
- AutoMapper's mapping (line 65) is modelled by its effect: the request's balance, transfer limit, active flag, type and currency are copied.
- `decimal` amounts are unbounded integers. The service only copies them.
- `long.ToString()` is assumed to use the invariant culture: a '-' sign and ASCII digits.
- Delete: when an account row is removed, the model also drops its id from the owner's list. The code relies on the customer's accounts navigation following the removed row; the model makes that step explicit.
- The `customer.BankAccounts` navigation is modelled as a list of account ids, not of account objects. Object identity and aliasing between the customer's list and the accounts table are not modelled.

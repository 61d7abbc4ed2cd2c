# Bank ledger: transaction admission and the account repository

A Dafny model of the bookkeeping core of a small bank application. An account
holds an ordered history of signed transactions. Its balance is always the sum
of that history. Two revisions of the admission procedure decide whether a
requested entry is recorded, refused, or replaced by an overdraft fee. A
repository keeps the accounts in a list, hands out ids, and looks them up,
lists them and removes them.

Modules, following the source files:

- `Kinds` (kinds.dfy): the transaction kinds and their classification.
  `IndicatesNegative` is fixed for every kind except `Unknown`. Whether
  `Unknown` is negative, and which kinds are system kinds, are not defined in
  the modelled files. Both come in as a `KindTable` parameter, so every
  property holds for any definition. `Observed` records the one known fact:
  a management fee is a system kind.
- `Transactions` (transaction.dfy): the validating constructor of
  Bank.Logic/Transaction.cs. A double amount is `Finite(value) | NaN | PosInf | NegInf`.
  A stored entry's amount is an exact `real`.
- `Ledger` (ledger.dfy): the balance `Sum` of a history, and the
  `Admission` result (verdict, history afterwards) shared by both revisions.
- `Accounts` (account_model.dfy): the record of Bank.Logic/Models/Account.cs,
  with its default and JSON constructors.
- `AccountRules` (account_rules.dfy): `TryAddTransaction(ITransaction)` of
  Bank.Logic/Account.cs. Only a withdrawal can draw the fee. The fee is the
  configured amount negated and goes through the validating constructor, so a
  negative configured fee throws. Unset (null) settings throw as well. Both
  exceptions are the `Fault` outcome.
- `ExtensionRules` (account_extensions.dfy): the extension
  `TryAddTransaction(amount, type)` of Bank.Logic/AccountExtensions.cs. Any
  request whose projected balance is negative draws the fee instead, and the
  fee is minus the fee's magnitude.
- `Storage` (storage.dfy): Bank.Api/Logic/Storage.cs over a `seq<Account>`.
  The backing file is reduced to what reading it yields.

Both admission procedures are pure functions over the same state: a settings
value and a `seq<Transaction>` history. They are kept apart on purpose, and
`ExtensionRules.RevisionsDisagreeOnSmallDeposit` shows one input on which they
differ. The later revision's `Withdrawal` kind is `Withdraw` here.

Behaviours of the code worth knowing:

- The extension revision accepts a zero deposit, because its sign rule for a
  non-negative kind is `amount >= 0`. The class revision refuses it.
- `ListAccounts` returns ids in list order, duplicates included.
- Ids are reused: `max + 1` hands out a removed greatest id again
  (`Storage.IdReuse`).
- A deposit that leaves an overdrawn account still negative draws the fee in
  the extension revision.

## Model

| member | source | states |
|---|---|---|
| `Transactions.New` | Bank.Logic/Transaction.cs:11-35 | Construction succeeds exactly when the amount is finite and its sign matches the kind's rule. NaN and ±infinity fail for every kind. A positive amount for a negative kind, or a negative amount for any other kind, fails with the matching error. Zero is accepted for every kind. A built entry keeps kind, amount and date exactly and obeys the sign rule. |
| `Transactions.ObservedSignRules` | Bank.Logic/Transaction.cs:26-34 | The fixed classification, seen through the constructor: positive withdrawals and fees are refused, negative deposits and interest are refused, and a negative management fee is built. |
| `Kinds.IndicatesNegative` | Bank.Logic.Tests/TransactionTests.cs:161-193 | Withdrawals and both fee kinds are negative kinds; deposits and interest are not; `Unknown` is left to the kind table. |
| `Kinds.IndicatesSystem` | Bank.Logic.Tests/AccountExtensionsTests.cs:63-69 | Under the known classification, a management fee is a system kind. |
| `Ledger.Sum` | Bank.Logic/Account.cs:12 | The sum of a history's amounts: not negative when every entry is non-negative, not positive when every entry is non-positive. |
| `Ledger.SumConcat` | Bank.Logic/Models/Account.cs:16 | The sum of two histories laid end to end is the sum of their sums (proved by induction). |
| `Ledger.SumAppend` | Bank.Logic/Account.cs:12 | Appending one entry to a history moves its sum by exactly that entry's amount (proved by induction). |
| `Accounts.NewAccount` | Bank.Logic/Models/Account.cs:9-34 | A default account has id 0, an empty nickname, default settings (35 and 10), an empty history and balance 0. |
| `Accounts.FromJson` | Bank.Logic/Models/Account.cs:25-32 | Null settings, nickname and history become the defaults; given values are kept; an all-null record with id 0 equals the default account. |
| `Accounts.Balance` | Bank.Logic/Models/Account.cs:16 | The balance is derived from the history, never stored: 0 for an empty history, not negative when every entry is non-negative, not positive when every entry is non-positive. |
| `Accounts.BalanceAppend` | Bank.Logic/Models/Account.cs:16 | The derived balance rises by exactly the amount of an appended entry. |
| `AccountRules.OverdraftFee` | Bank.Logic/Account.cs:50-55 | Building the fee succeeds exactly when the configured fee is not negative. It then gives an overdraft-fee entry of minus the fee, dated now and not positive. A negative fee fails validation with the negative-amount error. |
| `AccountRules.TryAddTransaction` | Bank.Logic/Account.cs:16-67 | Only an overdrawing withdrawal can throw. An entry is accepted exactly when it is a positive deposit, a negative withdrawal or a non-positive management fee, and it is not a withdrawal that overdraws. Acceptance appends exactly that entry. An overdrawing withdrawal appends one fee of minus the configured fee instead. With null settings it throws `NullSettings`, and with a negative fee it throws the range error. A zero withdrawal counts as overdrawing when the balance is already negative. Unknown, interest and overdraft-fee requests change nothing. Every call that returns leaves the history unchanged or appends one entry, keeping the prefix. |
| `AccountRules.BalanceEffect` | Bank.Logic/Account.cs:45-66 | When the call returns, the balance rises by the entry's amount on acceptance. When the fee is charged (settings present, fee not negative), it falls by the configured fee. Otherwise it is unchanged. |
| `AccountRules.PreservesSigns` | Bank.Logic/Account.cs:33-66 | A history that obeys the sign rule still obeys it after every call that returns, for any configured fee. |
| `AccountRules.NegativeFeeThrows` | Bank.Logic/Account.cs:48-57 | With a configured fee of -35, withdrawing 100 from an empty account throws the negative-amount range error rather than recording a fee. |
| `AccountRules.OverdraftScenario` | Bank.Logic.Tests/AccountTests.cs:196-209 | Withdrawing 100 from an empty account with fee 35 is refused and records one fee of -35; the balance is -35. |
| `AccountRules.ManagementFeeOnEmpty` | Bank.Logic.Tests/AccountTests.cs:111-120 | A management fee is accepted on an empty account and leaves the balance negative. |
| `ExtensionRules.ValidateTransactionAmount` | Bank.Logic/AccountExtensions.cs:47-61 | The check passes exactly when the constructor's sign rule holds and the amount is not a zero for a negative kind; it is stricter than the constructor. |
| `ExtensionRules.OverdraftFee` | Bank.Logic/AccountExtensions.cs:36 | The injected fee is never positive: it is minus the configured fee, or the fee itself when that is negative. |
| `ExtensionRules.Admit` | Bank.Logic/AccountExtensions.cs:16-45 | A request is accepted exactly when the amount is finite, the kind is not a system kind, the sign check passes and the projected balance is at least 0; acceptance appends the entry with that kind and amount. An admissible request with a negative projection appends one fee instead. Any other request changes nothing. The history is unchanged or grows by one entry with its prefix kept. |
| `ExtensionRules.TryAddTransaction` | Bank.Logic/AccountExtensions.cs:9-45 | A null account gives false. Otherwise the verdict and the new history are those of `Admit` on the account's settings and history. Id, settings and nickname are kept and the history is unchanged or grows by one. On success the balance rises by the amount and is not negative. |
| `ExtensionRules.EntriesAreConstructed` | Bank.Logic/AccountExtensions.cs:36-43 | The entry or fee this revision appends is exactly what the validating constructor returns for the same arguments, so those constructor calls never throw. |
| `ExtensionRules.BalanceEffect` | Bank.Logic/AccountExtensions.cs:33-45 | On acceptance the balance becomes the old balance plus the amount and is at least 0; when the fee is charged it falls by the fee's magnitude. |
| `ExtensionRules.PreservesSigns` | Bank.Logic/AccountExtensions.cs:31-45 | For any configured fee, a history that obeys the sign rule still obeys it afterwards. |
| `ExtensionRules.RevisionsDisagreeOnSmallDeposit` | Bank.Logic/AccountExtensions.cs:33-39 | A positive deposit too small to cover an overdrawn balance is accepted by the class revision but draws the fee in this one. |
| `ExtensionRules.OverdraftScenario` | Bank.Logic.Tests/AccountExtensionsTests.cs:10-43 | With fee 25: depositing 100 and then withdrawing 120 refuses the withdrawal, records a fee of -25, and leaves a balance of 75. |
| `ExtensionRules.ManagementFeeRefused` | Bank.Logic.Tests/AccountExtensionsTests.cs:63-69 | Under the known classification, a management-fee request never changes the history. |
| `Storage.Load` | Bank.Api/Logic/Storage.cs:12-29 | A missing file, a `null` document or a `JsonException` gives an empty store. The load throws exactly when some stored account holds a transaction, since the class's history is a list of an interface type the reader cannot build and only `JsonException` is caught. Any other parsed list is taken as is. |
| `Storage.LoadedHistoriesEmpty` | Bank.Api/Logic/Storage.cs:21-28 | Every account a load returns has an empty history and a zero balance. |
| `Storage.ListAccounts` | Bank.Api/Logic/Storage.cs:31-34 | One id per stored account, in list order. |
| `Storage.NextId` | Bank.Api/Logic/Storage.cs:48-56 | The new id is 1 for an empty store. Otherwise it is one past an existing id and exceeds every existing id. |
| `Storage.AddAccount` | Bank.Api/Logic/Storage.cs:36-57 | Exactly one account is appended, with the id `NextId` gives, which is above every existing id (1 when empty), default settings and an empty history; earlier accounts are untouched. Unique, positive ids stay unique and positive. |
| `Storage.GetAccount` | Bank.Api/Logic/Storage.cs:59 | The result is none exactly when no account has the id; otherwise it is the first stored account with that id. |
| `Storage.GetUnique` | Bank.Api/Logic/Storage.cs:59 | With unique ids, lookup by an account's id returns that account exactly when it is stored. |
| `Storage.RemoveAccount` | Bank.Api/Logic/Storage.cs:61-71 | An absent id leaves the store as it is. Otherwise the account at the first position holding the id is removed, and the accounts before and after it keep their order. |
| `Storage.RemovePreservesValid` | Bank.Api/Logic/Storage.cs:69 | Removal keeps ids unique and at least 1. |
| `Storage.RemoveThenGet` | Bank.Api.Tests/StorageTests.cs:68-75 | With unique ids, looking up a removed id finds nothing. |
| `Storage.RemoveKeepsOthers` | Bank.Api/Logic/Storage.cs:63-69 | Removing one id does not change the lookup of any other id. |
| `Storage.ListAfterAdd` | Bank.Api/Logic/Storage.cs:31-46 | After an add, the listing is the old listing followed by the new id, which was not listed before. |
| `Storage.IdReuse` | Bank.Api/Logic/Storage.cs:55 | Removing the account just added and adding again hands out the same id. |
| `Storage.FirstIdsScenario` | Bank.Api/Logic/Storage.cs:16-56 | Starting from a missing file, the first two accounts get ids 1 and 2 and are listed as `[1, 2]`. |
| `Storage.Wrap32` | Bank.Api/Logic/Storage.cs:55 | C#'s unchecked `int` addition: the result fits an `int`, equals the exact value when that fits, and differs from it by a multiple of 2^32. |
| `Storage.NextIdAsWritten` | Bank.Api/Logic/Storage.cs:55 | The id as the code computes it, in 32-bit arithmetic. It always fits an `int`, and it equals `NextId` while every id is below `int.MaxValue`. |
| `Storage.NextIdOverflow` | Bank.Api/Logic/Storage.cs:55 | A valid store whose greatest id is `int.MaxValue` gets `int.MinValue` as its next id, which breaks the store invariant. |

## Findings

| source | as written | input that shows it | evidently intended | confidence | as-written member | corrected member |
|---|---|---|---|---|---|---|
| Bank.Api/Logic/Storage.cs:55 | `accounts.Max(a => a.Id) + 1` in unchecked 32-bit `int` arithmetic | a store holding one account with id 2147483647: the next id is -2147483648 | the new id exceeds every existing id and is at least 1 | medium, not executed (reaching the state takes a hand-edited file or 2^31 adds) | `Storage.NextIdAsWritten`, `Storage.NextIdOverflow` | `Storage.NextId`, `Storage.AddAccount` |

`AddAccount` uses the corrected `NextId`, computed over unbounded integers.

## Left out

- File and JSON I/O: `File.*` and `JsonSerializer` are abstracted. Loading takes the parse outcome as a `BackingFile` value. The file path and the write-`[]`-when-missing side effect are not modelled.
- Storage.Load: a document with a `null` element loads as a list holding `null`. `ListAccounts`, `GetAccount` and `AddAccount` then throw a `NullReferenceException`. A store in the model cannot hold `null`, so this outcome is not modelled. A stored `null` history cannot be represented either; the class would then throw from `GetBalance`. The other escaping failure, the `NotSupportedException` for any stored transaction, is the `NotSupported` outcome. Because the reader never builds a transaction, the transaction constructor's range error cannot arise during this load.
- `SaveChanges` (Bank.Api/Logic/Storage.cs:73-77): serialization is not modelled, so no save-then-load round trip is claimed.
- Storage's account type: Bank.Api/Logic/Storage.cs holds the class `Bank.Logic.Account` (Bank.Logic/Account.cs:5-10). The model stores the record shape of Bank.Logic/Models/Account.cs instead. Its extra `nickname` is always `""` for added accounts, and the class's settable `Balance` is dropped. Loading follows the class: its interface-typed history makes any stored transaction fail the load (`Storage.Load`).
- Reference aliasing in Storage: `GetAccount` returns a live reference that callers mutate and then persist with the public `SaveChanges`. The value model returns a copy, so updates through that reference are not modelled.
- AccountRules.TryAddTransaction: takes a `Transaction` value. The `(Transaction)transaction` cast at Bank.Logic/Account.cs:65, which throws for any other `ITransaction` implementation, is not modelled.
- `GetWritableTransactionList` (runtime reflection): the extension works on the account's history sequence directly.
- ExtensionRules.TryAddTransaction: aliasing is not modelled. In the source, every `with` copy of a record account shares one `txns` list, and the extension appends to that list in place. So copies taken earlier also gain the entry, and their balance moves too. The model changes only the returned account; earlier values keep their history.
- Bank.Api/Logic/EndpointHandler.cs and the console, web and API-client programs: HTTP mapping, async wrapping and UI. The endpoint handler calls repository methods that Bank.Api/Logic/Storage.cs does not define.
- The settable `Balance` property of the class revision (Bank.Logic/Account.cs:8): nothing maintains it, so only the derived `GetBalance` is modelled (as `Ledger.Sum`).
- `Transactions` and `GetTransactions`: these read-only views are the immutable history sequence `txns` itself, so they need no separate member.
- Settings replacement and the id and settings setters of the class revision: plain field updates, with no rule to model.
- Floating-point rounding: amounts are exact reals. Configured fees are finite reals, so a NaN or infinite fee setting is not modelled.
- `DateTime.Now`: a `now` parameter supplies it.
- The mutable-setter `Transaction` revision used by some tests: the modelled `Transaction` is validated once, at construction.
- ExtensionRules.EntriesAreConstructed: the source has two helpers named `InidicatesNegativeAmount`. One is in `Utilities`, used by the transaction constructor. The other is in `TransactionTypeExtensions`, used by `ValidateTransactionAmount`. Neither definition is part of this model. The model has one `IndicatesNegative` for both, so it assumes they agree on every kind. So "these constructor calls never throw" holds only under that assumption. If they disagreed on some kind, an entry of that kind could pass the extension's check and then make the constructor throw. That outcome is not modelled.
- `Utilities.InidicatesNegativeAmount` for `Unknown`, and `IndicatesSystemType`: their definitions are not part of this model. They are the `KindTable` parameter, constrained only by `Observed`.
- Concurrency and crash safety of the file store: operations are modelled as atomic steps.

/** The account record (Bank.Logic/Models/Account.cs): settings, id, nickname and a
    private history from which the balance is derived. */
module Accounts {
  import opened Wrappers
  import opened Transactions
  import opened Ledger

  /** Per-account fee configuration (`AccountSettings`). */
  datatype Settings = Settings(overdraftFee: real, managementFee: real)

  /** `new AccountSettings()`. */
  const DefaultSettings := Settings(35.0, 10.0)

  /** The account. `txns` is the history in insertion order; the read-only
      `Transactions` view is this sequence itself. No balance is stored. */
  datatype Account = Account(settings: Settings, id: int, nickname: string, txns: seq<Transaction>)

  /** `Balance`: always computed from the history, never stored. */
  function Balance(a: Account): (r: real)
    ensures a.txns == [] ==> r == 0.0
    ensures (forall i :: 0 <= i < |a.txns| ==> a.txns[i].amount >= 0.0) ==> r >= 0.0
    ensures (forall i :: 0 <= i < |a.txns| ==> a.txns[i].amount <= 0.0) ==> r <= 0.0
  {
    Sum(a.txns)
  }

  /** `new Account()`. */
  function NewAccount(): (r: Account)
    ensures r.id == 0 && r.nickname == "" && r.settings == DefaultSettings
    ensures |r.txns| == 0 && Balance(r) == 0.0
  {
    Account(DefaultSettings, 0, "", [])
  }

  /** The JSON constructor: missing (null) settings, nickname and history are
      replaced by their defaults. */
  function FromJson(settings: Option<Settings>, id: int, nickname: Option<string>,
                    txns: Option<seq<Transaction>>): (r: Account)
    ensures r.id == id
    ensures settings.None? ==> r.settings == DefaultSettings
    ensures settings.Some? ==> r.settings == settings.value
    ensures nickname.None? ==> r.nickname == ""
    ensures nickname.Some? ==> r.nickname == nickname.value
    ensures txns.None? ==> r.txns == [] && Balance(r) == 0.0
    ensures txns.Some? ==> r.txns == txns.value
    ensures settings.None? && nickname.None? && txns.None? && id == 0 ==> r == NewAccount()
  {
    Account(settings.GetOr(DefaultSettings), id, nickname.GetOr(""), txns.GetOr([]))
  }

  /** Appending one entry to the history raises the balance by exactly its amount. */
  lemma BalanceAppend(a: Account, tx: Transaction)
    ensures Balance(a.(txns := a.txns + [tx])) == Balance(a) + tx.amount
  {
    SumAppend(a.txns, tx);
  }
}

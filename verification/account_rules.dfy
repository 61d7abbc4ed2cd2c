/** The admission procedure of the class revision (Bank.Logic/Account.cs,
    `TryAddTransaction(ITransaction)`): the caller hands over a built entry; only
    a withdrawal can draw the overdraft fee. */
module AccountRules {
  import opened Wrappers
  import opened Kinds
  import opened Transactions
  import opened Ledger
  import opened Accounts

  /** The exceptions the procedure can raise: the class's `Settings` was never
      set (it has no initializer), or the fee entry failed validation. */
  datatype Fault = NullSettings | Range(error: RangeError)

  /** The fee entry this revision injects: the configured fee, negated, built
      through the validating constructor. */
  function OverdraftFee(t: KindTable, s: Settings, now: Date): (r: Result<Transaction, RangeError>)
    ensures r.Success? <==> s.overdraftFee >= 0.0
    ensures r.Success? ==> r.value == Transaction(FeeOverdraft, -s.overdraftFee, now) && r.value.amount <= 0.0
    ensures r.Failure? ==> r.error == NegativeExpected
  {
    New(t, FeeOverdraft, Finite(-s.overdraftFee), now)
  }

  /** The entries a caller may add, whatever the balance: a positive deposit, a
      negative withdrawal, or a management fee of at most zero. */
  predicate CallerAdmissible(tx: Transaction) {
    || (tx.kind == Deposit && tx.amount > 0.0)
    || (tx.kind == Withdraw && tx.amount < 0.0)
    || (tx.kind == FeeManagement && tx.amount <= 0.0)
  }

  /** A withdrawal that passes the sign checks but would take the balance of `h`
      below zero. A zero withdrawal counts when the balance is already negative. */
  predicate Overdraws(h: seq<Transaction>, tx: Transaction) {
    tx.kind == Withdraw && tx.amount <= 0.0 && Sum(h) + tx.amount < 0.0
  }

  /** `TryAddTransaction(transaction)` on an account with settings `s` (`None`
      when never set) and history `h`. */
  function TryAddTransaction(t: KindTable, s: Option<Settings>, h: seq<Transaction>, tx: Transaction, now: Date)
    : (r: Result<Admission, Fault>)
    ensures !Overdraws(h, tx) ==> r.Success?
    ensures r.Success? && r.value.accepted <==> CallerAdmissible(tx) && !Overdraws(h, tx)
    ensures r.Success? && r.value.accepted ==> r.value.history == h + [tx]
    ensures r.Success? && !r.value.accepted && !Overdraws(h, tx) ==> r.value.history == h
    ensures Overdraws(h, tx) && s.None? ==> r == Failure(NullSettings)
    ensures Overdraws(h, tx) && s.Some? && s.value.overdraftFee >= 0.0 ==>
              r == Success(Admission(false, h + [Transaction(FeeOverdraft, -s.value.overdraftFee, now)]))
    ensures Overdraws(h, tx) && s.Some? && s.value.overdraftFee < 0.0 ==> r == Failure(Range(NegativeExpected))
    ensures tx.kind in {Unknown, Interest, FeeOverdraft} ==> r == Success(Admission(false, h))
    ensures r.Success? ==> r.value.history == h || AppendsOne(h, r.value.history)
  {
    if tx.kind == Unknown then
      Success(Admission(false, h))
    else if tx.kind == Interest || tx.kind == FeeOverdraft then
      Success(Admission(false, h))
    else if tx.kind == Deposit && tx.amount <= 0.0 then
      Success(Admission(false, h))
    else if IndicatesNegative(t, tx.kind) && tx.amount > 0.0 then
      Success(Admission(false, h))
    else
      var balance := Sum(h);
      if tx.kind == Withdraw && balance < -tx.amount then
        match s
        case None => Failure(NullSettings)
        case Some(settings) =>
          match OverdraftFee(t, settings, now)
          case Success(fee) => Success(Admission(false, h + [fee]))
          case Failure(e) => Failure(Range(e))
      else if tx.kind == Withdraw && tx.amount == 0.0 then
        Success(Admission(false, h))
      else
        Success(Admission(true, h + [tx]))
  }

  /** The balance rises by the entry's amount on acceptance, falls by the
      configured fee when the fee is charged, and is unchanged otherwise. */
  lemma BalanceEffect(t: KindTable, s: Option<Settings>, h: seq<Transaction>, tx: Transaction, now: Date)
    ensures var r := TryAddTransaction(t, s, h, tx, now);
      && (r.Success? && r.value.accepted ==> Sum(r.value.history) == Sum(h) + tx.amount)
      && (r.Success? && Overdraws(h, tx) ==> s.Some? && Sum(r.value.history) == Sum(h) - s.value.overdraftFee)
      && (r.Success? && !r.value.accepted && !Overdraws(h, tx) ==> Sum(r.value.history) == Sum(h))
  {
    var r := TryAddTransaction(t, s, h, tx, now);
    if r.Success? && r.value.accepted {
      SumAppend(h, tx);
    } else if r.Success? && Overdraws(h, tx) {
      SumAppend(h, Transaction(FeeOverdraft, -s.value.overdraftFee, now));
    }
  }

  /** A history that obeys the sign rule still obeys it after every call that
      does not throw. */
  lemma PreservesSigns(t: KindTable, s: Option<Settings>, h: seq<Transaction>, tx: Transaction, now: Date)
    requires AllWellSigned(t, h)
    ensures var r := TryAddTransaction(t, s, h, tx, now);
      r.Success? ==> AllWellSigned(t, r.value.history)
  {
    var r := TryAddTransaction(t, s, h, tx, now);
    if r.Success? && r.value.history != h {
      var e := r.value.history[|h|];
      assert r.value.history == h + [e];
      assert WellSigned(t, e);
      forall i | 0 <= i < |r.value.history|
        ensures WellSigned(t, r.value.history[i])
      {
        if i < |h| {
          assert r.value.history[i] == h[i];
        }
      }
    }
  }

  /** A negative configured fee makes the fee entry fail validation, so an
      overdrawing withdrawal throws instead of being refused. */
  lemma NegativeFeeThrows(t: KindTable, now: Date)
    ensures TryAddTransaction(t, Some(Settings(-35.0, 10.0)), [], Transaction(Withdraw, -100.0, now), now)
            == Failure(Range(NegativeExpected))
  {
  }

  /** Withdrawing 100 from an empty account with a fee of 35 is refused and records
      a single fee of -35, leaving the balance at -35. */
  lemma OverdraftScenario(t: KindTable, d: Date, now: Date)
    ensures var r := TryAddTransaction(t, Some(Settings(35.0, 10.0)), [], Transaction(Withdraw, -100.0, d), now);
      && r.Success? && !r.value.accepted
      && r.value.history == [Transaction(FeeOverdraft, -35.0, now)]
      && Sum(r.value.history) == -35.0
  {
    BalanceEffect(t, Some(Settings(35.0, 10.0)), [], Transaction(Withdraw, -100.0, d), now);
  }

  /** A management fee is taken on an empty account, and leaves it negative. */
  lemma ManagementFeeOnEmpty(t: KindTable, s: Settings, d: Date, now: Date)
    requires s.managementFee > 0.0
    ensures var fee := Transaction(FeeManagement, -s.managementFee, d);
      var r := TryAddTransaction(t, Some(s), [], fee, now);
      r == Success(Admission(true, [fee])) && Sum(r.value.history) < 0.0
  {
    var fee := Transaction(FeeManagement, -s.managementFee, d);
    BalanceEffect(t, Some(s), [], fee, now);
  }
}

/** The admission procedure of the record revision (Bank.Logic/AccountExtensions.cs,
    the extension `TryAddTransaction(amount, type)`): the caller hands over an
    amount and a kind; any entry that would leave the balance negative draws the
    overdraft fee instead. */
module ExtensionRules {
  import opened Wrappers
  import opened Kinds
  import opened Transactions
  import opened Ledger
  import opened Accounts
  import AccountRules

  /** `Math.Abs` on the configured fee. */
  function Abs(x: real): (r: real)
    ensures r >= 0.0 && (r == x || r == -x)
  {
    if x < 0.0 then -x else x
  }

  /** The local `ValidateTransactionAmount`: a negative kind needs a strictly
      negative amount, any other kind an amount of at least zero. */
  function ValidateTransactionAmount(t: KindTable, amount: real, kind: Kind): (ok: bool)
    ensures ok ==> SignMatches(t, kind, amount)
    ensures ok <==> SignMatches(t, kind, amount) && !(IndicatesNegative(t, kind) && amount == 0.0)
  {
    var isNegative := IndicatesNegative(t, kind);
    if isNegative && amount >= 0.0 then false
    else if !isNegative && amount < 0.0 then false
    else true
  }

  /** The fee entry this revision injects: minus the magnitude of the configured fee. */
  function OverdraftFee(s: Settings, now: Date): (r: Transaction)
    ensures r.kind == FeeOverdraft && r.date == now
    ensures r.amount <= 0.0
    ensures s.overdraftFee >= 0.0 ==> r.amount == -s.overdraftFee
    ensures s.overdraftFee < 0.0 ==> r.amount == s.overdraftFee
  {
    Transaction(FeeOverdraft, -Abs(s.overdraftFee), now)
  }

  /** The requests that pass every check before the balance is looked at. */
  predicate Admissible(t: KindTable, amount: Amount, kind: Kind) {
    amount.Finite? && !IndicatesSystem(t, kind) && ValidateTransactionAmount(t, amount.value, kind)
  }

  /** The body of the extension for an existing account with settings `s` and
      history `h`. */
  function Admit(t: KindTable, s: Settings, h: seq<Transaction>, amount: Amount, kind: Kind, now: Date): (r: Admission)
    ensures r.accepted <==> Admissible(t, amount, kind) && Sum(h) + amount.value >= 0.0
    ensures r.accepted ==> r.history == h + [Transaction(kind, amount.value, now)]
    ensures Admissible(t, amount, kind) && Sum(h) + amount.value < 0.0 ==> r == Admission(false, h + [OverdraftFee(s, now)])
    ensures !Admissible(t, amount, kind) ==> r == Admission(false, h)
    ensures !amount.Finite? || IndicatesSystem(t, kind) ==> r == Admission(false, h)
    ensures r.history == h || AppendsOne(h, r.history)
  {
    if !amount.Finite? then
      Admission(false, h)
    else if IndicatesSystem(t, kind) then
      Admission(false, h)
    else if !ValidateTransactionAmount(t, amount.value, kind) then
      Admission(false, h)
    else
      var predictedNewBalance := Sum(h) + amount.value;
      if predictedNewBalance < 0.0 then
        Admission(false, h + [OverdraftFee(s, now)])
      else
        Admission(true, h + [Transaction(kind, amount.value, now)])
  }

  /** `account.TryAddTransaction(amount, type)`; `None` is a null account. Returns
      the verdict and the account afterwards. */
  function TryAddTransaction(t: KindTable, account: Option<Account>, amount: Amount, kind: Kind, now: Date): (r: (bool, Option<Account>))
    ensures account.None? ==> r == (false, None)
    ensures account.Some? ==>
      var ad := Admit(t, account.value.settings, account.value.txns, amount, kind, now);
      r == (ad.accepted, Some(account.value.(txns := ad.history)))
    ensures account.Some? ==> r.1.Some?
    ensures account.Some? ==> && r.1.value.id == account.value.id
                              && r.1.value.settings == account.value.settings
                              && r.1.value.nickname == account.value.nickname
    ensures account.Some? ==> r.1.value.txns == account.value.txns || AppendsOne(account.value.txns, r.1.value.txns)
    ensures r.0 ==> account.Some? && amount.Finite?
                    && Balance(r.1.value) == Balance(account.value) + amount.value
                    && Balance(r.1.value) >= 0.0
  {
    match account
    case None => (false, None)
    case Some(a) =>
      var r := Admit(t, a.settings, a.txns, amount, kind, now);
      if r.accepted then
        BalanceAppend(a, Transaction(kind, amount.value, now));
        (true, Some(a.(txns := r.history)))
      else
        (false, Some(a.(txns := r.history)))
  }

  /** The entries this revision appends are exactly what the validating
      constructor builds from the same arguments, so its calls never throw. */
  lemma EntriesAreConstructed(t: KindTable, s: Settings, h: seq<Transaction>, amount: Amount, kind: Kind, now: Date)
    ensures var r := Admit(t, s, h, amount, kind, now);
      && (r.accepted ==> New(t, kind, amount, now) == Success(r.history[|h|]))
      && (r.history != h && !r.accepted ==>
            New(t, FeeOverdraft, Finite(-Abs(s.overdraftFee)), now) == Success(r.history[|h|]))
  {
  }

  /** The balance moves by the amount on acceptance, by minus the fee's magnitude
      when the fee is charged, and not at all otherwise. */
  lemma BalanceEffect(t: KindTable, s: Settings, h: seq<Transaction>, amount: Amount, kind: Kind, now: Date)
    ensures var r := Admit(t, s, h, amount, kind, now);
      && (r.accepted ==> Sum(r.history) == Sum(h) + amount.value >= 0.0)
      && (!r.accepted && r.history != h ==> Sum(r.history) == Sum(h) - Abs(s.overdraftFee))
  {
    var r := Admit(t, s, h, amount, kind, now);
    if r.accepted {
      SumAppend(h, Transaction(kind, amount.value, now));
    } else if r.history != h {
      SumAppend(h, OverdraftFee(s, now));
    }
  }

  /** A history that obeys the sign rule still obeys it afterwards, whatever the
      configured fee. */
  lemma PreservesSigns(t: KindTable, s: Settings, h: seq<Transaction>, amount: Amount, kind: Kind, now: Date)
    requires AllWellSigned(t, h)
    ensures AllWellSigned(t, Admit(t, s, h, amount, kind, now).history)
  {
    var r := Admit(t, s, h, amount, kind, now);
    if r.history != h {
      var e := r.history[|h|];
      assert r.history == h + [e];
      assert WellSigned(t, e);
      forall i | 0 <= i < |r.history|
        ensures WellSigned(t, r.history[i])
      {
        if i < |h| {
          assert r.history[i] == h[i];
        }
      }
    }
  }

  /** The two revisions disagree on a deposit too small to cover an overdrawn
      balance: the class revision takes it, this one charges the fee instead. */
  lemma RevisionsDisagreeOnSmallDeposit(t: KindTable, s: Settings, h: seq<Transaction>, amount: real, now: Date)
    requires !IndicatesSystem(t, Deposit)
    requires amount > 0.0 && Sum(h) + amount < 0.0
    ensures AccountRules.TryAddTransaction(t, Some(s), h, Transaction(Deposit, amount, now), now)
            == Success(Admission(true, h + [Transaction(Deposit, amount, now)]))
    ensures Admit(t, s, h, Finite(amount), Deposit, now) == Admission(false, h + [OverdraftFee(s, now)])
  {
  }

  /** A fee of 25, a deposit of 100, then a withdrawal of 120 is
      refused and the fee recorded, leaving a balance of 75. */
  lemma OverdraftScenario(t: KindTable, now: Date)
    requires !IndicatesSystem(t, Deposit) && !IndicatesSystem(t, Withdraw)
    ensures var s := Settings(25.0, 10.0);
      var r1 := Admit(t, s, [], Finite(100.0), Deposit, now);
      var r2 := Admit(t, s, r1.history, Finite(-120.0), Withdraw, now);
      && r1.accepted && !r2.accepted
      && r2.history == [Transaction(Deposit, 100.0, now), Transaction(FeeOverdraft, -25.0, now)]
      && Sum(r2.history) == 75.0
  {
    var s := Settings(25.0, 10.0);
    var r1 := Admit(t, s, [], Finite(100.0), Deposit, now);
    BalanceEffect(t, s, [], Finite(100.0), Deposit, now);
    BalanceEffect(t, s, r1.history, Finite(-120.0), Withdraw, now);
  }

  /** With the known classification, a management fee is never taken from a caller. */
  lemma ManagementFeeRefused(t: KindTable, s: Settings, h: seq<Transaction>, amount: Amount, now: Date)
    requires Observed(t)
    ensures Admit(t, s, h, amount, FeeManagement, now) == Admission(false, h)
  {
  }
}

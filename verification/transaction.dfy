/** The immutable, constructor-validated ledger entry (Bank.Logic/Transaction.cs). */
module Transactions {
  import opened Wrappers
  import opened Kinds

  /** A double-precision amount: a finite value (taken exactly) or one of the
      non-finite values the constructor refuses. */
  datatype Amount = Finite(value: real) | NaN | PosInf | NegInf

  /** A timestamp; the clock is outside the model, so callers supply it. */
  datatype Date = Date(ticks: int)

  /** One ledger entry. Its amount is always finite. */
  datatype Transaction = Transaction(kind: Kind, amount: real, date: Date)

  /** The three `ArgumentOutOfRangeException`s of the constructor. */
  datatype RangeError = NotFinite | NegativeExpected | PositiveExpected

  /** The sign rule: a negative kind carries an amount of at most zero, any other
      kind an amount of at least zero. */
  predicate SignMatches(t: KindTable, k: Kind, x: real) {
    if IndicatesNegative(t, k) then x <= 0.0 else 0.0 <= x
  }

  predicate WellSigned(t: KindTable, tx: Transaction) {
    SignMatches(t, tx.kind, tx.amount)
  }

  predicate AllWellSigned(t: KindTable, h: seq<Transaction>) {
    forall i :: 0 <= i < |h| ==> WellSigned(t, h[i])
  }

  /** `new Transaction(type, amount, date)`. */
  function New(t: KindTable, kind: Kind, amount: Amount, date: Date): (r: Result<Transaction, RangeError>)
    ensures !amount.Finite? ==> r == Failure(NotFinite)
    ensures r.Success? <==> amount.Finite? && SignMatches(t, kind, amount.value)
    ensures r.Success? ==> r.value.kind == kind && Finite(r.value.amount) == amount && r.value.date == date
    ensures r.Success? ==> WellSigned(t, r.value)
    ensures amount == Finite(0.0) ==> r.Success?
    ensures amount.Finite? && IndicatesNegative(t, kind) && amount.value > 0.0 ==> r == Failure(NegativeExpected)
    ensures amount.Finite? && !IndicatesNegative(t, kind) && amount.value < 0.0 ==> r == Failure(PositiveExpected)
  {
    if !amount.Finite? then Failure(NotFinite)
    else if IndicatesNegative(t, kind) && amount.value > 0.0 then Failure(NegativeExpected)
    else if !IndicatesNegative(t, kind) && amount.value < 0.0 then Failure(PositiveExpected)
    else Success(Transaction(kind, amount.value, date))
  }

  /** The fixed part of the classification, seen through the constructor: a
      positive withdrawal or fee and a negative deposit or interest are refused. */
  lemma ObservedSignRules(t: KindTable, d: Date)
    ensures New(t, Withdraw, Finite(50.0), d) == Failure(NegativeExpected)
    ensures New(t, FeeOverdraft, Finite(10.0), d) == Failure(NegativeExpected)
    ensures New(t, FeeManagement, Finite(10.0), d) == Failure(NegativeExpected)
    ensures New(t, Deposit, Finite(-100.0), d) == Failure(PositiveExpected)
    ensures New(t, Interest, Finite(-10.0), d) == Failure(PositiveExpected)
    ensures New(t, FeeManagement, Finite(-10.0), d) == Success(Transaction(FeeManagement, -10.0, d))
  {
  }
}

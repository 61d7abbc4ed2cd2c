/** Transaction kinds and their classification. */
module Kinds {

  /** The kinds of ledger entry (`TransactionType`). The later revision spells the
      withdrawal kind `Withdrawal`; it is the same kind as `Withdraw` here. */
  datatype Kind = Unknown | Deposit | Withdraw | Interest | FeeOverdraft | FeeManagement

  /** The parts of the classification whose definition is not part of this model:
      whether `Unknown` counts as a negative kind, and which kinds are system kinds.
      Every operation takes the table as a parameter, so every property proved
      here holds whatever those definitions are. */
  datatype KindTable = KindTable(unknownNegative: bool, systemKinds: set<Kind>)

  /** `InidicatesNegativeAmount`: the kind's amount must not be positive. Fixed for
      every kind but `Unknown`. */
  predicate IndicatesNegative(t: KindTable, k: Kind)
    ensures k in {Withdraw, FeeOverdraft, FeeManagement} ==> IndicatesNegative(t, k)
    ensures k in {Deposit, Interest} ==> !IndicatesNegative(t, k)
  {
    match k
    case Withdraw | FeeOverdraft | FeeManagement => true
    case Deposit | Interest => false
    case Unknown => t.unknownNegative
  }

  /** `IndicatesSystemType`: the kind may not be requested by a caller. */
  predicate IndicatesSystem(t: KindTable, k: Kind)
    ensures Observed(t) && k == FeeManagement ==> IndicatesSystem(t, k)
  {
    k in t.systemKinds
  }

  /** What is known of the system-kind classification: a management fee is one. */
  predicate Observed(t: KindTable) {
    FeeManagement in t.systemKinds
  }
}

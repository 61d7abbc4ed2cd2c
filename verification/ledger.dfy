/** Histories of entries, their balance, and the outcome of an admission. */
module Ledger {
  import opened Transactions

  /** The sum of the amounts of a history, front to back (`Sum(t => t.Amount)`). */
  function Sum(h: seq<Transaction>): (r: real)
    ensures (forall i :: 0 <= i < |h| ==> h[i].amount >= 0.0) ==> r >= 0.0
    ensures (forall i :: 0 <= i < |h| ==> h[i].amount <= 0.0) ==> r <= 0.0
  {
    if |h| == 0 then 0.0 else h[0].amount + Sum(h[1..])
  }

  /** Appending one entry moves the sum by exactly its amount. */
  lemma {:induction false} SumAppend(h: seq<Transaction>, tx: Transaction)
    ensures Sum(h + [tx]) == Sum(h) + tx.amount
  {
    if |h| == 0 {
      assert h + [tx] == [tx];
    } else {
      assert (h + [tx])[1..] == h[1..] + [tx];
      SumAppend(h[1..], tx);
    }
  }

  /** The sum of two histories laid end to end is the sum of their sums. */
  lemma {:induction false} SumConcat(h: seq<Transaction>, g: seq<Transaction>)
    ensures Sum(h + g) == Sum(h) + Sum(g)
  {
    if |h| == 0 {
      assert h + g == g;
    } else {
      assert (h + g)[1..] == h[1..] + g;
      SumConcat(h[1..], g);
    }
  }

  /** The result of an admission: whether the requested entry was taken, and the
      history afterwards. */
  datatype Admission = Admission(accepted: bool, history: seq<Transaction>)

  /** `after` is `before` with exactly one entry added at the end. */
  predicate AppendsOne(before: seq<Transaction>, after: seq<Transaction>) {
    |after| == |before| + 1 && after[..|before|] == before
  }
}

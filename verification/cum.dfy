/** `accumulate` of src/utils/cum.ts: the running balance over the
    transactions a filter keeps. Amounts and balances are in cents, as the
    source keeps its running total. */
module Cum {
  import opened Parse

  /** `{ ...transaction, balance }`. */
  function WithBalance(t: Transaction, balance: int): AccumulatedTransaction {
    AccumulatedTransaction(t.time, t.account, t.amount, t.location, balance)
  }

  /** The transactions the filter keeps, in input order. */
  function Kept(ts: seq<Transaction>, keep: Transaction -> bool): seq<Transaction>
    decreases |ts|
  {
    if |ts| == 0 then []
    else Kept(ts[..|ts| - 1], keep) + (if keep(ts[|ts| - 1]) then [ts[|ts| - 1]] else [])
  }

  /** The sum of the amounts. */
  function Sum(ts: seq<Transaction>): int
    decreases |ts|
  {
    if |ts| == 0 then 0 else Sum(ts[..|ts| - 1]) + ts[|ts| - 1].amount
  }

  /** Output `k` is `kept[k]` with the sum of the first `k + 1` amounts. */
  predicate Balanced(out: seq<AccumulatedTransaction>, kept: seq<Transaction>) {
    && |out| == |kept|
    && forall k :: 0 <= k < |out| ==> out[k] == WithBalance(kept[k], Sum(kept[..k + 1]))
  }

  /** One more kept transaction: its balance is the total so far plus its own
      amount. */
  lemma ExtendBalances(kept: seq<Transaction>, out: seq<AccumulatedTransaction>, t: Transaction, balance: int)
    requires Balanced(out, kept) && balance == Sum(kept) + t.amount
    ensures Balanced(out + [WithBalance(t, balance)], kept + [t])
  {
    var kept' := kept + [t];
    var out' := out + [WithBalance(t, balance)];
    assert kept'[..|kept'|] == kept' && kept'[..|kept'| - 1] == kept;
    forall k | 0 <= k < |out'|
      ensures out'[k] == WithBalance(kept'[k], Sum(kept'[..k + 1]))
    {
      if k < |out| {
        assert kept'[..k + 1] == kept[..k + 1];
      }
    }
  }

  /** `accumulate(transactions, filter)`: output `k` is the `k`-th kept
      transaction, unchanged, with the sum of the first `k + 1` kept amounts as
      its balance. */
  method Accumulate(ts: seq<Transaction>, keep: Transaction -> bool) returns (out: seq<AccumulatedTransaction>)
    ensures |out| == |Kept(ts, keep)|
    ensures forall k :: 0 <= k < |out| ==>
              out[k] == WithBalance(Kept(ts, keep)[k], Sum(Kept(ts, keep)[..k + 1]))
    ensures |out| > 0 ==> out[0].balance == out[0].amount
    ensures forall k :: 0 < k < |out| ==> out[k].balance == out[k - 1].balance + out[k].amount
    ensures (forall t :: keep(t)) ==> |out| == |ts|
    ensures |ts| == 0 ==> out == []
  {
    out := [];
    var total := 0;
    ghost var kept: seq<Transaction> := [];
    for i := 0 to |ts|
      invariant kept == Kept(ts[..i], keep)
      invariant total == Sum(kept)
      invariant Balanced(out, kept)
    {
      KeptStep(ts, keep, i);
      if keep(ts[i]) {
        total := total + ts[i].amount;
        ExtendBalances(kept, out, ts[i], total);
        out := out + [WithBalance(ts[i], total)];
        kept := kept + [ts[i]];
      }
    }
    assert ts[..|ts|] == ts;
    AccumulateDone(ts, keep, out);
  }

  /** What a balanced output over the kept transactions promises. */
  lemma AccumulateDone(ts: seq<Transaction>, keep: Transaction -> bool, out: seq<AccumulatedTransaction>)
    requires Balanced(out, Kept(ts, keep))
    ensures |out| > 0 ==> out[0].balance == out[0].amount
    ensures forall k :: 0 < k < |out| ==> out[k].balance == out[k - 1].balance + out[k].amount
    ensures (forall t :: keep(t)) ==> |out| == |ts|
    ensures |ts| == 0 ==> out == []
  {
    BalancedSteps(out, Kept(ts, keep));
    if forall t :: keep(t) {
      KeepAll(ts, keep);
    }
  }

  lemma KeptStep(ts: seq<Transaction>, keep: Transaction -> bool, i: nat)
    requires i < |ts|
    ensures Kept(ts[..i + 1], keep) == Kept(ts[..i], keep) + (if keep(ts[i]) then [ts[i]] else [])
  {
    assert ts[..i + 1][..i] == ts[..i];
  }

  // ---------------------------------------------------------------------------
  // The filter
  // ---------------------------------------------------------------------------

  /** A transaction is kept exactly when it is an input the filter accepts. */
  lemma {:induction false} KeptMembers(ts: seq<Transaction>, keep: Transaction -> bool, t: Transaction)
    ensures t in Kept(ts, keep) <==> t in ts && keep(t)
    decreases |ts|
  {
    if |ts| > 0 {
      var init := ts[..|ts| - 1];
      KeptMembers(init, keep, t);
      assert ts == init + [ts[|ts| - 1]];
    }
  }

  /** The default filter `() => true` keeps every transaction. */
  lemma {:induction false} KeepAll(ts: seq<Transaction>, keep: Transaction -> bool)
    requires forall t :: keep(t)
    ensures Kept(ts, keep) == ts
    decreases |ts|
  {
    if |ts| > 0 {
      KeepAll(ts[..|ts| - 1], keep);
      assert ts == ts[..|ts| - 1] + [ts[|ts| - 1]];
    }
  }

  // ---------------------------------------------------------------------------
  // Balances
  // ---------------------------------------------------------------------------

  /** Each balance is the one before it plus the transaction's own amount; the
      first is the first amount. */
  lemma BalanceSteps(kept: seq<Transaction>, k: nat)
    requires k < |kept|
    ensures Sum(kept[..k + 1]) == (if k == 0 then 0 else Sum(kept[..k])) + kept[k].amount
  {
    assert kept[..k + 1][..k] == kept[..k];
    if k == 0 {
      assert kept[..0] == [];
    }
  }

  /** Consecutive balances differ by the later transaction's amount. */
  lemma BalancedSteps(out: seq<AccumulatedTransaction>, kept: seq<Transaction>)
    requires Balanced(out, kept)
    ensures |out| > 0 ==> out[0].balance == out[0].amount
    ensures forall k :: 0 < k < |out| ==> out[k].balance == out[k - 1].balance + out[k].amount
  {
    forall k | 0 <= k < |out|
      ensures out[k].balance == (if k == 0 then 0 else out[k - 1].balance) + out[k].amount
    {
      BalanceSteps(kept, k);
    }
    if |out| > 0 {
      BalanceSteps(kept, 0);
    }
  }

  /** The last balance is the net of all kept amounts. */
  lemma LastBalance(out: seq<AccumulatedTransaction>, kept: seq<Transaction>)
    requires Balanced(out, kept)
    ensures |out| > 0 ==> out[|out| - 1].balance == Sum(kept)
  {
    assert kept[..|kept|] == kept;
  }

  /** Totals over two stretches add up. */
  lemma {:induction false} SumAppend(a: seq<Transaction>, b: seq<Transaction>)
    ensures Sum(a + b) == Sum(a) + Sum(b)
    decreases |b|
  {
    if |b| > 0 {
      SumAppend(a, b[..|b| - 1]);
      assert (a + b)[..|a + b| - 1] == a + b[..|b| - 1];
    } else {
      assert a + b == a;
    }
  }

  lemma {:induction false} KeptAppend(a: seq<Transaction>, b: seq<Transaction>, keep: Transaction -> bool)
    ensures Kept(a + b, keep) == Kept(a, keep) + Kept(b, keep)
    decreases |b|
  {
    if |b| == 0 {
      assert a + b == a;
    } else {
      var init := b[..|b| - 1];
      KeptAppend(a, init, keep);
      assert (a + b)[..|a + b| - 1] == a + init;
    }
  }

  /** Two stretches of history read one after the other end on the sum of the
      balances each ends on by itself. */
  lemma NetOfAppend(a: seq<Transaction>, b: seq<Transaction>, keep: Transaction -> bool)
    ensures Sum(Kept(a + b, keep)) == Sum(Kept(a, keep)) + Sum(Kept(b, keep))
  {
    KeptAppend(a, b, keep);
    SumAppend(Kept(a, keep), Kept(b, keep));
  }
}

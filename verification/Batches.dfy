/** Whole batches of spends: the order in which a block takes independent transactions does not
    matter. */
module Batches {
  import opened Scale
  import opened Transactions
  import opened Ledger
  import opened Runs
  import opened Independence

  ghost function SpendAll(c: Crypto, s: State, ts: seq<Transaction>): State
    decreases |ts|
  {
    if ts == [] then s else SpendAll(c, Next(c, s, Spend(ts[0])), ts[1..])
  }

  /** Each transaction of the list executes when its turn comes. */
  ghost predicate AllExecute(c: Crypto, s: State, ts: seq<Transaction>)
    decreases |ts|
  {
    ts == [] || (Executes(c, s, Spend(ts[0])) && AllExecute(c, Next(c, s, Spend(ts[0])), ts[1..]))
  }

  ghost function TotalCastFees(store: Store, ts: seq<Transaction>): nat {
    if ts == [] then 0 else CastFee(store, ts[0]) + TotalCastFees(store, ts[1..])
  }

  ghost predicate Ready(c: Crypto, store: Store, t: Transaction) {
    Valid(c, store, t) && Present(store, t)
  }

  /** Each transaction alone could execute now, no two of them disturb each other, and the reward
      total has room for all the fees. */
  ghost predicate Batch(c: Crypto, s: State, ts: seq<Transaction>) {
    && s.inBlock
    && (forall i :: 0 <= i < |ts| ==> Ready(c, s.utxos, ts[i]))
    && (forall i, j :: 0 <= i < |ts| && 0 <= j < |ts| && i != j ==> Independent(c, ts[i], ts[j]))
    && s.rewardTotal + TotalCastFees(s.utxos, ts) < TWO_128
  }

  function Without<T>(ts: seq<T>, i: nat): (rest: seq<T>)
    requires i < |ts|
    ensures |rest| == |ts| - 1
  {
    ts[..i] + ts[i + 1..]
  }

  // ---------------------------------------------------------------- the first of a batch

  /** The first transaction of a batch executes and leaves a batch. */
  lemma BatchStep(c: Crypto, s: State, ts: seq<Transaction>)
    requires ts != [] && Batch(c, s, ts)
    ensures Executes(c, s, Spend(ts[0])) && Batch(c, Next(c, s, Spend(ts[0])), ts[1..])
  {
    var t, rest := ts[0], ts[1..];
    assert Ready(c, s.utxos, t);
    hide Valid, Apply, Fee, Independent;
    var after := Next(c, s, Spend(t));
    assert after.utxos == Apply(c, s.utxos, t);
    forall i | 0 <= i < |rest|
      ensures Ready(c, after.utxos, rest[i]) && CastFee(after.utxos, rest[i]) == CastFee(s.utxos, rest[i])
    {
      assert rest[i] == ts[i + 1] && Ready(c, s.utxos, ts[i + 1]) && Independent(c, ts[0], ts[i + 1]);
      Undisturbed(c, s.utxos, t, rest[i]);
    }
    SameFees(s.utxos, after.utxos, rest);
    forall i, j | 0 <= i < |rest| && 0 <= j < |rest| && i != j ensures Independent(c, rest[i], rest[j]) {
      assert rest[i] == ts[i + 1] && rest[j] == ts[j + 1];
    }
  }

  lemma {:induction false} SameFees(a: Store, b: Store, ts: seq<Transaction>)
    requires forall i :: 0 <= i < |ts| ==> CastFee(a, ts[i]) == CastFee(b, ts[i])
    ensures TotalCastFees(a, ts) == TotalCastFees(b, ts)
  {
    hide CastFee;
    if ts != [] {
      SameFees(a, b, ts[1..]);
    }
  }

  lemma {:induction false} BatchExecutes(c: Crypto, s: State, ts: seq<Transaction>)
    requires Batch(c, s, ts)
    ensures AllExecute(c, s, ts)
    decreases |ts|
  {
    hide Batch, Executes, Next;
    if ts != [] {
      BatchStep(c, s, ts);
      BatchExecutes(c, Next(c, s, Spend(ts[0])), ts[1..]);
    }
  }

  // ---------------------------------------------------------------- reordering

  lemma {:induction false} FeesWithout(store: Store, ts: seq<Transaction>, i: nat)
    requires i < |ts|
    ensures TotalCastFees(store, ts) == CastFee(store, ts[i]) + TotalCastFees(store, Without(ts, i))
  {
    hide CastFee;
    var rest := Without(ts, i);
    if i == 0 {
      assert rest == ts[1..];
    } else {
      FeesWithout(store, ts[1..], i - 1);
      assert rest[1..] == Without(ts[1..], i - 1);
    }
  }

  /** Where position `k` was before position `i` moved to the front. */
  function Before(i: nat, k: nat): nat {
    if k == 0 then i else if k <= i then k - 1 else k
  }

  /** A batch stays a batch when one of its transactions is moved to the front. */
  lemma BatchToFront(c: Crypto, s: State, ts: seq<Transaction>, i: nat)
    requires i < |ts| && Batch(c, s, ts)
    ensures Batch(c, s, [ts[i]] + Without(ts, i))
  {
    hide Ready, Independent, CastFee;
    var us := [ts[i]] + Without(ts, i);
    assert us[1..] == Without(ts, i);
    FeesWithout(s.utxos, ts, i);
    forall k | 0 <= k < |us| ensures us[k] == ts[Before(i, k)] && Ready(c, s.utxos, us[k]) {
      assert Ready(c, s.utxos, ts[Before(i, k)]);
    }
    forall k, l | 0 <= k < |us| && 0 <= l < |us| && k != l ensures Independent(c, us[k], us[l]) {
      assert Independent(c, ts[Before(i, k)], ts[Before(i, l)]);
    }
  }

  /** Moving a transaction to the front changes nothing. */
  lemma {:induction false} MoveToFront(c: Crypto, s: State, ts: seq<Transaction>, i: nat)
    requires i < |ts| && Batch(c, s, ts)
    ensures SpendAll(c, s, ts) == SpendAll(c, Next(c, s, Spend(ts[i])), Without(ts, i))
    decreases i
  {
    hide Batch, Executes, Next;
    if i == 0 {
      assert Without(ts, 0) == ts[1..];
    } else {
      var first, moved := ts[0], ts[i];
      BatchStep(c, s, ts);
      MoveToFront(c, Next(c, s, Spend(first)), ts[1..], i - 1);
      SwapFirst(c, s, ts, i);
      var rest := Without(ts, i);
      assert rest[0] == first && rest[1..] == Without(ts[1..], i - 1);
    }
  }

  lemma SwapFirst(c: Crypto, s: State, ts: seq<Transaction>, i: nat)
    requires 0 < i < |ts| && Batch(c, s, ts)
    ensures Next(c, Next(c, s, Spend(ts[0])), Spend(ts[i])) == Next(c, Next(c, s, Spend(ts[i])), Spend(ts[0]))
  {
    assert Ready(c, s.utxos, ts[0]) && Ready(c, s.utxos, ts[i]) && Independent(c, ts[0], ts[i]);
    FeesWithout(s.utxos, ts[1..], i - 1);
    hide Valid, Independent, Fee, Next;
    SpendsCommute(c, s, ts[0], ts[i]);
  }

  /** In whatever order a block takes the transactions of a batch, all of them execute, and the state
      in the end is the same. */
  lemma {:induction false} AnyOrder(c: Crypto, s: State, ts: seq<Transaction>, us: seq<Transaction>)
    requires Batch(c, s, ts) && multiset(ts) == multiset(us)
    ensures AllExecute(c, s, us) && SpendAll(c, s, us) == SpendAll(c, s, ts)
    decreases |us|
  {
    hide Batch, Executes, Next;
    SameLength(ts, us);
    if us != [] {
      var i := Position(ts, us);
      var front := [ts[i]] + Without(ts, i);
      BatchToFront(c, s, ts, i);
      BatchStep(c, s, front);
      assert front[0] == us[0] && front[1..] == Without(ts, i);
      MoveToFront(c, s, ts, i);
      AnyOrder(c, Next(c, s, Spend(us[0])), Without(ts, i), us[1..]);
    }
  }

  lemma SameLength<T>(ts: seq<T>, us: seq<T>)
    requires multiset(ts) == multiset(us)
    ensures |ts| == |us|
  {
    assert |multiset(ts)| == |ts| && |multiset(us)| == |us|;
  }

  lemma Position<T>(ts: seq<T>, us: seq<T>) returns (i: nat)
    requires multiset(ts) == multiset(us) && us != []
    ensures i < |ts| && ts[i] == us[0] && multiset(Without(ts, i)) == multiset(us[1..])
  {
    assert us[0] in multiset(us);
    i :| 0 <= i < |ts| && ts[i] == us[0];
    MultisetWithout(ts, i);
    MultisetWithout(us, 0);
    assert Without(us, 0) == us[1..];
  }

  lemma MultisetWithout<T>(ts: seq<T>, i: nat)
    requires i < |ts|
    ensures multiset(Without(ts, i)) == multiset(ts) - multiset{ts[i]}
  {
    assert ts == ts[..i] + ([ts[i]] + ts[i + 1..]);
  }
}

/** The rules that validation documents, spelled out without any of its running totals, and the error
    that each kind of broken transaction gets. */
module Rules {
  import opened Scale
  import opened Transactions
  import opened Ledger

  // ---------------------------------------------------------------- the documented rules

  function SumOf(values: seq<nat>): nat {
    if values == [] then 0 else values[0] + SumOf(values[1..])
  }

  function FoundValues(store: Store, t: Transaction): seq<nat> {
    seq(|t.inputs|, i requires 0 <= i < |t.inputs| =>
      if t.inputs[i].outpoint in store then store[t.inputs[i].outpoint].value else 0)
  }

  function NewValues(t: Transaction): seq<nat> {
    seq(|t.outputs|, k requires 0 <= k < |t.outputs| => t.outputs[k].value)
  }

  ghost predicate SignedByOwner(c: Crypto, store: Store, t: Transaction, i: nat)
    requires i < |t.inputs|
  {
    var input := t.inputs[i];
    input.outpoint in store ==> c.verify(input.sigscript, Payload(t), store[input.outpoint].pubkey)
  }

  lemma {:induction false} SumOfSnoc(values: seq<nat>, last: nat)
    ensures SumOf(values + [last]) == SumOf(values) + last
  {
    if values != [] {
      SumOfSnoc(values[1..], last);
      assert (values + [last])[1..] == values[1..] + [last];
    }
  }

  lemma {:induction false} InputSum(store: Store, t: Transaction, n: nat)
    requires n <= |t.inputs|
    ensures RunningIn(store, t, n) == SumOf(FoundValues(store, t)[..n])
  {
    if n > 0 {
      InputSum(store, t, n - 1);
      assert t.inputs[..n][..n - 1] == t.inputs[..n - 1];
      var values := FoundValues(store, t);
      SumOfSnoc(values[..n - 1], values[n - 1]);
      assert values[..n] == values[..n - 1] + [values[n - 1]];
    }
  }

  lemma {:induction false} OutputSum(t: Transaction, n: nat)
    requires n <= |t.outputs|
    ensures RunningOut(t, n) == SumOf(NewValues(t)[..n])
  {
    if n > 0 {
      OutputSum(t, n - 1);
      assert t.outputs[..n][..n - 1] == t.outputs[..n - 1];
      var values := NewValues(t);
      SumOfSnoc(values[..n - 1], values[n - 1]);
      assert values[..n] == values[..n - 1] + [values[n - 1]];
    }
  }

  lemma Totals(store: Store, t: Transaction)
    ensures TotalIn(store, t.inputs) == SumOf(FoundValues(store, t))
    ensures TotalOut(t.outputs) == SumOf(NewValues(t))
  {
    InputSum(store, t, |t.inputs|);
    OutputSum(t, |t.outputs|);
    assert t.inputs[..|t.inputs|] == t.inputs && t.outputs[..|t.outputs|] == t.outputs;
    assert FoundValues(store, t)[..|t.inputs|] == FoundValues(store, t);
    assert NewValues(t)[..|t.outputs|] == NewValues(t);
  }

  /** A transaction is valid exactly if it keeps every documented rule. */
  lemma DocumentedRules(c: Crypto, store: Store, t: Transaction)
    ensures Valid(c, store, t) <==>
            && t.inputs != [] && t.outputs != []
            && (forall i, j :: 0 <= i < j < |t.inputs| ==> t.inputs[i] != t.inputs[j])
            && (forall k, l :: 0 <= k < l < |t.outputs| ==> t.outputs[k] != t.outputs[l])
            && (forall i :: 0 <= i < |t.inputs| ==> SignedByOwner(c, store, t, i))
            && (forall k :: 0 <= k < |t.outputs| ==> t.outputs[k].value > 0)
            && (forall k :: 0 <= k < |t.outputs| ==> c.blake2(OutputPreimage(t, k)) !in store)
            && SumOf(FoundValues(store, t)) < TWO_128 && SumOf(NewValues(t)) < TWO_128
            && ((forall i :: 0 <= i < |t.inputs| ==> t.inputs[i].outpoint in store) ==>
                  SumOf(NewValues(t)) <= SumOf(FoundValues(store, t)))
  {
    Totals(store, t);
    MissingMeans(store, t.inputs);
    FreshKeys(c, store, t);
    hide TotalIn, TotalOut, SumOf, FoundValues, NewValues, OutputKeys, OutputPreimage, Payload, Missing;
    assert forall i :: 0 <= i < |t.inputs| ==> SignedByOwner(c, store, t, i) == Signed(c, store, t, i);
  }

  lemma FreshKeys(c: Crypto, store: Store, t: Transaction)
    ensures (forall key :: key in OutputKeys(c, t) ==> key !in store) <==>
            forall k :: 0 <= k < |t.outputs| ==> c.blake2(OutputPreimage(t, k)) !in store
  {
    hide OutputPreimage;
    var keys := OutputKeys(c, t);
    assert forall k :: 0 <= k < |t.outputs| ==> keys[k] == c.blake2(OutputPreimage(t, k));
  }

  // ---------------------------------------------------------------- the error of each broken rule

  lemma EmptyTransaction(c: Crypto, store: Store, t: Transaction)
    ensures t.inputs == [] ==> Rejects(c, store, t, NoInputs)
    ensures t.inputs != [] && t.outputs == [] ==> Rejects(c, store, t, NoOutputs)
  {
  }

  lemma DoubleCountedInput(c: Crypto, store: Store, t: Transaction, i: nat, j: nat)
    requires i < j < |t.inputs| && t.inputs[i] == t.inputs[j] && t.outputs != []
    ensures Rejects(c, store, t, DuplicateInput)
  {
  }

  lemma DoubleGeneratedOutput(c: Crypto, store: Store, t: Transaction, k: nat, l: nat)
    requires t.inputs != [] && Distinct(t.inputs) && k < l < |t.outputs| && t.outputs[k] == t.outputs[l]
    ensures Rejects(c, store, t, DuplicateOutput)
  {
  }

  /** One bad signature, anywhere. */
  lemma BadSignature(c: Crypto, store: Store, t: Transaction, i: nat)
    requires ShapeOk(t) && TotalIn(store, t.inputs) < TWO_128
    requires i < |t.inputs| && !SignedByOwner(c, store, t, i)
    ensures Rejects(c, store, t, InvalidSignature)
  {
    assert !InputOk(c, store, t, i);
    var first := FirstBadInput(c, store, t, |t.inputs|);
    TotalInMonotone(store, t.inputs, first + 1);
    RejectedInput(c, store, t, first);
  }

  /** Some output of value 0, the totals and keys being in order. */
  lemma SunkOutput(c: Crypto, store: Store, t: Transaction, k: nat)
    requires InputsPass(c, store, t) && TotalOut(t.outputs) < TWO_128
    requires forall l :: 0 <= l < |t.outputs| ==> OutputKey(c, t, l) !in store
    requires k < |t.outputs| && t.outputs[k].value == 0
    ensures Rejects(c, store, t, ZeroOutput)
  {
    hide OutputKey;
    assert !OutputOk(c, store, t, k);
    var first := FirstBadOutput(c, store, t, |t.outputs|);
    TotalOutMonotone(t.outputs, first + 1);
    RejectedOutput(c, store, t, first);
  }

  /** Some key taken, the values and totals being in order. */
  lemma TakenKey(c: Crypto, store: Store, t: Transaction, k: nat)
    requires InputsPass(c, store, t) && TotalOut(t.outputs) < TWO_128
    requires forall l :: 0 <= l < |t.outputs| ==> t.outputs[l].value > 0
    requires k < |t.outputs| && OutputKey(c, t, k) in store
    ensures Rejects(c, store, t, OutputExists)
  {
    hide OutputKey;
    assert !OutputOk(c, store, t, k);
    var first := FirstBadOutput(c, store, t, |t.outputs|);
    TotalOutMonotone(t.outputs, first + 1);
    RejectedOutput(c, store, t, first);
  }

  /** Output values that add up to 2^128 or more. */
  lemma OverflowingOutputs(c: Crypto, store: Store, t: Transaction)
    requires InputsPass(c, store, t) && TotalOut(t.outputs) >= TWO_128
    requires forall l :: 0 <= l < |t.outputs| ==> t.outputs[l].value > 0
    requires forall l :: 0 <= l < |t.outputs| ==> OutputKey(c, t, l) !in store
    ensures Rejects(c, store, t, OutputOverflow)
  {
    hide OutputKey;
    OutputsOkMeans(c, store, t);
    var first := FirstBadOutput(c, store, t, |t.outputs|);
    RejectedOutput(c, store, t, first);
  }

  /** More out than in, with every input there and everything else in order. */
  lemma OverSpending(c: Crypto, store: Store, t: Transaction)
    requires InputsPass(c, store, t) && OutputsOk(c, store, t, |t.outputs|)
    requires forall i :: i in t.inputs ==> i.outpoint in store
    requires TotalIn(store, t.inputs) < TotalOut(t.outputs)
    ensures Rejects(c, store, t, Overspend)
  {
    MissingMeans(store, t.inputs);
  }

  /** Money from an output that does not exist. */
  lemma OutOfThinAir(c: Crypto, store: Store, rewardTotal: U128, t: Transaction, i: TransactionInput)
    requires Valid(c, store, t) && i in t.inputs && i.outpoint !in store
    ensures SpendRejects(c, store, rewardTotal, t, MissingInputs)
  {
    MissingMeans(store, t.inputs);
  }
}

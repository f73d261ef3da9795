/** Conservation of value: what one spend does to the supply, and the exact supply after any run. */
module SpendValue {
  import opened Scale
  import opened Transactions
  import opened Ledger
  import opened IssuanceSchedule
  import opened Runs

  // ---------------------------------------------------------------- the value in a store

  ghost function Pick(m: Store): (key: H256)
    requires m != map[]
    ensures key in m
  {
    var key :| key in m; key
  }

  ghost function Sum(m: Store): nat {
    if m == map[] then 0 else m[Pick(m)].value + Sum(m - {Pick(m)})
  }

  /** Unspent value together with the fees waiting for the next author. */
  ghost function Supply(s: State): nat {
    Sum(s.utxos) + s.rewardTotal
  }

  lemma {:induction false} SumWithout(m: Store, key: H256)
    requires key in m
    ensures Sum(m) == m[key].value + Sum(m - {key})
    decreases |m|
  {
    var p := Pick(m);
    if p != key {
      SumWithout(m - {p}, key);
      SumWithout(m - {key}, p);
      assert m - {p} - {key} == m - {key} - {p};
    }
  }

  lemma SumWith(m: Store, key: H256, o: TransactionOutput)
    requires key !in m
    ensures Sum(m[key := o]) == Sum(m) + o.value
  {
    SumWithout(m[key := o], key);
    assert m[key := o] - {key} == m;
  }

  // ---------------------------------------------------------------- one spend

  function InputOutpoints(inputs: seq<TransactionInput>): set<H256> {
    set i | i in inputs :: i.outpoint
  }

  /** Value counted more than once: that of each input whose outpoint an earlier input names. */
  function Overcount(store: Store, inputs: seq<TransactionInput>): nat {
    if inputs == [] then 0
    else
      var front, last := inputs[..|inputs| - 1], inputs[|inputs| - 1];
      Overcount(store, front) + if last.outpoint in InputOutpoints(front) then InputValue(store, last) else 0
  }

  /** The part of the fee that the cast to `u64` drops. */
  function Truncation(store: Store, t: Transaction): int {
    TWO_64 * (Fee(store, t) / TWO_64)
  }

  lemma {:induction false} SumWithoutInputs(store: Store, inputs: seq<TransactionInput>)
    ensures Sum(store - InputOutpoints(inputs)) + TotalIn(store, inputs) == Sum(store) + Overcount(store, inputs)
  {
    if inputs == [] {
      assert store - InputOutpoints(inputs) == store;
    } else {
      var front, last := inputs[..|inputs| - 1], inputs[|inputs| - 1];
      SumWithoutInputs(store, front);
      var rest := store - InputOutpoints(front);
      assert inputs == front + [last];
      assert InputOutpoints(inputs) == InputOutpoints(front) + {last.outpoint};
      assert store - InputOutpoints(inputs) == rest - {last.outpoint};
      if last.outpoint in rest {
        SumWithout(rest, last.outpoint);
      } else {
        assert rest - {last.outpoint} == rest;
      }
    }
  }

  lemma {:induction false} SumWithOutputs(c: Crypto, m: Store, t: Transaction, n: nat)
    requires n <= |t.outputs| && Distinct(OutputKeys(c, t))
    requires forall key :: key in OutputKeys(c, t) ==> key !in m
    ensures Sum(WithOutputs(c, m, t, n)) == Sum(m) + RunningOut(t, n)
  {
    hide OutputPreimage;
    if n > 0 {
      var keys := OutputKeys(c, t);
      SumWithOutputs(c, m, t, n - 1);
      WithOutputsKeys(c, m, t, n - 1);
      assert keys[n - 1] == OutputKey(c, t, n - 1) && keys[n - 1] !in m;
      forall k | 0 <= k < n - 1 ensures OutputKey(c, t, k) != OutputKey(c, t, n - 1) {
        assert keys[k] == OutputKey(c, t, k);
      }
      SumWith(WithOutputs(c, m, t, n - 1), OutputKey(c, t, n - 1), t.outputs[n - 1]);
      assert t.outputs[..n][..n - 1] == t.outputs[..n - 1];
    }
  }

  /** The exact effect of a spend on the supply: repeated outpoints add, the cast takes away. */
  lemma SpendSupply(c: Crypto, s: State, step: Step)
    requires Executes(c, s, step) && Distinct(OutputKeys(c, step.t))
    ensures Supply(Next(c, s, step)) ==
            Supply(s) + Overcount(s.utxos, step.t.inputs) - Truncation(s.utxos, step.t)
  {
    var t := step.t;
    var remaining := s.utxos - OutpointSet(t);
    SumWithoutInputs(s.utxos, t.inputs);
    assert OutpointSet(t) == InputOutpoints(t.inputs);
    SumWithOutputs(c, remaining, t, |t.outputs|);
    assert t.outputs[..|t.outputs|] == t.outputs;
  }

  /** Nothing is counted twice exactly when no positive output is named by two inputs. */
  lemma {:induction false} OvercountMeans(store: Store, inputs: seq<TransactionInput>)
    ensures Overcount(store, inputs) == 0 <==>
            forall i, j :: 0 <= i < j < |inputs| && inputs[i].outpoint == inputs[j].outpoint ==>
              InputValue(store, inputs[j]) == 0
  {
    if inputs != [] {
      var n := |inputs| - 1;
      var front := inputs[..n];
      OvercountMeans(store, front);
      assert forall i :: 0 <= i < n ==> front[i] == inputs[i];
      if inputs[n].outpoint in InputOutpoints(front) {
        var i :| 0 <= i < n && front[i].outpoint == inputs[n].outpoint;
        assert inputs[i].outpoint == inputs[n].outpoint;
      }
    }
  }

  /** A spend keeps the supply exactly when what it counts twice equals what the cast drops. With
      each output named once: exactly when the fee fits in 64 bits. It then never grows. */
  lemma SpendConserves(c: Crypto, s: State, step: Step)
    requires Executes(c, s, step) && Distinct(OutputKeys(c, step.t))
    requires Distinct(Outpoints(step.t))
    ensures Supply(Next(c, s, step)) == Supply(s) - Truncation(s.utxos, step.t) <= Supply(s)
    ensures Supply(Next(c, s, step)) == Supply(s) <==> Fee(s.utxos, step.t) < TWO_64
  {
    SpendSupply(c, s, step);
    NoOvercount(s.utxos, step.t);
    assert Fee(s.utxos, step.t) >= 0 by {
      MissingMeans(s.utxos, step.t.inputs);
    }
  }

  lemma NoOvercount(store: Store, t: Transaction)
    requires Distinct(Outpoints(t))
    ensures Overcount(store, t.inputs) == 0
    ensures TotalIn(store, t.inputs) <= Sum(store)
  {
    OvercountMeans(store, t.inputs);
    assert forall i :: 0 <= i < |t.inputs| ==> Outpoints(t)[i] == t.inputs[i].outpoint;
    SumWithoutInputs(store, t.inputs);
  }

  /** However often a transaction names an output, each input adds at most the whole store. */
  lemma {:induction false} TotalInBound(store: Store, inputs: seq<TransactionInput>)
    ensures TotalIn(store, inputs) <= |inputs| * Sum(store)
  {
    hide InputValue, Sum;
    if inputs != [] {
      var n := |inputs| - 1;
      TotalInBound(store, inputs[..n]);
      InputValueBound(store, inputs[n]);
      OneMore(n, Sum(store));
    }
  }

  lemma InputValueBound(store: Store, i: TransactionInput)
    ensures InputValue(store, i) <= Sum(store)
  {
    if i.outpoint in store {
      SumWithout(store, i.outpoint);
    }
  }

  // ---------------------------------------------------------------- why outpoints are distinct

  /** A key accepts at most one sigscript for this message. */
  ghost predicate UniqueSigscript(c: Crypto, message: Bytes) {
    forall key: H256, a: H512, b: H512 :: c.verify(a, message, key) && c.verify(b, message, key) ==> a == b
  }

  /** The pallet rejects repeated inputs, not repeated outpoints. Unique sigscripts close the gap. */
  lemma DistinctInputsGiveDistinctOutpoints(c: Crypto, store: Store, rewardTotal: U128, t: Transaction)
    requires Spendable(c, store, rewardTotal, t) && UniqueSigscript(c, Payload(t))
    ensures Distinct(Outpoints(t))
  {
    hide Payload;
    var points := Outpoints(t);
    forall i, j | 0 <= i < j < |points| ensures points[i] != points[j] {
      assert t.inputs[i] in t.inputs && t.inputs[j] in t.inputs;
      assert Signed(c, store, t, i) && Signed(c, store, t, j);
      assert t.inputs[i] != t.inputs[j];
    }
  }

  /** The same for a valid transaction some of whose inputs are not there yet: what it finds in the
      store it counts once. */
  lemma ValidCountsOnce(c: Crypto, store: Store, t: Transaction)
    requires Valid(c, store, t) && UniqueSigscript(c, Payload(t))
    ensures Overcount(store, t.inputs) == 0 && TotalIn(store, t.inputs) <= Sum(store)
  {
    hide Payload, OutputKeys;
    forall i, j | 0 <= i < j < |t.inputs| && t.inputs[i].outpoint == t.inputs[j].outpoint
      ensures InputValue(store, t.inputs[j]) == 0
    {
      assert Signed(c, store, t, i) && Signed(c, store, t, j);
      assert t.inputs[i] != t.inputs[j];
    }
    OvercountMeans(store, t.inputs);
    SumWithoutInputs(store, t.inputs);
  }

  lemma TwiceTheSame(store: Store, i: TransactionInput, j: TransactionInput)
    requires i.outpoint == j.outpoint && i.outpoint in store
    ensures var value := store[i.outpoint].value;
            TotalIn(store, [i, j]) == 2 * value && Overcount(store, [i, j]) == value
  {
    var both := [i, j];
    assert both[..1] == [i] && [i][..0] == [];
    assert TotalIn(store, [i]) == store[i.outpoint].value;
    assert InputOutpoints([i]) == {i.outpoint};
    assert Overcount(store, [i]) == 0;
  }

  /** A first block that tries to spend the only genesis output. */
  function FirstSpend(c: Crypto, o: TransactionOutput, t: Transaction): Run {
    Run(c, [o], [InitializeBlock, Spend(t)])
  }

  function OnlyKey(c: Crypto, o: TransactionOutput): H256 {
    c.blake2(GenesisPreimage(o))
  }

  lemma FirstSpendStates(c: Crypto, o: TransactionOutput, t: Transaction)
    ensures var r, store := FirstSpend(c, o, t), map[OnlyKey(c, o) := o];
            && r.At(0) == State(store, 0, None, 0, false)
            && r.At(1) == State(store, 0, None, 1, true)
            && r.At(2) == Next(c, r.At(1), Spend(t))
            && Supply(r.At(0)) == Supply(r.At(1)) == o.value
  {
    hide GenesisPreimage, Executes;
    assert [o][..0] == [] && GenesisStore(c, []) == map[];
    assert GenesisStore(c, [o]) == map[OnlyKey(c, o) := o];
    var store := map[OnlyKey(c, o) := o];
    SumWithout(store, OnlyKey(c, o));
    assert store - {OnlyKey(c, o)} == map[];
  }

  /** A transaction that names the genesis output of `owner` under two sigscripts and sends twice
      its value back. */
  function NamedTwice(c: Crypto, owner: H256, value: U128, a: H512, b: H512): Transaction
    requires 2 * value < TWO_128
  {
    var key := OnlyKey(c, TransactionOutput(value, owner));
    TransactionData([TransactionInput(key, a), TransactionInput(key, b)], [TransactionOutput(2 * value, owner)])
  }

  /** The gap is real: if a key accepts two sigscripts for the message of one transaction, that
      transaction executes in the first block and doubles the supply. */
  lemma RepeatedOutpointDoubles(c: Crypto, owner: H256, value: U128, a: H512, b: H512)
    requires 0 < value && 2 * value < TWO_128 && a != b
    requires var t := NamedTwice(c, owner, value, a, b);
             && c.verify(a, Payload(t), owner) && c.verify(b, Payload(t), owner)
             && OutputKey(c, t, 0) != OnlyKey(c, TransactionOutput(value, owner))
    ensures var r := FirstSpend(c, TransactionOutput(value, owner), NamedTwice(c, owner, value, a, b));
            r.ExecutesAt(1) && Supply(r.At(0)) == value && Supply(r.At(2)) == 2 * value
  {
    hide Payload, OutputPreimage, GenesisPreimage;
    var o, t := TransactionOutput(value, owner), NamedTwice(c, owner, value, a, b);
    var store := map[OnlyKey(c, o) := o];
    FirstSpendStates(c, o, t);
    TwiceTheSame(store, t.inputs[0], t.inputs[1]);
    OneOutput(c, t);
    MissingMeans(store, t.inputs);
    hide TotalIn, TotalOut, Overcount, Missing, Apply, OutputKey;
    SpendSupply(c, State(store, 0, None, 1, true), Spend(t));
  }

  lemma OneOutput(c: Crypto, t: Transaction)
    requires |t.outputs| == 1
    ensures TotalOut(t.outputs) == t.outputs[0].value && OutputKeys(c, t) == [OutputKey(c, t, 0)]
  {
    assert t.outputs[..0] == [];
  }

  /** Spends the genesis output of `owner` and sends `kept` of its value back. */
  function SimpleSpend(c: Crypto, owner: H256, value: U128, kept: U128, a: H512): Transaction {
    var key := OnlyKey(c, TransactionOutput(value, owner));
    TransactionData([TransactionInput(key, a)], [TransactionOutput(kept, owner)])
  }

  /** A signed transaction that keeps a positive part of its input executes: the spent output is
      gone, the new one is all the store, and the fee is in the reward total as far as it was cast. */
  lemma SimpleSpendExecutes(c: Crypto, owner: H256, value: U128, kept: U128, a: H512)
    requires 0 < kept <= value
    requires var t := SimpleSpend(c, owner, value, kept, a);
             && c.verify(a, Payload(t), owner)
             && OutputKey(c, t, 0) != OnlyKey(c, TransactionOutput(value, owner))
    ensures var t := SimpleSpend(c, owner, value, kept, a);
            var r := FirstSpend(c, TransactionOutput(value, owner), t);
            && r.ExecutesAt(1)
            && r.At(2).utxos == map[OutputKey(c, t, 0) := TransactionOutput(kept, owner)]
            && r.At(2).rewardTotal == (value - kept) % TWO_64
  {
    hide Payload, OutputPreimage, GenesisPreimage;
    var o, t := TransactionOutput(value, owner), SimpleSpend(c, owner, value, kept, a);
    var store := map[OnlyKey(c, o) := o];
    FirstSpendStates(c, o, t);
    assert t.inputs[..0] == [];
    assert TotalIn(store, t.inputs) == value;
    OneOutput(c, t);
    MissingMeans(store, t.inputs);
    assert OutpointSet(t) == {OnlyKey(c, o)} && store - OutpointSet(t) == map[];
    hide TotalIn, TotalOut, Missing, OutputKey;
    assert WithOutputs(c, map[], t, 0) == map[];
  }

  /** Neither is the cast harmless: a signed transaction with a fee of 2^64 executes in the first
      block and the whole fee disappears. */
  lemma LargeFeeVanishes(c: Crypto, owner: H256, a: H512)
    requires var t := SimpleSpend(c, owner, TWO_64 + 1, 1, a);
             && c.verify(a, Payload(t), owner)
             && OutputKey(c, t, 0) != OnlyKey(c, TransactionOutput(TWO_64 + 1, owner))
    ensures var t := SimpleSpend(c, owner, TWO_64 + 1, 1, a);
            var r := FirstSpend(c, TransactionOutput(TWO_64 + 1, owner), t);
            && r.ExecutesAt(1) && Distinct(Outpoints(t))
            && Supply(r.At(0)) == TWO_64 + 1 && Supply(r.At(2)) == 1
  {
    hide Payload, OutputPreimage, GenesisPreimage, Next;
    var o, t := TransactionOutput(TWO_64 + 1, owner), SimpleSpend(c, owner, TWO_64 + 1, 1, a);
    FirstSpendStates(c, o, t);
    SimpleSpendExecutes(c, owner, TWO_64 + 1, 1, a);
    var left := map[OutputKey(c, t, 0) := t.outputs[0]];
    SumWithout(left, OutputKey(c, t, 0));
    assert left - {OutputKey(c, t, 0)} == map[];
  }
}

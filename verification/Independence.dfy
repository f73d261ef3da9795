/** When transactions get in each other's way and when they do not, and what the pool's tags say
    about it. */
module Independence {
  import opened Scale
  import opened Transactions
  import opened Ledger
  import opened Runs

  ghost predicate SameEntry(a: Store, b: Store, key: H256) {
    (key in a <==> key in b) && (key in a ==> a[key] == b[key])
  }

  ghost predicate Present(store: Store, t: Transaction) {
    forall i :: i in t.inputs ==> i.outpoint in store
  }

  // ---------------------------------------------------------------- validity is local

  lemma {:induction false} TotalsLocal(a: Store, b: Store, inputs: seq<TransactionInput>)
    requires forall i :: i in inputs && i.outpoint in b ==> i.outpoint in a && b[i.outpoint] == a[i.outpoint]
    ensures TotalIn(b, inputs) <= TotalIn(a, inputs)
    ensures (forall i :: i in inputs ==> SameEntry(a, b, i.outpoint)) ==>
              TotalIn(b, inputs) == TotalIn(a, inputs) && Missing(b, inputs) == Missing(a, inputs)
  {
    if inputs != [] {
      var front, last := inputs[..|inputs| - 1], inputs[|inputs| - 1];
      assert inputs == front + [last];
      assert forall i :: i in front ==> i in inputs;
      TotalsLocal(a, b, front);
      assert last in inputs;
    }
  }

  /** A valid transaction stays valid in any store that has its inputs unchanged and none of its
      new keys, whatever else happened. It also stays valid when inputs are missing there. */
  lemma ValidityIsLocal(c: Crypto, a: Store, b: Store, t: Transaction)
    requires Valid(c, a, t)
    requires forall i :: i in t.inputs && i.outpoint in b ==> i.outpoint in a && b[i.outpoint] == a[i.outpoint]
    requires forall key :: key in OutputKeys(c, t) ==> key !in b
    ensures (forall i :: i in t.inputs ==> SameEntry(a, b, i.outpoint)) ==>
              Valid(c, b, t) && TotalIn(b, t.inputs) == TotalIn(a, t.inputs)
    ensures Missing(b, t.inputs) != [] ==> Valid(c, b, t)
  {
    hide OutputKeys, Payload;
    TotalsLocal(a, b, t.inputs);
    forall i | 0 <= i < |t.inputs| ensures Signed(c, b, t, i) {
      assert t.inputs[i] in t.inputs && Signed(c, a, t, i);
    }
  }

  // ---------------------------------------------------------------- what a spend leaves in the store

  /** The outputs of `t` under their keys. */
  function Written(c: Crypto, t: Transaction): Store {
    WithOutputs(c, map[], t, |t.outputs|)
  }

  lemma {:induction false} WithOutputsAdds(c: Crypto, m: Store, t: Transaction, n: nat)
    requires n <= |t.outputs|
    ensures WithOutputs(c, m, t, n) == m + WithOutputs(c, map[], t, n)
  {
    hide OutputKey;
    if n > 0 {
      WithOutputsAdds(c, m, t, n - 1);
    }
  }

  lemma ApplyAdds(c: Crypto, store: Store, t: Transaction)
    ensures Apply(c, store, t) == store - OutpointSet(t) + Written(c, t)
    ensures Written(c, t).Keys == Elements(OutputKeys(c, t))
  {
    hide OutputKey, OutputKeys;
    WithOutputsAdds(c, store - OutpointSet(t), t, |t.outputs|);
    var empty: Store := map[];
    assert empty - OutpointSet(t) == empty;
    ApplyKeys(c, empty, t);
  }

  lemma PresentMeans(store: Store, t: Transaction)
    ensures Present(store, t) <==> OutpointSet(t) <= store.Keys
  {
    assert forall i :: i in t.inputs ==> i.outpoint in OutpointSet(t);
  }

  /** Neither transaction spends an output the other one spends, nor creates one the other creates. */
  ghost predicate Independent(c: Crypto, t: Transaction, u: Transaction) {
    && OutpointSet(t) !! OutpointSet(u)
    && Elements(OutputKeys(c, t)) !! Elements(OutputKeys(c, u))
  }

  /** A spend does not disturb an independent transaction. */
  lemma Undisturbed(c: Crypto, store: Store, t: Transaction, u: Transaction)
    requires Valid(c, store, t) && Valid(c, store, u) && Present(store, u) && Independent(c, t, u)
    ensures Valid(c, Apply(c, store, t), u) && Present(Apply(c, store, t), u)
    ensures Fee(Apply(c, store, t), u) == Fee(store, u)
  {
    hide OutputKeys, OutputKey;
    var after := Apply(c, store, t);
    ApplyKeys(c, store, t);
    forall i | i in u.inputs ensures SameEntry(store, after, i.outpoint) {
      assert i.outpoint in OutpointSet(u);
    }
    forall key | key in OutputKeys(c, u) ensures key !in after {
      assert key in Elements(OutputKeys(c, u));
    }
    ValidityIsLocal(c, store, after, u);
  }

  lemma StoresCommute(c: Crypto, store: Store, t: Transaction, u: Transaction)
    requires Valid(c, store, t) && Valid(c, store, u) && Present(store, t) && Present(store, u)
    requires Independent(c, t, u)
    ensures Apply(c, Apply(c, store, t), u) == Apply(c, Apply(c, store, u), t)
  {
    hide OutputKeys, OutputKey, Apply, Written;
    ApplyAdds(c, store, t);
    ApplyAdds(c, store, u);
    ApplyAdds(c, Apply(c, store, t), u);
    ApplyAdds(c, Apply(c, store, u), t);
    PresentMeans(store, t);
    PresentMeans(store, u);
    MapsCommute(store, OutpointSet(t), Written(c, t), OutpointSet(u), Written(c, u));
  }

  lemma MapsCommute(m: Store, gone: set<H256>, come: Store, gone': set<H256>, come': Store)
    requires come.Keys !! gone' && come'.Keys !! gone && come.Keys !! come'.Keys
    ensures m - gone + come - gone' + come' == m - gone' + come' - gone + come
  {
  }

  /** Independent spends commute: both go through in either order, to the same state. */
  lemma SpendsCommute(c: Crypto, s: State, t: Transaction, u: Transaction)
    requires s.inBlock && Valid(c, s.utxos, t) && Valid(c, s.utxos, u)
    requires Present(s.utxos, t) && Present(s.utxos, u) && Independent(c, t, u)
    requires s.rewardTotal + CastFee(s.utxos, t) + CastFee(s.utxos, u) < TWO_128
    ensures var afterT, afterU := Next(c, s, Spend(t)), Next(c, s, Spend(u));
            && Executes(c, s, Spend(t)) && Executes(c, s, Spend(u))
            && Executes(c, afterT, Spend(u)) && Executes(c, afterU, Spend(t))
            && Next(c, afterT, Spend(u)) == Next(c, afterU, Spend(t))
  {
    Undisturbed(c, s.utxos, t, u);
    Undisturbed(c, s.utxos, u, t);
    StoresCommute(c, s.utxos, t, u);
    hide Valid, Apply, Fee, Independent, OutpointSet;
  }

  /** Of two spends that share an outpoint the second is rejected, and if it was fine before and
      creates other keys, then exactly with "missing inputs". */
  lemma SecondSpendRejected(c: Crypto, s: State, t: Transaction, u: Transaction, key: H256)
    requires Executes(c, s, Spend(t))
    requires key in OutpointSet(t) && key in OutpointSet(u)
    ensures !Executes(c, Next(c, s, Spend(t)), Spend(u))
    ensures Valid(c, s.utxos, u) && Present(s.utxos, u)
            && Elements(OutputKeys(c, t)) !! Elements(OutputKeys(c, u)) ==>
              var after := Next(c, s, Spend(t));
              forall e :: SpendRejects(c, after.utxos, after.rewardTotal, u, e) <==> e == MissingInputs
  {
    hide OutputKeys, OutputKey, Apply;
    var after := Next(c, s, Spend(t)).utxos;
    ApplyKeys(c, s.utxos, t);
    PresentMeans(s.utxos, t);
    MissingMeans(after, u.inputs);
    assert key in s.utxos && key !in after;
    if Valid(c, s.utxos, u) && Present(s.utxos, u) && Elements(OutputKeys(c, t)) !! Elements(OutputKeys(c, u)) {
      RejectedAsMissing(c, s, t, u);
      ValidOrRejected(c, after, u);
      hide Valid, Rejects, Missing;
    }
  }

  lemma RejectedAsMissing(c: Crypto, s: State, t: Transaction, u: Transaction)
    requires Executes(c, s, Spend(t)) && Valid(c, s.utxos, u) && Present(s.utxos, u)
    requires Elements(OutputKeys(c, t)) !! Elements(OutputKeys(c, u))
    requires Missing(Apply(c, s.utxos, t), u.inputs) != []
    ensures Valid(c, Apply(c, s.utxos, t), u)
  {
    hide OutputKeys, OutputKey, Apply;
    var after := Apply(c, s.utxos, t);
    ApplyKeys(c, s.utxos, t);
    forall key | key in OutputKeys(c, u) ensures key !in after {
      assert key in Elements(OutputKeys(c, u));
    }
    ValidityIsLocal(c, s.utxos, after, u);
  }

  // ---------------------------------------------------------------- the pool's tags

  /** The tags tell what a spend will do: the provided tags are the keys that it adds, output `k`
      under tag `k`, and the priority is what it adds to the reward total. */
  lemma TagsForetell(c: Crypto, s: State, t: Transaction)
    ensures var tags := Tags(c, s.utxos, t);
            && |tags.providedTags| == |t.outputs|
            && Apply(c, s.utxos, t).Keys == s.utxos.Keys - OutpointSet(t) + Elements(tags.providedTags)
            && (Distinct(tags.providedTags) ==>
                  forall k :: 0 <= k < |t.outputs| ==>
                    tags.providedTags[k] in Apply(c, s.utxos, t)
                    && Apply(c, s.utxos, t)[tags.providedTags[k]] == t.outputs[k])
            && (tags.requiredTags != [] ==> tags.priority == 0)
            && (Executes(c, s, Spend(t)) ==>
                  tags.requiredTags == []
                  && Next(c, s, Spend(t)).rewardTotal == s.rewardTotal + tags.priority)
  {
    ApplyKeys(c, s.utxos, t);
    MissingMeans(s.utxos, t.inputs);
    if Distinct(OutputKeys(c, t)) {
      OutputsUnderKeys(c, s.utxos - OutpointSet(t), t, |t.outputs|);
    }
    hide OutputKey, OutputKeys, Apply, Valid, Missing;
  }

  lemma {:induction false} OutputsUnderKeys(c: Crypto, m: Store, t: Transaction, n: nat)
    requires n <= |t.outputs| && Distinct(OutputKeys(c, t))
    ensures forall k :: 0 <= k < n ==>
              OutputKeys(c, t)[k] in WithOutputs(c, m, t, n)
              && WithOutputs(c, m, t, n)[OutputKeys(c, t)[k]] == t.outputs[k]
  {
    hide OutputKey;
    if n > 0 {
      OutputsUnderKeys(c, m, t, n - 1);
      assert OutputKeys(c, t)[n - 1] == OutputKey(c, t, n - 1);
    }
  }

  /** The required tags are the outpoints of the inputs that are absent, in input order. */
  lemma RequiredTagsAreAbsent(c: Crypto, store: Store, t: Transaction) returns (at: seq<nat>)
    ensures var required := Tags(c, store, t).requiredTags;
            PicksAbsent(store, t.inputs, at) && PickedOutpoints(t.inputs, at, required)
  {
    at := MissingInOrder(store, t.inputs);
  }

  /** Whether a child is ready is decided by the tags that validation returned: after the parent's
      spend the child requires nothing more exactly when every tag it required is one the parent
      provided, unless the parent spent one of the child's own inputs. */
  lemma ParentMakesChildReady(c: Crypto, store: Store, rewardTotal: U128, parent: Transaction, child: Transaction)
    requires Spendable(c, store, rewardTotal, parent)
    ensures var after := Apply(c, store, parent);
            Tags(c, after, child).requiredTags == [] <==>
              && OutpointSet(parent) !! OutpointSet(child)
              && forall key :: key in Tags(c, store, child).requiredTags ==>
                   key in Tags(c, store, parent).providedTags
  {
    hide OutputKeys, OutputKey, Apply, Valid, Missing;
    var after := Apply(c, store, parent);
    assert Tags(c, store, parent).providedTags == OutputKeys(c, parent);
    assert Tags(c, after, child).requiredTags == Missing(after, child.inputs);
    assert Tags(c, store, child).requiredTags == Missing(store, child.inputs);
    hide Tags;
    ApplyKeys(c, store, parent);
    MissingMeans(store, child.inputs);
    MissingMeans(after, child.inputs);
    PresentMeans(store, parent);
    SpentNotProvided(c, store, rewardTotal, parent);
    PresentMeans(after, child);
    assert Present(after, child) <==> Missing(after, child.inputs) == [];
  }

  lemma SpentNotProvided(c: Crypto, store: Store, rewardTotal: U128, t: Transaction)
    requires Spendable(c, store, rewardTotal, t)
    ensures OutpointSet(t) !! Elements(OutputKeys(c, t))
  {
    hide OutputKeys, OutputKey;
  }
}

/** What a run's history tells about its present: where each unspent output came from, who allowed
    a spent one to go, and where the fees went. */
module History {
  import opened Scale
  import opened Transactions
  import opened Ledger
  import opened IssuanceSchedule
  import opened Runs
  import opened MoneySupply
  import SpendValue

  // ---------------------------------------------------------------- where outputs come from

  ghost predicate WrittenBySpend(r: Run, i: nat, key: H256, o: TransactionOutput)
    requires i < |r.steps|
  {
    && r.ExecutesAt(i)
    && exists k :: 0 <= k < |r.steps[i].t.outputs| && WrittenAt(r.crypto, r.steps[i].t, k, key, o)
  }

  ghost predicate WrittenAt(c: Crypto, t: Transaction, k: nat, key: H256, o: TransactionOutput)
    requires k < |t.outputs|
  {
    key == OutputKey(c, t, k) && o == t.outputs[k]
  }

  ghost predicate WrittenByPayout(r: Run, i: nat, key: H256, o: TransactionOutput)
    requires i < |r.steps|
  {
    r.PaysOutAt(i) && key == RewardKey(r.crypto, r.At(i)) && o == RewardOutput(r.At(i))
  }

  ghost predicate WrittenByGenesis(r: Run, key: H256, o: TransactionOutput) {
    o in r.genesis && key == r.crypto.blake2(GenesisPreimage(o))
  }

  lemma {:induction false} EntryOfWithOutputs(c: Crypto, m: Store, t: Transaction, n: nat, key: H256)
    requires n <= |t.outputs| && key in WithOutputs(c, m, t, n)
    ensures var o := WithOutputs(c, m, t, n)[key];
            (key in m && m[key] == o) || exists k :: 0 <= k < n && WrittenAt(c, t, k, key, o)
  {
    hide OutputKey;
    if n > 0 {
      if key == OutputKey(c, t, n - 1) {
        assert WrittenAt(c, t, n - 1, key, t.outputs[n - 1]);
      } else {
        EntryOfWithOutputs(c, m, t, n - 1, key);
      }
    }
  }

  lemma {:induction false} EntryOfGenesis(r: Run, n: nat, key: H256)
    requires n <= |r.genesis| && key in GenesisStore(r.crypto, r.genesis[..n])
    ensures WrittenByGenesis(r, key, GenesisStore(r.crypto, r.genesis[..n])[key])
  {
    hide GenesisPreimage;
    if n > 0 {
      assert r.genesis[..n][..n - 1] == r.genesis[..n - 1];
      var last := r.genesis[n - 1];
      assert r.genesis[..n][n - 1] == last;
      if key != r.crypto.blake2(GenesisPreimage(last)) {
        EntryOfGenesis(r, n - 1, key);
      }
    }
  }

  /** Every unspent output is exactly what some genesis entry, executed transaction or payout wrote
      under its key. No hypothesis on the hash. */
  lemma {:induction false} Provenance(r: Run, n: nat, key: H256)
    requires n <= |r.steps| && key in r.At(n).utxos
    ensures var o := r.At(n).utxos[key];
            || WrittenByGenesis(r, key, o)
            || (exists i :: 0 <= i < n && WrittenBySpend(r, i, key, o))
            || (exists i :: 0 <= i < n && WrittenByPayout(r, i, key, o))
  {
    hide Executes, NewPreimages, GenesisPreimage, OutputKey;
    if n == 0 {
      assert r.genesis[..|r.genesis|] == r.genesis;
      EntryOfGenesis(r, |r.genesis|, key);
    } else {
      EntryOfStep(r, n - 1, key);
      if key in r.At(n - 1).utxos && r.At(n - 1).utxos[key] == r.At(n).utxos[key] {
        Provenance(r, n - 1, key);
      }
    }
  }

  lemma EntryOfStep(r: Run, i: nat, key: H256)
    requires i < |r.steps| && key in r.At(i + 1).utxos
    ensures var o := r.At(i + 1).utxos[key];
            || (key in r.At(i).utxos && r.At(i).utxos[key] == o)
            || WrittenBySpend(r, i, key, o)
            || WrittenByPayout(r, i, key, o)
  {
    hide Spendable, OutputPreimage, RewardPreimage, Fee;
    if r.ExecutesAt(i) {
      var t := r.steps[i].t;
      EntryOfWithOutputs(r.crypto, r.At(i).utxos - OutpointSet(t), t, |t.outputs|, key);
    }
  }

  /** Only a genesis entry or a payout can leave an output of value 0. */
  lemma ZeroValueOrigin(r: Run, n: nat, key: H256)
    requires n <= |r.steps| && key in r.At(n).utxos && r.At(n).utxos[key].value == 0
    ensures var o := r.At(n).utxos[key];
            WrittenByGenesis(r, key, o) || exists i :: 0 <= i < n && WrittenByPayout(r, i, key, o)
  {
    hide Next, OutputPreimage, GenesisPreimage;
    Provenance(r, n, key);
    var o := r.At(n).utxos[key];
    forall i | 0 <= i < n ensures !WrittenBySpend(r, i, key, o) {
      if r.ExecutesAt(i) {
        assert forall p :: p in r.steps[i].t.outputs ==> p.value > 0;
      }
    }
  }

  // ---------------------------------------------------------------- who allowed a removal

  /** An output that is still there is unchanged. */
  lemma StepKeepsEntry(r: Run, i: nat, key: H256)
    requires i < |r.steps| && r.CollisionFree(i + 1)
    requires key in r.At(i).utxos && key in r.At(i + 1).utxos
    ensures r.At(i + 1).utxos[key] == r.At(i).utxos[key]
  {
    NeverCreatedTwice(r, i);
    hide NewPreimages, OutputPreimage, RewardPreimage, Fee, Apply;
    if r.ExecutesAt(i) {
      ApplyKeys(r.crypto, r.At(i).utxos, r.steps[i].t);
    }
  }

  /** Nothing leaves the store without its owner: between a moment when an output is there and one
      when it is not, some step executed a transaction that names it with a sigscript accepted
      under that very output's key, over the transaction with its sigscripts stripped. */
  lemma {:induction false} AuthorisedRemoval(r: Run, i: nat, j: nat, key: H256)
    returns (m: nat, input: TransactionInput)
    requires i <= j <= |r.steps| && r.CollisionFree(j)
    requires key in r.At(i).utxos && key !in r.At(j).utxos
    ensures i <= m < j && r.ExecutesAt(m)
    ensures input in r.steps[m].t.inputs && input.outpoint == key
    ensures r.crypto.verify(input.sigscript, Payload(r.steps[m].t), r.At(i).utxos[key].pubkey)
    decreases j - i
  {
    hide Next, NewPreimages, Payload, Executes;
    PreimagesGrow(r, i + 1, j);
    if key in r.At(i + 1).utxos {
      StepKeepsEntry(r, i, key);
      m, input := AuthorisedRemoval(r, i + 1, j, key);
    } else {
      m := i;
      input := AuthorisedStep(r, i, key);
    }
  }

  lemma AuthorisedStep(r: Run, i: nat, key: H256) returns (input: TransactionInput)
    requires i < |r.steps| && key in r.At(i).utxos && key !in r.At(i + 1).utxos
    ensures r.ExecutesAt(i) && input in r.steps[i].t.inputs && input.outpoint == key
    ensures r.crypto.verify(input.sigscript, Payload(r.steps[i].t), r.At(i).utxos[key].pubkey)
  {
    StepKeys(r, i);
    hide NewPreimages, Next, Payload, OutputKeys;
    var t := r.steps[i].t;
    var l :| 0 <= l < |t.inputs| && t.inputs[l].outpoint == key;
    input := t.inputs[l];
    assert Signed(r.crypto, r.At(i).utxos, t, l);
  }

  // ---------------------------------------------------------------- who is paid

  /** Once an author is set, it stays until the block ends; no height opens a second block. */
  lemma {:induction false} AuthorStays(r: Run, j: nat, n: nat)
    requires j < n <= |r.steps| && r.At(j).inBlock && r.At(n).inBlock && r.At(j).height == r.At(n).height
    requires r.steps[j].SetAuthor? || r.At(j).author.Some?
    ensures r.At(n).author.Some?
    ensures r.At(j).author.Some? ==> r.At(n).author == r.At(j).author
  {
    hide Executes, Apply, Issuance, RewardPreimage;
    if j + 1 < n {
      HeightsGrow(r, j, n - 1);
      assert r.At(n - 1).inBlock;
      AuthorStays(r, j, n - 1);
    }
  }

  /** The key that a block pays is the one of the first author call in that block. */
  lemma {:induction false} PaidAuthorIsFirst(r: Run, n: nat) returns (i: nat)
    requires n <= |r.steps| && r.At(n).inBlock && r.At(n).author.Some?
    ensures i < n && r.steps[i] == SetAuthor(r.At(n).author.value)
    ensures r.At(i).inBlock && r.At(i).height == r.At(n).height
    ensures forall j :: 0 <= j < i && r.At(j).inBlock && r.At(j).height == r.At(n).height ==> !r.steps[j].SetAuthor?
  {
    hide Executes, Apply, Issuance, RewardPreimage;
    if r.At(n - 1).inBlock && r.At(n - 1).author.Some? {
      i := PaidAuthorIsFirst(r, n - 1);
    } else {
      i := n - 1;
      forall j | 0 <= j < i && r.At(j).inBlock && r.At(j).height == r.At(n).height ensures !r.steps[j].SetAuthor? {
        if r.steps[j].SetAuthor? {
          AuthorStays(r, j, i);
        }
      }
    }
  }

  // ---------------------------------------------------------------- where the fees go

  /** The fees, as cast, of the transactions executed in steps `m` to `n - 1`. */
  ghost function Fees(r: Run, m: nat, n: nat): nat
    requires m <= n <= |r.steps|
  {
    if m == n then 0
    else Fees(r, m, n - 1)
         + if r.ExecutesAt(n - 1) then CastFee(r.At(n - 1).utxos, r.steps[n - 1].t) else 0
  }

  /** The run starts at `m`, or a payout was made just before. */
  ghost predicate AccountOpens(r: Run, m: nat)
    requires m <= |r.steps|
  {
    m == 0 || r.PaysOutAt(m - 1)
  }

  /** The reward total is the fees since the last payout, however many blocks without an author
      lie between. */
  lemma {:induction false} RewardTotalIsFees(r: Run, m: nat, n: nat)
    requires m <= n <= |r.steps| && AccountOpens(r, m)
    requires forall i :: m <= i < n ==> !r.PaysOutAt(i)
    ensures r.At(n).rewardTotal == Fees(r, m, n)
  {
    hide Spendable, Apply, CastFee;
    if m < n {
      RewardTotalIsFees(r, m, n - 1);
      assert !r.PaysOutAt(n - 1);
    }
  }

  /** A payout writes one output: the fees since the payout before it, plus the issuance of its own
      height only. Blocks without an author carry their fees over and lose their issuance. */
  lemma PayoutIsFeesAndIssuance(r: Run, m: nat, n: nat)
    requires m <= n < |r.steps| && AccountOpens(r, m) && r.PaysOutAt(n)
    requires forall i :: m <= i < n ==> !r.PaysOutAt(i)
    ensures var reward := (Fees(r, m, n) + Issuance(r.At(n).height)) % TWO_128;
            var paid := TransactionOutput(reward, r.At(n).author.value);
            && r.At(n + 1).utxos == r.At(n).utxos[r.crypto.blake2(RewardPreimage(paid, r.At(n).height)) := paid]
            && r.At(n + 1).rewardTotal == 0
  {
    hide Spendable, Apply, Fees, RewardPreimage;
    RewardTotalIsFees(r, m, n);
  }

  /** The value of all payouts in the first `n` steps. */
  ghost function Paid(r: Run, n: nat): nat
    requires n <= |r.steps|
  {
    if n == 0 then 0
    else Paid(r, n - 1) + if r.PaysOutAt(n - 1) then RewardOutput(r.At(n - 1)).value else 0
  }

  /** Authors receive every fee and every issued unit exactly once: payouts so far and the reward
      total are all fees so far and all issuance so far. */
  lemma {:induction false} AuthorsAreOwedFees(r: Run, n: nat)
    requires n <= |r.steps|
    requires forall i :: 0 <= i < n && r.PaysOutAt(i) ==> LostBy(r, i) == 0
    ensures Paid(r, n) + r.At(n).rewardTotal == Fees(r, 0, n) + Issued(r, n)
  {
    hide Spendable, Apply, CastFee, Issuance, SpendValue.Truncation;
    if n > 0 {
      AuthorsAreOwedFees(r, n - 1);
      assert r.PaysOutAt(n - 1) ==> LostBy(r, n - 1) == 0;
    }
  }
}

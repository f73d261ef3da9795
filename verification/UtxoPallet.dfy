/** The pallet itself: storage updated in place, by the loops of the source. `Chain` also holds
    what the pallet reads from its surroundings: the block height and the author slot. Its ghost
    history ties every reachable object to a run, so that the theorems about runs apply to it. */
module UtxoPallet {
  import opened Scale
  import opened Transactions
  import opened Ledger
  import opened Runs
  import opened IssuanceSchedule
  import opened BlockAuthor
  import SpendValue
  import MoneySupply

  lemma {:induction false} AtPrefix(r: Run, step: Step, n: nat)
    requires n <= |r.steps|
    ensures r.(steps := r.steps + [step]).At(n) == r.At(n)
  {
    hide Next;
    if n > 0 {
      AtPrefix(r, step, n - 1);
    }
  }

  /** One more step of history is one step of the state machine. */
  lemma StepAppended(r: Run, step: Step)
    ensures var more := r.(steps := r.steps + [step]);
            more.At(|more.steps|) == Next(r.crypto, r.At(|r.steps|), step)
  {
    hide Next;
    AtPrefix(r, step, |r.steps|);
  }

  class Chain {
    const crypto: Crypto
    const genesis: seq<TransactionOutput>
    const slot: AuthorSlot
    var utxoStore: Store
    var rewardTotal: U128
    var height: U32
    ghost var inBlock: bool
    ghost var history: seq<Step>

    ghost function CurrentState(): State
      reads this, slot
    {
      State(utxoStore, rewardTotal, slot.author, height, inBlock)
    }

    ghost function History(): Run
      reads this
    {
      Run(crypto, genesis, history)
    }

    ghost predicate Valid()
      reads this, slot
    {
      CurrentState() == History().At(|history|)
    }

    constructor (crypto: Crypto, genesis: seq<TransactionOutput>)
      ensures Valid() && fresh(slot)
      ensures this.crypto == crypto && this.genesis == genesis && history == []
      ensures utxoStore == GenesisStore(crypto, genesis) && rewardTotal == 0
      ensures height == 0 && slot.author == None && !inBlock
    {
      this.crypto := crypto;
      this.genesis := genesis;
      this.slot := new AuthorSlot();
      utxoStore := map[];
      rewardTotal := 0;
      height := 0;
      inBlock := false;
      history := [];
      new;
      for i := 0 to |genesis|
        invariant utxoStore == GenesisStore(crypto, genesis[..i])
        invariant rewardTotal == 0 && height == 0 && !inBlock && history == [] && slot.author == None
        invariant this.crypto == crypto && this.genesis == genesis && fresh(slot)
      {
        assert genesis[..i + 1][..i] == genesis[..i];
        utxoStore := utxoStore[crypto.blake2(GenesisPreimage(genesis[i])) := genesis[i]];
      }
      assert genesis[..|genesis|] == genesis;
    }

    /** The message that the signatures of `t` sign: sigscripts zeroed one by one in a copy. */
    static method GetSimpleTransaction(t: Transaction) returns (bs: Bytes)
      ensures bs == Payload(t)
      ensures var d := Decode(bs);
              && d.Done? && d.rest == [] && Outpoints(d.value) == Outpoints(t) && d.value.outputs == t.outputs
              && forall i, b :: 0 <= i < |t.inputs| && 0 <= b < 64 ==> d.value.inputs[i].sigscript[b] == 0
    {
      PayloadReadsBack(t);
      hide Decode;
      var trx: TransactionData := t;
      for i := 0 to |t.inputs|
        invariant |trx.inputs| == |t.inputs| && trx.outputs == t.outputs
        invariant forall j :: 0 <= j < |t.inputs| ==>
          trx.inputs[j] == if j < i then t.inputs[j].(sigscript := ZERO_SIGSCRIPT) else t.inputs[j]
      {
        trx := trx.(inputs := trx.inputs[i := trx.inputs[i].(sigscript := ZERO_SIGSCRIPT)]);
      }
      assert trx.inputs == Strip(t).inputs;
      return Encode(trx);
    }

    method GetMissingUtxos(t: Transaction) returns (missing: seq<H256>)
      ensures missing == Missing(utxoStore, t.inputs)
    {
      missing := [];
      for i := 0 to |t.inputs|
        invariant missing == Missing(utxoStore, t.inputs[..i])
      {
        assert t.inputs[..i + 1][..i] == t.inputs[..i];
        if t.inputs[i].outpoint !in utxoStore {
          missing := missing + [t.inputs[i].outpoint];
        }
      }
      assert t.inputs[..|t.inputs|] == t.inputs;
    }

    /** Accepts exactly the valid transactions, and names the first failing check of the others. */
    method ValidateTransaction(t: Transaction) returns (r: Result<ValidTransaction>)
      ensures r.Ok? <==> Ledger.Valid(crypto, utxoStore, t)
      ensures r.Ok? ==> r.value == Tags(crypto, utxoStore, t)
      ensures r.Err? ==> Rejects(crypto, utxoStore, t, r.error)
    {
      ValidOrRejected(crypto, utxoStore, t);
      AllChecksPass(crypto, utxoStore, t);
      RejectedShape(crypto, utxoStore, t);
      OverspendRejected(crypto, utxoStore, t);
      hide Ledger.Valid, Rejects, ShapeOk, Missing, OutputKeys, OutputsOk, TotalIn, TotalOut;
      if t.inputs == [] {
        return Err(NoInputs);
      }
      if t.outputs == [] {
        return Err(NoOutputs);
      }
      if |Elements(t.inputs)| != |t.inputs| {
        return Err(DuplicateInput);
      }
      if |Elements(t.outputs)| != |t.outputs| {
        return Err(DuplicateOutput);
      }

      var inputs := ValidateInputs(t);
      if inputs.Err? {
        return Err(inputs.error);
      }
      var (totalInput, missing) := inputs.value;
      var outputs := ValidateOutputs(t);
      if outputs.Err? {
        return Err(outputs.error);
      }
      var (totalOutput, newUtxos) := outputs.value;

      var reward: U128 := 0;
      if missing == [] {
        if totalInput < totalOutput {
          return Err(Overspend);
        }
        reward := totalInput - totalOutput;
      }
      return Ok(ValidTransaction(missing, newUtxos, reward % TWO_64));
    }

    /** The first loop of validation: signatures, the input total and the missing outpoints. */
    method ValidateInputs(t: Transaction) returns (r: Result<(U128, seq<H256>)>)
      requires ShapeOk(t)
      ensures r.Ok? <==> InputsPass(crypto, utxoStore, t)
      ensures r.Ok? ==> r.value == (TotalIn(utxoStore, t.inputs), Missing(utxoStore, t.inputs))
      ensures r.Err? ==> Rejects(crypto, utxoStore, t, r.error)
    {
      NothingChecked(crypto, utxoStore, t);
      assert t.inputs[..|t.inputs|] == t.inputs;
      hide Rejects, ShapeOk, Missing, TotalIn, Payload;
      var totalInput: U128 := 0;
      var simple := GetSimpleTransaction(t);
      var missing: seq<H256> := [];
      for i := 0 to |t.inputs|
        invariant InputsOk(crypto, utxoStore, t, i)
        invariant totalInput == RunningIn(utxoStore, t, i)
        invariant missing == Missing(utxoStore, t.inputs[..i])
      {
        var input := t.inputs[i];
        NextInput(crypto, utxoStore, t, i);
        if input.outpoint in utxoStore {
          var utxo := utxoStore[input.outpoint];
          if !crypto.verify(input.sigscript, simple, utxo.pubkey) {
            RejectedInput(crypto, utxoStore, t, i);
            return Err(InvalidSignature);
          }
          if totalInput + utxo.value >= TWO_128 {
            RejectedInput(crypto, utxoStore, t, i);
            return Err(InputOverflow);
          }
          totalInput := totalInput + utxo.value;
        } else {
          missing := missing + [input.outpoint];
        }
      }
      return Ok((totalInput, missing));
    }

    /** The second loop of validation: values, fresh keys and the output total. */
    method ValidateOutputs(t: Transaction) returns (r: Result<(U128, seq<H256>)>)
      requires InputsPass(crypto, utxoStore, t)
      ensures r.Ok? <==> OutputsOk(crypto, utxoStore, t, |t.outputs|)
      ensures r.Ok? ==> r.value == (TotalOut(t.outputs), OutputKeys(crypto, t))
      ensures r.Err? ==> Rejects(crypto, utxoStore, t, r.error)
    {
      NothingChecked(crypto, utxoStore, t);
      assert t.outputs[..|t.outputs|] == t.outputs;
      assert RunningOut(t, |t.outputs|) == TotalOut(t.outputs);
      hide Rejects, InputsPass, TotalOut, RunningOut, OutputPreimage, OutputKeys;
      var totalOutput: U128 := 0;
      var outputIndex: U64 := 0;
      var newUtxos: seq<H256> := [];
      for k := 0 to |t.outputs|
        invariant outputIndex == k
        invariant OutputsOk(crypto, utxoStore, t, k)
        invariant totalOutput == RunningOut(t, k)
        invariant newUtxos == OutputKeys(crypto, t)[..k]
      {
        var output := t.outputs[k];
        NextOutput(crypto, utxoStore, t, k);
        if output.value == 0 {
          RejectedOutput(crypto, utxoStore, t, k);
          return Err(ZeroOutput);
        }
        var key := crypto.blake2(OutputPreimage(t, outputIndex));
        if outputIndex + 1 >= TWO_64 {
          return Err(IndexOverflow);
        }
        outputIndex := outputIndex + 1;
        if key in utxoStore {
          RejectedOutput(crypto, utxoStore, t, k);
          return Err(OutputExists);
        }
        if totalOutput + output.value >= TWO_128 {
          RejectedOutput(crypto, utxoStore, t, k);
          return Err(OutputOverflow);
        }
        totalOutput := totalOutput + output.value;
        newUtxos := newUtxos + [key];
      }
      assert OutputKeys(crypto, t)[..|t.outputs|] == OutputKeys(crypto, t);
      return Ok((totalOutput, newUtxos));
    }

    /** Takes the fee, removes the inputs, writes the outputs. The only error leaves everything as
        it was: the index cannot overflow. */
    method UpdateStorage(t: Transaction, reward: U128) returns (r: Result<()>)
      modifies this`rewardTotal, this`utxoStore
      ensures r.Ok? <==> old(rewardTotal) + reward < TWO_128
      ensures r.Ok? ==> utxoStore == Apply(crypto, old(utxoStore), t) && rewardTotal == old(rewardTotal) + reward
      ensures r.Err? ==> r.error == RewardOverflow && utxoStore == old(utxoStore) && rewardTotal == old(rewardTotal)
    {
      hide OutputPreimage;
      if rewardTotal + reward >= TWO_128 {
        return Err(RewardOverflow);
      }
      rewardTotal := rewardTotal + reward;

      for i := 0 to |t.inputs|
        invariant rewardTotal == old(rewardTotal) + reward
        invariant utxoStore == old(utxoStore) - set x | x in t.inputs[..i] :: x.outpoint
      {
        utxoStore := utxoStore - {t.inputs[i].outpoint};
        assert t.inputs[..i + 1] == t.inputs[..i] + [t.inputs[i]];
      }
      assert t.inputs[..|t.inputs|] == t.inputs;

      ghost var remaining := utxoStore;
      var index: U64 := 0;
      for k := 0 to |t.outputs|
        invariant index == k
        invariant rewardTotal == old(rewardTotal) + reward
        invariant utxoStore == WithOutputs(crypto, remaining, t, k)
      {
        var key := crypto.blake2(OutputPreimage(t, index));
        if index + 1 >= TWO_64 {
          return Err(IndexOverflow);
        }
        index := index + 1;
        utxoStore := utxoStore[key := t.outputs[k]];
      }
      return Ok(());
    }

    /** `spend` succeeds exactly on spendable transactions; a failed call changes nothing. */
    method Spend(t: Transaction) returns (r: Result<()>)
      requires Valid() && inBlock
      modifies this`rewardTotal, this`utxoStore, this`history
      ensures Valid() && history == old(history) + [Step.Spend(t)]
      ensures r.Ok? <==> Spendable(crypto, old(utxoStore), old(rewardTotal), t)
      ensures r.Ok? ==> utxoStore == Apply(crypto, old(utxoStore), t)
      ensures r.Ok? ==> rewardTotal == old(rewardTotal) + CastFee(old(utxoStore), t)
      ensures r.Err? ==> utxoStore == old(utxoStore) && rewardTotal == old(rewardTotal)
      ensures r.Err? ==> SpendRejects(crypto, old(utxoStore), old(rewardTotal), t, r.error)
    {
      hide Ledger.Valid, Apply, Fee, Run.At;
      StepAppended(History(), Step.Spend(t));
      MissingMeans(utxoStore, t.inputs);
      r := Execute(t);
      history := history + [Step.Spend(t)];
    }

    /** The body of `spend`. */
    method Execute(t: Transaction) returns (r: Result<()>)
      modifies this`rewardTotal, this`utxoStore
      ensures r.Ok? <==> && Ledger.Valid(crypto, old(utxoStore), t) && Missing(old(utxoStore), t.inputs) == []
                         && old(rewardTotal) + CastFee(old(utxoStore), t) < TWO_128
      ensures r.Ok? ==> utxoStore == Apply(crypto, old(utxoStore), t)
      ensures r.Ok? ==> rewardTotal == old(rewardTotal) + CastFee(old(utxoStore), t)
      ensures r.Err? ==> utxoStore == old(utxoStore) && rewardTotal == old(rewardTotal)
      ensures r.Err? ==> SpendRejects(crypto, old(utxoStore), old(rewardTotal), t, r.error)
    {
      hide Ledger.Valid, Rejects, Apply;
      var validity := ValidateTransaction(t);
      if validity.Err? {
        return Err(validity.error);
      }
      if validity.value.requiredTags != [] {
        return Err(MissingInputs);
      }
      r := UpdateStorage(t, validity.value.priority);
    }

    method InitializeBlock()
      requires Valid() && !inBlock && height + 1 < TWO_32
      modifies this`height, this`inBlock, this`history, slot
      ensures Valid() && history == old(history) + [Step.InitializeBlock]
      ensures inBlock && height == old(height) + 1 && slot.author == None
    {
      StepAppended(History(), Step.InitializeBlock);
      height := height + 1;
      slot.OnInitialize();
      inBlock := true;
      history := history + [Step.InitializeBlock];
    }

    /** The author inherent; an attempt with another origin is no step of the chain. */
    method SetAuthor(key: H256) returns (r: SetAuthorResult)
      requires Valid() && inBlock
      modifies this`history, slot
      ensures Valid() && history == old(history) + [Step.SetAuthor(key)]
      ensures r == if old(slot.author) == None then Accepted else AuthorAlreadySet
      ensures slot.author == if r == Accepted then Some(key) else old(slot.author)
    {
      StepAppended(History(), Step.SetAuthor(key));
      r := slot.SetAuthor(true, key);
      history := history + [Step.SetAuthor(key)];
    }

    /** End of block: the author, if there is one, gets the accumulated fees and the issuance. */
    method OnFinalize()
      requires Valid() && inBlock
      modifies this`rewardTotal, this`utxoStore, this`inBlock, this`history
      ensures Valid() && !inBlock && history == old(history) + [FinalizeBlock]
      ensures slot.author == None ==> utxoStore == old(utxoStore) && rewardTotal == old(rewardTotal)
      ensures slot.author.Some? ==>
                var reward := (old(rewardTotal) + Issuance(height)) % TWO_128;
                var paid := TransactionOutput(reward, slot.author.value);
                rewardTotal == 0 && utxoStore == old(utxoStore)[crypto.blake2(RewardPreimage(paid, height)) := paid]
    {
      StepAppended(History(), FinalizeBlock);
      hide Run.At, Executes, RewardPreimage, EncodeOutput, Issuance;
      match slot.author {
        case None =>
        case Some(author) => DisperseReward(author);
      }
      inBlock := false;
      history := history + [FinalizeBlock];
    }

    method DisperseReward(author: H256)
      modifies this`rewardTotal, this`utxoStore
      ensures rewardTotal == 0
      ensures var paid := TransactionOutput((old(rewardTotal) + Issuance(height)) % TWO_128, author);
              utxoStore == old(utxoStore)[crypto.blake2(RewardPreimage(paid, height)) := paid]
    {
      var reward: U128 := (rewardTotal + Issuance(height)) % TWO_128;
      rewardTotal := 0;
      var utxo := TransactionOutput(reward, author);
      var key := crypto.blake2(RewardPreimage(utxo, height));
      utxoStore := utxoStore[key := utxo];
    }
  }

  /** The theorems about runs hold of every `Valid` object, and those are what the constructor makes
      and what `InitializeBlock`, `SetAuthor`, `Spend` and `OnFinalize` keep (the other methods are
      their inner steps): what was spent is not in its store, and its store and reward total hold
      exactly the genesis value and the issuance of the blocks that had an author. */
  lemma ChainIsSound(chain: Chain)
    requires chain.Valid()
    requires var r := chain.History();
             r.CollisionFree(|r.steps|) && MoneySupply.OncePerOutput(r, |r.steps|)
             && MoneySupply.FitsIn64(r, |r.steps|)
    ensures forall i :: 0 <= i < |chain.history| ==> chain.History().Spent(i) !! chain.utxoStore.Keys
    ensures SpendValue.Sum(chain.utxoStore) + chain.rewardTotal ==
            SpendValue.Sum(GenesisStore(chain.crypto, chain.genesis))
            + MoneySupply.Issued(chain.History(), |chain.history|)
  {
    var r, n := chain.History(), |chain.history|;
    hide Next, NewPreimages, Executes;
    Invariant(r, n);
    MoneySupply.ExactSupply(r, n);
  }
}

/** The money supply over whole runs. */
module MoneySupply {
  import opened Scale
  import opened Transactions
  import opened Ledger
  import opened IssuanceSchedule
  import opened Runs
  import opened SpendValue

  // ---------------------------------------------------------------- what each step adds and loses

  ghost function IssuedBy(r: Run, i: nat): nat
    requires i < |r.steps|
  {
    if r.PaysOutAt(i) then Issuance(r.At(i).height) else 0
  }

  ghost function OvercountedBy(r: Run, i: nat): nat
    requires i < |r.steps|
  {
    if r.ExecutesAt(i) then Overcount(r.At(i).utxos, r.steps[i].t.inputs) else 0
  }

  /** Value that arithmetic destroys: high bits of a fee, and a reward that wraps. */
  ghost function LostBy(r: Run, i: nat): int
    requires i < |r.steps|
  {
    if r.ExecutesAt(i) then Truncation(r.At(i).utxos, r.steps[i].t)
    else if r.PaysOutAt(i) then r.At(i).rewardTotal + Issuance(r.At(i).height) - RewardOutput(r.At(i)).value
    else 0
  }

  ghost function Issued(r: Run, n: nat): nat
    requires n <= |r.steps|
  {
    if n == 0 then 0 else Issued(r, n - 1) + IssuedBy(r, n - 1)
  }

  ghost function Overcounted(r: Run, n: nat): nat
    requires n <= |r.steps|
  {
    if n == 0 then 0 else Overcounted(r, n - 1) + OvercountedBy(r, n - 1)
  }

  ghost function Lost(r: Run, n: nat): int
    requires n <= |r.steps|
  {
    if n == 0 then 0 else Lost(r, n - 1) + LostBy(r, n - 1)
  }

  lemma StepSupply(r: Run, i: nat)
    requires i < |r.steps| && r.CollisionFree(i + 1)
    ensures Supply(r.At(i + 1)) + LostBy(r, i) == Supply(r.At(i)) + IssuedBy(r, i) + OvercountedBy(r, i)
  {
    NeverCreatedTwice(r, i);
    hide Spendable, OutputPreimage, RewardPreimage, Fee, Apply, NewPreimages;
    var s := r.At(i);
    if r.ExecutesAt(i) {
      SpendSupply(r.crypto, s, r.steps[i]);
    } else if r.PaysOutAt(i) {
      SumWith(s.utxos, RewardKey(r.crypto, s), RewardOutput(s));
    }
  }

  /** Every unit accounted for, in every run without a hash collision and with no other hypothesis:
      the supply is the genesis value plus the issuance of the blocks that had an author, plus what
      repeated outpoints counted twice, less what the casts lost. */
  lemma {:induction false} SupplyIdentity(r: Run, n: nat)
    requires n <= |r.steps| && r.CollisionFree(n)
    ensures Supply(r.At(n)) + Lost(r, n) == Supply(r.At(0)) + Issued(r, n) + Overcounted(r, n)
  {
    hide Next, Supply, LostBy, IssuedBy, OvercountedBy, NewPreimages;
    if n > 0 {
      PreimagesGrow(r, n - 1, n);
      SupplyIdentity(r, n - 1);
      StepSupply(r, n - 1);
    }
  }

  // ---------------------------------------------------------------- issuance of a run

  ghost function HeightsDone(s: State): nat {
    if s.inBlock then s.height else s.height + 1
  }

  /** Only blocks that were reached issue, and each of them at most once. */
  lemma {:induction false} IssuedBound(r: Run, n: nat)
    requires n <= |r.steps|
    ensures Issued(r, n) <= Cumulative(HeightsDone(r.At(n)))
  {
    hide Executes, Apply, Issuance;
    if n > 0 {
      IssuedBound(r, n - 1);
      var h: nat := r.At(n - 1).height;
      assert Cumulative(h + 1) == Cumulative(h) + Issuance(h);
    }
  }

  lemma {:induction false} CumulativeGrows(m: nat, n: nat)
    requires m <= n <= TWO_32
    ensures Cumulative(m) <= Cumulative(n)
  {
    if m < n {
      CumulativeGrows(m, n - 1);
    }
  }

  // ---------------------------------------------------------------- the exact supply

  /** Every transaction executed in the first `n` steps names each output at most once. */
  ghost predicate OncePerOutput(r: Run, n: nat)
    requires n <= |r.steps|
  {
    forall i :: 0 <= i < n && r.ExecutesAt(i) ==> Distinct(Outpoints(r.steps[i].t))
  }

  /** Genesis value and everything issued up to the current height fit in 64 bits. */
  ghost predicate FitsIn64(r: Run, n: nat)
    requires n <= |r.steps|
  {
    Supply(r.At(0)) + Cumulative(r.At(n).height + 1) < TWO_64
  }

  lemma FitsEarlier(r: Run, m: nat, n: nat)
    requires m <= n <= |r.steps| && FitsIn64(r, n)
    ensures FitsIn64(r, m)
  {
    HeightsGrow(r, m, n);
    CumulativeGrows(r.At(m).height + 1, r.At(n).height + 1);
  }

  /** The exact money supply. No unit is ever lost to a cast or a wrap, and the supply is the
      genesis value plus the issuance of exactly the blocks that had an author. */
  lemma {:induction false} ExactSupply(r: Run, n: nat)
    requires n <= |r.steps| && r.CollisionFree(n) && OncePerOutput(r, n) && FitsIn64(r, n)
    ensures Supply(r.At(n)) == Supply(r.At(0)) + Issued(r, n)
    ensures forall i :: 0 <= i < n ==> LostBy(r, i) == 0
    ensures Lost(r, n) == 0 && Overcounted(r, n) == 0
  {
    hide Next, Supply, IssuedBy, NewPreimages, FitsIn64, LostBy;
    if n > 0 {
      PreimagesGrow(r, n - 1, n);
      FitsEarlier(r, n - 1, n);
      ExactSupply(r, n - 1);
      NothingLost(r, n - 1);
      SupplyIdentity(r, n);
      if r.ExecutesAt(n - 1) {
        NoOvercount(r.At(n - 1).utxos, r.steps[n - 1].t);
      }
    }
  }

  lemma NothingLost(r: Run, i: nat)
    requires i < |r.steps| && FitsIn64(r, i) && OncePerOutput(r, i + 1)
    requires Supply(r.At(i)) == Supply(r.At(0)) + Issued(r, i)
    ensures LostBy(r, i) == 0
  {
    hide Next, Executes, NewPreimages, Issuance, Truncation;
    var s := r.At(i);
    var h: nat := s.height;
    IssuedBound(r, i);
    CumulativeGrows(HeightsDone(s), h + 1);
    assert Cumulative(h + 1) == Cumulative(h) + Issuance(h);
    if r.ExecutesAt(i) {
      SmallFee(r.crypto, s, r.steps[i]);
    }
  }

  /** A supply below 2^64 leaves no room for a fee that the cast would shorten. */
  lemma SmallFee(c: Crypto, s: State, step: Step)
    requires Executes(c, s, step) && Distinct(Outpoints(step.t)) && Supply(s) < TWO_64
    ensures 0 <= Fee(s.utxos, step.t) < TWO_64 && Truncation(s.utxos, step.t) == 0
  {
    hide Apply, OutputKeys;
    NoOvercount(s.utxos, step.t);
    MissingMeans(s.utxos, step.t.inputs);
  }

  /** The cap: one schedule before the restart of the halving, two in all. */
  lemma SupplyCap(r: Run, n: nat)
    requires n <= |r.steps| && r.CollisionFree(n) && OncePerOutput(r, n)
    ensures r.At(n).height < RESTART && Supply(r.At(0)) + SCHEDULE_TOTAL < TWO_64 ==>
              Supply(r.At(n)) == Supply(r.At(0)) + Issued(r, n) <= Supply(r.At(0)) + SCHEDULE_TOTAL
    ensures Supply(r.At(0)) + 2 * SCHEDULE_TOTAL < TWO_64 ==>
              Supply(r.At(n)) == Supply(r.At(0)) + Issued(r, n) <= Supply(r.At(0)) + 2 * SCHEDULE_TOTAL
  {
    hide Next, Supply, NewPreimages, OncePerOutput, Cumulative, Issued, Executes, GenesisStore;
    var h: nat := r.At(n).height;
    CumulativeBound(h + 1);
    IssuedBound(r, n);
    CumulativeGrows(HeightsDone(r.At(n)), h + 1);
    if FitsIn64(r, n) {
      ExactSupply(r, n);
    }
  }

  /** In such a state no arithmetic of the pallet overflows or truncates, whatever transaction is
      tried next: not the input total, which the first loop adds up before anything is rejected, not
      the reward total, not the reward paid at the end of the block. The fee of a transaction that
      can execute passes the cast whole, if its message has unique sigscripts. */
  lemma NoOverflowReachable(r: Run, n: nat, t: Transaction)
    requires n <= |r.steps| && r.CollisionFree(n) && OncePerOutput(r, n) && FitsIn64(r, n)
    ensures TotalIn(r.At(n).utxos, t.inputs) < TWO_128
    ensures !Rejects(r.crypto, r.At(n).utxos, t, InputOverflow)
    ensures r.At(n).rewardTotal + CastFee(r.At(n).utxos, t) < TWO_128
    ensures Valid(r.crypto, r.At(n).utxos, t) && UniqueSigscript(r.crypto, Payload(t)) ==>
              Fee(r.At(n).utxos, t) < TWO_64
    ensures Valid(r.crypto, r.At(n).utxos, t) && UniqueSigscript(r.crypto, Payload(t))
            && Missing(r.At(n).utxos, t.inputs) == [] ==>
              CastFee(r.At(n).utxos, t) == Fee(r.At(n).utxos, t)
    ensures r.At(n).inBlock ==> r.At(n).rewardTotal + Issuance(r.At(n).height) < TWO_64
  {
    SupplyFits(r, n);
    var s := r.At(n);
    hide Run.At, Rejects, Valid, Payload, UniqueSigscript, Issuance;
    InputTotalFits(r.crypto, s, t);
    if Valid(r.crypto, s.utxos, t) && UniqueSigscript(r.crypto, Payload(t)) {
      FeeFits(r.crypto, s, t);
    }
  }

  /** Fewer than 2^32 inputs of less than 2^64 each: no signature hypothesis is needed. */
  lemma InputTotalFits(c: Crypto, s: State, t: Transaction)
    requires Supply(s) < TWO_64
    ensures TotalIn(s.utxos, t.inputs) < TWO_128 && !Rejects(c, s.utxos, t, InputOverflow)
  {
    hide Signed;
    var store := s.utxos;
    TotalInBound(store, t.inputs);
    MulMonotone(|t.inputs|, TWO_32, Sum(store));
    if Rejects(c, store, t, InputOverflow) {
      var i := FailingInput(c, store, t, InputOverflow);
      TotalInMonotone(store, t.inputs, i + 1);
    }
  }

  lemma FeeFits(c: Crypto, s: State, t: Transaction)
    requires Supply(s) < TWO_64 && Valid(c, s.utxos, t) && UniqueSigscript(c, Payload(t))
    ensures Fee(s.utxos, t) < TWO_64
    ensures Missing(s.utxos, t.inputs) == [] ==> CastFee(s.utxos, t) == Fee(s.utxos, t)
  {
    hide Payload, OutputKeys, UniqueSigscript, Signed;
    ValidCountsOnce(c, s.utxos, t);
  }

  lemma SupplyFits(r: Run, n: nat)
    requires n <= |r.steps| && r.CollisionFree(n) && OncePerOutput(r, n) && FitsIn64(r, n)
    ensures Supply(r.At(n)) < TWO_64
    ensures r.At(n).inBlock ==> Supply(r.At(n)) + Issuance(r.At(n).height) < TWO_64
  {
    hide Next, NewPreimages, Issuance, Supply;
    var h: nat := r.At(n).height;
    ExactSupply(r, n);
    IssuedBound(r, n);
    CumulativeGrows(HeightsDone(r.At(n)), h + 1);
    assert Cumulative(h + 1) == Cumulative(h) + Issuance(h);
  }

  /** Unique sigscripts are enough for every executed transaction to name each output once. */
  lemma UniqueSigscriptsSuffice(r: Run, n: nat)
    requires n <= |r.steps|
    requires forall i :: 0 <= i < n && r.steps[i].Spend? ==> UniqueSigscript(r.crypto, Payload(r.steps[i].t))
    ensures OncePerOutput(r, n)
  {
    hide Next, Spendable, Payload, UniqueSigscript;
    forall i | 0 <= i < n && r.ExecutesAt(i) ensures Distinct(Outpoints(r.steps[i].t)) {
      var s := r.At(i);
      DistinctInputsGiveDistinctOutpoints(r.crypto, s.utxos, s.rewardTotal, r.steps[i].t);
    }
  }

  // ---------------------------------------------------------------- genesis

  /** A genesis list without repetition puts its whole value into the store. */
  lemma {:induction false} GenesisSupply(c: Crypto, genesis: seq<TransactionOutput>)
    requires Distinct(genesis) && Run(c, genesis, []).CollisionFree(0)
    ensures Supply(GenesisState(c, genesis)) == TotalOut(genesis)
  {
    hide GenesisPreimage;
    if genesis != [] {
      var n := |genesis| - 1;
      var front, last := genesis[..n], genesis[n];
      var r, r' := Run(c, genesis, []), Run(c, front, []);
      assert forall o :: o in front ==> o in genesis;
      assert r'.Preimages(0) <= r.Preimages(0);
      GenesisSupply(c, front);
      GenesisKeys(c, front);
      var key := c.blake2(GenesisPreimage(last));
      forall o | o in front ensures c.blake2(GenesisPreimage(o)) != key {
        var i :| 0 <= i < n && front[i] == o;
        assert genesis[i] != genesis[n];
        assert GenesisPreimage(o) in r.Preimages(0) && GenesisPreimage(last) in r.Preimages(0);
        if GenesisPreimage(o) == GenesisPreimage(last) {
          GenesisPreimageInjective(o, last);
        }
      }
      SumWith(GenesisStore(c, front), key, last);
    }
  }

  /** The chain specification's genesis, two outputs of 100 for different keys: before the restart
      there are never more than 20,370,200 units. */
  lemma ChainSpecCap(r: Run, n: nat, alice: H256, bob: H256)
    requires alice != bob && r.genesis == [TransactionOutput(100, alice), TransactionOutput(100, bob)]
    requires n <= |r.steps| && r.CollisionFree(n) && OncePerOutput(r, n) && r.At(n).height < RESTART
    ensures Supply(r.At(n)) == 200 + Issued(r, n) <= 20_370_200
  {
    hide Next, NewPreimages, Issued, OncePerOutput, Cumulative, GenesisPreimage;
    PreimagesGrow(r, 0, n);
    var start := Run(r.crypto, r.genesis, []);
    assert start.Preimages(0) == r.Preimages(0);
    GenesisSupply(r.crypto, r.genesis);
    assert r.genesis[..1] == [r.genesis[0]] && r.genesis[..1][..0] == [];
    assert TotalOut(r.genesis[..1]) == 100;
    SupplyCap(r, n);
  }
}

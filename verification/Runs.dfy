/** The chain as a state machine, and its runs. A step that the block executive would not take in
    a state (a call outside a block, a second start of a block), and a call that fails, leave the
    state as it is, so that every sequence of steps is a run. */
module Runs {
  import opened Scale
  import opened Transactions
  import opened Ledger
  import opened IssuanceSchedule

  datatype State = State(
    utxos: Store,
    rewardTotal: U128,
    author: Option<H256>,
    height: U32,
    inBlock: bool)

  datatype Step =
    | InitializeBlock
    | SetAuthor(key: H256)
    | Spend(t: Transaction)
    | FinalizeBlock

  // ---------------------------------------------------------------- one step

  /** The genesis store: later entries of the list replace earlier ones under the same key. */
  function GenesisStore(c: Crypto, genesis: seq<TransactionOutput>): Store {
    if genesis == [] then map[]
    else
      var last := genesis[|genesis| - 1];
      GenesisStore(c, genesis[..|genesis| - 1])[c.blake2(GenesisPreimage(last)) := last]
  }

  function GenesisState(c: Crypto, genesis: seq<TransactionOutput>): State {
    State(GenesisStore(c, genesis), 0, None, 0, false)
  }

  ghost predicate Executes(c: Crypto, s: State, step: Step) {
    step.Spend? && s.inBlock && Spendable(c, s.utxos, s.rewardTotal, step.t)
  }

  ghost predicate PaysOut(s: State, step: Step) {
    step.FinalizeBlock? && s.inBlock && s.author.Some?
  }

  /** The reward output of the block being finalized; the addition wraps in a release build. */
  function RewardOutput(s: State): TransactionOutput
    requires s.author.Some?
  {
    TransactionOutput((s.rewardTotal + Issuance(s.height)) % TWO_128, s.author.value)
  }

  function RewardKey(c: Crypto, s: State): H256
    requires s.author.Some?
  {
    c.blake2(RewardPreimage(RewardOutput(s), s.height))
  }

  ghost function Next(c: Crypto, s: State, step: Step): State {
    match step
    case InitializeBlock =>
      if !s.inBlock && s.height + 1 < TWO_32 then
        s.(author := None, height := s.height + 1, inBlock := true)
      else s
    case SetAuthor(key) => if s.inBlock && s.author == None then s.(author := Some(key)) else s
    case Spend(t) =>
      if Executes(c, s, step) then
        s.(utxos := Apply(c, s.utxos, t), rewardTotal := s.rewardTotal + CastFee(s.utxos, t))
      else s
    case FinalizeBlock =>
      if PaysOut(s, step) then
        s.(utxos := s.utxos[RewardKey(c, s) := RewardOutput(s)], rewardTotal := 0, inBlock := false)
      else s.(inBlock := false)
  }

  /** The preimages whose hashes become keys of the store in this step. */
  ghost function NewPreimages(c: Crypto, s: State, step: Step): set<Bytes> {
    if Executes(c, s, step) then set k | 0 <= k < |step.t.outputs| :: OutputPreimage(step.t, k)
    else if PaysOut(s, step) then {RewardPreimage(RewardOutput(s), s.height)}
    else {}
  }

  // ---------------------------------------------------------------- runs

  datatype Run = Run(crypto: Crypto, genesis: seq<TransactionOutput>, steps: seq<Step>) {

    /** The state after the first `n` steps. */
    ghost function At(n: nat): State
      requires n <= |steps|
    {
      if n == 0 then GenesisState(crypto, genesis) else Next(crypto, At(n - 1), steps[n - 1])
    }

    ghost predicate ExecutesAt(n: nat)
      requires n < |steps|
    {
      Executes(crypto, At(n), steps[n])
    }

    ghost predicate PaysOutAt(n: nat)
      requires n < |steps|
    {
      PaysOut(At(n), steps[n])
    }

    /** The outpoints that step `n` takes out of the store. */
    ghost function Spent(n: nat): set<H256>
      requires n < |steps|
    {
      if ExecutesAt(n) then OutpointSet(steps[n].t) else {}
    }

    ghost function New(n: nat): set<Bytes>
      requires n < |steps|
    {
      NewPreimages(crypto, At(n), steps[n])
    }

    /** Every preimage turned into a key by the genesis or by the first `n` steps. */
    ghost function Preimages(n: nat): set<Bytes>
      requires n <= |steps|
    {
      if n == 0 then set o | o in genesis :: GenesisPreimage(o) else Preimages(n - 1) + New(n - 1)
    }

    /** Every key ever created in the first `n` steps. */
    ghost function Keys(n: nat): set<H256>
      requires n <= |steps|
    {
      set p | p in Preimages(n) :: crypto.blake2(p)
    }

    /** No two preimages that this run turned into keys hash alike. */
    ghost predicate CollisionFree(n: nat)
      requires n <= |steps|
    {
      forall p, q :: p in Preimages(n) && q in Preimages(n) && crypto.blake2(p) == crypto.blake2(q) ==> p == q
    }
  }

  lemma {:induction false} PreimagesGrow(r: Run, m: nat, n: nat)
    requires m <= n <= |r.steps|
    ensures r.Preimages(m) <= r.Preimages(n) && r.Keys(m) <= r.Keys(n)
    ensures r.CollisionFree(n) ==> r.CollisionFree(m)
  {
    hide NewPreimages;
    if m < n {
      PreimagesGrow(r, m, n - 1);
    }
  }

  lemma {:induction false} HeightsGrow(r: Run, m: nat, n: nat)
    requires m <= n <= |r.steps|
    ensures r.At(m).height <= r.At(n).height
    ensures m < n && r.PaysOutAt(m) && r.At(n).inBlock ==> r.At(m).height < r.At(n).height
  {
    if m < n {
      HeightsGrow(r, m, n - 1);
    }
  }

  /** At most one reward output for each height, however the calls are ordered. */
  lemma OneRewardPerBlock(r: Run, i: nat, j: nat)
    requires i < j < |r.steps| && r.PaysOutAt(i) && r.PaysOutAt(j)
    ensures r.At(i).height < r.At(j).height
  {
    HeightsGrow(r, i, j);
  }

  /** The blocks opened in the first `n` steps. */
  ghost function Opened(r: Run, n: nat): nat
    requires n <= |r.steps|
  {
    if n == 0 then 0
    else Opened(r, n - 1)
         + if r.steps[n - 1].InitializeBlock? && r.At(n).inBlock && !r.At(n - 1).inBlock then 1 else 0
  }

  /** Heights are consecutive: the height is the number of blocks opened so far. A block opens with
      no author, and nothing but its end closes it. */
  lemma {:induction false} HeightCountsBlocks(r: Run, n: nat)
    requires n <= |r.steps|
    ensures r.At(n).height == Opened(r, n)
    ensures n > 0 && r.At(n).inBlock && !r.At(n - 1).inBlock ==>
              r.steps[n - 1].InitializeBlock? && r.At(n).author == None
    ensures n > 0 && !r.At(n).inBlock && r.At(n - 1).inBlock ==> r.steps[n - 1].FinalizeBlock?
  {
    hide Executes, Apply, RewardKey, RewardOutput;
    if n > 0 {
      HeightCountsBlocks(r, n - 1);
    }
  }

  // ---------------------------------------------------------------- provenance of keys

  /** An output preimage among the known ones was put there by executing that very transaction. */
  lemma {:induction false} OriginOfOutput(r: Run, n: nat, t: Transaction, k: nat) returns (i: nat)
    requires n <= |r.steps| && t.inputs != [] && k < |t.outputs|
    requires OutputPreimage(t, k) in r.Preimages(n)
    ensures i < n && r.ExecutesAt(i) && r.steps[i].t == t
  {
    hide Next, NewPreimages, Executes, OutputPreimage;
    var p := OutputPreimage(t, k);
    assert |p| >= 156;
    if n == 0 {
      assert false;
    } else if p in r.Preimages(n - 1) {
      i := OriginOfOutput(r, n - 1, t, k);
    } else {
      i := n - 1;
      NewOutputPreimage(r.crypto, r.At(i), r.steps[i], t, k);
    }
  }

  lemma NewOutputPreimage(c: Crypto, s: State, step: Step, t: Transaction, k: nat)
    requires t.inputs != [] && k < |t.outputs|
    requires OutputPreimage(t, k) in NewPreimages(c, s, step)
    ensures Executes(c, s, step) && step.t == t
  {
    hide OutputPreimage, Spendable;
    NewKinds(c, s, step);
    var l :| 0 <= l < |step.t.outputs| && OutputPreimage(step.t, l) == OutputPreimage(t, k);
    IndicesFit(t);
    IndicesFit(step.t);
    OutputPreimageInjective(t, k, step.t, l);
  }

  lemma IndicesFit(t: Transaction)
    ensures |t.outputs| < TWO_32 < TWO_64
  {
  }

  /** The two kinds of step hash preimages of different lengths. */
  lemma NewKinds(c: Crypto, s: State, step: Step)
    ensures PaysOut(s, step) ==>
              NewPreimages(c, s, step) == {RewardPreimage(RewardOutput(s), s.height)}
    ensures forall p :: p in NewPreimages(c, s, step) ==>
              (|p| == 56 <==> PaysOut(s, step)) && (|p| >= 156 <==> Executes(c, s, step))
  {
  }

  /** A reward preimage among the known ones was put there by the payout of that height. */
  lemma {:induction false} OriginOfReward(r: Run, n: nat, o: TransactionOutput, h: U32) returns (i: nat)
    requires n <= |r.steps| && RewardPreimage(o, h) in r.Preimages(n)
    ensures i < n && r.PaysOutAt(i) && r.At(i).height == h && RewardOutput(r.At(i)) == o
  {
    hide NewPreimages, Executes, Next;
    var p := RewardPreimage(o, h);
    if n == 0 {
      assert false;
    } else if p in r.Preimages(n - 1) {
      i := OriginOfReward(r, n - 1, o, h);
    } else {
      i := n - 1;
      NewKinds(r.crypto, r.At(i), r.steps[i]);
      RewardPreimageInjective(o, h, RewardOutput(r.At(i)), r.At(i).height);
    }
  }

  // ---------------------------------------------------------------- the store after a spend

  lemma {:induction false} WithOutputsKeys(c: Crypto, m: Store, t: Transaction, n: nat)
    requires n <= |t.outputs|
    ensures WithOutputs(c, m, t, n).Keys == m.Keys + set k | 0 <= k < n :: OutputKey(c, t, k)
    ensures forall key :: key in m && key !in OutputKeys(c, t) ==> WithOutputs(c, m, t, n)[key] == m[key]
  {
    hide OutputKey;
    if n > 0 {
      WithOutputsKeys(c, m, t, n - 1);
      assert OutputKeys(c, t)[n - 1] == OutputKey(c, t, n - 1);
      assert (set k | 0 <= k < n :: OutputKey(c, t, k)) ==
             (set k | 0 <= k < n - 1 :: OutputKey(c, t, k)) + {OutputKey(c, t, n - 1)};
    }
  }

  /** Exactly the outpoints leave the store and exactly the provided keys enter it; nothing else
      changes. */
  lemma ApplyKeys(c: Crypto, store: Store, t: Transaction)
    ensures Apply(c, store, t).Keys == store.Keys - OutpointSet(t) + Elements(OutputKeys(c, t))
    ensures forall key :: key in store && key !in OutpointSet(t) && key !in OutputKeys(c, t) ==>
              Apply(c, store, t)[key] == store[key]
  {
    var m := store - OutpointSet(t);
    WithOutputsKeys(c, m, t, |t.outputs|);
    var keys := OutputKeys(c, t);
    forall k | 0 <= k < |t.outputs| ensures OutputKey(c, t, k) in keys {
      assert keys[k] == OutputKey(c, t, k);
    }
    forall key | key in keys ensures key in set k | 0 <= k < |t.outputs| :: OutputKey(c, t, k) {
      var k :| 0 <= k < |t.outputs| && keys[k] == key;
      assert OutputKey(c, t, k) == key;
    }
  }

  lemma NewKeys(r: Run, n: nat)
    requires n < |r.steps|
    ensures r.ExecutesAt(n) ==>
              Elements(OutputKeys(r.crypto, r.steps[n].t)) == set p | p in r.New(n) :: r.crypto.blake2(p)
    ensures r.Keys(n + 1) == r.Keys(n) + set p | p in r.New(n) :: r.crypto.blake2(p)
  {
    if r.ExecutesAt(n) {
      var t := r.steps[n].t;
      var keys := OutputKeys(r.crypto, t);
      forall key | key in keys ensures key in set p | p in r.New(n) :: r.crypto.blake2(p) {
        var k :| 0 <= k < |keys| && keys[k] == key;
        assert OutputPreimage(t, k) in r.New(n);
      }
      forall p | p in r.New(n) ensures r.crypto.blake2(p) in keys {
        var k :| 0 <= k < |t.outputs| && OutputPreimage(t, k) == p;
        assert keys[k] == r.crypto.blake2(p);
      }
    }
  }

  // ---------------------------------------------------------------- the invariant of runs

  /** Everything in the store is a key that was created, and what an executed transaction spent
      was created too and is gone. */
  ghost predicate Inv(r: Run, n: nat)
    requires n <= |r.steps|
  {
    && r.At(n).utxos.Keys <= r.Keys(n)
    && forall i :: 0 <= i < n ==> r.Spent(i) <= r.Keys(n) && r.Spent(i) !! r.At(n).utxos.Keys
  }

  lemma {:induction false} GenesisKeys(c: Crypto, genesis: seq<TransactionOutput>)
    ensures forall key :: key in GenesisStore(c, genesis) ==>
              exists o :: o in genesis && c.blake2(GenesisPreimage(o)) == key
  {
    if genesis != [] {
      var front := genesis[..|genesis| - 1];
      GenesisKeys(c, front);
      assert genesis == front + [genesis[|genesis| - 1]];
      assert forall o :: o in front ==> o in genesis;
    }
  }

  /** In a state that satisfies the invariant a step hashes only preimages never hashed before. */
  lemma NewPreimagesFresh(r: Run, n: nat)
    requires n < |r.steps| && Inv(r, n)
    ensures r.New(n) !! r.Preimages(n)
  {
    forall p | p in r.New(n) ensures p !in r.Preimages(n) {
      if r.ExecutesAt(n) {
        var t := r.steps[n].t;
        var k :| 0 <= k < |t.outputs| && OutputPreimage(t, k) == p;
        FreshIfUnspent(r, n, t, k);
        assert t.inputs[0].outpoint in OutpointSet(t);
      } else {
        FreshHeight(r, n);
      }
    }
  }

  lemma FreshIfUnspent(r: Run, n: nat, t: Transaction, k: nat)
    requires n <= |r.steps| && Inv(r, n) && k < |t.outputs| && t.inputs != []
    ensures OutputPreimage(t, k) in r.Preimages(n) ==> OutpointSet(t) !! r.At(n).utxos.Keys
  {
    hide OutputPreimage, NewPreimages, Executes, Next;
    if OutputPreimage(t, k) in r.Preimages(n) {
      var i := OriginOfOutput(r, n, t, k);
      assert r.Spent(i) == OutpointSet(t);
    }
  }

  lemma FreshHeight(r: Run, n: nat)
    requires n < |r.steps| && r.PaysOutAt(n)
    ensures RewardPreimage(RewardOutput(r.At(n)), r.At(n).height) !in r.Preimages(n)
  {
    hide RewardPreimage, NewPreimages, Executes, Next;
    var s := r.At(n);
    if RewardPreimage(RewardOutput(s), s.height) in r.Preimages(n) {
      var i := OriginOfReward(r, n, RewardOutput(s), s.height);
      HeightsGrow(r, i, n);
    }
  }

  lemma NewKeysFresh(r: Run, n: nat)
    requires n < |r.steps| && Inv(r, n) && r.CollisionFree(n + 1)
    ensures forall p :: p in r.New(n) ==> r.crypto.blake2(p) !in r.Keys(n)
  {
    hide NewPreimages, Executes, Next;
    NewPreimagesFresh(r, n);
    forall p, q | p in r.New(n) && q in r.Preimages(n) ensures r.crypto.blake2(p) != r.crypto.blake2(q) {
      assert p in r.Preimages(n + 1) && q in r.Preimages(n + 1);
    }
  }

  lemma {:induction false} Invariant(r: Run, n: nat)
    requires n <= |r.steps| && r.CollisionFree(n)
    ensures Inv(r, n)
  {
    hide NewPreimages, Executes, Next;
    if n == 0 {
      GenesisKeys(r.crypto, r.genesis);
      forall key | key in r.At(0).utxos ensures key in r.Keys(0) {
        var o :| o in r.genesis && r.crypto.blake2(GenesisPreimage(o)) == key;
        assert GenesisPreimage(o) in r.Preimages(0);
      }
    } else {
      PreimagesGrow(r, n - 1, n);
      Invariant(r, n - 1);
      InvariantStep(r, n - 1);
    }
  }

  /** How a step changes the key set: what an executed transaction names goes, new keys come. */
  lemma StepKeys(r: Run, n: nat)
    requires n < |r.steps|
    ensures r.At(n + 1).utxos.Keys ==
            r.At(n).utxos.Keys - r.Spent(n) + (set p | p in r.New(n) :: r.crypto.blake2(p))
    ensures r.Spent(n) <= r.At(n).utxos.Keys
  {
    NewKeys(r, n);
    if r.ExecutesAt(n) {
      ApplyKeys(r.crypto, r.At(n).utxos, r.steps[n].t);
    } else if r.PaysOutAt(n) {
      assert RewardPreimage(RewardOutput(r.At(n)), r.At(n).height) in r.New(n);
    }
  }

  lemma InvariantStep(r: Run, n: nat)
    requires n < |r.steps| && Inv(r, n) && r.CollisionFree(n + 1)
    ensures Inv(r, n + 1)
  {
    hide NewPreimages, Executes, Next;
    NewKeys(r, n);
    NewKeysFresh(r, n);
    StepKeys(r, n);
  }

  // ---------------------------------------------------------------- theorems over whole runs

  /** No key is created twice: the keys of a step are new, and differ among themselves. */
  lemma NeverCreatedTwice(r: Run, n: nat)
    requires n < |r.steps| && r.CollisionFree(n + 1)
    ensures forall p :: p in r.New(n) ==> p !in r.Preimages(n) && r.crypto.blake2(p) !in r.Keys(n)
    ensures r.ExecutesAt(n) ==> Distinct(OutputKeys(r.crypto, r.steps[n].t))
    ensures r.PaysOutAt(n) ==> RewardKey(r.crypto, r.At(n)) !in r.At(n).utxos
  {
    PreimagesGrow(r, n, n + 1);
    Invariant(r, n);
    NewPreimagesFresh(r, n);
    NewKeysFresh(r, n);
    if r.ExecutesAt(n) {
      DistinctKeys(r, n);
    } else if r.PaysOutAt(n) {
      assert RewardPreimage(RewardOutput(r.At(n)), r.At(n).height) in r.New(n);
    }
  }

  lemma DistinctKeys(r: Run, n: nat)
    requires n < |r.steps| && r.CollisionFree(n + 1) && r.ExecutesAt(n)
    ensures Distinct(OutputKeys(r.crypto, r.steps[n].t))
  {
    var t := r.steps[n].t;
    var keys := OutputKeys(r.crypto, t);
    IndicesFit(t);
    forall i, j | 0 <= i < j < |keys| ensures keys[i] != keys[j] {
      var p, q := OutputPreimage(t, i), OutputPreimage(t, j);
      assert p in r.New(n) && q in r.New(n);
      assert p in r.Preimages(n + 1) && q in r.Preimages(n + 1);
      if p == q {
        OutputPreimageInjective(t, i, t, j);
      }
    }
  }

  /** What is spent stays spent. */
  lemma SpentForever(r: Run, i: nat, n: nat)
    requires i < n <= |r.steps| && r.CollisionFree(n)
    ensures r.Spent(i) !! r.At(n).utxos.Keys
  {
    hide NewPreimages, Executes, Next;
    Invariant(r, n);
  }

  /** Two executed transactions never spend the same output. */
  lemma NoDoubleSpend(r: Run, i: nat, j: nat)
    requires i < j < |r.steps| && r.CollisionFree(j)
    ensures r.Spent(i) !! r.Spent(j)
  {
    hide NewPreimages, Executes, Next;
    SpentForever(r, i, j);
    StepKeys(r, j);
  }

  /** No transaction executes twice. */
  lemma NoReplay(r: Run, i: nat, j: nat)
    requires i < j < |r.steps| && r.CollisionFree(j)
    requires r.ExecutesAt(i) && r.ExecutesAt(j)
    ensures r.steps[i].t != r.steps[j].t
  {
    NoDoubleSpend(r, i, j);
    var t := r.steps[j].t;
    assert t.inputs[0].outpoint in OutpointSet(t);
  }
}

/** What the UTXO pallet's operations mean: when a transaction is valid, which error a rejected
    one gets, and what executing it does to the store. */
module Ledger {
  import opened Scale
  import opened Transactions

  /** BLAKE2-256 and sr25519 verification, of which nothing is assumed here. */
  datatype Crypto = Crypto(blake2: Bytes -> H256, verify: (H512, Bytes, H256) -> bool)

  type Store = map<H256, TransactionOutput>

  datatype Error =
    | NoInputs
    | NoOutputs
    | DuplicateInput
    | DuplicateOutput
    | InvalidSignature
    | InputOverflow
    | ZeroOutput
    | IndexOverflow
    | OutputExists
    | OutputOverflow
    | Overspend
    | RewardUnderflow
    | MissingInputs
    | RewardOverflow

  datatype Result<+T> = Ok(value: T) | Err(error: Error)

  /** The part of a transaction's validity that the pool uses. */
  datatype ValidTransaction = ValidTransaction(requiredTags: seq<H256>, providedTags: seq<H256>, priority: U64)

  // ---------------------------------------------------------------- totals and keys

  function OutputKey(c: Crypto, t: Transaction, index: nat): H256 {
    c.blake2(OutputPreimage(t, index))
  }

  function OutputKeys(c: Crypto, t: Transaction): (keys: seq<H256>)
    ensures |keys| == |t.outputs|
  {
    seq(|t.outputs|, i requires 0 <= i < |t.outputs| => OutputKey(c, t, i))
  }

  /** The value an input finds in the store, nothing when its output is not there. */
  function InputValue(store: Store, i: TransactionInput): nat {
    if i.outpoint in store then store[i.outpoint].value else 0
  }

  function TotalIn(store: Store, inputs: seq<TransactionInput>): nat {
    if inputs == [] then 0
    else TotalIn(store, inputs[..|inputs| - 1]) + InputValue(store, inputs[|inputs| - 1])
  }

  function TotalOut(outputs: seq<TransactionOutput>): nat {
    if outputs == [] then 0
    else TotalOut(outputs[..|outputs| - 1]) + outputs[|outputs| - 1].value
  }

  /** The totals over the first `n` inputs and the first `n` outputs. */
  function RunningIn(store: Store, t: Transaction, n: nat): nat
    requires n <= |t.inputs|
  {
    TotalIn(store, t.inputs[..n])
  }

  function RunningOut(t: Transaction, n: nat): nat
    requires n <= |t.outputs|
  {
    TotalOut(t.outputs[..n])
  }

  /** The outpoints that are not in the store, in input order. */
  function Missing(store: Store, inputs: seq<TransactionInput>): seq<H256> {
    if inputs == [] then []
    else
      var last := inputs[|inputs| - 1].outpoint;
      Missing(store, inputs[..|inputs| - 1]) + if last in store then [] else [last]
  }

  function Fee(store: Store, t: Transaction): int {
    TotalIn(store, t.inputs) - TotalOut(t.outputs)
  }

  /** The fee as it reaches `RewardTotal`: through the `u64` priority. */
  function CastFee(store: Store, t: Transaction): U64 {
    Fee(store, t) % TWO_64
  }

  /** What validation tells the transaction pool. */
  function Tags(c: Crypto, store: Store, t: Transaction): ValidTransaction {
    var missing := Missing(store, t.inputs);
    ValidTransaction(missing, OutputKeys(c, t), if missing == [] then CastFee(store, t) else 0)
  }

  // ---------------------------------------------------------------- validity

  ghost predicate Signed(c: Crypto, store: Store, t: Transaction, i: nat)
    requires i < |t.inputs|
  {
    var input := t.inputs[i];
    input.outpoint in store ==> c.verify(input.sigscript, Payload(t), store[input.outpoint].pubkey)
  }

  /** Input `i` passes: signed, and the running total up to it fits. */
  ghost predicate InputOk(c: Crypto, store: Store, t: Transaction, i: nat)
    requires i < |t.inputs|
  {
    Signed(c, store, t, i) && RunningIn(store, t, i + 1) < TWO_128
  }

  ghost predicate OutputOk(c: Crypto, store: Store, t: Transaction, k: nat)
    requires k < |t.outputs|
  {
    && t.outputs[k].value > 0
    && OutputKey(c, t, k) !in store
    && RunningOut(t, k + 1) < TWO_128
  }

  ghost predicate ShapeOk(t: Transaction) {
    t.inputs != [] && t.outputs != [] && Distinct(t.inputs) && Distinct(t.outputs)
  }

  ghost predicate InputsOk(c: Crypto, store: Store, t: Transaction, n: nat)
    requires n <= |t.inputs|
  {
    forall i :: 0 <= i < n ==> InputOk(c, store, t, i)
  }

  ghost predicate OutputsOk(c: Crypto, store: Store, t: Transaction, n: nat)
    requires n <= |t.outputs|
  {
    forall k :: 0 <= k < n ==> OutputOk(c, store, t, k)
  }

  /** The whole transaction against the whole store, with no order of checking in it. */
  ghost predicate Valid(c: Crypto, store: Store, t: Transaction) {
    && ShapeOk(t)
    && (forall i :: 0 <= i < |t.inputs| ==> Signed(c, store, t, i))
    && TotalIn(store, t.inputs) < TWO_128
    && (forall o :: o in t.outputs ==> o.value > 0)
    && (forall key :: key in OutputKeys(c, t) ==> key !in store)
    && TotalOut(t.outputs) < TWO_128
    && (Missing(store, t.inputs) == [] ==> TotalOut(t.outputs) <= TotalIn(store, t.inputs))
  }

  /** `e` is the error of the first check that fails. */
  ghost predicate Rejects(c: Crypto, store: Store, t: Transaction, e: Error) {
    match e
    case NoInputs => t.inputs == []
    case NoOutputs => t.inputs != [] && t.outputs == []
    case DuplicateInput => t.inputs != [] && t.outputs != [] && !Distinct(t.inputs)
    case DuplicateOutput => t.inputs != [] && t.outputs != [] && Distinct(t.inputs) && !Distinct(t.outputs)
    case InvalidSignature =>
      ShapeOk(t) && exists i :: 0 <= i < |t.inputs| && BadSignatureAt(c, store, t, i)
    case InputOverflow =>
      ShapeOk(t) && exists i :: 0 <= i < |t.inputs| && InputOverflowAt(c, store, t, i)
    case ZeroOutput =>
      InputsPass(c, store, t) && exists k :: 0 <= k < |t.outputs| && ZeroOutputAt(c, store, t, k)
    case OutputExists =>
      InputsPass(c, store, t) && exists k :: 0 <= k < |t.outputs| && OutputExistsAt(c, store, t, k)
    case OutputOverflow =>
      InputsPass(c, store, t) && exists k :: 0 <= k < |t.outputs| && OutputOverflowAt(c, store, t, k)
    case Overspend =>
      && InputsPass(c, store, t) && OutputsOk(c, store, t, |t.outputs|)
      && Missing(store, t.inputs) == [] && TotalIn(store, t.inputs) < TotalOut(t.outputs)
    case IndexOverflow => false
    case RewardUnderflow => false
    case MissingInputs => false
    case RewardOverflow => false
  }

  ghost predicate InputsPass(c: Crypto, store: Store, t: Transaction) {
    ShapeOk(t) && InputsOk(c, store, t, |t.inputs|)
  }

  ghost predicate BadSignatureAt(c: Crypto, store: Store, t: Transaction, i: nat)
    requires i < |t.inputs|
  {
    InputsOk(c, store, t, i) && !Signed(c, store, t, i)
  }

  ghost predicate InputOverflowAt(c: Crypto, store: Store, t: Transaction, i: nat)
    requires i < |t.inputs|
  {
    InputsOk(c, store, t, i) && Signed(c, store, t, i) && RunningIn(store, t, i + 1) >= TWO_128
  }

  ghost predicate ZeroOutputAt(c: Crypto, store: Store, t: Transaction, k: nat)
    requires k < |t.outputs|
  {
    OutputsOk(c, store, t, k) && t.outputs[k].value == 0
  }

  ghost predicate OutputExistsAt(c: Crypto, store: Store, t: Transaction, k: nat)
    requires k < |t.outputs|
  {
    OutputsOk(c, store, t, k) && t.outputs[k].value > 0 && OutputKey(c, t, k) in store
  }

  ghost predicate OutputOverflowAt(c: Crypto, store: Store, t: Transaction, k: nat)
    requires k < |t.outputs|
  {
    && OutputsOk(c, store, t, k) && t.outputs[k].value > 0 && OutputKey(c, t, k) !in store
    && RunningOut(t, k + 1) >= TWO_128
  }

  // ---------------------------------------------------------------- the checks amount to validity

  lemma {:induction false} TotalInMonotone(store: Store, inputs: seq<TransactionInput>, i: nat)
    requires i <= |inputs|
    ensures TotalIn(store, inputs[..i]) <= TotalIn(store, inputs)
  {
    if i < |inputs| {
      var front := inputs[..|inputs| - 1];
      assert front[..i] == inputs[..i];
      TotalInMonotone(store, front, i);
    } else {
      assert inputs[..i] == inputs;
    }
  }

  lemma {:induction false} TotalOutMonotone(outputs: seq<TransactionOutput>, k: nat)
    requires k <= |outputs|
    ensures TotalOut(outputs[..k]) <= TotalOut(outputs)
  {
    if k < |outputs| {
      var front := outputs[..|outputs| - 1];
      assert front[..k] == outputs[..k];
      TotalOutMonotone(front, k);
    } else {
      assert outputs[..k] == outputs;
    }
  }

  lemma InputsOkMeans(c: Crypto, store: Store, t: Transaction)
    ensures InputsOk(c, store, t, |t.inputs|) <==>
            (forall i :: 0 <= i < |t.inputs| ==> Signed(c, store, t, i)) && TotalIn(store, t.inputs) < TWO_128
  {
    var n := |t.inputs|;
    assert t.inputs[..n] == t.inputs;
    forall i | 0 <= i < n && Signed(c, store, t, i) && TotalIn(store, t.inputs) < TWO_128
      ensures InputOk(c, store, t, i)
    {
      TotalInMonotone(store, t.inputs, i + 1);
    }
    if InputsOk(c, store, t, n) && n > 0 {
      assert InputOk(c, store, t, n - 1);
    }
    if InputsOk(c, store, t, n) {
      forall i | 0 <= i < n ensures Signed(c, store, t, i) {
        assert InputOk(c, store, t, i);
      }
    }
  }

  lemma OutputsOkMeans(c: Crypto, store: Store, t: Transaction)
    ensures OutputsOk(c, store, t, |t.outputs|) <==>
            && (forall o :: o in t.outputs ==> o.value > 0)
            && (forall key :: key in OutputKeys(c, t) ==> key !in store)
            && TotalOut(t.outputs) < TWO_128
  {
    var n := |t.outputs|;
    assert t.outputs[..n] == t.outputs;
    assert forall k :: 0 <= k < n ==> OutputKeys(c, t)[k] == OutputKey(c, t, k);
    forall k | 0 <= k < n && t.outputs[k].value > 0 && OutputKey(c, t, k) !in store
               && TotalOut(t.outputs) < TWO_128
      ensures OutputOk(c, store, t, k)
    {
      TotalOutMonotone(t.outputs, k + 1);
    }
    if OutputsOk(c, store, t, n) {
      if n > 0 {
        assert OutputOk(c, store, t, n - 1);
      }
      forall o | o in t.outputs ensures o.value > 0 {
        var k :| 0 <= k < n && t.outputs[k] == o;
        assert OutputOk(c, store, t, k);
      }
      forall key | key in OutputKeys(c, t) ensures key !in store {
        var k :| 0 <= k < n && OutputKeys(c, t)[k] == key;
        assert OutputOk(c, store, t, k);
      }
    }
  }

  lemma NothingChecked(c: Crypto, store: Store, t: Transaction)
    ensures InputsOk(c, store, t, 0) && RunningIn(store, t, 0) == 0 && Missing(store, t.inputs[..0]) == []
    ensures OutputsOk(c, store, t, 0) && RunningOut(t, 0) == 0
  {
  }

  /** One more input checked. */
  lemma NextInput(c: Crypto, store: Store, t: Transaction, i: nat)
    requires i < |t.inputs|
    ensures RunningIn(store, t, i + 1) == RunningIn(store, t, i) + InputValue(store, t.inputs[i])
    ensures Missing(store, t.inputs[..i + 1]) ==
            Missing(store, t.inputs[..i]) + if t.inputs[i].outpoint in store then [] else [t.inputs[i].outpoint]
    ensures InputsOk(c, store, t, i + 1) <==> InputsOk(c, store, t, i) && InputOk(c, store, t, i)
  {
    assert t.inputs[..i + 1][..i] == t.inputs[..i];
  }

  /** One more output checked. */
  lemma NextOutput(c: Crypto, store: Store, t: Transaction, k: nat)
    requires k < |t.outputs|
    ensures RunningOut(t, k + 1) == RunningOut(t, k) + t.outputs[k].value
    ensures OutputKeys(c, t)[..k + 1] == OutputKeys(c, t)[..k] + [OutputKey(c, t, k)]
    ensures OutputsOk(c, store, t, k + 1) <==> OutputsOk(c, store, t, k) && OutputOk(c, store, t, k)
  {
    hide OutputKey;
    assert t.outputs[..k + 1][..k] == t.outputs[..k];
    assert OutputKeys(c, t)[k] == OutputKey(c, t, k);
  }

  /** The order of checking does not matter for acceptance. */
  lemma AllChecksPass(c: Crypto, store: Store, t: Transaction)
    ensures Valid(c, store, t) <==>
            && InputsPass(c, store, t) && OutputsOk(c, store, t, |t.outputs|)
            && (Missing(store, t.inputs) == [] ==> TotalOut(t.outputs) <= TotalIn(store, t.inputs))
  {
    InputsOkMeans(c, store, t);
    OutputsOkMeans(c, store, t);
  }

  /** Every transaction is either valid or rejected. */
  lemma ValidOrRejected(c: Crypto, store: Store, t: Transaction)
    ensures Valid(c, store, t) <==> !exists e :: Rejects(c, store, t, e)
  {
    InputsOkMeans(c, store, t);
    OutputsOkMeans(c, store, t);
    if Valid(c, store, t) {
      forall e | Rejects(c, store, t, e) ensures false {
        if e.InvalidSignature? || e.InputOverflow? {
          var i := FailingInput(c, store, t, e);
        } else if !e.Overspend? {
          var k := FailingOutput(c, store, t, e);
        }
      }
    } else {
      var e := FirstError(c, store, t);
    }
  }

  function ShapeError(t: Transaction): Error {
    if t.inputs == [] then NoInputs
    else if t.outputs == [] then NoOutputs
    else if |Elements(t.inputs)| != |t.inputs| then DuplicateInput
    else DuplicateOutput
  }

  lemma RejectedShape(c: Crypto, store: Store, t: Transaction)
    ensures !ShapeOk(t) ==> Rejects(c, store, t, ShapeError(t))
    ensures ShapeOk(t) <==> t.inputs != [] && t.outputs != []
                            && |Elements(t.inputs)| == |t.inputs| && |Elements(t.outputs)| == |t.outputs|
  {
    CountDetectsRepeats(t.inputs);
    CountDetectsRepeats(t.outputs);
  }

  lemma RejectedInput(c: Crypto, store: Store, t: Transaction, i: nat)
    requires ShapeOk(t) && i < |t.inputs| && InputsOk(c, store, t, i) && !InputOk(c, store, t, i)
    ensures Rejects(c, store, t, if !Signed(c, store, t, i) then InvalidSignature else InputOverflow)
  {
    assert BadSignatureAt(c, store, t, i) || InputOverflowAt(c, store, t, i);
  }

  lemma RejectedOutput(c: Crypto, store: Store, t: Transaction, k: nat)
    requires InputsPass(c, store, t)
    requires k < |t.outputs| && OutputsOk(c, store, t, k) && !OutputOk(c, store, t, k)
    ensures Rejects(c, store, t,
              if t.outputs[k].value == 0 then ZeroOutput
              else if OutputKey(c, t, k) in store then OutputExists
              else OutputOverflow)
  {
    assert ZeroOutputAt(c, store, t, k) || OutputExistsAt(c, store, t, k) || OutputOverflowAt(c, store, t, k);
  }

  lemma OverspendRejected(c: Crypto, store: Store, t: Transaction)
    ensures Rejects(c, store, t, Overspend) <==>
            && InputsPass(c, store, t) && OutputsOk(c, store, t, |t.outputs|)
            && Missing(store, t.inputs) == [] && TotalIn(store, t.inputs) < TotalOut(t.outputs)
  {
  }

  lemma FirstError(c: Crypto, store: Store, t: Transaction) returns (e: Error)
    requires !Valid(c, store, t)
    ensures Rejects(c, store, t, e)
  {
    AllChecksPass(c, store, t);
    RejectedShape(c, store, t);
    if !ShapeOk(t) {
      e := ShapeError(t);
    } else if !InputsOk(c, store, t, |t.inputs|) {
      var i := FirstBadInput(c, store, t, |t.inputs|);
      RejectedInput(c, store, t, i);
      e := if !Signed(c, store, t, i) then InvalidSignature else InputOverflow;
    } else if !OutputsOk(c, store, t, |t.outputs|) {
      var k := FirstBadOutput(c, store, t, |t.outputs|);
      RejectedOutput(c, store, t, k);
      e := if t.outputs[k].value == 0 then ZeroOutput
           else if OutputKey(c, t, k) in store then OutputExists else OutputOverflow;
    } else {
      e := Overspend;
    }
  }

  lemma {:induction false} FirstBadInput(c: Crypto, store: Store, t: Transaction, n: nat) returns (i: nat)
    requires n <= |t.inputs| && !InputsOk(c, store, t, n)
    ensures i < n && InputsOk(c, store, t, i) && !InputOk(c, store, t, i)
  {
    if InputsOk(c, store, t, n - 1) {
      i := n - 1;
    } else {
      i := FirstBadInput(c, store, t, n - 1);
    }
  }

  lemma {:induction false} FirstBadOutput(c: Crypto, store: Store, t: Transaction, n: nat) returns (k: nat)
    requires n <= |t.outputs| && !OutputsOk(c, store, t, n)
    ensures k < n && OutputsOk(c, store, t, k) && !OutputOk(c, store, t, k)
  {
    if OutputsOk(c, store, t, n - 1) {
      k := n - 1;
    } else {
      k := FirstBadOutput(c, store, t, n - 1);
    }
  }

  /** No transaction has two errors: the message a caller sees is determined. */
  lemma ErrorUnique(c: Crypto, store: Store, t: Transaction, e: Error, f: Error)
    requires Rejects(c, store, t, e) && Rejects(c, store, t, f)
    ensures e == f
  {
    if e.InvalidSignature? || e.InputOverflow? || f.InvalidSignature? || f.InputOverflow? {
      if ShapeOk(t) {
        InputErrorUnique(c, store, t, e, f);
      }
    } else if InputsPass(c, store, t) {
      OutputErrorUnique(c, store, t, e, f);
    }
  }

  lemma InputErrorUnique(c: Crypto, store: Store, t: Transaction, e: Error, f: Error)
    requires ShapeOk(t) && Rejects(c, store, t, e) && Rejects(c, store, t, f)
    requires e.InvalidSignature? || e.InputOverflow? || f.InvalidSignature? || f.InputOverflow?
    ensures e == f
  {
    var i := FailingInput(c, store, t, if e.InvalidSignature? || e.InputOverflow? then e else f);
    if (f.InvalidSignature? || f.InputOverflow?) && (e.InvalidSignature? || e.InputOverflow?) {
      var j := FailingInput(c, store, t, f);
      assert i == j;
    }
  }

  lemma FailingInput(c: Crypto, store: Store, t: Transaction, e: Error) returns (i: nat)
    requires e.InvalidSignature? || e.InputOverflow?
    requires Rejects(c, store, t, e)
    ensures i < |t.inputs| && InputsOk(c, store, t, i) && !InputOk(c, store, t, i)
    ensures e.InvalidSignature? <==> !Signed(c, store, t, i)
  {
    if e.InvalidSignature? {
      i :| 0 <= i < |t.inputs| && BadSignatureAt(c, store, t, i);
    } else {
      i :| 0 <= i < |t.inputs| && InputOverflowAt(c, store, t, i);
    }
  }

  lemma OutputErrorUnique(c: Crypto, store: Store, t: Transaction, e: Error, f: Error)
    requires InputsPass(c, store, t) && Rejects(c, store, t, e) && Rejects(c, store, t, f)
    requires !(e.InvalidSignature? || e.InputOverflow? || f.InvalidSignature? || f.InputOverflow?)
    ensures e == f
  {
    if !e.Overspend? {
      var k := FailingOutput(c, store, t, e);
      if !f.Overspend? {
        var l := FailingOutput(c, store, t, f);
        assert k == l;
      }
    } else if !f.Overspend? {
      var l := FailingOutput(c, store, t, f);
    }
  }

  lemma FailingOutput(c: Crypto, store: Store, t: Transaction, e: Error) returns (k: nat)
    requires e.ZeroOutput? || e.OutputExists? || e.OutputOverflow?
    requires Rejects(c, store, t, e)
    ensures k < |t.outputs| && OutputsOk(c, store, t, k) && !OutputOk(c, store, t, k)
    ensures e.ZeroOutput? <==> t.outputs[k].value == 0
    ensures e.OutputExists? <==> t.outputs[k].value > 0 && OutputKey(c, t, k) in store
  {
    if e.ZeroOutput? {
      k :| 0 <= k < |t.outputs| && ZeroOutputAt(c, store, t, k);
    } else if e.OutputExists? {
      k :| 0 <= k < |t.outputs| && OutputExistsAt(c, store, t, k);
    } else {
      k :| 0 <= k < |t.outputs| && OutputOverflowAt(c, store, t, k);
    }
  }

  // ---------------------------------------------------------------- execution

  function OutpointSet(t: Transaction): set<H256> {
    set i | i in t.inputs :: i.outpoint
  }

  /** The store after the first `n` outputs of `t` are written into `m`. */
  function WithOutputs(c: Crypto, m: Store, t: Transaction, n: nat): Store
    requires n <= |t.outputs|
  {
    if n == 0 then m else WithOutputs(c, m, t, n - 1)[OutputKey(c, t, n - 1) := t.outputs[n - 1]]
  }

  function Apply(c: Crypto, store: Store, t: Transaction): Store {
    WithOutputs(c, store - OutpointSet(t), t, |t.outputs|)
  }

  /** `spend` goes through in this store with this much reward already accumulated. */
  ghost predicate Spendable(c: Crypto, store: Store, rewardTotal: U128, t: Transaction) {
    && Valid(c, store, t)
    && (forall i :: i in t.inputs ==> i.outpoint in store)
    && rewardTotal + Fee(store, t) % TWO_64 < TWO_128
  }

  lemma {:induction false} MissingMeans(store: Store, inputs: seq<TransactionInput>)
    ensures forall key :: key in Missing(store, inputs) <==>
              key !in store && exists i :: i in inputs && i.outpoint == key
    ensures Missing(store, inputs) == [] <==> forall i :: i in inputs ==> i.outpoint in store
  {
    if inputs != [] {
      var front, last := inputs[..|inputs| - 1], inputs[|inputs| - 1];
      MissingMeans(store, front);
      assert inputs == front + [last];
      assert forall i :: i in inputs <==> i in front || i == last;
    }
  }

  /** `at` picks, from first to last, the inputs whose outpoints are not in the store. */
  ghost predicate PicksAbsent(store: Store, inputs: seq<TransactionInput>, at: seq<nat>) {
    && (forall k :: 0 <= k < |at| ==> at[k] < |inputs| && inputs[at[k]].outpoint !in store)
    && (forall k, l :: 0 <= k < l < |at| ==> at[k] < at[l])
    && (forall i: nat :: i < |inputs| && inputs[i].outpoint !in store ==> i in at)
  }

  /** `keys` are the outpoints of the inputs at `at`. */
  ghost predicate PickedOutpoints(inputs: seq<TransactionInput>, at: seq<nat>, keys: seq<H256>) {
    && |at| == |keys|
    && forall k :: 0 <= k < |at| ==> at[k] < |inputs| && inputs[at[k]].outpoint == keys[k]
  }

  lemma PickedOneMore(inputs: seq<TransactionInput>, n: nat, at: seq<nat>, keys: seq<H256>)
    requires n < |inputs| && PickedOutpoints(inputs[..n], at, keys)
    ensures PickedOutpoints(inputs, at, keys)
    ensures PickedOutpoints(inputs, at + [n], keys + [inputs[n].outpoint])
  {
  }

  lemma PicksOneMore(store: Store, inputs: seq<TransactionInput>, before: seq<nat>)
    requires inputs != [] && PicksAbsent(store, inputs[..|inputs| - 1], before)
    ensures var n := |inputs| - 1;
            PicksAbsent(store, inputs, if inputs[n].outpoint in store then before else before + [n])
  {
    var n := |inputs| - 1;
    var at := if inputs[n].outpoint in store then before else before + [n];
    forall i: nat | i < |inputs| && inputs[i].outpoint !in store ensures i in at {
      if i < n {
        assert inputs[..n][i].outpoint !in store;
        assert i in before;
      } else {
        assert at[|before|] == n;
      }
    }
  }

  /** The positions of the inputs whose outpoints are not in the store. */
  ghost function AbsentAt(store: Store, inputs: seq<TransactionInput>): seq<nat> {
    if inputs == [] then []
    else
      var n := |inputs| - 1;
      AbsentAt(store, inputs[..n]) + if inputs[n].outpoint in store then [] else [n]
  }

  lemma {:induction false} AbsentAtPicks(store: Store, inputs: seq<TransactionInput>)
    ensures PicksAbsent(store, inputs, AbsentAt(store, inputs))
  {
    if inputs != [] {
      var before := inputs[..|inputs| - 1];
      AbsentAtPicks(store, before);
      PicksOneMore(store, inputs, AbsentAt(store, before));
      assert AbsentAt(store, before) + [] == AbsentAt(store, before);
      hide PicksAbsent;
    }
  }

  lemma {:induction false} AbsentAtMissing(store: Store, inputs: seq<TransactionInput>)
    ensures PickedOutpoints(inputs, AbsentAt(store, inputs), Missing(store, inputs))
  {
    if inputs != [] {
      var n := |inputs| - 1;
      var at, keys := AbsentAt(store, inputs[..n]), Missing(store, inputs[..n]);
      AbsentAtMissing(store, inputs[..n]);
      PickedOneMore(inputs, n, at, keys);
      assert at + [] == at && keys + [] == keys;
      hide PickedOutpoints;
    }
  }

  /** The missing outpoints are those of the absent inputs, one for each of them and in their
      order. */
  lemma MissingInOrder(store: Store, inputs: seq<TransactionInput>) returns (at: seq<nat>)
    ensures PicksAbsent(store, inputs, at) && PickedOutpoints(inputs, at, Missing(store, inputs))
  {
    at := AbsentAt(store, inputs);
    AbsentAtPicks(store, inputs);
    AbsentAtMissing(store, inputs);
    hide PicksAbsent, PickedOutpoints, AbsentAt, Missing;
  }

  // ---------------------------------------------------------------- the outcome of a whole call

  /** `e` is the error that the whole of `spend` returns. */
  ghost predicate SpendRejects(c: Crypto, store: Store, rewardTotal: U128, t: Transaction, e: Error) {
    || Rejects(c, store, t, e)
    || (e == MissingInputs && Valid(c, store, t) && Missing(store, t.inputs) != [])
    || (e == RewardOverflow && Valid(c, store, t) && Missing(store, t.inputs) == []
        && rewardTotal + CastFee(store, t) >= TWO_128)
  }

  /** A call either goes through or has one error, and the error is determined. */
  lemma SpendableOrOneError(c: Crypto, store: Store, rewardTotal: U128, t: Transaction)
    ensures Spendable(c, store, rewardTotal, t) <==> !exists e :: SpendRejects(c, store, rewardTotal, t, e)
    ensures forall e, f :: SpendRejects(c, store, rewardTotal, t, e) && SpendRejects(c, store, rewardTotal, t, f) ==>
              e == f
  {
    ValidOrRejected(c, store, t);
    MissingMeans(store, t.inputs);
    forall e, f | Rejects(c, store, t, e) && Rejects(c, store, t, f) ensures e == f {
      ErrorUnique(c, store, t, e, f);
    }
    hide Valid, Rejects, Missing;
    if Valid(c, store, t) && !Spendable(c, store, rewardTotal, t) {
      assert SpendRejects(c, store, rewardTotal, t,
        if Missing(store, t.inputs) != [] then MissingInputs else RewardOverflow);
    }
    if !Valid(c, store, t) {
      var e :| Rejects(c, store, t, e);
      assert SpendRejects(c, store, rewardTotal, t, e);
    }
  }
}

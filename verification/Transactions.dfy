/** The transaction structs of the UTXO pallet, their SCALE layout, the message that is signed
    and the preimages whose hashes become output keys. */
module Transactions {
  import opened Scale

  datatype TransactionInput = TransactionInput(outpoint: H256, sigscript: H512)

  datatype TransactionOutput = TransactionOutput(value: U128, pubkey: H256)

  datatype TransactionData =
    TransactionData(inputs: seq<TransactionInput>, outputs: seq<TransactionOutput>)

  /** `Vec` lengths are compact 32-bit integers, and the encoded transaction is itself hashed
      as a `Vec<u8>`: the encoder has no result for anything longer. */
  predicate Encodable(t: TransactionData) {
    EncodedSize(t) < TWO_32
  }

  type Transaction = t: TransactionData | Encodable(t)
    witness (assert EncodedSize(TransactionData([], [])) == 2; TransactionData([], []))

  function EncodedSize(t: TransactionData): nat {
    CompactSize(|t.inputs|) + 96 * |t.inputs| + CompactSize(|t.outputs|) + 48 * |t.outputs|
  }

  // ---------------------------------------------------------------- encoding

  function EncodeOutput(o: TransactionOutput): (bs: Bytes)
    ensures |bs| == 48
  {
    Le(o.value, 16) + o.pubkey
  }

  function EncodeInput(i: TransactionInput): (bs: Bytes)
    ensures |bs| == 96
  {
    i.outpoint + i.sigscript
  }

  function EncodeInputs(inputs: seq<TransactionInput>): (bs: Bytes)
    ensures |bs| == 96 * |inputs|
  {
    if inputs == [] then [] else EncodeInput(inputs[0]) + EncodeInputs(inputs[1..])
  }

  function EncodeOutputs(outputs: seq<TransactionOutput>): (bs: Bytes)
    ensures |bs| == 48 * |outputs|
  {
    if outputs == [] then [] else EncodeOutput(outputs[0]) + EncodeOutputs(outputs[1..])
  }

  function Encode(t: TransactionData): (bs: Bytes)
    requires |t.inputs| < TWO_32 && |t.outputs| < TWO_32
    ensures |bs| == EncodedSize(t)
  {
    Compact(|t.inputs|) + EncodeInputs(t.inputs) + (Compact(|t.outputs|) + EncodeOutputs(t.outputs))
  }

  // ---------------------------------------------------------------- where the fields are

  lemma {:induction false} InputAt(inputs: seq<TransactionInput>, i: nat)
    requires i < |inputs|
    ensures EncodeInputs(inputs)[96 * i..96 * i + 32] == inputs[i].outpoint
    ensures EncodeInputs(inputs)[96 * i + 32..96 * i + 96] == inputs[i].sigscript
  {
    var all, tail := EncodeInputs(inputs), EncodeInputs(inputs[1..]);
    assert all == EncodeInput(inputs[0]) + tail;
    if i > 0 {
      InputAt(inputs[1..], i - 1);
      assert all[96 * i..96 * i + 32] == tail[96 * (i - 1)..96 * (i - 1) + 32];
      assert all[96 * i + 32..96 * i + 96] == tail[96 * (i - 1) + 32..96 * (i - 1) + 96];
    }
  }

  lemma {:induction false} OutputAt(outputs: seq<TransactionOutput>, k: nat)
    requires k < |outputs|
    ensures EncodeOutputs(outputs)[48 * k..48 * k + 16] == Le(outputs[k].value, 16)
    ensures EncodeOutputs(outputs)[48 * k + 16..48 * k + 48] == outputs[k].pubkey
  {
    var all, tail := EncodeOutputs(outputs), EncodeOutputs(outputs[1..]);
    assert all == EncodeOutput(outputs[0]) + tail;
    if k > 0 {
      OutputAt(outputs[1..], k - 1);
      assert all[48 * k..48 * k + 16] == tail[48 * (k - 1)..48 * (k - 1) + 16];
      assert all[48 * k + 16..48 * k + 48] == tail[48 * (k - 1) + 16..48 * (k - 1) + 48];
    }
  }

  /** The whole layout: the number of inputs, the inputs of 96 bytes with the outpoint first, the
      number of outputs, the outputs of 48 bytes with the value first. */
  lemma EncodeLayout(t: TransactionData)
    requires |t.inputs| < TWO_32 && |t.outputs| < TWO_32
    ensures var bs, n, m := Encode(t), |t.inputs|, |t.outputs|;
            var a := CompactSize(n);
            var b := a + 96 * n;
            var c := b + CompactSize(m);
            && |bs| == c + 48 * m && bs[..a] == Compact(n) && bs[b..c] == Compact(m)
            && (forall i :: 0 <= i < n ==>
                  bs[a..b][96 * i..96 * i + 32] == t.inputs[i].outpoint
                  && bs[a..b][96 * i + 32..96 * i + 96] == t.inputs[i].sigscript)
            && (forall k :: 0 <= k < m ==>
                  bs[c..][48 * k..48 * k + 16] == Le(t.outputs[k].value, 16)
                  && bs[c..][48 * k + 16..48 * k + 48] == t.outputs[k].pubkey)
  {
    var bs, n, m := Encode(t), |t.inputs|, |t.outputs|;
    var a := CompactSize(n);
    var b := a + 96 * n;
    var c := b + CompactSize(m);
    FourParts(Compact(n), EncodeInputs(t.inputs), Compact(m), EncodeOutputs(t.outputs));
    forall i | 0 <= i < n
      ensures bs[a..b][96 * i..96 * i + 32] == t.inputs[i].outpoint
      ensures bs[a..b][96 * i + 32..96 * i + 96] == t.inputs[i].sigscript
    {
      InputAt(t.inputs, i);
    }
    forall k | 0 <= k < m
      ensures bs[c..][48 * k..48 * k + 16] == Le(t.outputs[k].value, 16)
      ensures bs[c..][48 * k + 16..48 * k + 48] == t.outputs[k].pubkey
    {
      OutputAt(t.outputs, k);
    }
  }

  lemma FourParts(p: Bytes, q: Bytes, r: Bytes, s: Bytes)
    ensures var bs := p + q + (r + s);
            var a, b, c := |p|, |p| + |q|, |p| + |q| + |r|;
            bs[..a] == p && bs[a..b] == q && bs[b..c] == r && bs[c..] == s
  {
  }

  // ---------------------------------------------------------------- decoding

  function DecodeInput(bs: Bytes): (d: Decoded<TransactionInput>)
    ensures d.Done? ==> bs == EncodeInput(d.value) + d.rest
  {
    if |bs| < 96 then Fail else Done(TransactionInput(bs[..32], bs[32..96]), bs[96..])
  }

  function DecodeOutput(bs: Bytes): (d: Decoded<TransactionOutput>)
    ensures d.Done? ==> bs == EncodeOutput(d.value) + d.rest
  {
    if |bs| < 48 then Fail
    else
      PowersOf256();
      LeValueBound(bs[..16]);
      LeOfValue(bs[..16]);
      Done(TransactionOutput(LeValue(bs[..16]), bs[16..48]), bs[48..])
  }

  function DecodeInputs(n: nat, bs: Bytes): (d: Decoded<seq<TransactionInput>>)
    ensures d.Done? ==> |d.value| == n && bs == EncodeInputs(d.value) + d.rest
  {
    if n == 0 then Done([], bs)
    else
      match DecodeInput(bs)
      case Fail => Fail
      case Done(first, bs1) =>
        match DecodeInputs(n - 1, bs1)
        case Fail => Fail
        case Done(others, rest) =>
          assert ([first] + others)[1..] == others;
          Done([first] + others, rest)
  }

  function DecodeOutputs(n: nat, bs: Bytes): (d: Decoded<seq<TransactionOutput>>)
    ensures d.Done? ==> |d.value| == n && bs == EncodeOutputs(d.value) + d.rest
  {
    if n == 0 then Done([], bs)
    else
      match DecodeOutput(bs)
      case Fail => Fail
      case Done(first, bs1) =>
        match DecodeOutputs(n - 1, bs1)
        case Fail => Fail
        case Done(others, rest) =>
          assert ([first] + others)[1..] == others;
          Done([first] + others, rest)
  }

  function Decode(bs: Bytes): Decoded<TransactionData> {
    match DecodeCompact(bs)
    case Fail => Fail
    case Done(n, bs1) =>
      match DecodeInputs(n, bs1)
      case Fail => Fail
      case Done(inputs, bs2) =>
        match DecodeCompact(bs2)
        case Fail => Fail
        case Done(m, bs3) =>
          match DecodeOutputs(m, bs3)
          case Fail => Fail
          case Done(outputs, rest) => Done(TransactionData(inputs, outputs), rest)
  }

  // ---------------------------------------------------------------- the codec is exact

  lemma {:induction false} InputsRoundTrip(inputs: seq<TransactionInput>, rest: Bytes)
    ensures DecodeInputs(|inputs|, EncodeInputs(inputs) + rest) == Done(inputs, rest)
  {
    if inputs != [] {
      var tail := EncodeInputs(inputs[1..]) + rest;
      var bs := EncodeInputs(inputs) + rest;
      assert bs == EncodeInput(inputs[0]) + tail;
      assert bs[..32] == inputs[0].outpoint && bs[32..96] == inputs[0].sigscript && bs[96..] == tail;
      InputsRoundTrip(inputs[1..], rest);
      assert DecodeInput(bs) == Done(inputs[0], tail);
      assert [inputs[0]] + inputs[1..] == inputs;
    } else {
      assert EncodeInputs(inputs) + rest == rest;
    }
  }

  lemma {:induction false} OutputsRoundTrip(outputs: seq<TransactionOutput>, rest: Bytes)
    ensures DecodeOutputs(|outputs|, EncodeOutputs(outputs) + rest) == Done(outputs, rest)
  {
    if outputs != [] {
      var tail := EncodeOutputs(outputs[1..]) + rest;
      var bs := EncodeOutputs(outputs) + rest;
      assert bs == EncodeOutput(outputs[0]) + tail;
      assert bs[..16] == Le(outputs[0].value, 16) && bs[16..48] == outputs[0].pubkey && bs[48..] == tail;
      PowersOf256();
      LeRoundTrip(outputs[0].value, 16);
      OutputsRoundTrip(outputs[1..], rest);
      assert DecodeOutput(bs) == Done(outputs[0], tail);
      assert [outputs[0]] + outputs[1..] == outputs;
    } else {
      assert EncodeOutputs(outputs) + rest == rest;
    }
  }

  /** Decoding an encoded transaction followed by any bytes returns it and those bytes. */
  lemma RoundTrip(t: TransactionData, rest: Bytes)
    requires |t.inputs| < TWO_32 && |t.outputs| < TWO_32
    ensures Decode(Encode(t) + rest) == Done(t, rest)
  {
    var bs3 := EncodeOutputs(t.outputs) + rest;
    var bs2 := Compact(|t.outputs|) + bs3;
    var bs1 := EncodeInputs(t.inputs) + bs2;
    assert Encode(t) + rest == Compact(|t.inputs|) + bs1;
    CompactRoundTrip(|t.inputs|, bs1);
    InputsRoundTrip(t.inputs, bs2);
    CompactRoundTrip(|t.outputs|, bs3);
    OutputsRoundTrip(t.outputs, rest);
  }

  /** Whatever the decoder accepts is the encoder's own output, followed by the bytes left over. */
  lemma DecodeCanonical(bs: Bytes)
    requires Decode(bs).Done?
    ensures var d := Decode(bs);
            |d.value.inputs| < TWO_32 && |d.value.outputs| < TWO_32 && bs == Encode(d.value) + d.rest
  {
    var t, rest := Decode(bs).value, Decode(bs).rest;
    var n, bs1 := DecodeCompact(bs).value, DecodeCompact(bs).rest;
    var bs2 := DecodeInputs(n, bs1).rest;
    var m, bs3 := DecodeCompact(bs2).value, DecodeCompact(bs2).rest;
    CompactExact(bs);
    CompactExact(bs2);
    Regroup(Compact(n), EncodeInputs(t.inputs), Compact(m), EncodeOutputs(t.outputs), rest);
  }

  lemma Regroup(a: Bytes, b: Bytes, c: Bytes, d: Bytes, rest: Bytes)
    ensures a + (b + (c + (d + rest))) == a + b + (c + d) + rest
  {
  }

  /** The codec is exact: one byte string for each transaction, one transaction for each string. */
  lemma DecodeExact(bs: Bytes, t: TransactionData, rest: Bytes)
    ensures Decode(bs) == Done(t, rest) <==>
            |t.inputs| < TWO_32 && |t.outputs| < TWO_32 && bs == Encode(t) + rest
  {
    if Decode(bs) == Done(t, rest) {
      DecodeCanonical(bs);
    } else if |t.inputs| < TWO_32 && |t.outputs| < TWO_32 && bs == Encode(t) + rest {
      RoundTrip(t, rest);
    }
  }

  lemma EncodeInjective(t: TransactionData, u: TransactionData)
    requires |t.inputs| < TWO_32 && |t.outputs| < TWO_32
    requires |u.inputs| < TWO_32 && |u.outputs| < TWO_32
    requires Encode(t) == Encode(u)
    ensures t == u
  {
    assert Encode(t) + [] == Encode(u) + [];
    RoundTrip(t, []);
    RoundTrip(u, []);
  }

  // ---------------------------------------------------------------- the signed message

  const ZERO_SIGSCRIPT: H512 := seq(64, _ => 0)

  function Strip(t: Transaction): (u: Transaction)
    ensures |u.inputs| == |t.inputs| && u.outputs == t.outputs
  {
    var inputs := seq(|t.inputs|, i requires 0 <= i < |t.inputs| => t.inputs[i].(sigscript := ZERO_SIGSCRIPT));
    t.(inputs := inputs)
  }

  function Outpoints(t: TransactionData): (s: seq<H256>)
    ensures |s| == |t.inputs|
  {
    seq(|t.inputs|, i requires 0 <= i < |t.inputs| => t.inputs[i].outpoint)
  }

  /** What a key owner signs: the encoding with every sigscript zeroed. */
  function Payload(t: Transaction): Bytes {
    Encode(Strip(t))
  }

  /** Signatures commit to the whole sequence of outpoints and to the outputs, and to nothing else. */
  lemma PayloadCommitment(t: Transaction, u: Transaction)
    ensures Payload(t) == Payload(u) <==> Outpoints(t) == Outpoints(u) && t.outputs == u.outputs
  {
    if Payload(t) == Payload(u) {
      EncodeInjective(Strip(t), Strip(u));
      forall i | 0 <= i < |t.inputs| ensures Outpoints(t)[i] == Outpoints(u)[i] {
        assert Strip(t).inputs[i] == Strip(u).inputs[i];
      }
    }
    if Outpoints(t) == Outpoints(u) && t.outputs == u.outputs {
      forall i | 0 <= i < |t.inputs| ensures Strip(t).inputs[i] == Strip(u).inputs[i] {
        assert Outpoints(t)[i] == Outpoints(u)[i];
      }
      assert Strip(t).inputs == Strip(u).inputs;
    }
  }

  /** Stripping twice is stripping once, so a signature survives being put into the transaction. */
  lemma StripIdempotent(t: Transaction)
    ensures Strip(Strip(t)) == Strip(t) && Payload(Strip(t)) == Payload(t)
  {
    assert Strip(Strip(t)).inputs == Strip(t).inputs;
  }

  /** Read back, the message is the transaction itself with 64 zero bytes in each sigscript. */
  lemma PayloadReadsBack(t: Transaction)
    ensures var d := Decode(Payload(t));
            && d.Done? && d.rest == []
            && Outpoints(d.value) == Outpoints(t) && d.value.outputs == t.outputs
            && forall i, b :: 0 <= i < |t.inputs| && 0 <= b < 64 ==> d.value.inputs[i].sigscript[b] == 0
  {
    assert Payload(t) + [] == Payload(t);
    RoundTrip(Strip(t), []);
    assert Outpoints(Strip(t)) == Outpoints(t);
  }

  // ---------------------------------------------------------------- key preimages

  /** Hashed for the key of a genesis output. */
  function GenesisPreimage(o: TransactionOutput): (bs: Bytes)
    ensures |bs| == 48
  {
    EncodeOutput(o)
  }

  /** Hashed for the key of a block reward: the tuple of the output and the height as a `u64`. */
  function RewardPreimage(o: TransactionOutput, height: U32): (bs: Bytes)
    ensures |bs| == 56
  {
    EncodeOutput(o) + Le(height, 8)
  }

  /** Hashed for the key of output `index`: the tuple of the encoded transaction, as a byte
      vector with its own length prefix, and the index as a `u64`. */
  function OutputPreimage(t: Transaction, index: nat): (bs: Bytes)
    ensures t.inputs != [] && t.outputs != [] ==> |bs| >= 156
  {
    Compact(EncodedSize(t)) + Encode(t) + Le(index, 8)
  }

  /** Read back, the bytes of a genesis key are the output. */
  lemma GenesisPreimageReadsBack(o: TransactionOutput)
    ensures DecodeOutput(GenesisPreimage(o)) == Done(o, [])
    ensures LeValue(GenesisPreimage(o)[..16]) == o.value && GenesisPreimage(o)[16..] == o.pubkey
  {
    OutputFields(o, []);
    assert GenesisPreimage(o) + [] == GenesisPreimage(o);
  }

  lemma OutputFields(o: TransactionOutput, rest: Bytes)
    ensures var bs := EncodeOutput(o) + rest;
            DecodeOutput(bs) == Done(o, rest) && LeValue(bs[..16]) == o.value && bs[16..48] == o.pubkey
  {
    var bs := EncodeOutput(o) + rest;
    assert bs[..16] == Le(o.value, 16) && bs[16..48] == o.pubkey && bs[48..] == rest;
    PowersOf256();
    LeRoundTrip(o.value, 16);
  }

  /** Read back, the bytes of a reward key are the output and then the height in eight bytes. */
  lemma RewardPreimageReadsBack(o: TransactionOutput, height: U32)
    ensures var d := DecodeOutput(RewardPreimage(o, height));
            d.Done? && d.value == o && |d.rest| == 8 && LeValue(d.rest) == height
    ensures LeValue(RewardPreimage(o, height)[..16]) == o.value && RewardPreimage(o, height)[16..48] == o.pubkey
  {
    OutputFields(o, Le(height, 8));
    PowersOf256();
    LeRoundTrip(height, 8);
  }

  /** Read back, the bytes of an output key are a length, that many bytes of transaction, and then
      the index in eight bytes. */
  lemma OutputPreimageReadsBack(t: Transaction, index: U64)
    ensures var d := DecodeCompact(OutputPreimage(t, index));
            && d.Done? && |d.rest| == d.value + 8
            && Decode(d.rest[..d.value]) == Done(t, [])
            && LeValue(d.rest[d.value..]) == index
  {
    var size, rest := EncodedSize(t), Encode(t) + Le(index, 8);
    assert OutputPreimage(t, index) == Compact(size) + rest;
    CompactRoundTrip(size, rest);
    assert rest[..size] == Encode(t) + [] && rest[size..] == Le(index, 8);
    RoundTrip(t, []);
    PowersOf256();
    LeRoundTrip(index, 8);
  }

  lemma GenesisPreimageInjective(o: TransactionOutput, p: TransactionOutput)
    requires GenesisPreimage(o) == GenesisPreimage(p)
    ensures o == p
  {
    GenesisPreimageReadsBack(o);
    GenesisPreimageReadsBack(p);
  }

  lemma RewardPreimageInjective(o: TransactionOutput, h: U32, p: TransactionOutput, k: U32)
    requires RewardPreimage(o, h) == RewardPreimage(p, k)
    ensures o == p && h == k
  {
    RewardPreimageReadsBack(o, h);
    RewardPreimageReadsBack(p, k);
  }

  lemma OutputPreimageInjective(t: Transaction, i: U64, u: Transaction, j: U64)
    requires OutputPreimage(t, i) == OutputPreimage(u, j)
    ensures t == u && i == j
  {
    OutputPreimageReadsBack(t, i);
    OutputPreimageReadsBack(u, j);
    hide OutputPreimage, Decode, DecodeCompact, LeValue;
  }

  /** The three kinds of key never hash the same bytes, so only the hash itself could make two
      keys of different kinds coincide. */
  lemma PreimageKindsDisjoint(g: TransactionOutput, o: TransactionOutput, h: U32, t: Transaction, k: nat)
    requires t.inputs != [] && t.outputs != []
    ensures GenesisPreimage(g) != RewardPreimage(o, h)
    ensures OutputPreimage(t, k) != GenesisPreimage(g)
    ensures OutputPreimage(t, k) != RewardPreimage(o, h)
  {
    assert |GenesisPreimage(g)| == 48 && |RewardPreimage(o, h)| == 56 && |OutputPreimage(t, k)| >= 156;
  }
}

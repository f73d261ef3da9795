/** Proof of work: the difficulty test, the seal a computation yields and the verifier's check.
    SHA3-256 is a parameter of which nothing is assumed. */
module Pow {
  import opened Scale

  // ---------------------------------------------------------------- the difficulty test

  /** A hash read as a big-endian number. */
  function BeValue(bs: Bytes): nat {
    if bs == [] then 0 else 256 * BeValue(bs[..|bs| - 1]) + bs[|bs| - 1]
  }

  function Be(n: nat, width: nat): (bs: Bytes)
    ensures |bs| == width
  {
    if width == 0 then [] else Be(n / 256, width - 1) + [n % 256]
  }

  function HashValue(hash: H256): (n: U256) {
    BeBound(hash);
    PowersOf256();
    BeValue(hash)
  }

  /** `overflowing_mul` of the hash and the difficulty, looking only at the overflow flag. */
  predicate HashMeetsDifficulty(hash: H256, difficulty: U256) {
    HashValue(hash) * difficulty < TWO_256
  }

  lemma {:induction false} BeBound(bs: Bytes)
    ensures BeValue(bs) < Pow256(|bs|)
  {
    if bs != [] {
      BeBound(bs[..|bs| - 1]);
    }
  }

  lemma {:induction false} BeOfValue(bs: Bytes)
    ensures Be(BeValue(bs), |bs|) == bs
  {
    if bs != [] {
      var front := bs[..|bs| - 1];
      BeOfValue(front);
      assert bs == front + [bs[|bs| - 1]];
    }
  }

  lemma {:induction false} BeRoundTrip(n: nat, width: nat)
    requires n < Pow256(width)
    ensures BeValue(Be(n, width)) == n
  {
    if width > 0 {
      BeRoundTrip(n / 256, width - 1);
      assert Be(n, width)[..width - 1] == Be(n / 256, width - 1);
    }
  }

  /** Most significant byte first: byte `k` from the end is digit `k` in base 256. */
  lemma {:induction false} BeByte(bs: Bytes, k: nat)
    requires k < |bs|
    ensures bs[|bs| - 1 - k] == BeValue(bs) / Pow256(k) % 256
  {
    var front, last := bs[..|bs| - 1], bs[|bs| - 1];
    if k > 0 {
      BeByte(front, k - 1);
      DivisionUnique(BeValue(bs), 256, BeValue(front), last);
      DivideTwice(BeValue(bs), 256, Pow256(k - 1));
    }
  }

  /** The number of a hash is read big-endian: its first byte is the most significant of 32. */
  lemma HashDigits(hash: H256, k: nat)
    requires k < 32
    ensures hash[k] == HashValue(hash) / Pow256(31 - k) % 256
  {
    BeByte(hash, 31 - k);
  }

  /** The largest accepted number. */
  function Threshold(difficulty: U256): U256
    requires difficulty > 0
  {
    (TWO_256 - 1) / difficulty
  }

  /** The overflow test is an exact threshold; difficulty 0 accepts every hash. */
  lemma ExactThreshold(hash: H256, difficulty: U256)
    ensures difficulty == 0 ==> HashMeetsDifficulty(hash, difficulty)
    ensures difficulty > 0 ==>
              (HashMeetsDifficulty(hash, difficulty) <==> HashValue(hash) <= Threshold(difficulty))
  {
    if difficulty > 0 {
      QuotientThreshold(HashValue(hash), difficulty, TWO_256 - 1);
    }
  }

  lemma QuotientThreshold(n: nat, d: nat, limit: nat)
    requires d > 0
    ensures n * d <= limit <==> n <= limit / d
  {
    var q, r := limit / d, limit % d;
    assert limit == q * d + r;
    if n <= q {
      MulMonotone(n, q, d);
    } else {
      MulMonotone(q + 1, n, d);
      assert (q + 1) * d == q * d + d;
    }
  }

  /** A lower hash never does worse, and neither does a lower difficulty. */
  lemma AcceptanceDownwardClosed(hash: H256, lower: H256, difficulty: U256, easier: U256)
    requires HashMeetsDifficulty(hash, difficulty)
    requires HashValue(lower) <= HashValue(hash) && easier <= difficulty
    ensures HashMeetsDifficulty(lower, easier)
  {
    MulMonotone(HashValue(lower), HashValue(hash), easier);
    MulMonotone(easier, difficulty, HashValue(hash));
    assert HashValue(hash) * easier == easier * HashValue(hash);
  }

  // ---------------------------------------------------------------- how many hashes win

  /** The hashes of the numbers below `n`. */
  ghost function HashesBelow(n: nat): set<H256>
    requires n <= TWO_256
  {
    set k | 0 <= k < n :: Be(k, 32)
  }

  lemma {:induction false} CountBelow(n: nat)
    requires n <= TWO_256
    ensures |HashesBelow(n)| == n
  {
    hide Be, HashValue;
    if n == 0 {
      assert HashesBelow(0) == {};
    } else {
      CountBelow(n - 1);
      assert HashesBelow(n) == HashesBelow(n - 1) + {Be(n - 1, 32)};
      forall k | 0 <= k < n - 1 ensures Be(k, 32) != Be(n - 1, 32) {
        NumberOfHash(k);
        NumberOfHash(n - 1);
      }
    }
  }

  lemma NumberOfHash(k: nat)
    requires k < TWO_256
    ensures HashValue(Be(k, 32)) == k
  {
    PowersOf256();
    BeRoundTrip(k, 32);
  }

  lemma BelowMeans(n: nat, hash: H256)
    requires n <= TWO_256
    ensures hash in HashesBelow(n) <==> HashValue(hash) < n
  {
    BeOfValue(hash);
    if hash in HashesBelow(n) {
      var k :| 0 <= k < n && Be(k, 32) == hash;
      NumberOfHash(k);
    }
  }

  /** Every hash is counted among the 2^256. */
  ghost function WinningHashes(difficulty: U256): set<H256> {
    set hash | hash in HashesBelow(TWO_256) && HashMeetsDifficulty(hash, difficulty)
  }

  function CeilDiv(a: nat, d: nat): nat
    requires d > 0
  {
    if a % d == 0 then a / d else a / d + 1
  }

  /** The difficulty is the odds: of the 2^256 hashes exactly ceil(2^256 / difficulty) win. */
  lemma WinningCount(difficulty: U256)
    requires difficulty > 0
    ensures |WinningHashes(difficulty)| == CeilDiv(TWO_256, difficulty)
    ensures forall hash: H256 :: hash in WinningHashes(difficulty) <==> HashMeetsDifficulty(hash, difficulty)
  {
    var t: nat := Threshold(difficulty);
    forall hash: H256
      ensures hash in WinningHashes(difficulty) <==> HashMeetsDifficulty(hash, difficulty)
      ensures hash in WinningHashes(difficulty) <==> hash in HashesBelow(t + 1)
    {
      BelowMeans(TWO_256, hash);
      BelowMeans(t + 1, hash);
      ExactThreshold(hash, difficulty);
    }
    assert WinningHashes(difficulty) == HashesBelow(t + 1);
    CountBelow(t + 1);
    CeilIsThreshold(TWO_256, difficulty);
  }

  lemma CeilIsThreshold(a: nat, d: nat)
    requires a > 0 && d > 0
    ensures CeilDiv(a, d) == (a - 1) / d + 1
  {
    var q, r := a / d, a % d;
    assert a == q * d + r;
    if r == 0 {
      assert a - 1 == (q - 1) * d + (d - 1);
      DivisionUnique(a - 1, d, q - 1, d - 1);
    } else {
      DivisionUnique(a - 1, d, q, r - 1);
    }
  }

  // ---------------------------------------------------------------- seals

  datatype Seal = Seal(difficulty: U256, work: H256, nonce: U256)

  function EncodeSeal(s: Seal): (bs: Bytes)
    ensures |bs| == 96
  {
    Le(s.difficulty, 32) + s.work + Le(s.nonce, 32)
  }

  /** Where the fields of a seal are. */
  lemma SealLayout(s: Seal)
    ensures var bs := EncodeSeal(s);
            LeValue(bs[..32]) == s.difficulty && bs[32..64] == s.work && LeValue(bs[64..]) == s.nonce
  {
    var bs := EncodeSeal(s);
    assert bs[..32] == Le(s.difficulty, 32) && bs[32..64] == s.work && bs[64..] == Le(s.nonce, 32);
    PowersOf256();
    LeRoundTrip(s.difficulty, 32);
    LeRoundTrip(s.nonce, 32);
  }

  /** Reads a seal from the front of `bs`. Bytes after the first 96 are ignored. */
  function DecodeSeal(bs: Bytes): Option<Seal> {
    if |bs| < 96 then None
    else
      PowersOf256();
      LeValueBound(bs[..32]);
      LeValueBound(bs[64..96]);
      Some(Seal(LeValue(bs[..32]), bs[32..64], LeValue(bs[64..96])))
  }

  lemma DecodeSealExact(bs: Bytes, s: Seal)
    ensures DecodeSeal(bs) == Some(s) <==> |bs| >= 96 && bs[..96] == EncodeSeal(s)
  {
    if |bs| >= 96 {
      ThreeParts(bs, Le(s.difficulty, 32), s.work, Le(s.nonce, 32));
      LeExact(bs[..32], s.difficulty);
      LeExact(bs[64..96], s.nonce);
    }
  }

  lemma LeExact(bs: Bytes, n: U256)
    requires |bs| == 32
    ensures bs == Le(n, 32) <==> LeValue(bs) == n
  {
    PowersOf256();
    LeOfValue(bs);
    LeRoundTrip(n, 32);
  }

  lemma ThreeParts(bs: Bytes, a: Bytes, b: Bytes, c: Bytes)
    requires |bs| >= 96 && |a| == |b| == |c| == 32
    ensures bs[..96] == a + b + c <==> bs[..32] == a && bs[32..64] == b && bs[64..96] == c
  {
    var abc := a + b + c;
    assert abc[..32] == a && abc[32..64] == b && abc[64..96] == c;
    assert bs[..96] == bs[..32] + bs[32..64] + bs[64..96];
    assert bs[..96][..32] == bs[..32] && bs[..96][32..64] == bs[32..64] && bs[..96][64..96] == bs[64..96];
  }

  /** The seal of an attempt: the work is the hash of difficulty, pre-hash and nonce. */
  function Compute(sha3: Bytes -> H256, difficulty: U256, preHash: H256, nonce: U256): Seal {
    Seal(difficulty, sha3(Le(difficulty, 32) + preHash + Le(nonce, 32)), nonce)
  }

  /** The hashed message is 96 bytes: difficulty, pre-hash and nonce, each in its place. */
  ghost predicate IsAttempt(m: Bytes, difficulty: U256, preHash: H256, nonce: U256) {
    |m| == 96 && LeValue(m[..32]) == difficulty && m[32..64] == preHash && LeValue(m[64..]) == nonce
  }

  /** The work commits to all three: there is exactly one such message, and the work is its hash. */
  lemma WorkHashesAttempt(sha3: Bytes -> H256, difficulty: U256, preHash: H256, nonce: U256)
    ensures var seal := Compute(sha3, difficulty, preHash, nonce);
            && seal.difficulty == difficulty && seal.nonce == nonce
            && (exists m :: IsAttempt(m, difficulty, preHash, nonce))
            && (forall m :: IsAttempt(m, difficulty, preHash, nonce) ==> seal.work == sha3(m))
  {
    var m := Le(difficulty, 32) + preHash + Le(nonce, 32);
    SealLayout(Seal(difficulty, preHash, nonce));
    assert IsAttempt(m, difficulty, preHash, nonce);
    forall m' | IsAttempt(m', difficulty, preHash, nonce) ensures m' == m {
      LeOfValue(m'[..32]);
      LeOfValue(m'[64..]);
      assert m' == m'[..32] + m'[32..64] + m'[64..];
    }
  }

  predicate Verify(sha3: Bytes -> H256, preHash: H256, raw: Bytes, difficulty: U256) {
    match DecodeSeal(raw)
    case None => false
    case Some(seal) =>
      HashMeetsDifficulty(seal.work, difficulty) && Compute(sha3, difficulty, preHash, seal.nonce) == seal
  }

  /** `raw` carries, in its first 96 bytes, the winning seal of `nonce`. */
  ghost predicate CarriesWin(sha3: Bytes -> H256, preHash: H256, raw: Bytes, difficulty: U256, nonce: U256) {
    && |raw| >= 96
    && raw[..96] == EncodeSeal(Compute(sha3, difficulty, preHash, nonce))
    && Wins(sha3, difficulty, preHash, nonce)
  }

  predicate Wins(sha3: Bytes -> H256, difficulty: U256, preHash: H256, nonce: U256) {
    HashMeetsDifficulty(Compute(sha3, difficulty, preHash, nonce).work, difficulty)
  }

  /** The verifier accepts exactly the bytes that start with the winning seal of some nonce, for
      this pre-hash and this difficulty. */
  lemma VerifyExact(sha3: Bytes -> H256, preHash: H256, raw: Bytes, difficulty: U256)
    ensures Verify(sha3, preHash, raw, difficulty) <==>
            exists nonce: U256 :: CarriesWin(sha3, preHash, raw, difficulty, nonce)
  {
    hide HashMeetsDifficulty, EncodeSeal, DecodeSeal;
    if Verify(sha3, preHash, raw, difficulty) {
      var seal := DecodeSeal(raw).value;
      DecodeSealExact(raw, seal);
      assert CarriesWin(sha3, preHash, raw, difficulty, seal.nonce);
    }
    if nonce: U256 :| CarriesWin(sha3, preHash, raw, difficulty, nonce) {
      DecodeSealExact(raw, Compute(sha3, difficulty, preHash, nonce));
    }
  }

  /** A miner's seal verifies. */
  lemma WinningSealVerifies(sha3: Bytes -> H256, difficulty: U256, preHash: H256, nonce: U256)
    ensures Wins(sha3, difficulty, preHash, nonce) <==>
            Verify(sha3, preHash, EncodeSeal(Compute(sha3, difficulty, preHash, nonce)), difficulty)
  {
    hide HashMeetsDifficulty, EncodeSeal, DecodeSeal;
    var seal := Compute(sha3, difficulty, preHash, nonce);
    var raw := EncodeSeal(seal);
    assert raw[..96] == raw;
    DecodeSealExact(raw, seal);
  }
}

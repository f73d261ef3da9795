/** The nonce search of the mining thread. The thread loops for ever; what it does in any finite
    number of iterations is a function of the metadata the worker hands out in them. */
module Miner {
  import opened Scale
  import opened Pow

  const MAX_NONCE: nat := TWO_256 - 1

  datatype Work = Work(preHash: H256, difficulty: U256)

  datatype Search = Search(nonce: U256, submitted: seq<Bytes>)

  predicate WinsWork(sha3: Bytes -> H256, work: Work, nonce: U256) {
    Wins(sha3, work.difficulty, work.preHash, nonce)
  }

  function SealOf(sha3: Bytes -> H256, work: Work, nonce: U256): Bytes {
    EncodeSeal(Compute(sha3, work.difficulty, work.preHash, nonce))
  }

  /** The nonce tried after a failure: one more, saturating, and back to 0 on reaching the maximum. */
  function NextNonce(nonce: U256): U256 {
    var up := if nonce + 1 <= MAX_NONCE then nonce + 1 else MAX_NONCE;
    if up == MAX_NONCE then 0 else up
  }

  /** One iteration; without metadata the thread only sleeps. */
  function Iterate(sha3: Bytes -> H256, s: Search, metadata: Option<Work>): Search {
    match metadata
    case None => s
    case Some(work) =>
      if WinsWork(sha3, work, s.nonce) then Search(0, s.submitted + [SealOf(sha3, work, s.nonce)])
      else s.(nonce := NextNonce(s.nonce))
  }

  /** The search after the first `n` iterations. */
  function After(sha3: Bytes -> H256, s: Search, feed: seq<Option<Work>>, n: nat): Search
    requires n <= |feed|
  {
    if n == 0 then s else Iterate(sha3, After(sha3, s, feed, n - 1), feed[n - 1])
  }

  class MiningThread {
    const sha3: Bytes -> H256
    var nonce: U256
    var submitted: seq<Bytes>

    constructor (sha3: Bytes -> H256)
      ensures this.sha3 == sha3 && nonce == 0 && submitted == []
    {
      this.sha3 := sha3;
      nonce := 0;
      submitted := [];
    }

    /** As many iterations as the feed has entries. */
    method Mine(feed: seq<Option<Work>>)
      modifies this
      ensures Search(nonce, submitted) == After(sha3, Search(old(nonce), old(submitted)), feed, |feed|)
    {
      for i := 0 to |feed|
        invariant Search(nonce, submitted) == After(sha3, Search(old(nonce), old(submitted)), feed, i)
      {
        if feed[i].Some? {
          var work := feed[i].value;
          var seal := Compute(sha3, work.difficulty, work.preHash, nonce);
          if HashMeetsDifficulty(seal.work, seal.difficulty) {
            nonce := 0;
            submitted := submitted + [EncodeSeal(seal)];
          } else {
            nonce := if nonce + 1 < TWO_256 then nonce + 1 else TWO_256 - 1;
            if nonce == TWO_256 - 1 {
              nonce := 0;
            }
          }
        }
      }
    }
  }

  // ---------------------------------------------------------------- every submission verifies

  ghost predicate AcceptedFor(sha3: Bytes -> H256, work: Work, raw: Bytes) {
    Verify(sha3, work.preHash, raw, work.difficulty)
  }

  /** Iteration `i` is the one that made `raw` the `p`-th submission: there were `p` before it and
      `raw` after them. It had work, and the verifier accepts `raw` for that very work. */
  ghost predicate SubmittedIn(
      sha3: Bytes -> H256, s: Search, feed: seq<Option<Work>>, i: nat, p: nat, raw: Bytes)
    requires i < |feed|
  {
    && |After(sha3, s, feed, i).submitted| == p
    && After(sha3, s, feed, i + 1).submitted == After(sha3, s, feed, i).submitted + [raw]
    && feed[i].Some?
    && AcceptedFor(sha3, feed[i].value, raw)
  }

  ghost predicate SubmittedBefore(
      sha3: Bytes -> H256, s: Search, feed: seq<Option<Work>>, n: nat, p: nat, raw: Bytes)
    requires n <= |feed|
  {
    exists i :: 0 <= i < n && SubmittedIn(sha3, s, feed, i, p, raw)
  }

  /** Every submission was made by one of the iterations so far, and is accepted at the pre-hash and
      difficulty that this iteration worked on. Earlier submissions are never touched. */
  lemma {:induction false} SubmissionsVerify(sha3: Bytes -> H256, s: Search, feed: seq<Option<Work>>, n: nat)
    requires n <= |feed|
    ensures s.submitted <= After(sha3, s, feed, n).submitted
    ensures forall p :: |s.submitted| <= p < |After(sha3, s, feed, n).submitted| ==>
              SubmittedBefore(sha3, s, feed, n, p, After(sha3, s, feed, n).submitted[p])
  {
    hide Verify, Wins, SealOf, AcceptedFor;
    if n > 0 {
      SubmissionsVerify(sha3, s, feed, n - 1);
      var before, after := After(sha3, s, feed, n - 1).submitted, After(sha3, s, feed, n).submitted;
      IterationSubmits(sha3, s, feed, n - 1);
      forall p | |s.submitted| <= p < |after|
        ensures SubmittedBefore(sha3, s, feed, n, p, after[p])
      {
        if p < |before| {
          assert SubmittedBefore(sha3, s, feed, n - 1, p, before[p]);
          var i :| 0 <= i < n - 1 && SubmittedIn(sha3, s, feed, i, p, before[p]);
          assert SubmittedIn(sha3, s, feed, i, p, after[p]);
        } else {
          assert SubmittedIn(sha3, s, feed, n - 1, p, after[p]);
        }
      }
    }
  }

  /** An iteration submits nothing, or one seal that is accepted for its own work. */
  lemma IterationSubmits(sha3: Bytes -> H256, s: Search, feed: seq<Option<Work>>, i: nat)
    requires i < |feed|
    ensures var before, after := After(sha3, s, feed, i).submitted, After(sha3, s, feed, i + 1).submitted;
            || after == before
            || (|after| == |before| + 1 && SubmittedIn(sha3, s, feed, i, |before|, after[|before|]))
  {
    hide Verify, Wins, SealOf, AcceptedFor;
    var search := After(sha3, s, feed, i);
    if feed[i].Some? && WinsWork(sha3, feed[i].value, search.nonce) {
      SubmissionVerifies(sha3, feed[i].value, search.nonce);
    }
  }

  lemma SubmissionVerifies(sha3: Bytes -> H256, work: Work, nonce: U256)
    requires WinsWork(sha3, work, nonce)
    ensures AcceptedFor(sha3, work, SealOf(sha3, work, nonce))
  {
    WinningSealVerifies(sha3, work.difficulty, work.preHash, nonce);
  }

  /** The maximal nonce is never tried. */
  lemma {:induction false} NeverMax(sha3: Bytes -> H256, s: Search, feed: seq<Option<Work>>, n: nat)
    requires n <= |feed| && s.nonce < MAX_NONCE
    ensures After(sha3, s, feed, n).nonce < MAX_NONCE
  {
    if n > 0 {
      NeverMax(sha3, s, feed, n - 1);
    }
  }

  // ---------------------------------------------------------------- iterations without work

  /** An iteration without metadata changes nothing: the search keeps its place. */
  lemma IdleKeepsSearch(sha3: Bytes -> H256, s: Search, feed: seq<Option<Work>>, i: nat)
    requires i < |feed| && feed[i] == None
    ensures After(sha3, s, feed, i + 1) == After(sha3, s, feed, i)
  {
    hide Wins;
  }

  /** The entries with work, in their order. */
  function Busy(feed: seq<Option<Work>>): seq<Option<Work>> {
    if feed == [] then []
    else
      var front, last := feed[..|feed| - 1], feed[|feed| - 1];
      if last == None then Busy(front) else Busy(front) + [last]
  }

  lemma {:induction false} AfterPrefix(
      sha3: Bytes -> H256, s: Search, feed: seq<Option<Work>>, more: seq<Option<Work>>, n: nat)
    requires n <= |feed|
    ensures After(sha3, s, feed + more, n) == After(sha3, s, feed, n)
  {
    hide Iterate;
    if n > 0 {
      AfterPrefix(sha3, s, feed, more, n - 1);
    }
  }

  /** So the waiting may be left out: nonce and submissions depend on the entries with work alone. */
  lemma {:induction false} IdleDropsOut(sha3: Bytes -> H256, s: Search, feed: seq<Option<Work>>)
    ensures After(sha3, s, feed, |feed|) == After(sha3, s, Busy(feed), |Busy(feed)|)
  {
    hide Iterate;
    if feed != [] {
      var front, last := feed[..|feed| - 1], feed[|feed| - 1];
      IdleDropsOut(sha3, s, front);
      assert feed == front + [last];
      AfterPrefix(sha3, s, front, [last], |front|);
      if last == None {
        IdleKeepsSearch(sha3, s, feed, |front|);
      } else {
        AfterPrefix(sha3, s, Busy(front), [last], |Busy(front)|);
      }
    }
  }

  // ---------------------------------------------------------------- the nonce while the work changes

  ghost predicate WinsAt(sha3: Bytes -> H256, s: Search, feed: seq<Option<Work>>, i: nat)
    requires i < |feed|
  {
    feed[i].Some? && WinsWork(sha3, feed[i].value, After(sha3, s, feed, i).nonce)
  }

  /** Iterations `m` to `n - 1` that had work. */
  ghost function Tries(feed: seq<Option<Work>>, m: nat, n: nat): nat
    requires m <= n <= |feed|
  {
    if m == n then 0 else Tries(feed, m, n - 1) + if feed[n - 1].Some? then 1 else 0
  }

  /** Whatever work the worker hands out, the nonce is the number of tries since the last win, or
      since the start, in the cycle: new work alone does not restart it. A win restarts it at 0. */
  lemma {:induction false} NonceCountsTries(sha3: Bytes -> H256, s: Search, feed: seq<Option<Work>>, m: nat, n: nat)
    requires m <= n <= |feed| && s.nonce < MAX_NONCE
    requires forall i :: m <= i < n ==> !WinsAt(sha3, s, feed, i)
    ensures After(sha3, s, feed, n).nonce == (After(sha3, s, feed, m).nonce + Tries(feed, m, n)) % MAX_NONCE
    ensures m > 0 && WinsAt(sha3, s, feed, m - 1) ==> After(sha3, s, feed, m).nonce == 0
  {
    hide Wins;
    NeverMax(sha3, s, feed, n);
    if m < n {
      NonceCountsTries(sha3, s, feed, m, n - 1);
      assert !WinsAt(sha3, s, feed, n - 1);
      NeverMax(sha3, s, feed, n - 1);
      OneUp(After(sha3, s, feed, m).nonce + Tries(feed, m, n - 1));
    }
  }

  lemma OneUp(x: nat)
    ensures x % MAX_NONCE + 1 < MAX_NONCE ==> (x + 1) % MAX_NONCE == x % MAX_NONCE + 1
    ensures x % MAX_NONCE + 1 == MAX_NONCE ==> (x + 1) % MAX_NONCE == 0
  {
  }

  // ---------------------------------------------------------------- the order of the search

  /** The nonce `k` places after `start` in the cycle 0, 1, ..., MAX_NONCE - 1. */
  function InCycle(start: nat, k: nat): (n: nat)
    requires start < MAX_NONCE && k < MAX_NONCE
    ensures n < MAX_NONCE
  {
    if start + k < MAX_NONCE then start + k else start + k - MAX_NONCE
  }

  /** How far `nonce` lies after `start`. */
  function Distance(start: nat, nonce: nat): (k: nat)
    requires start < MAX_NONCE && nonce < MAX_NONCE
    ensures k < MAX_NONCE
  {
    if start <= nonce then nonce - start else nonce + MAX_NONCE - start
  }

  /** A cycle visits every nonce below the maximum once: position and nonce determine each other. */
  lemma CycleVisitsAllOnce(start: nat, k: nat, nonce: nat)
    requires start < MAX_NONCE && k < MAX_NONCE && nonce < MAX_NONCE
    ensures InCycle(start, k) == nonce <==> k == Distance(start, nonce)
  {
  }

  function Fixed(work: Work, n: nat): seq<Option<Work>> {
    seq(n, _ => Some(work))
  }

  /** None of the first `k` nonces from `start` wins. */
  ghost predicate NoWinBefore(sha3: Bytes -> H256, work: Work, start: nat, k: nat)
    requires start < MAX_NONCE && k <= MAX_NONCE
  {
    forall j :: 0 <= j < k ==> !WinsWork(sha3, work, InCycle(start, j))
  }

  /** While no nonce wins, the `k`-th one tried is the `k`-th of the cycle. */
  lemma {:induction false} SearchFollowsCycle(
      sha3: Bytes -> H256, work: Work, s: Search, total: nat, k: nat)
    requires s.nonce < MAX_NONCE && k <= total && k < MAX_NONCE
    requires NoWinBefore(sha3, work, s.nonce, k)
    ensures After(sha3, s, Fixed(work, total), k) == Search(InCycle(s.nonce, k), s.submitted)
  {
    hide Wins;
    if k > 0 {
      SearchFollowsCycle(sha3, work, s, total, k - 1);
      assert !WinsWork(sha3, work, InCycle(s.nonce, k - 1));
    }
  }

  /** The nonces tried in the first `n` iterations. */
  ghost function Tried(sha3: Bytes -> H256, s: Search, feed: seq<Option<Work>>, n: nat): set<nat>
    requires n <= |feed|
  {
    set j | 0 <= j < n :: After(sha3, s, feed, j).nonce as nat
  }

  /** A whole cycle without a win tries every nonce below the maximum, no two of its iterations the
      same one, submits nothing and ends where it began. */
  lemma FruitlessCycle(sha3: Bytes -> H256, work: Work, s: Search)
    requires s.nonce < MAX_NONCE && NoWinBefore(sha3, work, s.nonce, MAX_NONCE)
    ensures var feed := Fixed(work, MAX_NONCE);
            && After(sha3, s, feed, MAX_NONCE) == s
            && (forall nonce: nat :: nonce in Tried(sha3, s, feed, MAX_NONCE) <==> nonce < MAX_NONCE)
            && forall j, k :: 0 <= j < k < MAX_NONCE ==> After(sha3, s, feed, j).nonce != After(sha3, s, feed, k).nonce
  {
    hide Wins;
    var feed := Fixed(work, MAX_NONCE);
    forall k | 0 <= k < MAX_NONCE ensures After(sha3, s, feed, k) == Search(InCycle(s.nonce, k), s.submitted) {
      SearchFollowsCycle(sha3, work, s, MAX_NONCE, k);
    }
    forall nonce: nat | nonce < MAX_NONCE ensures nonce in Tried(sha3, s, feed, MAX_NONCE) {
      var k := Distance(s.nonce, nonce);
      CycleVisitsAllOnce(s.nonce, k, nonce);
      assert After(sha3, s, feed, k).nonce == nonce;
    }
    var last := MAX_NONCE - 1;
    assert !WinsWork(sha3, work, InCycle(s.nonce, last));
    assert After(sha3, s, feed, MAX_NONCE) == Iterate(sha3, After(sha3, s, feed, last), feed[last]);
  }

  ghost predicate SilentUntil(sha3: Bytes -> H256, s: Search, feed: seq<Option<Work>>, k: nat)
    requires k <= |feed|
  {
    forall m :: 0 <= m <= k ==> After(sha3, s, feed, m).submitted == s.submitted
  }

  lemma {:induction false} FirstWin(sha3: Bytes -> H256, work: Work, start: nat, bound: nat) returns (k: nat)
    requires start < MAX_NONCE && bound < MAX_NONCE && WinsWork(sha3, work, InCycle(start, bound))
    ensures k <= bound && WinsWork(sha3, work, InCycle(start, k)) && NoWinBefore(sha3, work, start, k)
  {
    hide Wins;
    k := 0;
    while !WinsWork(sha3, work, InCycle(start, k))
      invariant k <= bound && NoWinBefore(sha3, work, start, k)
      decreases bound - k
    {
      k := k + 1;
    }
  }

  /** Completeness: if any nonce below the maximum wins, the search submits within one cycle. Its
      first submission is the winning nonce nearest after the start, after one try more than the
      distance, and the search then starts again from 0. */
  lemma SearchFinds(sha3: Bytes -> H256, work: Work, s: Search, winning: U256) returns (k: nat)
    requires s.nonce < MAX_NONCE && winning < MAX_NONCE && WinsWork(sha3, work, winning)
    ensures k <= Distance(s.nonce, winning) && WinsWork(sha3, work, InCycle(s.nonce, k))
    ensures NoWinBefore(sha3, work, s.nonce, k)
    ensures SilentUntil(sha3, s, Fixed(work, k + 1), k)
    ensures After(sha3, s, Fixed(work, k + 1), k + 1) ==
            Search(0, s.submitted + [SealOf(sha3, work, InCycle(s.nonce, k))])
  {
    hide Wins, SealOf;
    CycleVisitsAllOnce(s.nonce, Distance(s.nonce, winning), winning);
    k := FirstWin(sha3, work, s.nonce, Distance(s.nonce, winning));
    var feed := Fixed(work, k + 1);
    forall m | 0 <= m <= k ensures After(sha3, s, feed, m).submitted == s.submitted {
      SearchFollowsCycle(sha3, work, s, k + 1, m);
    }
    SearchFollowsCycle(sha3, work, s, k + 1, k);
  }

  /** From nonce 0 the search submits the least winning nonce `n`, after exactly n + 1 tries. */
  lemma LeastNonceFirst(sha3: Bytes -> H256, work: Work, submitted: seq<Bytes>, n: U256)
    requires n < MAX_NONCE && WinsWork(sha3, work, n)
    requires forall j: nat :: j < n ==> !WinsWork(sha3, work, j)
    ensures After(sha3, Search(0, submitted), Fixed(work, n + 1), n) == Search(n, submitted)
    ensures After(sha3, Search(0, submitted), Fixed(work, n + 1), n + 1) ==
            Search(0, submitted + [SealOf(sha3, work, n)])
  {
    hide Wins, SealOf;
    SearchFollowsCycle(sha3, work, Search(0, submitted), n + 1, n);
  }

  /** And only then: with no winning nonce below the maximum nothing is ever submitted. */
  lemma {:induction false} FruitlessSearch(sha3: Bytes -> H256, work: Work, s: Search, total: nat, n: nat)
    requires s.nonce < MAX_NONCE && n <= total
    requires forall j: nat :: j < MAX_NONCE ==> !WinsWork(sha3, work, j)
    ensures After(sha3, s, Fixed(work, total), n).submitted == s.submitted
    ensures After(sha3, s, Fixed(work, total), n).nonce < MAX_NONCE
  {
    hide Wins;
    if n > 0 {
      FruitlessSearch(sha3, work, s, total, n - 1);
    }
  }
}

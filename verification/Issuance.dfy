/** The halving schedule. The guard stops at 64 halvings but the shifted constant has 32 bits:
    from 32 halvings on the shift distance is taken modulo 32, as a release build does, and the
    whole schedule runs a second time. */
module IssuanceSchedule {
  import opened Scale

  const HALVING_INTERVAL: nat := 210_000
  const INITIAL_ISSUANCE: nat := 50

  /** Height at which the masked shift restarts the schedule. */
  const RESTART: nat := 32 * HALVING_INTERVAL

  /** What one whole schedule issues. */
  const SCHEDULE_TOTAL: nat := 20_370_000

  function Shr(x: nat, k: nat): nat {
    if k == 0 then x else Shr(x / 2, k - 1)
  }

  function Issuance(block: U32): nat {
    EraRate(block / HALVING_INTERVAL)
  }

  /** The reward of every block after `halvings` halvings. */
  function EraRate(halvings: nat): nat {
    if halvings >= 64 then 0 else Shr(INITIAL_ISSUANCE, halvings % 32)
  }

  /** Issuance of all heights below `n`. */
  ghost function Cumulative(n: nat): nat
    requires n <= TWO_32
  {
    if n == 0 then 0 else Cumulative(n - 1) + Issuance(n - 1)
  }

  /** The sum of the rates of the first `halvings` eras. */
  ghost function RateSum(halvings: nat): nat {
    if halvings == 0 then 0 else RateSum(halvings - 1) + EraRate(halvings - 1)
  }

  /** Whole eras, then a part of the current one. */
  ghost function Closed(n: nat): int {
    HALVING_INTERVAL * RateSum(n / HALVING_INTERVAL) + n % HALVING_INTERVAL * EraRate(n / HALVING_INTERVAL)
  }

  /** The closed form, for every height. */
  lemma {:induction false} ClosedForm(n: nat)
    requires n <= TWO_32
    ensures Cumulative(n) == Closed(n)
  {
    hide Closed, EraRate;
    if n > 0 {
      ClosedForm(n - 1);
      ClosedNext(n - 1);
    } else {
      ClosedStart();
    }
  }

  lemma ClosedStart()
    ensures Closed(0) == 0
  {
    hide EraRate;
  }

  lemma ClosedNext(n: nat)
    ensures Closed(n + 1) == Closed(n) + EraRate(n / HALVING_INTERVAL)
  {
    hide EraRate;
    var h, r := n / HALVING_INTERVAL, n % HALVING_INTERVAL;
    OneMore(r, EraRate(h));
    NextHeight(n);
    assert RateSum(h + 1) == RateSum(h) + EraRate(h);
  }

  lemma NextHeight(n: nat)
    ensures var h, r := n / HALVING_INTERVAL, n % HALVING_INTERVAL;
            if r + 1 < HALVING_INTERVAL
            then (n + 1) / HALVING_INTERVAL == h && (n + 1) % HALVING_INTERVAL == r + 1
            else (n + 1) / HALVING_INTERVAL == h + 1 && (n + 1) % HALVING_INTERVAL == 0
  {
  }

  function FirstRates(k: nat): nat {
    if k == 0 then 50 else if k == 1 then 25 else if k == 2 then 12 else if k == 3 then 6
    else if k == 4 then 3 else if k == 5 then 1 else 0
  }

  lemma ShiftedFifty(k: nat)
    ensures Shr(INITIAL_ISSUANCE, k) == FirstRates(k)
  {
    if k >= 6 {
      assert Shr(50, k) == Shr(25, k - 1) == Shr(12, k - 2) == Shr(6, k - 3);
      assert Shr(6, k - 3) == Shr(3, k - 4) == Shr(1, k - 5) == Shr(0, k - 6);
      ShiftedZero(k - 6);
    }
  }

  lemma ShiftedZero(k: nat)
    ensures Shr(0, k) == 0
  {
  }

  lemma EraRates(h: nat)
    ensures EraRate(h) == if h < 32 then FirstRates(h) else FirstRates(h - 32)
  {
    hide Shr;
    ShiftedFifty(h % 32);
    if 32 <= h < 64 {
      assert h % 32 == h - 32;
    }
  }

  function FirstSums(k: nat): nat {
    if k == 0 then 0 else if k == 1 then 50 else if k == 2 then 75 else if k == 3 then 87
    else if k == 4 then 93 else if k == 5 then 96 else 97
  }

  lemma NextSum(k: nat)
    ensures FirstSums(k + 1) == FirstSums(k) + FirstRates(k)
  {
  }

  /** The rates 50, 25, 12, 6, 3, 1 and then 0 add up to 97, once before the restart and once after. */
  lemma {:induction false} RateSumValue(h: nat)
    ensures RateSum(h) == if h <= 32 then FirstSums(h) else 97 + FirstSums(h - 32)
  {
    if h > 0 {
      RateSumValue(h - 1);
      EraRates(h - 1);
      NextSum(if h <= 32 then h - 1 else h - 33);
    }
  }

  /** No more than one schedule before the restart and two in all. The bounds are reached at
      height 1,260,000 and at height 7,980,000. */
  lemma CumulativeBound(n: nat)
    requires n <= TWO_32
    ensures n <= RESTART ==> Cumulative(n) <= SCHEDULE_TOTAL
    ensures n <= RESTART ==> (Cumulative(n) == SCHEDULE_TOTAL <==> n >= 6 * HALVING_INTERVAL)
    ensures Cumulative(n) <= 2 * SCHEDULE_TOTAL
    ensures Cumulative(n) == 2 * SCHEDULE_TOTAL <==> n >= RESTART + 6 * HALVING_INTERVAL
  {
    var h, r := n / HALVING_INTERVAL, n % HALVING_INTERVAL;
    assert n == HALVING_INTERVAL * h + r;
    ClosedForm(n);
    RateSumValue(h);
    EraRates(h);
    if h < 32 {
      WithinSchedule(h, r);
    } else {
      WithinSchedule(h - 32, r);
    }
  }

  lemma WithinSchedule(k: nat, r: nat)
    requires r < HALVING_INTERVAL
    ensures var sum := HALVING_INTERVAL * FirstSums(k) + r * FirstRates(k);
            sum <= SCHEDULE_TOTAL && (sum == SCHEDULE_TOTAL <==> k >= 6)
  {
    var rate := FirstRates(k);
    NextSum(k);
    if k < 6 {
      assert r * rate < HALVING_INTERVAL * rate;
      assert HALVING_INTERVAL * FirstSums(k) + HALVING_INTERVAL * rate == HALVING_INTERVAL * FirstSums(k + 1);
      assert FirstSums(k + 1) <= 97;
    }
  }

  /** Issuance never rises from one block to the next, except at the restart. */
  lemma NeverRisesBeforeRestart(block: U32)
    requires block + 1 < TWO_32
    ensures Issuance(block + 1) <= Issuance(block) <==> block + 1 != RESTART
  {
    var h, k := block / HALVING_INTERVAL, (block + 1) / HALVING_INTERVAL;
    EraRates(h);
    EraRates(k);
    assert k == h || (k == h + 1 && (block + 1) % HALVING_INTERVAL == 0);
    if k == h + 1 {
      assert block + 1 == HALVING_INTERVAL * k;
    }
  }

  /** The documented halving every 210,000 blocks holds for every block but those of era 31,
      whose successors issue 50 again. */
  lemma HalvesEveryInterval(block: U32)
    requires block + HALVING_INTERVAL < TWO_32
    ensures Issuance(block + HALVING_INTERVAL) == Issuance(block) / 2 <==> block / HALVING_INTERVAL != 31
  {
    var h := block / HALVING_INTERVAL;
    assert (block + HALVING_INTERVAL) / HALVING_INTERVAL == h + 1;
    EraRates(h);
    EraRates(h + 1);
  }
}

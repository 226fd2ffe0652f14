/**
 A run of consecutive days. A run history `h` lists the population before
 day 0 (`h[0]`) and after the commit of each day: `h[d + 1]` is day `d`
 applied to `h[d]`, with that day's trial outcomes `trials(d)`. Days are
 taken in their per-node form `RuleDay`, which is the day as written.
 */
module Timeline {
  import opened Compartments
  import opened ContactGraph
  import opened DayRule
  import opened Seeding

  /** `h` is a history of consecutive days over the graph `adj`. */
  ghost predicate IsRun(h: seq<Population>, adj: seq<seq<nat>>, trials: nat -> Trial, recoveryDays: nat) {
    && |h| > 0
    && (forall d :: 0 <= d < |h| ==> WellSized(h[d], adj))
    && (forall d {:trigger RuleDay(h[d], adj, trials(d), recoveryDays)} :: 0 <= d < |h| - 1 ==> h[d + 1] == RuleDay(h[d], adj, trials(d), recoveryDays))
  }

  /** The history of `k` days from `p`. */
  ghost function History(p: Population, adj: seq<seq<nat>>, trials: nat -> Trial, recoveryDays: nat, k: nat): (h: seq<Population>)
    requires WellSized(p, adj)
    ensures |h| == k + 1 && h[0] == p
    ensures forall d :: 0 <= d < |h| ==> WellSized(h[d], adj)
  {
    if k == 0 then [p]
    else
      var before := History(p, adj, trials, recoveryDays, k - 1);
      before + [RuleDay(before[k - 1], adj, trials(k - 1), recoveryDays)]
  }

  /** Extending a history does not change its earlier entries: entry `d` is fixed once day `d - 1` is run. */
  lemma {:induction false} HistoryAt(p: Population, adj: seq<seq<nat>>, trials: nat -> Trial, recoveryDays: nat, k: nat, d: nat)
    requires WellSized(p, adj) && d <= k
    ensures History(p, adj, trials, recoveryDays, k)[d] == History(p, adj, trials, recoveryDays, d)[d]
    decreases k
  {
    if d < k {
      HistoryAt(p, adj, trials, recoveryDays, k - 1, d);
    }
  }

  /** Day `d` of the history of `k` days takes entry `d` to entry `d + 1`. */
  lemma HistoryStep(p: Population, adj: seq<seq<nat>>, trials: nat -> Trial, recoveryDays: nat, k: nat, d: nat)
    requires WellSized(p, adj) && d < k
    ensures History(p, adj, trials, recoveryDays, k)[d + 1]
            == RuleDay(History(p, adj, trials, recoveryDays, k)[d], adj, trials(d), recoveryDays)
  {
    HistoryAt(p, adj, trials, recoveryDays, k, d);
    HistoryAt(p, adj, trials, recoveryDays, k, d + 1);
    assert History(p, adj, trials, recoveryDays, d + 1)[d] == History(p, adj, trials, recoveryDays, d)[d];
  }

  /** The history of `k` days is a run: each entry is the day before it applied to its predecessor. */
  lemma HistoryIsRun(p: Population, adj: seq<seq<nat>>, trials: nat -> Trial, recoveryDays: nat, k: nat)
    requires WellSized(p, adj)
    ensures IsRun(History(p, adj, trials, recoveryDays, k), adj, trials, recoveryDays)
  {
    var h := History(p, adj, trials, recoveryDays, k);
    forall d | 0 <= d < k
      ensures h[d + 1] == RuleDay(h[d], adj, trials(d), recoveryDays)
    {
      HistoryStep(p, adj, trials, recoveryDays, k, d);
    }
  }

  /** The count records of the first `n` days of the run `h`: day `d`'s record tallies `h[d + 1]`. */
  ghost function DailyRecords(h: seq<Population>, n: nat): (r: seq<DailyRecord>)
    requires n < |h|
    ensures |r| == n
  {
    if n == 0 then [] else DailyRecords(h, n - 1) + [CountRecord(n - 1, h[n].states)]
  }

  /** The snapshots of the first `n` days of the run `h`: day `d`'s snapshot is `h[d + 1]`. */
  ghost function DailySnapshots(h: seq<Population>, n: nat): (r: seq<NetworkSnapshot>)
    requires n < |h|
    ensures |r| == n
  {
    if n == 0 then [] else DailySnapshots(h, n - 1) + [NetworkSnapshot(n - 1, Snapshot(h[n].states))]
  }

  /** Entry `d` of the records of `n` days is day `d`'s record, taken after that day's commit. */
  lemma {:induction false} DailyRecordsAt(h: seq<Population>, n: nat, d: nat)
    requires n < |h| && d < n
    ensures DailyRecords(h, n)[d] == CountRecord(d, h[d + 1].states)
  {
    if d < n - 1 {
      DailyRecordsAt(h, n - 1, d);
    }
  }

  /** Entry `d` of the snapshots of `n` days is day `d`'s snapshot, taken after that day's commit. */
  lemma {:induction false} DailySnapshotsAt(h: seq<Population>, n: nat, d: nat)
    requires n < |h| && d < n
    ensures DailySnapshots(h, n)[d] == NetworkSnapshot(d, Snapshot(h[d + 1].states))
  {
    if d < n - 1 {
      DailySnapshotsAt(h, n - 1, d);
    }
  }

  /** Day `d` of a run (from `h[d]` to `h[e]`, `e = d + 1`), at node `v`, case by case. */
  lemma RunStep(h: seq<Population>, adj: seq<seq<nat>>, trials: nat -> Trial, recoveryDays: nat, d: nat, e: nat, v: nat)
    requires IsRun(h, adj, trials, recoveryDays) && e == d + 1 && e < |h| && v < |adj|
    ensures h[e].days[v] == (if h[d].states[v] == I then h[d].days[v] + 1 else h[d].days[v])
    ensures h[d].states[v] == S ==> h[e].states[v] == S || h[e].states[v] == I
    ensures h[d].states[v] == I ==> h[e].states[v] == if h[d].days[v] + 1 >= recoveryDays then R else I
    ensures h[d].states[v] == R ==> h[e].states[v] == R
  {
    RunDay(h, adj, trials, recoveryDays, d, e);
  }

  /** Day `d` of a run takes `h[d]` to `h[e]`, `e = d + 1`. */
  lemma RunDay(h: seq<Population>, adj: seq<seq<nat>>, trials: nat -> Trial, recoveryDays: nat, d: nat, e: nat)
    requires IsRun(h, adj, trials, recoveryDays) && e == d + 1 && e < |h|
    ensures WellSized(h[d], adj) && h[e] == RuleDay(h[d], adj, trials(d), recoveryDays)
  {
  }

  /** Every day of a run keeps the node-level invariant. */
  lemma {:induction false} RunInvariantHolds(h: seq<Population>, adj: seq<seq<nat>>, trials: nat -> Trial, recoveryDays: nat, k: nat)
    requires IsRun(h, adj, trials, recoveryDays) && RunInvariant(h[0], recoveryDays) && k < |h|
    ensures RunInvariant(h[k], recoveryDays)
  {
    if k > 0 {
      RunInvariantHolds(h, adj, trials, recoveryDays, k - 1);
      RunDay(h, adj, trials, recoveryDays, k - 1, k);
      NextDayFollowsRule(h[k - 1], adj, trials(k - 1), recoveryDays);
      RunInvariantPreserved(h[k - 1], adj, trials(k - 1), recoveryDays);
    }
  }

  /** A node recovered after `t` days is recovered after every later day `m`. */
  lemma {:induction false} RecoveredIsTerminal(h: seq<Population>, adj: seq<seq<nat>>, trials: nat -> Trial, recoveryDays: nat,
                                               t: nat, m: nat, v: nat)
    requires IsRun(h, adj, trials, recoveryDays) && t <= m < |h| && v < |adj|
    requires h[t].states[v] == R
    ensures h[m].states[v] == R
    decreases m - t
  {
    if t < m {
      RecoveredIsTerminal(h, adj, trials, recoveryDays, t, m - 1, v);
      RunStep(h, adj, trials, recoveryDays, m - 1, m, v);
    }
  }

  /**
   An infected node whose counter after `t` days is `h[t].days[v] < recoveryDays`
   stays infected, its counter going up by one a day, until
   `recoveryDays - h[t].days[v]` days later, when it is recovered.
   */
  lemma {:induction false} RecoveryTiming(h: seq<Population>, adj: seq<seq<nat>>, trials: nat -> Trial, recoveryDays: nat,
                                          t: nat, m: nat, v: nat)
    requires IsRun(h, adj, trials, recoveryDays) && t <= m < |h| && v < |adj|
    requires h[t].states[v] == I && h[t].days[v] < recoveryDays
    requires h[t].days[v] + (m - t) <= recoveryDays
    ensures h[m].days[v] == h[t].days[v] + (m - t)
    ensures h[m].states[v] == if h[t].days[v] + (m - t) < recoveryDays then I else R
    decreases m - t
  {
    if t < m {
      RecoveryTiming(h, adj, trials, recoveryDays, t, m - 1, v);
      RunStep(h, adj, trials, recoveryDays, m - 1, m, v);
    }
  }

  /**
   A node infected at the commit of day `t` (it is S in `h[t]` and I in
   `h[t + 1]`) stays infected through the commit of day t + recoveryDays - 1
   and is recovered at the commit of day t + recoveryDays.
   */
  lemma InfectedRecoversOnTime(h: seq<Population>, adj: seq<seq<nat>>, trials: nat -> Trial, recoveryDays: nat, t: nat, v: nat)
    requires IsRun(h, adj, trials, recoveryDays) && RunInvariant(h[0], recoveryDays)
    requires recoveryDays >= 1 && t + 1 + recoveryDays < |h| && v < |adj|
    requires h[t].states[v] == S && h[t + 1].states[v] == I
    ensures forall m :: t + 1 <= m <= t + recoveryDays ==> h[m].states[v] == I
    ensures h[t + 1 + recoveryDays].states[v] == R
  {
    RunInvariantHolds(h, adj, trials, recoveryDays, t);
    RunStep(h, adj, trials, recoveryDays, t, t + 1, v);
    forall m | t + 1 <= m <= t + recoveryDays ensures h[m].states[v] == I {
      RecoveryTiming(h, adj, trials, recoveryDays, t + 1, m, v);
    }
    RecoveryTiming(h, adj, trials, recoveryDays, t + 1, t + 1 + recoveryDays, v);
  }

  /**
   A seeded node stays infected through the commit of day recoveryDays - 2
   and is recovered at the commit of day recoveryDays - 1.
   */
  lemma SeededRecoversOnTime(h: seq<Population>, adj: seq<seq<nat>>, trials: nat -> Trial, recoveryDays: nat,
                             sample: seq<nat>, v: nat)
    requires IsRun(h, adj, trials, recoveryDays) && h[0] == Initial(|adj|, sample)
    requires recoveryDays >= 1 && recoveryDays < |h| && v in sample && v < |adj|
    ensures forall m :: 0 <= m < recoveryDays ==> h[m].states[v] == I
    ensures h[recoveryDays].states[v] == R
  {
    SeededAt(|adj|, sample, v);
    forall m | 0 <= m < recoveryDays ensures h[m].states[v] == I {
      RecoveryTiming(h, adj, trials, recoveryDays, 0, m, v);
    }
    RecoveryTiming(h, adj, trials, recoveryDays, 0, recoveryDays, v);
  }

  /** Starting from a zero counter, a node's counter never exceeds the number of days run. */
  lemma {:induction false} DaysBounded(h: seq<Population>, adj: seq<seq<nat>>, trials: nat -> Trial, recoveryDays: nat, k: nat, v: nat)
    requires IsRun(h, adj, trials, recoveryDays) && k < |h| && v < |adj| && h[0].days[v] == 0
    ensures h[k].days[v] <= k
  {
    if k > 0 {
      DaysBounded(h, adj, trials, recoveryDays, k - 1, v);
      RunStep(h, adj, trials, recoveryDays, k - 1, k, v);
    }
  }

  /**
   From a start with no recovered node and zero counters, nobody is recovered
   after fewer than `recoveryDays` days.
   */
  lemma NoEarlyRecovery(h: seq<Population>, adj: seq<seq<nat>>, trials: nat -> Trial, recoveryDays: nat, k: nat)
    requires IsRun(h, adj, trials, recoveryDays) && RunInvariant(h[0], recoveryDays)
    requires forall v :: 0 <= v < |adj| ==> h[0].states[v] != R && h[0].days[v] == 0
    requires k < |h| && k < recoveryDays
    ensures Count(h[k].states, R) == 0
  {
    RunInvariantHolds(h, adj, trials, recoveryDays, k);
    forall v | 0 <= v < |adj| ensures h[k].states[v] != R {
      DaysBounded(h, adj, trials, recoveryDays, k, v);
    }
    CountZero(h[k].states, R);
  }

  /** When every trial of every day fails (beta = 0) the infected count never rises above an earlier day's. */
  lemma {:induction false} NoTransmissionNeverGrows(h: seq<Population>, adj: seq<seq<nat>>, trials: nat -> Trial, recoveryDays: nat,
                                                    j: nat, k: nat)
    requires IsRun(h, adj, trials, recoveryDays)
    requires forall d, u, x :: !trials(d)(u, x)
    requires j <= k < |h|
    ensures Count(h[k].states, I) <= Count(h[j].states, I)
    decreases k - j
  {
    if j < k {
      NoTransmissionNeverGrows(h, adj, trials, recoveryDays, j, k - 1);
      RunDay(h, adj, trials, recoveryDays, k - 1, k);
      NextDayFollowsRule(h[k - 1], adj, trials(k - 1), recoveryDays);
      NoTransmissionNoGrowth(h[k - 1], adj, trials(k - 1), recoveryDays);
      assert Count(h[k].states, I) <= Count(h[k - 1].states, I);
    }
  }
}

/**
 Initialisation of a run: every node susceptible with a zero counter, then
 the sampled patient-zero nodes set infected. The random sample itself is an
 input: a sequence of distinct node ids.
 */
module Seeding {
  import opened Compartments
  import opened DayRule

  /** Every listed node is a node of a population of size `n`. */
  predicate InRange(nodes: seq<nat>, n: nat) {
    forall j :: 0 <= j < |nodes| ==> nodes[j] < n
  }

  /** No node is listed twice (a sample drawn without replacement). */
  predicate Distinct(nodes: seq<nat>) {
    forall i, j :: 0 <= i < j < |nodes| ==> nodes[i] != nodes[j]
  }

  /** The compartments after initialisation: all S, then I written to each sampled node in turn. */
  function Seeded(n: nat, sample: seq<nat>): (s: seq<State>)
    ensures |s| == n
  {
    Assign(seq(n, _ => S), sample, I)
  }

  /** The whole initial population: seeded compartments, every counter zero. */
  function Initial(n: nat, sample: seq<nat>): (p: Population)
    ensures |p.states| == n && |p.days| == n
  {
    Population(Seeded(n, sample), seq(n, _ => 0))
  }

  /** Exactly the sampled nodes are infected after initialisation, all others susceptible. */
  lemma SeededAt(n: nat, sample: seq<nat>, v: nat)
    requires v < n
    ensures Seeded(n, sample)[v] == if v in sample then I else S
  {
    AssignAt(seq(n, _ => S), sample, I, v);
  }

  /** After the first `i` writes of a distinct sample, exactly `i` nodes are infected and the rest susceptible. */
  lemma {:induction false} SeededPrefixCounts(n: nat, sample: seq<nat>, i: nat)
    requires InRange(sample, n) && Distinct(sample) && i <= |sample|
    ensures Count(Writes(seq(n, _ => S), sample, I, i), I) == i
    ensures Count(Writes(seq(n, _ => S), sample, I, i), S) + i == n
  {
    var none := seq(n, _ => S);
    if i == 0 {
      CountZero(none, I);
      CountZero(none, R);
      CountZero(none, D);
      CountTotal(none);
    } else {
      var x := sample[i - 1];
      var before := Writes(none, sample, I, i - 1);
      SeededPrefixCounts(n, sample, i - 1);
      assert Writes(none, sample, I, i) == before[x := I];
      WritesAt(none, sample, I, i - 1, x);
      assert x !in sample[..i - 1];
      assert before[x] == S;
      CountUpdate(before, x, I, I);
      CountUpdate(before, x, I, S);
    }
  }

  /** A sample of distinct nodes infects exactly `|sample|` nodes and leaves the rest susceptible. */
  lemma SeededCounts(n: nat, sample: seq<nat>)
    requires InRange(sample, n) && Distinct(sample)
    ensures Count(Seeded(n, sample), I) == |sample|
    ensures Count(Seeded(n, sample), S) + |sample| == n
  {
    SeededPrefixCounts(n, sample, |sample|);
  }

  /** The initial population satisfies the node-level invariant of a run. */
  lemma InitialRunInvariant(n: nat, sample: seq<nat>, recoveryDays: nat)
    ensures RunInvariant(Initial(n, sample), recoveryDays)
    ensures forall v :: 0 <= v < n ==> Initial(n, sample).states[v] != R
  {
    forall v | 0 <= v < n ensures Initial(n, sample).states[v] in {S, I} {
      SeededAt(n, sample, v);
    }
  }
}

/**
 The simulation state of one run, updated in place day by day: the node
 compartments and days-infected counters (two arrays indexed by node id) and
 the append-only logs written at the end of every day.
 */
module SirSimulation {
  import opened Compartments
  import opened ContactGraph
  import opened DayRule
  import opened Seeding
  import opened Timeline

  class Simulation {
    /** The contact network; fixed for the whole run. */
    const adj: seq<seq<nat>>
    /** Days an infected node stays infected before it recovers. */
    const recoveryDays: nat
    /** Compartment of every node. */
    const states: array<State>
    /** Days-infected counter of every node. */
    const daysInfected: array<nat>

    /** Per-day compartment counts, one entry per recorded day. */
    var susceptibleCount: seq<nat>
    var infectedCount: seq<nat>
    var recoveredCount: seq<nat>
    /** The time-series log. */
    var simulationData: seq<DailyRecord>
    /** The snapshot log. */
    var dailyNetworkStates: seq<NetworkSnapshot>

    /** The per-node state held in the two arrays. */
    ghost function Current(): Population
      reads states, daysInfected
    {
      Population(states[..], daysInfected[..])
    }

    /**
     The object invariant: arrays sized to the graph, the node-level run
     invariant, and logs whose entries agree and whose counts cover the whole
     population with nobody dead.
     */
    ghost predicate Valid()
      reads this, states, daysInfected
    {
      && ValidGraph(adj)
      && states.Length == |adj| && daysInfected.Length == |adj|
      && RunInvariant(Current(), recoveryDays)
      && |susceptibleCount| == |simulationData| && |infectedCount| == |simulationData|
      && |recoveredCount| == |simulationData| && |dailyNetworkStates| == |simulationData|
      && (forall i :: 0 <= i < |simulationData| ==>
            && simulationData[i].susceptible == susceptibleCount[i]
            && simulationData[i].infected == infectedCount[i]
            && simulationData[i].recovered == recoveredCount[i]
            && simulationData[i].susceptible + simulationData[i].infected
               + simulationData[i].recovered + simulationData[i].dead == |adj|
            && simulationData[i].dead == 0
            && dailyNetworkStates[i].day == simulationData[i].day)
    }

    /** Every node susceptible with a zero counter, then each sampled node infected. */
    constructor Init(adj: seq<seq<nat>>, recoveryDays: nat, sample: seq<nat>)
      requires ValidGraph(adj) && InRange(sample, |adj|) && Distinct(sample)
      ensures Valid() && fresh(states) && fresh(daysInfected)
      ensures this.adj == adj && this.recoveryDays == recoveryDays
      ensures Current() == Initial(|adj|, sample)
      ensures susceptibleCount == [] && infectedCount == [] && recoveredCount == []
      ensures simulationData == [] && dailyNetworkStates == []
    {
      var compartments := new State[|adj|](_ => S);
      ghost var none := seq(|adj|, _ => S);
      for i := 0 to |sample|
        invariant compartments[..] == Writes(none, sample, I, i)
      {
        compartments[sample[i]] := I;
      }
      this.adj := adj;
      this.recoveryDays := recoveryDays;
      states := compartments;
      daysInfected := new nat[|adj|](_ => 0);
      susceptibleCount, infectedCount, recoveredCount := [], [], [];
      simulationData, dailyNetworkStates := [], [];
      new;
      InitialRunInvariant(|adj|, sample, recoveryDays);
    }

    /**
     The read phase: scan the nodes in order, visiting each; collect the
     pending infections and recoveries. No compartment is written.
     */
    method ReadPhase(trial: Trial) returns (newInfections: seq<nat>, newRecoveries: seq<nat>)
      requires NeighboursInRange(adj) && states.Length == |adj| && daysInfected.Length == |adj|
      modifies daysInfected
      ensures newInfections == NewInfections(states[..], adj, trial, |adj|)
      ensures newRecoveries == NewRecoveries(states[..], old(daysInfected[..]), recoveryDays, |adj|)
      ensures daysInfected[..] == Aged(states[..], old(daysInfected[..]))
    {
      ghost var s0 := states[..];
      ghost var d0 := daysInfected[..];
      ghost var aged := Aged(s0, d0);
      newInfections, newRecoveries := [], [];
      for node := 0 to |adj|
        invariant newInfections == NewInfections(s0, adj, trial, node)
        invariant newRecoveries == NewRecoveries(s0, d0, recoveryDays, node)
        invariant forall v :: 0 <= v < node ==> daysInfected[v] == aged[v]
        invariant forall v :: node <= v < |adj| ==> daysInfected[v] == d0[v]
      {
        var exposed, recovers := Visit(node, trial);
        newInfections := newInfections + exposed;
        if recovers {
          newRecoveries := newRecoveries + [node];
        }
      }
      assert daysInfected[..] == aged;
    }

    /**
     One node of the scan: when it is infected, its exposures are listed, its
     counter goes up by one, and it is listed for recovery once the counter
     reaches `recoveryDays`.
     */
    method Visit(node: nat, trial: Trial) returns (exposed: seq<nat>, recovers: bool)
      requires NeighboursInRange(adj) && states.Length == |adj| && daysInfected.Length == |adj| && node < |adj|
      modifies daysInfected
      ensures exposed == if states[node] == I then Exposures(states[..], node, adj[node], trial, |adj[node]|) else []
      ensures recovers <==> states[node] == I && old(daysInfected[node]) + 1 >= recoveryDays
      ensures daysInfected[..] == old(daysInfected[..])[node := if states[node] == I then old(daysInfected[node]) + 1 else old(daysInfected[node])]
    {
      exposed, recovers := [], false;
      if states[node] == I {
        exposed := ScanNeighbours(node, trial);
        daysInfected[node] := daysInfected[node] + 1;
        recovers := daysInfected[node] >= recoveryDays;
      }
    }

    /** The neighbours of the infected node `node`, in adjacency order, that are susceptible and whose trial succeeds. */
    method ScanNeighbours(node: nat, trial: Trial) returns (exposed: seq<nat>)
      requires NeighboursInRange(adj) && states.Length == |adj| && node < |adj|
      ensures exposed == Exposures(states[..], node, adj[node], trial, |adj[node]|)
    {
      var neighbours := adj[node];
      exposed := [];
      for j := 0 to |neighbours|
        invariant exposed == Exposures(states[..], node, neighbours, trial, j)
      {
        var neighbour := neighbours[j];
        if states[neighbour] == S && trial(node, neighbour) {
          exposed := exposed + [neighbour];
        }
      }
    }

    /** The commit phase: every pending infection becomes I, then every pending recovery becomes R. */
    method Commit(newInfections: seq<nat>, newRecoveries: seq<nat>)
      requires InRange(newInfections, states.Length) && InRange(newRecoveries, states.Length)
      modifies states
      ensures states[..] == Assign(Assign(old(states[..]), newInfections, I), newRecoveries, R)
    {
      ghost var s0 := states[..];
      for i := 0 to |newInfections|
        invariant states[..] == Writes(s0, newInfections, I, i)
      {
        states[newInfections[i]] := I;
      }
      ghost var s1 := states[..];
      for i := 0 to |newRecoveries|
        invariant states[..] == Writes(s1, newRecoveries, R, i)
      {
        states[newRecoveries[i]] := R;
      }
    }

    /** One simulated day: the read phase over the start-of-day state, then the commit. */
    method Step(trial: Trial)
      requires Valid()
      modifies states, daysInfected
      ensures Valid()
      ensures Current() == NextDay(old(Current()), adj, trial, recoveryDays)
    {
      ghost var before := Current();
      var newInfections, newRecoveries := ReadPhase(trial);
      forall j | 0 <= j < |newInfections| ensures newInfections[j] < states.Length {
        NewInfectionsMembers(before.states, adj, trial, |adj|, newInfections[j]);
      }
      forall j | 0 <= j < |newRecoveries| ensures newRecoveries[j] < states.Length {
        NewRecoveriesMembers(before.states, before.days, recoveryDays, |adj|, newRecoveries[j]);
      }
      Commit(newInfections, newRecoveries);
      RunInvariantPreserved(before, adj, trial, recoveryDays);
    }

    /** End of day `day`: count every compartment and append one record and one snapshot. */
    method Tally(day: nat)
      requires Valid()
      modifies this
      ensures Valid()
      ensures susceptibleCount == old(susceptibleCount) + [Count(states[..], S)]
      ensures infectedCount == old(infectedCount) + [Count(states[..], I)]
      ensures recoveredCount == old(recoveredCount) + [Count(states[..], R)]
      ensures simulationData == old(simulationData) + [CountRecord(day, states[..])]
      ensures dailyNetworkStates == old(dailyNetworkStates) + [NetworkSnapshot(day, Snapshot(states[..]))]
    {
      var s := states[..];
      susceptibleCount := susceptibleCount + [Count(s, S)];
      infectedCount := infectedCount + [Count(s, I)];
      recoveredCount := recoveredCount + [Count(s, R)];
      var deadCount := Count(s, D);
      simulationData := simulationData + [DailyRecord(day, susceptibleCount[|susceptibleCount| - 1],
                                                        infectedCount[|infectedCount| - 1],
                                                        recoveredCount[|recoveredCount| - 1], deadCount)];
      dailyNetworkStates := dailyNetworkStates + [NetworkSnapshot(day, Snapshot(s))];
      ghost var record := CountRecord(day, s);
      assert simulationData[|simulationData| - 1] == record;
    }

    /**
     The daily loop, run once over the freshly initialised state with empty
     logs: `days` steps, each followed by its tally. The final state is the
     end of the history of `days` days, and the logs are that history's
     records and snapshots (see `DailyRecordsAt` and `DailySnapshotsAt`).
     */
    method Run(days: nat, trials: nat -> Trial)
      requires Valid() && simulationData == [] && dailyNetworkStates == []
      modifies this, states, daysInfected
      ensures Valid()
      ensures Current() == History(old(Current()), adj, trials, recoveryDays, days)[days]
      ensures simulationData == DailyRecords(History(old(Current()), adj, trials, recoveryDays, days), days)
      ensures dailyNetworkStates == DailySnapshots(History(old(Current()), adj, trials, recoveryDays, days), days)
    {
      ghost var h := History(Current(), adj, trials, recoveryDays, days);
      for day := 0 to days
        invariant Valid()
        invariant Current() == h[day]
        invariant simulationData == DailyRecords(h, day)
        invariant dailyNetworkStates == DailySnapshots(h, day)
      {
        Step(trials(day));
        NextDayFollowsRule(h[day], adj, trials(day), recoveryDays);
        HistoryStep(h[0], adj, trials, recoveryDays, days, day);
        Tally(day);
      }
    }
  }
}

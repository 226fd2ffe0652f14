# SIR contact-network simulation, modelled in Dafny

`sir_simulation.py` runs a discrete-time SIR (Susceptible, Infected,
Recovered) epidemic on a contact network:

- Every node starts susceptible with a zero days-infected counter.
- A sample of distinct nodes is set infected.
- Each simulated day has a read phase over the start-of-day state. Every node that is infected at the start of the day does three things:
  - it lists each susceptible neighbour whose Bernoulli trial succeeds;
  - it increments its counter;
  - it lists itself for recovery once the counter reaches `recovery_days`.
- A commit phase then writes `I` to every listed infection and `R` to every listed recovery.
- The day ends with a tally: the count of each compartment, one count record and one node-to-compartment snapshot.

The project models that core:

- `compartments.dfy` (`Compartments`) defines the compartments `S | I | R | D`, the count of a compartment, the daily count record and the daily snapshot.
- `contact_graph.dfy` (`ContactGraph`) defines the contact network as an adjacency list over nodes `0 .. N-1`, and what a well-formed one is: no self-loops, no parallel edges, symmetric.
- `day_rule.dfy` (`DayRule`) is one day as pure functions.
  - `NextDay` is the day as written: the two lists built in scan order, then two sequential write loops.
  - `NextStateOf` and `RuleDay` are an independent per-node SIR rule.
  - It proves the two agree, and it proves the single-day properties: snapshot discipline, forward-only transitions, and the run invariant `RunInvariant`.
- `seeding.dfy` (`Seeding`) is the initial state and its counts.
- `timeline.dfy` (`Timeline`) covers runs of many days: the `History` of a run, the logs a run writes, and the multi-day properties (recovery timing, R is terminal, behaviour without transmission).
- `simulation.dfy` (`SirSimulation`) is the class `Simulation`. It holds the node compartments and counters in two arrays and the logs in sequences, and its methods update them in place. Each method is proved against the functions above:
  - `Init` for lines 20-26;
  - `ReadPhase`, `Visit` and `ScanNeighbours` for the scan;
  - `Commit` for the write loops;
  - `Step` for one day;
  - `Tally` for the daily counts and logs;
  - `Run` for the daily loop.

Randomness is an input:

- The day's trial outcomes are a predicate `trial(infectedNode, neighbour)`; a run takes one per day, `trials(day)`.
- The initial sample is a sequence of distinct node ids.

`days_infected` is never reset (lines 21, 48): it starts at 0 for every node and is only ever incremented, on the days a node is infected. So:

- A susceptible node's counter is 0 only because nothing ever increments it. `RunInvariant` states this and every day preserves it.
- A recovered node keeps its final counter.

## Model

| member | source | states |
|---|---|---|
| Compartments.Count | sir_simulation.py:64-67 | the number of nodes in one compartment never exceeds the population |
| Compartments.CountTotal | sir_simulation.py:64-67 | the S, I, R and D counts of a population add up to N |
| Compartments.CountZero | sir_simulation.py:67 | a compartment's count is 0 exactly when no node holds it |
| Compartments.CountUpdate | sir_simulation.py:26 | overwriting one node moves the count of a compartment by at most one, in the direction of the write |
| Compartments.CountMonotone | sir_simulation.py:65 | if every node in `c` after a change was in `c` before, the count of `c` did not grow |
| Compartments.CountRecord | sir_simulation.py:70-76 | the record carries the loop's day index, its four counts sum to N, and its dead count is 0 exactly when no node is D |
| Compartments.Snapshot | sir_simulation.py:79-82 | the snapshot maps exactly the nodes `0 .. N-1`, each to its compartment |
| DayRule.Exposures | sir_simulation.py:44-46 | one infected node's neighbour loop over its first `j` neighbours: the susceptible neighbours whose trial succeeds, in adjacency order; at most one entry per neighbour, each a susceptible node with a successful trial |
| DayRule.NewInfections | sir_simulation.py:41-46 | `new_infections` after the scan has visited nodes `0 .. k-1`: each infected node's exposures appended in scan order (its members are given by `NewInfectionsMembers`) |
| DayRule.NewRecoveries | sir_simulation.py:41-53 | `new_recoveries` after the scan has visited nodes `0 .. k-1`: each scanned node that is I and whose incremented counter reaches `recovery_days`, in scan order (its members are given by `NewRecoveriesMembers`) |
| DayRule.Aged | sir_simulation.py:48 | the counters after the read phase: one more for each node infected at the start of the day, the same length as before |
| DayRule.Writes | sir_simulation.py:25-26 | the compartments after the first `i` writes of one compartment to the listed nodes in list order, as in the seeding loop and the two commit loops; the population size is unchanged |
| DayRule.Assign | sir_simulation.py:56-59 | the compartments after a whole write loop over a list; the population size is unchanged |
| DayRule.WritesAt | sir_simulation.py:56-59 | after the first `i` writes of a list, a node holds the written compartment exactly when it is among the first `i` entries; otherwise it keeps its old one |
| DayRule.AssignAt | sir_simulation.py:56-59 | after a commit loop, a node holds the written compartment exactly when it is listed |
| DayRule.AssignSameMembers | sir_simulation.py:44-46 | two lists with the same members commit the same state, so duplicate entries in `new_infections` are idempotent |
| DayRule.ExposuresMembers | sir_simulation.py:44-46 | a node is listed by an infected node's neighbour scan exactly when it is a scanned neighbour, susceptible, and its trial succeeds |
| DayRule.NewInfectionsStep | sir_simulation.py:41-46 | scanning one more node adds exactly the neighbours that node infects |
| DayRule.NewInfectionsMembers | sir_simulation.py:41-46 | a node is in `new_infections` exactly when some scanned node infected at the start of the day has it as a susceptible neighbour and its trial succeeds |
| DayRule.NewRecoveriesMembers | sir_simulation.py:41-53 | a node is in `new_recoveries` exactly when it is scanned, infected at the start of the day, and its incremented counter reaches `recovery_days` |
| DayRule.ReadPhaseDisjoint | sir_simulation.py:41-53 | pending infections were S and pending recoveries were I at the start of the day, so no node is in both lists |
| DayRule.CommitOrderIrrelevant | sir_simulation.py:56-59 | for disjoint lists, committing recoveries before infections gives the same state |
| DayRule.NextDay | sir_simulation.py:41-59 | one day as written: the read phase builds both lists over the start-of-day state and ages the counters, then infections and recoveries are committed in that order; the result still covers every node of the graph |
| DayRule.NextStateOf | sir_simulation.py:41-59 | the reference rule for one node: S becomes I when some infected neighbour's trial on it succeeds, I becomes R once its incremented counter reaches `recovery_days`, R and D stay |
| DayRule.RuleDay | sir_simulation.py:41-59 | the reference rule applied to every node, with the aged counters; the result covers every node of the graph |
| DayRule.NextDayRule | sir_simulation.py:41-59 | after a day, each node's compartment is the per-node SIR rule's, and its counter went up by exactly 1 if it was I at the start of the day and is otherwise unchanged |
| DayRule.NextDayFollowsRule | sir_simulation.py:41-59 | the day as written (scan, lists, two commit loops) equals the per-node rule applied to every node |
| DayRule.UnlistedUnchanged | sir_simulation.py:56-59 | a node in neither list keeps its compartment |
| DayRule.OnlyForwardTransitions | sir_simulation.py:42-59 | the only changes in a day are S to I and I to R: R stays R and no node goes S to R |
| DayRule.RunInvariantPreserved | sir_simulation.py:48-61 | a day preserves `RunInvariant`: no node is D, every S node has counter 0, every R node has counter at least `recovery_days` |
| DayRule.NoTransmissionNoGrowth | sir_simulation.py:45 | if every trial fails (beta = 0), no node becomes I and the infected count does not grow |
| Seeding.Seeded | sir_simulation.py:20-26 | the compartments after initialisation: all S, then I written to each sampled node in turn; one per node |
| Seeding.Initial | sir_simulation.py:20-26 | the initial population: the seeded compartments and a zero counter for every node |
| Seeding.SeededAt | sir_simulation.py:20-26 | after initialisation a node is I exactly when it was sampled, otherwise S |
| Seeding.SeededPrefixCounts | sir_simulation.py:25-26 | after the first `i` writes of a distinct sample, exactly `i` nodes are I and the rest are S |
| Seeding.SeededCounts | sir_simulation.py:20-26 | after initialisation exactly `initial_infected` nodes are I and the other N - `initial_infected` are S |
| Seeding.InitialRunInvariant | sir_simulation.py:20-26 | the initial state satisfies `RunInvariant` and has no R node |
| Timeline.IsRun | sir_simulation.py:36-61 | a sequence of populations is a run: each covers the graph and each after the first is one day applied to the one before, with that day's trial outcomes |
| Timeline.History | sir_simulation.py:36-61 | the `k + 1` populations of a run of `k` days from a given start: the start, then the state after each day's commit |
| Timeline.HistoryAt | sir_simulation.py:36 | running more days does not change the state recorded after an earlier day |
| Timeline.HistoryStep | sir_simulation.py:36-61 | each entry of a run's history is one day applied to the entry before it |
| Timeline.HistoryIsRun | sir_simulation.py:36-61 | the history of `k` days is a run |
| Timeline.DailyRecords | sir_simulation.py:70-76 | a run of `n` days writes `n` records |
| Timeline.DailySnapshots | sir_simulation.py:79-82 | a run of `n` days writes `n` snapshots |
| Timeline.DailyRecordsAt | sir_simulation.py:70-76 | record `d` carries day index `d` and tallies the state after day `d`'s commit |
| Timeline.DailySnapshotsAt | sir_simulation.py:79-82 | snapshot `d` carries day index `d` and maps every node to its compartment after day `d`'s commit |
| Timeline.RunStep | sir_simulation.py:42-59 | from one day to the next, per node: the counter rises by 1 exactly for I nodes; S goes to S or I; I goes to R exactly when its counter reaches `recovery_days`; R stays R |
| Timeline.RunInvariantHolds | sir_simulation.py:36-61 | `RunInvariant` holds after every day of a run that starts in it |
| Timeline.RecoveredIsTerminal | sir_simulation.py:56-59 | a node that is R after some day is R after every later day |
| Timeline.RecoveryTiming | sir_simulation.py:48-59 | an I node with counter `c < recovery_days` stays I, its counter rising by one a day, until `recovery_days - c` days later, when it is R |
| Timeline.InfectedRecoversOnTime | sir_simulation.py:48-59 | a node infected at the commit of day t is I through the commit of day t + `recovery_days` - 1 and R at the commit of day t + `recovery_days` |
| Timeline.SeededRecoversOnTime | sir_simulation.py:20-59 | a seeded node is I through the commit of day `recovery_days` - 2 and R at the commit of day `recovery_days` - 1 |
| Timeline.DaysBounded | sir_simulation.py:21-48 | from a zero start, a node's counter never exceeds the number of days run |
| Timeline.NoEarlyRecovery | sir_simulation.py:21-53 | from a start with no R node and zero counters, nobody is R before `recovery_days` days have run |
| Timeline.NoTransmissionNeverGrows | sir_simulation.py:36-65 | if every trial of every day fails (beta = 0), the infected count never rises above any earlier day's |
| SirSimulation.Simulation.Init | sir_simulation.py:20-34 | the arrays hold the initial state (sampled nodes I, all others S, every counter 0), the logs are empty, and the object invariant holds |
| SirSimulation.Simulation.ReadPhase | sir_simulation.py:41-53 | the scan returns exactly `new_infections` and `new_recoveries` in scan order, ages exactly the I nodes' counters, and writes no compartment |
| SirSimulation.Simulation.Visit | sir_simulation.py:42-53 | a node that is I lists its exposures, gains one day and is listed for recovery when the counter reaches `recovery_days`; any other node changes nothing |
| SirSimulation.Simulation.ScanNeighbours | sir_simulation.py:44-46 | the neighbour loop lists, in adjacency order, the susceptible neighbours whose trial succeeds |
| SirSimulation.Simulation.Commit | sir_simulation.py:56-59 | the two write loops leave the state of sequential writes: every infection, then every recovery |
| SirSimulation.Simulation.Step | sir_simulation.py:37-61 | one day turns the arrays into `NextDay` of the old state and keeps the object invariant |
| SirSimulation.Simulation.Tally | sir_simulation.py:64-82 | one count per compartment, one record and one snapshot are appended, all taken from the current state; the object invariant, with every record summing to N and dead 0, is kept |
| SirSimulation.Simulation.Run | sir_simulation.py:36-82 | after `days` days the state is the end of the run's history, and the logs hold exactly that history's records and snapshots in day order |

## Left out

- Graph construction (`nx.watts_strogatz_graph`, line 17) is a foreign library call. The adjacency is an input; the model requires it to be well formed (`ValidGraph`).
- The parameters at lines 7-13 are not fixed. N is the size of the given graph, and `recovery_days` and the number of days are parameters. beta appears only through the trial outcomes.
- `random.random() < beta` (line 45) is a floating-point draw. The model replaces it with a per-day trial predicate, and beta = 0 becomes "every trial fails".
- `random.sample` (line 24) is replaced by a given sequence of distinct node ids. `Init` requires them to be nodes. The `ValueError` that `random.sample` raises when `initial_infected` exceeds N is therefore not modelled: distinct in-range ids cannot number more than N.
- The node dictionaries are modelled as arrays indexed by node `0 .. N-1`. These are the nodes the graph generator produces.
- JSON output (lines 85-90) and all plotting and layout code (lines 93-162) are I/O with no decision logic.
- The death path (lines 14, 39, 49-51, 60-61) is commented out in the source. `D` remains as a compartment that no transition assigns, so the dead count is expressible and is proved to be 0.
- DayRule.Exposures and DayRule.Writes skip a node id outside the population. The Python code would raise `KeyError` in the scan or add a new key in the commit. Over a graph whose neighbours are nodes (`NeighboursInRange`), no such id ever occurs.
- Timeline.InfectedRecoversOnTime and Timeline.SeededRecoversOnTime require `recovery_days >= 1`. With 0, an infected node is listed for recovery on its first scan, so the timing takes a different form.
- SirSimulation.Simulation.Run requires empty logs, because the source runs its daily loop once, straight after the logs are created (lines 29-36).

/**
 One simulated day, as pure functions over the start-of-day population.

 The read phase scans the nodes in order and builds two lists, the pending
 infections and the pending recoveries, without touching any compartment;
 the commit phase then writes `I` to every pending infection and `R` to every
 pending recovery, in that order. `NextDay` is the day written that way;
 `NextStateOf` is an independent, per-node statement of the SIR rule, and
 `NextDayRule` proves that the two agree; `RuleDay` applies that rule to
 every node at once (`NextDayFollowsRule`).
 */
module DayRule {
  import opened Compartments
  import opened ContactGraph

  /**
   The outcome of the day's Bernoulli trial on the directed edge from an
   infected node to a susceptible neighbour (stands for `random() < beta`).
   */
  type Trial = (nat, nat) -> bool

  /** The per-node simulation state: compartments and days-infected counters. */
  datatype Population = Population(states: seq<State>, days: seq<nat>)

  /** The population covers exactly the nodes of the graph. */
  predicate WellSized(p: Population, adj: seq<seq<nat>>) {
    |p.states| == |adj| && |p.days| == |adj| && NeighboursInRange(adj)
  }

  /**
   The node-level invariant of a run: no node is dead, every susceptible node
   has a zero counter, and every recovered node has been infected for at
   least `recoveryDays` days.
   */
  predicate RunInvariant(p: Population, recoveryDays: nat) {
    |p.states| == |p.days| &&
    forall v :: 0 <= v < |p.states| ==>
      p.states[v] != D &&
      (p.states[v] == S ==> p.days[v] == 0) &&
      (p.states[v] == R ==> p.days[v] >= recoveryDays)
  }

  // ---------------------------------------------------------------------------
  // Read phase, as written: the two lists in the order the scan appends them
  // ---------------------------------------------------------------------------

  /** `u` is infected at the start of the day, `x` is a susceptible neighbour of it and the trial on (u, x) succeeds. */
  predicate Infects(s: seq<State>, adj: seq<seq<nat>>, trial: Trial, u: nat, x: nat) {
    u < |s| && u < |adj| && s[u] == I && x in adj[u] && x < |s| && s[x] == S && trial(u, x)
  }

  /**
   The first `j` neighbours in `nbrs`, in order, that are susceptible and
   whose trial from `u` succeeds. A neighbour id outside the population would
   be skipped; over a graph whose neighbours are nodes there is none.
   */
  function Exposures(s: seq<State>, u: nat, nbrs: seq<nat>, trial: Trial, j: nat): (r: seq<nat>)
    requires j <= |nbrs|
    ensures |r| <= j
    ensures forall i :: 0 <= i < |r| ==> r[i] < |s| && s[r[i]] == S && trial(u, r[i])
  {
    if j == 0 then []
    else
      var x := nbrs[j - 1];
      Exposures(s, u, nbrs, trial, j - 1) + (if x < |s| && s[x] == S && trial(u, x) then [x] else [])
  }

  /** `new_infections` after the scan has visited nodes 0 .. k-1. */
  function NewInfections(s: seq<State>, adj: seq<seq<nat>>, trial: Trial, k: nat): seq<nat>
    requires |s| == |adj| && k <= |adj|
  {
    if k == 0 then []
    else
      NewInfections(s, adj, trial, k - 1)
      + (if s[k - 1] == I then Exposures(s, k - 1, adj[k - 1], trial, |adj[k - 1]|) else [])
  }

  /** `new_recoveries` after the scan has visited nodes 0 .. k-1 (the counter is checked after its increment). */
  function NewRecoveries(s: seq<State>, days: seq<nat>, recoveryDays: nat, k: nat): seq<nat>
    requires |s| == |days| && k <= |s|
  {
    if k == 0 then []
    else
      NewRecoveries(s, days, recoveryDays, k - 1)
      + (if s[k - 1] == I && days[k - 1] + 1 >= recoveryDays then [k - 1] else [])
  }

  /** The counters after the read phase: one more day for every node infected at the start of the day. */
  function Aged(s: seq<State>, days: seq<nat>): (d: seq<nat>)
    requires |s| == |days|
    ensures |d| == |days|
  {
    seq(|days|, v requires 0 <= v < |days| => if s[v] == I then days[v] + 1 else days[v])
  }

  // ---------------------------------------------------------------------------
  // Commit phase, as written: one write per list entry, in list order
  // ---------------------------------------------------------------------------

  /**
   `s` after the first `i` writes of `c`, one per listed node, in list order.
   An id outside the population would be skipped; the read phase never lists one.
   */
  function Writes(s: seq<State>, nodes: seq<nat>, c: State, i: nat): (r: seq<State>)
    requires i <= |nodes|
    ensures |r| == |s|
  {
    if i == 0 then s
    else
      var written := Writes(s, nodes, c, i - 1);
      var x := nodes[i - 1];
      if x < |written| then written[x := c] else written
  }

  /** `s` after writing `c` to every listed node. */
  function Assign(s: seq<State>, nodes: seq<nat>, c: State): (r: seq<State>)
    ensures |r| == |s|
  {
    Writes(s, nodes, c, |nodes|)
  }

  /** After the first `i` writes a node holds `c` exactly when it is among the first `i` listed. */
  lemma {:induction false} WritesAt(s: seq<State>, nodes: seq<nat>, c: State, i: nat, v: nat)
    requires i <= |nodes| && v < |s|
    ensures Writes(s, nodes, c, i)[v] == if v in nodes[..i] then c else s[v]
  {
    if i > 0 {
      WritesAt(s, nodes, c, i - 1, v);
      assert nodes[..i] == nodes[..i - 1] + [nodes[i - 1]];
    }
  }

  /** After all the writes a node holds `c` exactly when it is listed; repetitions and order do not matter. */
  lemma AssignAt(s: seq<State>, nodes: seq<nat>, c: State, v: nat)
    requires v < |s|
    ensures Assign(s, nodes, c)[v] == if v in nodes then c else s[v]
  {
    WritesAt(s, nodes, c, |nodes|, v);
    assert nodes[..|nodes|] == nodes;
  }

  /** Two lists with the same members make the same writes: duplicate entries are idempotent. */
  lemma AssignSameMembers(s: seq<State>, a: seq<nat>, b: seq<nat>, c: State)
    requires forall x :: x in a <==> x in b
    ensures Assign(s, a, c) == Assign(s, b, c)
  {
    forall v | 0 <= v < |s| ensures Assign(s, a, c)[v] == Assign(s, b, c)[v] {
      AssignAt(s, a, c, v);
      AssignAt(s, b, c, v);
    }
  }

  /** The population after one day: the read phase's lists committed infections first, then recoveries. */
  function NextDay(p: Population, adj: seq<seq<nat>>, trial: Trial, recoveryDays: nat): (q: Population)
    requires WellSized(p, adj)
    ensures WellSized(q, adj)
  {
    var inf := NewInfections(p.states, adj, trial, |adj|);
    var rec := NewRecoveries(p.states, p.days, recoveryDays, |adj|);
    Population(Assign(Assign(p.states, inf, I), rec, R), Aged(p.states, p.days))
  }

  // ---------------------------------------------------------------------------
  // What the two lists contain
  // ---------------------------------------------------------------------------

  /** A neighbour is among the first `j` exposures exactly when it is among the first `j` neighbours, susceptible, and its trial succeeds. */
  lemma {:induction false} ExposuresMembers(s: seq<State>, u: nat, nbrs: seq<nat>, trial: Trial, j: nat, x: nat)
    requires j <= |nbrs|
    ensures x in Exposures(s, u, nbrs, trial, j) <==> x in nbrs[..j] && x < |s| && s[x] == S && trial(u, x)
  {
    if j > 0 {
      ExposuresMembers(s, u, nbrs, trial, j - 1, x);
      assert nbrs[..j] == nbrs[..j - 1] + [nbrs[j - 1]];
    }
  }

  /** Scanning node `k - 1` lists exactly the neighbours that it infects. */
  lemma NewInfectionsStep(s: seq<State>, adj: seq<seq<nat>>, trial: Trial, k: nat, x: nat)
    requires |s| == |adj| && 0 < k <= |adj|
    ensures x in NewInfections(s, adj, trial, k)
            <==> x in NewInfections(s, adj, trial, k - 1) || Infects(s, adj, trial, k - 1, x)
  {
    var u := k - 1;
    ExposuresMembers(s, u, adj[u], trial, |adj[u]|, x);
    assert adj[u][..|adj[u]|] == adj[u];
  }

  /** A node is a pending infection exactly when some scanned infected neighbour's trial on it succeeded. */
  lemma {:induction false} NewInfectionsMembers(s: seq<State>, adj: seq<seq<nat>>, trial: Trial, k: nat, x: nat)
    requires |s| == |adj| && k <= |adj|
    ensures x in NewInfections(s, adj, trial, k) <==> exists u: nat :: u < k && Infects(s, adj, trial, u, x)
  {
    if k > 0 {
      NewInfectionsMembers(s, adj, trial, k - 1, x);
      NewInfectionsStep(s, adj, trial, k, x);
      if x in NewInfections(s, adj, trial, k - 1) {
        var w: nat :| w < k - 1 && Infects(s, adj, trial, w, x);
        assert w < k;
      } else if !Infects(s, adj, trial, k - 1, x) {
        forall w: nat | w < k ensures !Infects(s, adj, trial, w, x) {
        }
      }
    }
  }

  /** A node is a pending recovery exactly when it is scanned, infected, and its incremented counter reaches `recoveryDays`. */
  lemma {:induction false} NewRecoveriesMembers(s: seq<State>, days: seq<nat>, recoveryDays: nat, k: nat, x: nat)
    requires |s| == |days| && k <= |s|
    ensures x in NewRecoveries(s, days, recoveryDays, k) <==> x < k && s[x] == I && days[x] + 1 >= recoveryDays
  {
    if k > 0 {
      NewRecoveriesMembers(s, days, recoveryDays, k - 1, x);
    }
  }

  /**
   Snapshot discipline: pending infections were susceptible and pending
   recoveries infected at the start of the day, so no node is in both lists.
   */
  lemma ReadPhaseDisjoint(p: Population, adj: seq<seq<nat>>, trial: Trial, recoveryDays: nat, x: nat)
    requires WellSized(p, adj)
    ensures x in NewInfections(p.states, adj, trial, |adj|) ==> x < |adj| && p.states[x] == S
    ensures x in NewRecoveries(p.states, p.days, recoveryDays, |adj|) ==> x < |adj| && p.states[x] == I
    ensures !(x in NewInfections(p.states, adj, trial, |adj|) && x in NewRecoveries(p.states, p.days, recoveryDays, |adj|))
  {
    NewInfectionsMembers(p.states, adj, trial, |adj|, x);
    NewRecoveriesMembers(p.states, p.days, recoveryDays, |adj|, x);
  }

  /** For disjoint lists the order of the two commit loops does not matter. */
  lemma CommitOrderIrrelevant(s: seq<State>, inf: seq<nat>, rec: seq<nat>)
    requires forall x :: x in inf ==> x !in rec
    ensures Assign(Assign(s, inf, I), rec, R) == Assign(Assign(s, rec, R), inf, I)
  {
    forall v | 0 <= v < |s| ensures Assign(Assign(s, inf, I), rec, R)[v] == Assign(Assign(s, rec, R), inf, I)[v] {
      AssignAt(s, inf, I, v);
      AssignAt(Assign(s, inf, I), rec, R, v);
      AssignAt(s, rec, R, v);
      AssignAt(Assign(s, rec, R), inf, I, v);
    }
  }

  // ---------------------------------------------------------------------------
  // The per-node SIR rule and its agreement with the day as written
  // ---------------------------------------------------------------------------

  /** Some infected neighbour of `v` succeeds in its trial on `v` today. */
  ghost predicate Exposed(s: seq<State>, adj: seq<seq<nat>>, trial: Trial, v: nat) {
    exists u: nat :: u < |adj| && Infects(s, adj, trial, u, v)
  }

  /**
   The reference rule for one node: S becomes I when exposed, I becomes R
   once its counter after today's increment reaches `recoveryDays`, R and D
   stay.
   */
  ghost function NextStateOf(p: Population, adj: seq<seq<nat>>, trial: Trial, recoveryDays: nat, v: nat): State
    requires WellSized(p, adj) && v < |adj|
  {
    match p.states[v]
    case S => if Exposed(p.states, adj, trial, v) then I else S
    case I => if p.days[v] + 1 >= recoveryDays then R else I
    case R => R
    case D => D
  }

  /** The day as written (scan, lists, two commit loops) follows the per-node rule at every node. */
  lemma NextDayRule(p: Population, adj: seq<seq<nat>>, trial: Trial, recoveryDays: nat, v: nat)
    requires WellSized(p, adj) && v < |adj|
    ensures NextDay(p, adj, trial, recoveryDays).states[v] == NextStateOf(p, adj, trial, recoveryDays, v)
    ensures NextDay(p, adj, trial, recoveryDays).days[v] == if p.states[v] == I then p.days[v] + 1 else p.days[v]
  {
    var inf := NewInfections(p.states, adj, trial, |adj|);
    var rec := NewRecoveries(p.states, p.days, recoveryDays, |adj|);
    AssignAt(p.states, inf, I, v);
    AssignAt(Assign(p.states, inf, I), rec, R, v);
    NewInfectionsMembers(p.states, adj, trial, |adj|, v);
    NewRecoveriesMembers(p.states, p.days, recoveryDays, |adj|, v);
  }

  /** The day by the per-node rule: every compartment by `NextStateOf`, every counter aged. */
  ghost function RuleDay(p: Population, adj: seq<seq<nat>>, trial: Trial, recoveryDays: nat): (q: Population)
    requires WellSized(p, adj)
    ensures WellSized(q, adj)
  {
    Population(seq(|adj|, v requires 0 <= v < |adj| => NextStateOf(p, adj, trial, recoveryDays, v)), Aged(p.states, p.days))
  }

  /** The day as written is the day by the per-node rule. */
  lemma NextDayFollowsRule(p: Population, adj: seq<seq<nat>>, trial: Trial, recoveryDays: nat)
    requires WellSized(p, adj)
    ensures NextDay(p, adj, trial, recoveryDays) == RuleDay(p, adj, trial, recoveryDays)
  {
    var q, r := NextDay(p, adj, trial, recoveryDays), RuleDay(p, adj, trial, recoveryDays);
    forall v | 0 <= v < |adj| ensures q.states[v] == r.states[v] {
      NextDayRule(p, adj, trial, recoveryDays, v);
    }
  }

  /** Nodes in neither list keep their compartment. */
  lemma UnlistedUnchanged(p: Population, adj: seq<seq<nat>>, trial: Trial, recoveryDays: nat, v: nat)
    requires WellSized(p, adj) && v < |adj|
    requires v !in NewInfections(p.states, adj, trial, |adj|)
    requires v !in NewRecoveries(p.states, p.days, recoveryDays, |adj|)
    ensures NextDay(p, adj, trial, recoveryDays).states[v] == p.states[v]
  {
    var inf := NewInfections(p.states, adj, trial, |adj|);
    AssignAt(p.states, inf, I, v);
    AssignAt(Assign(p.states, inf, I), NewRecoveries(p.states, p.days, recoveryDays, |adj|), R, v);
  }

  /** The only transitions are S -> I and I -> R: R is terminal and no node goes S -> R. */
  lemma OnlyForwardTransitions(p: Population, adj: seq<seq<nat>>, trial: Trial, recoveryDays: nat, v: nat)
    requires WellSized(p, adj) && v < |adj|
    ensures var next := NextDay(p, adj, trial, recoveryDays).states[v];
      next == p.states[v] || (p.states[v] == S && next == I) || (p.states[v] == I && next == R)
  {
    NextDayRule(p, adj, trial, recoveryDays, v);
  }

  /** One day keeps the node-level invariant. */
  lemma RunInvariantPreserved(p: Population, adj: seq<seq<nat>>, trial: Trial, recoveryDays: nat)
    requires WellSized(p, adj) && RunInvariant(p, recoveryDays)
    ensures RunInvariant(NextDay(p, adj, trial, recoveryDays), recoveryDays)
  {
    var q := NextDay(p, adj, trial, recoveryDays);
    forall v | 0 <= v < |q.states|
      ensures q.states[v] != D
      ensures q.states[v] == S ==> q.days[v] == 0
      ensures q.states[v] == R ==> q.days[v] >= recoveryDays
    {
      NextDayRule(p, adj, trial, recoveryDays, v);
    }
  }

  /** When every trial fails (beta = 0) no node becomes infected, so the infected count cannot grow. */
  lemma NoTransmissionNoGrowth(p: Population, adj: seq<seq<nat>>, trial: Trial, recoveryDays: nat)
    requires WellSized(p, adj)
    requires forall u, x :: !trial(u, x)
    ensures forall v :: 0 <= v < |adj| && NextDay(p, adj, trial, recoveryDays).states[v] == I ==> p.states[v] == I
    ensures Count(NextDay(p, adj, trial, recoveryDays).states, I) <= Count(p.states, I)
  {
    var q := NextDay(p, adj, trial, recoveryDays);
    forall v | 0 <= v < |adj| && q.states[v] == I ensures p.states[v] == I {
      NextDayRule(p, adj, trial, recoveryDays, v);
    }
    CountMonotone(p.states, q.states, I);
  }
}

/**
 The epidemiological compartments of a node, the per-compartment counts taken
 at the end of every simulated day, and the two append-only log entries a day
 produces (a count record and a node -> compartment snapshot).
 */
module Compartments {

  /** A node's compartment. `D` is reserved: no transition ever assigns it. */
  datatype State = S | I | R | D

  /** One entry of the time-series log: the day index and the four counts. */
  datatype DailyRecord = DailyRecord(day: nat, susceptible: nat, infected: nat, recovered: nat, dead: nat)

  /** One entry of the snapshot log: the day index and every node's compartment. */
  datatype NetworkSnapshot = NetworkSnapshot(day: nat, nodeStates: map<nat, State>)

  /** Number of nodes of `s` in compartment `c`: a scan over all nodes. */
  function Count(s: seq<State>, c: State): (n: nat)
    ensures n <= |s|
  {
    if s == [] then 0 else (if s[0] == c then 1 else 0) + Count(s[1..], c)
  }

  /** The four compartment counts of a population add up to its size. */
  lemma {:induction false} CountTotal(s: seq<State>)
    ensures Count(s, S) + Count(s, I) + Count(s, R) + Count(s, D) == |s|
  {
    if s != [] {
      CountTotal(s[1..]);
    }
  }

  /** A compartment that no node holds has count zero, and conversely. */
  lemma {:induction false} CountZero(s: seq<State>, c: State)
    ensures Count(s, c) == 0 <==> forall v :: 0 <= v < |s| ==> s[v] != c
  {
    if s != [] {
      CountZero(s[1..], c);
      assert forall v :: 1 <= v < |s| ==> s[v] == s[1..][v - 1];
    }
  }

  /** Overwriting one node changes the count of `c` by at most one, in the obvious direction. */
  lemma {:induction false} CountUpdate(s: seq<State>, x: nat, a: State, c: State)
    requires x < |s|
    ensures Count(s[x := a], c) + (if s[x] == c then 1 else 0) == Count(s, c) + (if a == c then 1 else 0)
  {
    if x > 0 {
      assert s[x := a][1..] == s[1..][x - 1 := a];
      CountUpdate(s[1..], x - 1, a, c);
    } else {
      assert s[x := a][1..] == s[1..];
    }
  }

  /** If every node in compartment `c` in `b` is also in `c` in `a`, then `b` has no more `c` nodes than `a`. */
  lemma {:induction false} CountMonotone(a: seq<State>, b: seq<State>, c: State)
    requires |a| == |b|
    requires forall v :: 0 <= v < |b| && b[v] == c ==> a[v] == c
    ensures Count(b, c) <= Count(a, c)
  {
    if b != [] {
      assert forall v :: 0 <= v < |b| - 1 && b[1..][v] == c ==> a[1..][v] == c by {
        forall v | 0 <= v < |b| - 1 && b[1..][v] == c ensures a[1..][v] == c {
          assert b[1..][v] == b[v + 1];
        }
      }
      CountMonotone(a[1..], b[1..], c);
    }
  }

  /** The day's count record (the tallies of the post-commit state). */
  function CountRecord(day: nat, s: seq<State>): (r: DailyRecord)
    ensures r.day == day
    ensures r.susceptible + r.infected + r.recovered + r.dead == |s|
    ensures r.dead == 0 <==> forall v :: 0 <= v < |s| ==> s[v] != D
  {
    CountTotal(s);
    CountZero(s, D);
    DailyRecord(day, Count(s, S), Count(s, I), Count(s, R), Count(s, D))
  }

  /** The node -> compartment mapping of the day, covering every node. */
  function Snapshot(s: seq<State>): (m: map<nat, State>)
    ensures forall v: nat :: v in m <==> v < |s|
    ensures forall v :: 0 <= v < |s| ==> m[v] == s[v]
  {
    map v: nat | v < |s| :: s[v]
  }
}

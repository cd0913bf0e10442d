/** Finite automata as graphs: in-degrees, paths, cycles and layerings.

State 0 is the start state; transitions[s] lists the transitions leaving s. A
transition carries every label from min to max.
*/
module AutomatonGraph {

  datatype Transition = Transition(min: int, max: int, dest: nat)

  datatype Automaton = Automaton(transitions: seq<seq<Transition>>, accept: set<nat>) {
    function NumStates(): nat {
      |transitions|
    }

    /** What the automaton's own AddTransition guarantees. */
    ghost predicate WellFormed() {
      forall s, i {:trigger transitions[s][i]} ::
        0 <= s < |transitions| && 0 <= i < |transitions[s]| ==> transitions[s][i].dest < |transitions|
    }
  }

  ghost predicate HasEdge(a: Automaton, u: nat, v: nat) {
    u < a.NumStates() && v < a.NumStates() && CountTo(a.transitions[u], v) > 0
  }

  /** How many of the transitions lead to a state. */
  function CountTo(ts: seq<Transition>, v: nat): nat {
    if ts == [] then 0 else (if ts[0].dest == v then 1 else 0) + CountTo(ts[1..], v)
  }

  lemma {:induction false} CountToPositive(ts: seq<Transition>, v: nat)
    ensures CountTo(ts, v) > 0 <==> exists i :: 0 <= i < |ts| && ts[i].dest == v
  {
    if ts != [] {
      CountToPositive(ts[1..], v);
      if ts[0].dest != v && exists i :: 0 <= i < |ts| && ts[i].dest == v {
        var i :| 0 <= i < |ts| && ts[i].dest == v;
        assert ts[1..][i - 1] == ts[i];
      }
      if CountTo(ts[1..], v) > 0 {
        var i :| 0 <= i < |ts[1..]| && ts[1..][i].dest == v;
        assert ts[i + 1].dest == v;
      }
    }
  }

  /** The transitions into v that leave one of the first n states outside done. */
  ghost function Pending(a: Automaton, done: set<nat>, v: nat, n: nat): nat
    requires n <= a.NumStates()
  {
    if n == 0 then 0
    else Pending(a, done, v, n - 1) + if n - 1 in done then 0 else CountTo(a.transitions[n - 1], v)
  }

  ghost function InDegree(a: Automaton, v: nat): nat {
    Pending(a, {}, v, a.NumStates())
  }

  lemma {:induction false} PendingStep(a: Automaton, done: set<nat>, u: nat, v: nat, n: nat)
    requires n <= a.NumStates() && u !in done
    ensures Pending(a, done, v, n) ==
            Pending(a, done + {u}, v, n) + if u < n then CountTo(a.transitions[u], v) else 0
  {
    if n > 0 {
      PendingStep(a, done, u, v, n - 1);
    }
  }

  /** Nothing is pending exactly when every predecessor is done. */
  lemma {:induction false} PendingZero(a: Automaton, done: set<nat>, v: nat, n: nat)
    requires n <= a.NumStates() && v < a.NumStates()
    ensures Pending(a, done, v, n) == 0 <==> forall u :: 0 <= u < n && HasEdge(a, u, v) ==> u in done
  {
    if n > 0 {
      PendingZero(a, done, v, n - 1);
      if Pending(a, done, v, n) == 0 {
        forall u | 0 <= u < n && HasEdge(a, u, v)
          ensures u in done
        {
        }
      } else if Pending(a, done, v, n - 1) == 0 {
        assert HasEdge(a, n - 1, v);
      }
    }
  }

  /** A non-empty sequence of states joined by edges. */
  ghost predicate IsPath(a: Automaton, p: seq<nat>) {
    && p != []
    && (forall i {:trigger p[i]} :: 0 <= i < |p| ==> p[i] < a.NumStates())
    && forall i {:trigger p[i]} :: 0 <= i < |p| - 1 ==> HasEdge(a, p[i], p[i + 1])
  }

  ghost predicate IsCycle(a: Automaton, p: seq<nat>) {
    IsPath(a, p) && |p| >= 2 && p[0] == p[|p| - 1]
  }

  ghost predicate Acyclic(a: Automaton) {
    forall p :: !IsCycle(a, p)
  }

  ghost predicate IsPathFromStart(a: Automaton, p: seq<nat>, v: nat) {
    IsPath(a, p) && p[0] == 0 && p[|p| - 1] == v
  }

  ghost predicate Reachable(a: Automaton, v: nat) {
    exists p :: IsPathFromStart(a, p, v)
  }

  /** Every state with a transition of its own can be reached from the start. */
  ghost predicate SourcesReachable(a: Automaton) {
    forall u :: 0 <= u < a.NumStates() && a.transitions[u] != [] ==> Reachable(a, u)
  }

  /** The states the search numbered, with their layers: each edge between them
      goes forward, and each but the start has a predecessor one layer before. */
  ghost predicate Layering(a: Automaton, pos: map<nat, nat>) {
    && 0 in pos && pos[0] == 0
    && (forall v :: v in pos ==> v < a.NumStates())
    && (forall u, v :: HasEdge(a, u, v) && v in pos ==> u in pos && pos[u] < pos[v])
    && (forall v {:trigger HasParent(a, pos, v)} :: v in pos && v != 0 ==> HasParent(a, pos, v))
  }

  ghost predicate HasParent(a: Automaton, pos: map<nat, nat>, v: nat)
    requires v in pos
  {
    exists u :: u in pos && HasEdge(a, u, v) && pos[v] == pos[u] + 1
  }

  /** A layering that numbers both ends of every edge. */
  ghost predicate TotalLayering(a: Automaton, pos: map<nat, nat>) {
    Layering(a, pos) && forall u, v :: HasEdge(a, u, v) ==> u in pos && v in pos
  }

  lemma {:induction false} PathClimbs(a: Automaton, pos: map<nat, nat>, p: seq<nat>)
    requires Layering(a, pos) && IsPath(a, p) && p[|p| - 1] in pos
    ensures p[0] in pos && pos[p[0]] + |p| - 1 <= pos[p[|p| - 1]]
  {
    if |p| > 1 {
      var q := p[1..];
      assert forall i :: 0 <= i < |q| ==> q[i] == p[i + 1];
      PathClimbs(a, pos, q);
      assert HasEdge(a, p[0], p[1]);
    }
  }

  /** The layer of a state is the length of a longest path to it from the start. */
  lemma {:induction false} LayerIsLongestPath(a: Automaton, pos: map<nat, nat>, v: nat) returns (p: seq<nat>)
    requires a.NumStates() > 0 && Layering(a, pos) && v in pos
    ensures IsPathFromStart(a, p, v) && |p| - 1 == pos[v]
    ensures forall q :: IsPathFromStart(a, q, v) ==> |q| - 1 <= pos[v]
    decreases pos[v]
  {
    if v == 0 {
      p := [0];
    } else {
      assert HasParent(a, pos, v);
      var u :| u in pos && HasEdge(a, u, v) && pos[v] == pos[u] + 1;
      p := LayerIsLongestPath(a, pos, u);
      p := ExtendPath(a, p, u, v);
    }
    forall q | IsPathFromStart(a, q, v)
      ensures |q| - 1 <= pos[v]
    {
      PathClimbs(a, pos, q);
    }
  }

  lemma ExtendPath(a: Automaton, p: seq<nat>, u: nat, v: nat) returns (q: seq<nat>)
    requires IsPathFromStart(a, p, u) && HasEdge(a, u, v)
    ensures IsPathFromStart(a, q, v) && |q| == |p| + 1
  {
    q := p + [v];
    forall i | 0 <= i < |q| - 1
      ensures HasEdge(a, q[i], q[i + 1])
    {
      if i < |p| - 1 {
        assert HasEdge(a, p[i], p[i + 1]);
      }
    }
  }

  /** A layering of every edge rules out cycles and unreachable sources. */
  lemma TotalLayeringIsAcyclic(a: Automaton, pos: map<nat, nat>)
    requires a.WellFormed() && a.NumStates() > 0 && TotalLayering(a, pos)
    ensures Acyclic(a) && SourcesReachable(a)
  {
    forall p | IsCycle(a, p)
      ensures false
    {
      assert HasEdge(a, p[0], p[1]);
      PathClimbs(a, pos, p);
    }
    forall u | 0 <= u < a.NumStates() && a.transitions[u] != []
      ensures Reachable(a, u)
    {
      var t := a.transitions[u][0];
      CountToPositive(a.transitions[u], t.dest);
      assert HasEdge(a, u, t.dest);
      var p := LayerIsLongestPath(a, pos, u);
    }
  }

  /** The state a finished search leaves behind: a state it did not number is
      unreachable from outside the states it did not number. */
  ghost predicate Exhausted(a: Automaton, pos: map<nat, nat>) {
    Layering(a, pos) &&
    forall v {:trigger HasUnnumberedParent(a, pos, v)} ::
      0 <= v < a.NumStates() && v !in pos && InDegree(a, v) > 0 ==> HasUnnumberedParent(a, pos, v)
  }

  ghost predicate HasUnnumberedParent(a: Automaton, pos: map<nat, nat>, v: nat) {
    exists u :: HasEdge(a, u, v) && u !in pos
  }

  /** A state that is reachable and not numbered sits below a cycle: following
      unnumbered parents back from it runs into one. */
  lemma {:induction false} UnnumberedImpliesCycle(a: Automaton, pos: map<nat, nat>, p: seq<nat>)
    returns (cycle: seq<nat>, down: seq<nat>)
    requires a.WellFormed() && Exhausted(a, pos) && SourcesReachable(a)
    requires IsPath(a, p) && |p| >= 2 && |p| <= a.NumStates() + 1
    requires forall i {:trigger p[i]} :: 0 <= i < |p| - 1 ==> p[i] !in pos
    ensures IsCycle(a, cycle) && forall i :: 0 <= i < |cycle| ==> cycle[i] !in pos
    ensures IsPath(a, down) && down[0] == cycle[0] && down[|down| - 1] == p[|p| - 1]
    decreases a.NumStates() + 1 - |p|
  {
    hide Exhausted, SourcesReachable, IsCycle, IsPath;
    PathStarts(a, p);
    if |p| == a.NumStates() + 1 {
      var i, j := PigeonHole(p, a.NumStates());
      cycle, down := CycleOnPath(a, p, i, j);
      forall k | 0 <= k < |cycle|
        ensures cycle[k] !in pos
      {
        assert cycle[k] == p[if i + k == j then i else i + k];
      }
    } else {
      var v := p[0];
      ReachableHasParent(a, pos, v);
      var u :| HasEdge(a, u, v) && u !in pos;
      var q := [u] + p;
      PathFrom(a, u, p);
      assert forall i :: 0 < i < |q| ==> q[i] == p[i - 1];
      cycle, down := UnnumberedImpliesCycle(a, pos, q);
    }
  }

  lemma PathStarts(a: Automaton, p: seq<nat>)
    requires IsPath(a, p)
    ensures forall k :: 0 <= k < |p| ==> p[k] < a.NumStates()
    ensures |p| >= 2 ==> HasEdge(a, p[0], p[1])
  {
  }

  lemma PathFrom(a: Automaton, u: nat, p: seq<nat>)
    requires IsPath(a, p) && HasEdge(a, u, p[0])
    ensures IsPath(a, [u] + p)
  {
    var q := [u] + p;
    forall i | 0 <= i < |q| - 1
      ensures HasEdge(a, q[i], q[i + 1])
    {
      if i > 0 {
        assert HasEdge(a, p[i - 1], p[i - 1 + 1]);
      }
    }
  }

  lemma CycleOnPath(a: Automaton, p: seq<nat>, i: nat, j: nat) returns (cycle: seq<nat>, down: seq<nat>)
    requires IsPath(a, p) && i < j < |p| && p[i] == p[j]
    ensures cycle == p[i..j + 1] && IsCycle(a, cycle)
    ensures IsPath(a, down) && down[0] == cycle[0] && down[|down| - 1] == p[|p| - 1]
  {
    hide IsPath;
    cycle := PartOfPath(a, p, i, j);
    down := PartOfPath(a, p, i, |p| - 1);
  }

  lemma PartOfPath(a: Automaton, p: seq<nat>, i: nat, j: nat) returns (part: seq<nat>)
    requires IsPath(a, p) && i <= j < |p|
    ensures part == p[i..j + 1] && IsPath(a, part)
  {
    part := p[i..j + 1];
    forall k | 0 <= k < |part| - 1
      ensures HasEdge(a, part[k], part[k + 1])
    {
      assert HasEdge(a, p[i + k], p[i + k + 1]);
    }
  }

  lemma ReachableHasParent(a: Automaton, pos: map<nat, nat>, v: nat)
    requires a.WellFormed() && Exhausted(a, pos) && SourcesReachable(a)
    requires v < a.NumStates() && a.transitions[v] != [] && v !in pos
    ensures HasUnnumberedParent(a, pos, v)
  {
    var p :| IsPathFromStart(a, p, v);
    assert |p| >= 2;
    assert HasEdge(a, p[|p| - 2], p[|p| - 1]);
    PendingZero(a, {}, v, a.NumStates());
  }

  /** Among n + 1 numbers below n two are equal. */
  lemma {:induction false} PigeonHole(p: seq<nat>, n: nat) returns (i: nat, j: nat)
    requires n > 0 && |p| == n + 1 && forall k :: 0 <= k < |p| ==> p[k] < n
    ensures i < j < |p| && p[i] == p[j]
    decreases n
  {
    if n == 1 {
      return 0, 1;
    }
    if k :| 0 <= k < n && p[k] == p[n] {
      return k, n;
    }
    var m := n - 1;
    var q := seq(n, k requires 0 <= k < n => if p[k] == m then p[n] else p[k]);
    if k :| 0 <= k < n && p[k] == m {
      if l :| 0 <= l < n && l != k && p[l] == m {
        return if l < k then l else k, if l < k then k else l;
      }
    }
    i, j := PigeonHole(q, m);
  }

  // ---------- Where the documentation goes astray ----------

  /** Three states, and a transition that the start does not lead to. */
  function Detached(): Automaton {
    Automaton([[], [Transition(0, 0, 2)], []], {})
  }

  lemma DetachedEdge(u: nat, v: nat)
    ensures HasEdge(Detached(), u, v) <==> u == 1 && v == 2
  {
    if u < 3 {
      CountToPositive(Detached().transitions[u], v);
      assert Detached().transitions[1][0].dest == 2;
    }
  }

  lemma DetachedPath(p: seq<nat>)
    requires IsPath(Detached(), p)
    ensures |p| == 1 || p == [1, 2]
  {
    hide HasEdge;
    if |p| >= 2 {
      DetachedEdge(p[0], p[1]);
    }
    if |p| > 2 {
      DetachedEdge(p[1], p[2]);
    }
  }

  /** No cycle, but a source out of reach. */
  lemma DetachedIsAcyclic()
    ensures Detached().WellFormed() && InDegree(Detached(), 0) == 0
    ensures Acyclic(Detached()) && !SourcesReachable(Detached())
  {
    hide HasEdge, IsPath, Pending;
    forall p: seq<nat> | IsPath(Detached(), p)
      ensures |p| == 1 || p == [1, 2]
    {
      DetachedPath(p);
    }
    assert Detached().transitions[1] != [] && !Reachable(Detached(), 1);
    forall u: nat
      ensures !HasEdge(Detached(), u, 0)
    {
      DetachedEdge(u, 0);
    }
    PendingZero(Detached(), {}, 0, 3);
  }

  /** Three states, the last one behind the start and behind the middle one. */
  function Shortcut(): Automaton {
    Automaton([[Transition(0, 0, 1), Transition(1, 1, 2)], [Transition(0, 0, 2)], []], {2})
  }

  /** One edge leads from the start to state 2, but its layer is at least 2. */
  lemma LayerIsNotDistance(pos: map<nat, nat>)
    requires Layering(Shortcut(), pos) && 2 in pos
    ensures IsPathFromStart(Shortcut(), [0, 2], 2) && pos[2] >= 2
  {
    var a := Shortcut();
    CountToPositive(a.transitions[0], 1);
    CountToPositive(a.transitions[0], 2);
    CountToPositive(a.transitions[1], 2);
    assert a.transitions[0][0].dest == 1 && a.transitions[0][1].dest == 2;
    assert a.transitions[1][0].dest == 2;
    assert IsPathFromStart(a, [0, 1, 2], 2);
    var p := LayerIsLongestPath(a, pos, 2);
  }
}

/** The topological search of AutomatonToTokenStreamConvert: what its queue,
in-degree array and numbering keep true, one relaxed transition at a time.
*/
module LayeredSearch {
  import opened AutomatonGraph

  datatype RemapNode = RemapNode(id: nat, pos: nat)

  /** The array holds, for each state, its transitions not yet relaxed. */
  ghost predicate Degrees(a: Automaton, deg: seq<int>, done: set<nat>) {
    |deg| == a.NumStates() &&
    forall v :: 0 <= v < |deg| ==> deg[v] == Pending(a, done, v, |deg|)
  }

  /** The same while the transitions of cur, from the j-th on, are still to be relaxed. */
  ghost predicate DegreesAt(a: Automaton, deg: seq<int>, done: set<nat>, cur: nat, j: nat)
    requires cur < a.NumStates() && j <= |a.transitions[cur]|
  {
    |deg| == a.NumStates() &&
    forall v :: 0 <= v < |deg| ==>
      deg[v] == Pending(a, done, v, |deg|) + CountTo(a.transitions[cur][j..], v)
  }

  /** A state is numbered once its last incoming transition has been relaxed. */
  ghost predicate Numbered(a: Automaton, deg: seq<int>, pos: map<nat, nat>)
    requires |deg| == a.NumStates()
  {
    forall v :: 0 <= v < |deg| ==> (v in pos <==> v == 0 || (InDegree(a, v) > 0 && deg[v] == 0))
  }

  ghost predicate InQueue(queue: seq<RemapNode>, v: nat) {
    exists i :: 0 <= i < |queue| && queue[i].id == v
  }

  /** The queue holds the numbered states not yet done, each once, by increasing
      layer, from two adjacent layers that no finished state exceeds. */
  ghost predicate Waiting(queue: seq<RemapNode>, pos: map<nat, nat>, done: set<nat>, low: int, high: int) {
    && (forall i :: 0 <= i < |queue| ==>
          queue[i].id in pos && queue[i].id !in done && pos[queue[i].id] == queue[i].pos && low <= queue[i].pos <= high)
    && (forall i, j :: 0 <= i < j < |queue| ==> queue[i].id != queue[j].id && queue[i].pos <= queue[j].pos)
    && (forall v :: v in pos ==> v in done || InQueue(queue, v))
    && forall u :: u in done ==> u in pos && pos[u] <= low
  }

  /** The layers list the finished states, each once. */
  ghost predicate Listed(layers: seq<seq<nat>>, pos: map<nat, nat>, done: set<nat>) {
    && (forall u :: u in done ==> u in pos && pos[u] < |layers| && u in layers[pos[u]])
    && (forall l, i :: 0 <= l < |layers| && 0 <= i < |layers[l]| ==>
          layers[l][i] in done && layers[l][i] in pos && pos[layers[l][i]] == l)
    && (forall l :: 0 <= l < |layers| ==> layers[l] != [])
    && (forall l, i, j :: 0 <= l < |layers| && 0 <= i < j < |layers[l]| ==> layers[l][i] != layers[l][j])
  }

  lemma CountToDrop(ts: seq<Transition>, j: nat, v: nat)
    requires j < |ts|
    ensures CountTo(ts[j..], v) == CountTo(ts[j + 1..], v) + if ts[j].dest == v then 1 else 0
  {
    assert ts[j..][1..] == ts[j + 1..];
  }

  lemma {:induction false} CountToTake(ts: seq<Transition>, j: nat, v: nat)
    requires j < |ts|
    ensures CountTo(ts[..j + 1], v) == CountTo(ts[..j], v) + if ts[j].dest == v then 1 else 0
  {
    if j > 0 {
      CountToTake(ts[1..], j - 1, v);
      assert ts[..j + 1][1..] == ts[1..][..j];
      assert ts[..j][1..] == ts[1..][..j - 1];
    }
  }

  lemma BeginState(a: Automaton, deg: seq<int>, done: set<nat>, cur: nat)
    requires Degrees(a, deg, done) && cur < a.NumStates() && cur !in done
    ensures DegreesAt(a, deg, done + {cur}, cur, 0)
  {
    forall v | 0 <= v < |deg|
      ensures deg[v] == Pending(a, done + {cur}, v, |deg|) + CountTo(a.transitions[cur][0..], v)
    {
      PendingStep(a, done, cur, v, |deg|);
      assert a.transitions[cur][0..] == a.transitions[cur];
    }
  }

  lemma EndState(a: Automaton, deg: seq<int>, done: set<nat>, cur: nat)
    requires cur < a.NumStates() && DegreesAt(a, deg, done, cur, |a.transitions[cur]|)
    ensures Degrees(a, deg, done)
  {
    assert a.transitions[cur][|a.transitions[cur]|..] == [];
  }

  /** Relaxing a transition finds its target not numbered yet, and lowers its count. */
  lemma Relax(a: Automaton, deg: seq<int>, pos: map<nat, nat>, done: set<nat>, cur: nat, j: nat)
    requires a.WellFormed() && InDegree(a, 0) == 0
    requires cur < a.NumStates() && j < |a.transitions[cur]|
    requires DegreesAt(a, deg, done, cur, j) && Numbered(a, deg, pos)
    ensures |deg| == a.NumStates()
    ensures var v := a.transitions[cur][j].dest;
            v < |deg| && v != 0 && v !in pos && InDegree(a, v) > 0 && HasEdge(a, cur, v) &&
            DegreesAt(a, deg[v := deg[v] - 1], done, cur, j + 1)
  {
    var ts := a.transitions[cur];
    var v := ts[j].dest;
    var deg' := deg[v := deg[v] - 1];
    CountToPositive(ts, v);
    assert HasEdge(a, cur, v);
    PendingZero(a, {}, v, a.NumStates());
    CountToDrop(ts, j, v);
    forall w | 0 <= w < |deg'|
      ensures deg'[w] == Pending(a, done, w, |deg'|) + CountTo(ts[j + 1..], w)
    {
      CountToDrop(ts, j, w);
    }
  }

  /** A state whose last incoming transition came from cur goes one layer below it. */
  lemma NumberState(a: Automaton, deg: seq<int>, pos: map<nat, nat>, done: set<nat>, cur: nat, j: nat, v: nat)
    requires a.WellFormed() && Layering(a, pos)
    requires cur < a.NumStates() && j <= |a.transitions[cur]|
    requires DegreesAt(a, deg, done, cur, j)
    requires v < |deg| && v != 0 && v !in pos && deg[v] == 0 && HasEdge(a, cur, v)
    requires cur in done && cur in pos && forall u :: u in done ==> u in pos && pos[u] <= pos[cur]
    ensures Layering(a, pos[v := pos[cur] + 1])
  {
    var pos' := pos[v := pos[cur] + 1];
    PendingZero(a, done, v, |deg|);
    forall u: nat, w: nat | HasEdge(a, u, w) && w in pos'
      ensures u in pos' && pos'[u] < pos'[w]
    {
      if w == v {
        assert u in done;
      } else {
        assert u in pos && pos[u] < pos[w];
      }
    }
    forall w | w in pos' && w != 0
      ensures HasParent(a, pos', w)
    {
      if w == v {
        assert cur in pos' && pos'[w] == pos'[cur] + 1;
      } else {
        assert HasParent(a, pos, w);
        var u :| u in pos && HasEdge(a, u, w) && pos[w] == pos[u] + 1;
        assert u in pos' && pos'[w] == pos'[u] + 1;
      }
    }
  }

  lemma Enqueue(queue: seq<RemapNode>, pos: map<nat, nat>, done: set<nat>, low: nat, v: nat)
    requires Waiting(queue, pos, done, low, low + 1) && v !in pos
    ensures Waiting(queue + [RemapNode(v, low + 1)], pos[v := low + 1], done, low, low + 1)
  {
    var queue', pos' := queue + [RemapNode(v, low + 1)], pos[v := low + 1];
    forall w | w in pos'
      ensures w in done || InQueue(queue', w)
    {
      if w == v {
        assert queue'[|queue|].id == v;
      } else if w !in done {
        var i :| 0 <= i < |queue| && queue[i].id == w;
        assert queue'[i].id == w;
      }
    }
  }

  /** One relaxed transition keeps the whole search state. */
  lemma RelaxStep(a: Automaton, deg: seq<int>, pos: map<nat, nat>, done: set<nat>,
                  queue: seq<RemapNode>, cur: RemapNode, j: nat)
    requires a.WellFormed() && InDegree(a, 0) == 0 && Layering(a, pos)
    requires cur.id in done && cur.id in pos && pos[cur.id] == cur.pos
    requires cur.id < a.NumStates() == |deg| && j < |a.transitions[cur.id]|
    requires DegreesAt(a, deg, done, cur.id, j) && Numbered(a, deg, pos)
    requires Waiting(queue, pos, done, cur.pos, cur.pos + 1)
    ensures var d := a.transitions[cur.id][j].dest;
            && d < |deg| && d !in pos && d != cur.id
            && var deg' := deg[d := deg[d] - 1];
            && DegreesAt(a, deg', done, cur.id, j + 1)
            && if deg'[d] == 0 then
                 var pos' := pos[d := cur.pos + 1];
                 Layering(a, pos') && Numbered(a, deg', pos') &&
                 Waiting(queue + [RemapNode(d, cur.pos + 1)], pos', done, cur.pos, cur.pos + 1)
               else Numbered(a, deg', pos)
  {
    hide Layering, DegreesAt, Numbered, Waiting, Automaton.WellFormed, InDegree;
    Relax(a, deg, pos, done, cur.id, j);
    FinishedBounds(queue, pos, done, cur.pos, cur.pos + 1);
    var d := a.transitions[cur.id][j].dest;
    var deg' := deg[d := deg[d] - 1];
    if deg'[d] == 0 {
      NumberState(a, deg', pos, done, cur.id, j + 1, d);
      NumberedGrows(a, deg, pos, d, cur.pos + 1);
      Enqueue(queue, pos, done, cur.pos, d);
    } else {
      NumberedStays(a, deg, pos, d);
    }
  }

  lemma FinishedBounds(queue: seq<RemapNode>, pos: map<nat, nat>, done: set<nat>, low: nat, high: nat)
    requires Waiting(queue, pos, done, low, high)
    ensures forall u :: u in done ==> u in pos && pos[u] <= low
  {
  }

  lemma NumberedGrows(a: Automaton, deg: seq<int>, pos: map<nat, nat>, d: nat, layer: nat)
    requires d < |deg| == a.NumStates() && Numbered(a, deg, pos)
    requires d != 0 && deg[d] - 1 == 0 && InDegree(a, d) > 0
    ensures Numbered(a, deg[d := deg[d] - 1], pos[d := layer])
  {
  }

  lemma NumberedStays(a: Automaton, deg: seq<int>, pos: map<nat, nat>, d: nat)
    requires d < |deg| == a.NumStates() && Numbered(a, deg, pos)
    requires d !in pos && deg[d] - 1 != 0
    ensures Numbered(a, deg[d := deg[d] - 1], pos)
  {
  }

  lemma Dequeue(queue: seq<RemapNode>, pos: map<nat, nat>, done: set<nat>, n: nat)
    requires queue != [] && Waiting(queue, pos, done, n - 1, n)
    ensures var cur := queue[0];
            Waiting(queue[1..], pos, done + {cur.id}, cur.pos, cur.pos + 1)
  {
    var cur := queue[0];
    var queue' := queue[1..];
    assert forall i :: 0 <= i < |queue'| ==> queue'[i] == queue[i + 1];
    forall w | w in pos
      ensures w in done + {cur.id} || InQueue(queue', w)
    {
      if w !in done && w != cur.id {
        var i :| 0 <= i < |queue| && queue[i].id == w;
        assert queue'[i - 1].id == w;
      }
    }
  }

  /** A finished state goes into the layer of its number, which is the last one or
      a new one after it. */
  function ListState(layers: seq<seq<nat>>, cur: RemapNode): seq<seq<nat>>
    requires cur.pos <= |layers|
  {
    if |layers| == cur.pos then layers + [[cur.id]]
    else layers[cur.pos := layers[cur.pos] + [cur.id]]
  }

  lemma ListingKept(layers: seq<seq<nat>>, pos: map<nat, nat>, done: set<nat>, cur: RemapNode)
    requires Listed(layers, pos, done) && cur.id in pos && cur.id !in done && pos[cur.id] == cur.pos
    requires |layers| - 1 <= cur.pos <= |layers|
    ensures Listed(ListState(layers, cur), pos, done + {cur.id})
    ensures |ListState(layers, cur)| == cur.pos + 1
  {
    var layers' := ListState(layers, cur);
    forall u | u in done + {cur.id}
      ensures u in pos && pos[u] < |layers'| && u in layers'[pos[u]]
    {
      if u == cur.id {
        var l := layers'[cur.pos];
        assert l[|l| - 1] == u;
      } else if pos[u] == cur.pos < |layers| {
        assert u in layers[cur.pos];
      }
    }
    forall l, i | 0 <= l < |layers'| && 0 <= i < |layers'[l]|
      ensures layers'[l][i] in done + {cur.id} && layers'[l][i] in pos && pos[layers'[l][i]] == l
    {
      if l < |layers| && i < |layers[l]| {
        assert layers'[l][i] == layers[l][i];
      }
    }
    forall l, i, j | 0 <= l < |layers'| && 0 <= i < j < |layers'[l]|
      ensures layers'[l][i] != layers'[l][j]
    {
      if l < |layers| {
        assert layers'[l][i] == layers[l][i];
        assert j < |layers[l]| ==> layers'[l][j] == layers[l][j];
      }
    }
  }

  /** Growing the numbering keeps the listing. */
  lemma ListingExtends(layers: seq<seq<nat>>, pos: map<nat, nat>, done: set<nat>, pos': map<nat, nat>)
    requires Listed(layers, pos, done)
    requires forall u :: u in pos ==> u in pos' && pos'[u] == pos[u]
    ensures Listed(layers, pos', done)
  {
  }

  /** When the queue runs empty the search is exhausted, and its in-degree array is
      zero exactly when every edge joins numbered states. */
  lemma SearchEnds(a: Automaton, deg: seq<int>, pos: map<nat, nat>)
    requires a.WellFormed() && Layering(a, pos)
    requires Degrees(a, deg, pos.Keys) && Numbered(a, deg, pos)
    ensures Exhausted(a, pos)
    ensures (forall v :: 0 <= v < |deg| ==> deg[v] == 0) <==> TotalLayering(a, pos)
  {
    forall v | 0 <= v < a.NumStates() && v !in pos && InDegree(a, v) > 0
      ensures HasUnnumberedParent(a, pos, v)
    {
      PendingZero(a, pos.Keys, v, a.NumStates());
    }
    forall v | 0 <= v < |deg|
      ensures deg[v] == 0 <==> forall u :: 0 <= u < |deg| && HasEdge(a, u, v) ==> u in pos
    {
      PendingZero(a, pos.Keys, v, |deg|);
    }
    if forall v :: 0 <= v < |deg| ==> deg[v] == 0 {
      forall u: nat, v: nat | HasEdge(a, u, v)
        ensures u in pos && v in pos
      {
        assert deg[v] == 0 && u in pos;
        PendingZero(a, {}, v, a.NumStates());
        assert InDegree(a, v) > 0;
      }
    }
  }

  /** The search numbers every edge exactly when there is no cycle and every state
      with outgoing transitions is reachable. */
  lemma TotalExactlyWhen(a: Automaton, pos: map<nat, nat>)
    requires a.WellFormed() && a.NumStates() > 0 && Exhausted(a, pos)
    ensures TotalLayering(a, pos) <==> Acyclic(a) && SourcesReachable(a)
  {
    if TotalLayering(a, pos) {
      TotalLayeringIsAcyclic(a, pos);
    } else if Acyclic(a) && SourcesReachable(a) {
      var u, v :| HasEdge(a, u, v) && !(u in pos && v in pos);
      if u in pos {
        PendingZero(a, {}, v, a.NumStates());
        assert HasUnnumberedParent(a, pos, v);
        var u' :| HasEdge(a, u', v) && u' !in pos;
        var c, d := UnnumberedImpliesCycle(a, pos, [u', v]);
      } else {
        var c, d := UnnumberedImpliesCycle(a, pos, [u, v]);
      }
    }
  }
}

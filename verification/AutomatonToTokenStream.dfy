/** AutomatonToTokenStreamConvert: an automaton becomes layers of tokens, or is
rejected.
*/
module AutomatonToTokenStream {
  import opened Wrappers
  import opened AutomatonGraph
  import opened LayeredSearch
  import opened LayerOrder
  import opened TokenExpansion

  datatype ConvertError = StartHasIncomingEdges | CycleFound

  method InDegrees(a: Automaton) returns (indegree: array<int>)
    requires a.WellFormed()
    ensures fresh(indegree) && Degrees(a, indegree[..], {})
  {
    var n := a.NumStates();
    indegree := new int[n](_ => 0);
    for s := 0 to n
      invariant forall v :: 0 <= v < n ==> indegree[v] == Pending(a, {}, v, s)
    {
      var ts := a.transitions[s];
      for i := 0 to |ts|
        invariant forall v :: 0 <= v < n ==> indegree[v] == Pending(a, {}, v, s) + CountTo(ts[..i], v)
      {
        var d := ts[i].dest;
        forall v | 0 <= v < n
          ensures CountTo(ts[..i + 1], v) == CountTo(ts[..i], v) + if d == v then 1 else 0
        {
          CountToTake(ts, i, v);
        }
        indegree[d] := indegree[d] + 1;
      }
      assert ts[..|ts|] == ts;
    }
  }

  /** Relaxes every transition of a state taken from the queue. The ghost
      parameters are the array's contents, the numbering, the finished states, and the
      targets that the state's layer has named so far. */
  method RelaxState(a: Automaton, indegree: array<int>, cur: RemapNode, rest: seq<RemapNode>,
                    ghost deg: seq<int>, ghost pos: map<nat, nat>, ghost done: set<nat>, ghost named: seq<nat>)
    returns (queue: seq<RemapNode>, ghost deg': seq<int>, ghost pos': map<nat, nat>)
    requires a.WellFormed() && InDegree(a, 0) == 0 && Layering(a, pos)
    requires cur.id in done && cur.id in pos && pos[cur.id] == cur.pos
    requires cur.id < a.NumStates() == |deg| && indegree[..] == deg
    requires DegreesAt(a, deg, done, cur.id, 0) && Numbered(a, deg, pos)
    requires Waiting(rest, pos, done, cur.pos, cur.pos + 1)
    requires NamedInOrder(named, InLayer(rest, cur.pos + 1))
    modifies indegree
    ensures |deg'| == a.NumStates() && indegree[..] == deg'
    ensures Layering(a, pos') && Degrees(a, deg', done) && Numbered(a, deg', pos')
    ensures Waiting(queue, pos', done, cur.pos, cur.pos + 1)
    ensures forall u :: u in pos ==> u in pos' && pos'[u] == pos[u]
    ensures NamedInOrder(named + Targets(a.transitions[cur.id]), InLayer(queue, cur.pos + 1))
    ensures InLayer(queue, cur.pos) == InLayer(rest, cur.pos)
  {
    hide Layering, DegreesAt, Degrees, Numbered, Waiting, Automaton.WellFormed, InDegree;
    hide NamedInOrder, InLayer, Targets;
    queue, deg', pos' := rest, deg, pos;
    var ts := a.transitions[cur.id];
    NoTargets(ts, named);
    for j := 0 to |ts|
      invariant |deg'| == a.NumStates() && indegree[..] == deg'
      invariant Layering(a, pos') && DegreesAt(a, deg', done, cur.id, j) && Numbered(a, deg', pos')
      invariant Waiting(queue, pos', done, cur.pos, cur.pos + 1)
      invariant forall u :: u in pos ==> u in pos' && pos'[u] == pos[u]
      invariant NamedInOrder(named + Targets(ts[..j]), InLayer(queue, cur.pos + 1))
      invariant InLayer(queue, cur.pos) == InLayer(rest, cur.pos)
    {
      RelaxStep(a, deg', pos', done, queue, cur, j);
      RelaxOneOrder(named + Targets(ts[..j]), queue, pos', done, cur.pos, ts[j].dest);
      TargetsStep(ts, j, named);
      var d := ts[j].dest;
      indegree[d] := indegree[d] - 1;
      deg' := deg'[d := deg'[d] - 1];
      if indegree[d] == 0 {
        queue := queue + [RemapNode(d, cur.pos + 1)];
        pos' := pos'[d := cur.pos + 1];
      }
    }
    EndState(a, deg', done, cur.id);
    assert ts[..|ts|] == ts;
  }

  /** The breadth-first topological search. The layers list exactly the states it
      numbered; it numbers both ends of every edge exactly when the array ends zero. */
  method SortLayers(a: Automaton, indegree: array<int>)
    returns (layers: seq<seq<nat>>, idToPos: map<nat, nat>)
    requires a.WellFormed() && a.NumStates() > 0
    requires Degrees(a, indegree[..], {}) && InDegree(a, 0) == 0
    modifies indegree
    ensures Listed(layers, idToPos, idToPos.Keys) && InOrder(a, layers) && Exhausted(a, idToPos)
    ensures (forall v :: 0 <= v < indegree.Length ==> indegree[v] == 0) <==> TotalLayering(a, idToPos)
  {
    hide Layering, DegreesAt, Degrees, Numbered, Waiting, Listed, Exhausted, TotalLayering, NumberedBelow;
    hide Automaton.WellFormed, InDegree, InOrder, OrderKept, OrderTaken, NamedInOrder, NamedSoFar, InLayer, Targets;
    layers, idToPos := [], map[];
    var queue := [RemapNode(0, 0)];
    ghost var deg, pos: map<nat, nat>, done: set<nat> := indegree[..], map[0 := 0], {};
    StartSearch(a, deg);
    OrderStarts(a, queue);
    while queue != []
      invariant |deg| == a.NumStates() && indegree[..] == deg
      invariant Layering(a, pos) && Degrees(a, deg, done) && Numbered(a, deg, pos)
      invariant Waiting(queue, pos, done, |layers| - 1, |layers|)
      invariant Listed(layers, pos, done) && OrderKept(a, layers, queue)
      invariant done == idToPos.Keys && forall u :: u in done ==> u in pos && idToPos[u] == pos[u]
      invariant done <= NumberedBelow(a.NumStates())
      decreases NumberedBelow(a.NumStates()) - done
    {
      var cur := queue[0];
      TakeState(a, deg, queue, pos, done, layers);
      TakeKeepsOrder(a, layers, queue, pos, done);
      layers := if |layers| == cur.pos then layers + [[cur.id]]
                else layers[cur.pos := layers[cur.pos] + [cur.id]];
      done := done + {cur.id};
      ghost var before := pos;
      ghost var rest := queue[1..];
      TakenIsOrdered(a, layers, rest, cur);
      queue, deg, pos := RelaxState(a, indegree, cur, queue[1..], deg, pos, done, NamedSoFar(a, layers));
      RelaxKeepsOrder(a, layers, rest, queue, cur.id);
      ListingExtends(layers, before, done, pos);
      idToPos := idToPos[cur.id := cur.pos];
    }
    NothingWaits(pos, done, |layers|);
    assert pos == idToPos;
    SearchEnds(a, deg, idToPos);
    OrderEnds(a, layers);
  }

  ghost function NumberedBelow(n: nat): set<nat> {
    if n == 0 then {} else NumberedBelow(n - 1) + {n - 1}
  }

  lemma {:induction false} BelowHolds(n: nat, v: nat)
    ensures v in NumberedBelow(n) <==> v < n
  {
    if n > 0 {
      BelowHolds(n - 1, v);
    }
  }

  /** Taking the first state of the queue: it is new, and finishing it keeps the
      rest of the queue and the layers in order. */
  lemma TakeState(a: Automaton, deg: seq<int>, queue: seq<RemapNode>, pos: map<nat, nat>, done: set<nat>,
                  layers: seq<seq<nat>>)
    requires queue != [] && Waiting(queue, pos, done, |layers| - 1, |layers|)
    requires Layering(a, pos) && Degrees(a, deg, done) && Listed(layers, pos, done)
    ensures var cur := queue[0];
            && cur.id in pos && pos[cur.id] == cur.pos && cur.id !in done
            && cur.id < a.NumStates() && |layers| - 1 <= cur.pos <= |layers|
            && Waiting(queue[1..], pos, done + {cur.id}, cur.pos, cur.pos + 1)
            && DegreesAt(a, deg, done + {cur.id}, cur.id, 0)
            && Listed(ListState(layers, cur), pos, done + {cur.id})
            && |ListState(layers, cur)| == cur.pos + 1
            && cur.id in NumberedBelow(a.NumStates())
  {
    var cur := queue[0];
    Dequeue(queue, pos, done, |layers|);
    ListingKept(layers, pos, done, cur);
    BeginState(a, deg, done, cur.id);
    BelowHolds(a.NumStates(), cur.id);
  }

  lemma NothingWaits(pos: map<nat, nat>, done: set<nat>, high: nat)
    requires Waiting([], pos, done, high - 1, high)
    ensures pos.Keys == done
  {
  }

  lemma StartSearch(a: Automaton, deg: seq<int>)
    requires a.WellFormed() && a.NumStates() > 0
    requires Degrees(a, deg, {}) && InDegree(a, 0) == 0
    ensures |deg| == a.NumStates() && Layering(a, map[0 := 0]) && Numbered(a, deg, map[0 := 0])
    ensures Waiting([RemapNode(0, 0)], map[0 := 0], {}, -1, 0) && {} <= NumberedBelow(a.NumStates())
    ensures Listed([], map[0 := 0], {})
  {
    PendingZero(a, {}, 0, a.NumStates());
    assert [RemapNode(0, 0)][0].id == 0;
  }

  /** The tokens of every state of a layer, in order. */
  method ExpandLayer(a: Automaton, idToPos: map<nat, nat>, last: nat, layer: seq<nat>)
    returns (edges: seq<EdgeToken>)
    requires a.WellFormed()
    requires forall s :: s in layer ==> s < a.NumStates()
    ensures edges == Layered(a, idToPos, last).TokensOfStates(layer)
  {
    ghost var g := Layered(a, idToPos, last);
    edges := [];
    for n := 0 to |layer|
      invariant edges == g.TokensOfStates(layer[..n])
    {
      assert layer[..n + 1][..n] == layer[..n];
      assert layer[n] in layer && g.Leaving(layer[n]) == a.transitions[layer[n]];
      edges := ExpandState(a, idToPos, last, a.transitions[layer[n]], edges);
    }
    assert layer[..|layer|] == layer;
  }

  /** Appends the tokens of one state's transitions. */
  method ExpandState(a: Automaton, idToPos: map<nat, nat>, last: nat, ts: seq<Transition>, before: seq<EdgeToken>)
    returns (edges: seq<EdgeToken>)
    ensures edges == before + Layered(a, idToPos, last).TokensOfAll(ts)
  {
    ghost var g := Layered(a, idToPos, last);
    edges := before;
    for k := 0 to |ts|
      invariant edges == before + g.TokensOfAll(ts[..k])
    {
      assert ts[..k + 1][..k] == ts[..k];
      edges := ExpandTransition(a, idToPos, last, ts[k], edges);
      assert edges == before + (g.TokensOfAll(ts[..k]) + g.TokensOf(ts[k]));
    }
    assert ts[..|ts|] == ts;
  }

  /** Appends the tokens of one transition. */
  method ExpandTransition(a: Automaton, idToPos: map<nat, nat>, last: nat, t: Transition, before: seq<EdgeToken>)
    returns (edges: seq<EdgeToken>)
    ensures edges == before + Layered(a, idToPos, last).TokensOf(t)
  {
    ghost var g := Layered(a, idToPos, last);
    edges := before;
    var v := t.min;
    while v <= t.max
      invariant v == t.min || v <= t.max + 1
      invariant t.min <= v && edges == before + g.TokensBelow(t, v)
    {
      var destLayer := if t.dest in idToPos then idToPos[t.dest] else 0;
      edges := edges + [EdgeToken(destLayer, v)];
      if t.dest in a.accept && destLayer != last {
        edges := edges + [EdgeToken(last, v)];
      }
      v := v + 1;
    }
  }

  /** The conversion. It succeeds exactly on the automata with no edge into the start,
      no cycle, and every state with transitions reachable. The layers it returns are
      those of the ghost numbering: layer l holds the tokens of the states listed
      for l, each state once, in the order in which layer l - 1 names them last, and each
      of its transitions once. */
  method Convert(a: Automaton)
    returns (r: Result<seq<seq<EdgeToken>>, ConvertError>, ghost pos: map<nat, nat>, ghost listing: seq<seq<nat>>)
    requires a.WellFormed()
    ensures r.Ok? <==> a.NumStates() == 0 ||
                       (InDegree(a, 0) == 0 && Acyclic(a) && SourcesReachable(a))
    ensures r == Err(StartHasIncomingEdges) <==> a.NumStates() > 0 && InDegree(a, 0) > 0
    ensures a.NumStates() == 0 ==> r == Ok([])
    ensures r.Ok? && a.NumStates() > 0 ==>
              && TotalLayering(a, pos) && Tokenizes(a, pos, r.value) && Counted(a, pos, r.value)
              && Listed(listing, pos, pos.Keys) && InOrder(a, listing) && |listing| == |r.value|
              && forall l :: 0 <= l < |listing| ==>
                   r.value[l] == Layered(a, pos, |listing| - 1).TokensOfStates(listing[l])
  {
    hide InOrder, Listed, Tokenizes, Counted, Layering, Acyclic, SourcesReachable, Automaton.WellFormed;
    pos, listing := map[], [];
    var n := a.NumStates();
    if n == 0 {
      return Ok([]), pos, listing;
    }
    var indegree := InDegrees(a);
    if indegree[0] != 0 {
      return Err(StartHasIncomingEdges), pos, listing;
    }
    var positionNodes, idToPos := SortLayers(a, indegree);
    TotalExactlyWhen(a, idToPos);
    for v := 0 to n
      invariant forall w :: 0 <= w < v ==> indegree[w] == 0
    {
      if indegree[v] != 0 {
        return Err(CycleFound), pos, listing;
      }
    }
    var edgesByLayer := ExpandLayers(a, idToPos, positionNodes);
    return Ok(edgesByLayer), idToPos, positionNodes;
  }

  /** An automaton without a cycle that is reported to have one. */
  method ConvertDetached() returns (r: Result<seq<seq<EdgeToken>>, ConvertError>)
    ensures r == Err(CycleFound) && Acyclic(Detached())
  {
    DetachedIsAcyclic();
    ghost var pos, listing;
    r, pos, listing := Convert(Detached());
    assert Detached().NumStates() == 3;
    assert r.Err? && r.error != StartHasIncomingEdges;
  }

  method ExpandLayers(a: Automaton, idToPos: map<nat, nat>, positionNodes: seq<seq<nat>>)
    returns (edgesByLayer: seq<seq<EdgeToken>>)
    requires a.WellFormed() && Layering(a, idToPos) && Listed(positionNodes, idToPos, idToPos.Keys)
    ensures Tokenizes(a, idToPos, edgesByLayer) && Counted(a, idToPos, edgesByLayer)
    ensures |edgesByLayer| == |positionNodes|
    ensures forall l :: 0 <= l < |positionNodes| ==>
              edgesByLayer[l] == Layered(a, idToPos, |positionNodes| - 1).TokensOfStates(positionNodes[l])
  {
    hide Layering, Listed, Tokenizes, Counted, Automaton.WellFormed;
    ListedStates(a, idToPos, positionNodes);
    var last := |positionNodes| - 1;
    edgesByLayer := [];
    for l := 0 to |positionNodes|
      invariant |edgesByLayer| == l
      invariant forall k :: 0 <= k < l ==> Expanded(a, idToPos, positionNodes, edgesByLayer[k], k)
    {
      assert StatesKnown(a, positionNodes[l]);
      var edges := ExpandLayer(a, idToPos, last, positionNodes[l]);
      edgesByLayer := edgesByLayer + [edges];
    }
    ExpandedLayersTokenize(a, idToPos, positionNodes, edgesByLayer);
    ExpandedLayersCount(a, idToPos, positionNodes, edgesByLayer);
  }

  ghost predicate StatesKnown(a: Automaton, layer: seq<nat>) {
    forall s :: s in layer ==> s < a.NumStates()
  }

  ghost predicate Expanded(a: Automaton, pos: map<nat, nat>, positionNodes: seq<seq<nat>>, edges: seq<EdgeToken>, k: nat)
    requires k < |positionNodes|
  {
    StatesKnown(a, positionNodes[k]) &&
    edges == Layered(a, pos, |positionNodes| - 1).TokensOfStates(positionNodes[k])
  }

  lemma ListedStates(a: Automaton, pos: map<nat, nat>, positionNodes: seq<seq<nat>>)
    requires Layering(a, pos) && Listed(positionNodes, pos, pos.Keys)
    ensures positionNodes != []
    ensures forall k :: 0 <= k < |positionNodes| ==> StatesKnown(a, positionNodes[k])
  {
    assert 0 in pos.Keys;
    forall k, s | 0 <= k < |positionNodes| && s in positionNodes[k]
      ensures s < a.NumStates()
    {
      var i :| 0 <= i < |positionNodes[k]| && positionNodes[k][i] == s;
    }
  }

  lemma ExpandedLayersTokenize(a: Automaton, pos: map<nat, nat>, positionNodes: seq<seq<nat>>, layers: seq<seq<EdgeToken>>)
    requires Layering(a, pos) && Listed(positionNodes, pos, pos.Keys)
    requires |layers| == |positionNodes| > 0
    requires forall k :: 0 <= k < |layers| ==> Expanded(a, pos, positionNodes, layers[k], k)
    ensures Tokenizes(a, pos, layers)
  {
    forall l | 0 <= l < |layers|
      ensures Inhabited(pos, l)
    {
      var v := positionNodes[l][0];
      assert v in pos && pos[v] == l;
    }
    forall l, token | 0 <= l < |layers|
      ensures token in layers[l] <==> FromLayer(a, pos, |layers| - 1, l, token)
    {
      LayerHolds(a, pos, positionNodes, layers[l], l, token);
    }
    forall v | v in pos
      ensures pos[v] < |layers|
    {
      assert v in pos.Keys;
    }
  }

  lemma ExpandedLayersCount(a: Automaton, pos: map<nat, nat>, positionNodes: seq<seq<nat>>, layers: seq<seq<EdgeToken>>)
    requires Listed(positionNodes, pos, pos.Keys) && |layers| == |positionNodes| > 0
    requires forall k :: 0 <= k < |layers| ==> Expanded(a, pos, positionNodes, layers[k], k)
    ensures Counted(a, pos, layers)
  {
    hide Listed, Expanded, StatesAt;
    forall l, token | 0 <= l < |layers|
      ensures multiset(layers[l])[token] == |Layered(a, pos, |layers| - 1).Carriers(StatesAt(pos, l), token)|
    {
      LayerCounts(a, pos, positionNodes, layers[l], l, token);
    }
  }

  lemma LayerCounts(a: Automaton, pos: map<nat, nat>, positionNodes: seq<seq<nat>>, edges: seq<EdgeToken>, l: nat, token: EdgeToken)
    requires Listed(positionNodes, pos, pos.Keys) && l < |positionNodes|
    requires Expanded(a, pos, positionNodes, edges, l)
    ensures multiset(edges)[token] == |Layered(a, pos, |positionNodes| - 1).Carriers(StatesAt(pos, l), token)|
  {
    var g := Layered(a, pos, |positionNodes| - 1);
    var states := positionNodes[l];
    g.TokensOfStatesCounted(states, token);
    assert g.Members(states) == StatesAt(pos, l) by {
      forall s
        ensures s in states <==> s in pos && pos[s] == l
      {
        ListedExactly(pos, positionNodes, l, s);
      }
    }
  }

  lemma ListedExactly(pos: map<nat, nat>, positionNodes: seq<seq<nat>>, l: nat, s: nat)
    requires Listed(positionNodes, pos, pos.Keys) && l < |positionNodes|
    ensures s in positionNodes[l] <==> s in pos && pos[s] == l
  {
    if s in positionNodes[l] {
      var i :| 0 <= i < |positionNodes[l]| && positionNodes[l][i] == s;
    }
    if s in pos {
      assert s in pos.Keys;
    }
  }

  lemma LayerHolds(a: Automaton, pos: map<nat, nat>, positionNodes: seq<seq<nat>>, edges: seq<EdgeToken>, l: nat, token: EdgeToken)
    requires Layering(a, pos) && Listed(positionNodes, pos, pos.Keys) && l < |positionNodes|
    requires Expanded(a, pos, positionNodes, edges, l)
    ensures token in edges <==> FromLayer(a, pos, |positionNodes| - 1, l, token)
  {
    var g := Layered(a, pos, |positionNodes| - 1);
    var states := positionNodes[l];
    g.TokensOfStatesExactly(states, token);
    if token in edges {
      var s :| s in states && g.StateCarries(s, token);
      var i :| 0 <= i < |states| && states[i] == s;
    }
    if FromLayer(a, pos, |positionNodes| - 1, l, token) {
      var s :| s in pos && pos[s] == l && g.StateCarries(s, token);
      assert s in pos.Keys && s in states;
    }
  }
}

/** The order of the states in a layer: that in which the search relaxes their last
incoming transitions.
*/
module LayerOrder {
  import opened AutomatonGraph
  import opened LayeredSearch

  /** The targets of a state's transitions, in order. */
  function Targets(ts: seq<Transition>): (targets: seq<nat>)
    ensures |targets| == |ts|
  {
    seq(|ts|, i requires 0 <= i < |ts| => ts[i].dest)
  }

  /** The targets of several states, one after the other. */
  function TargetsOf(a: Automaton, states: seq<nat>): seq<nat> {
    if states == [] then []
    else
      var s := states[|states| - 1];
      TargetsOf(a, states[..|states| - 1]) + if s < a.NumStates() then Targets(a.transitions[s]) else []
  }

  /** Behind its last mention v is followed by w. */
  ghost predicate NamedBefore(targets: seq<nat>, v: nat, w: nat) {
    exists m :: 0 <= m < |targets| && LastMention(targets, m, v) && w in targets[m + 1..]
  }

  ghost predicate LastMention(targets: seq<nat>, m: nat, v: nat)
    requires m < |targets|
  {
    targets[m] == v && v !in targets[m + 1..]
  }

  /** These states are among the targets, in the order of their last mentions. */
  ghost predicate NamedInOrder(targets: seq<nat>, states: seq<nat>) {
    && (forall i :: 0 <= i < |states| ==> states[i] in targets)
    && (forall i, j :: 0 <= i < j < |states| ==> NamedBefore(targets, states[i], states[j]))
  }

  /** Every layer lists its states in the order in which the layer before it names them
      last. */
  ghost predicate InOrder(a: Automaton, layers: seq<seq<nat>>) {
    forall l :: 0 < l < |layers| ==> NamedInOrder(TargetsOf(a, layers[l - 1]), layers[l])
  }

  /** The states of one layer in the queue. */
  function InLayer(queue: seq<RemapNode>, p: int): seq<nat> {
    if queue == [] then []
    else InLayer(queue[..|queue| - 1], p) + if queue[|queue| - 1].pos == p then [queue[|queue| - 1].id] else []
  }

  lemma InLayerAppend(queue: seq<RemapNode>, node: RemapNode, p: int)
    ensures InLayer(queue + [node], p) == InLayer(queue, p) + if node.pos == p then [node.id] else []
  {
    assert (queue + [node])[..|queue|] == queue;
  }

  lemma {:induction false} InLayerFirst(queue: seq<RemapNode>, p: int)
    requires queue != []
    ensures InLayer(queue, p) == (if queue[0].pos == p then [queue[0].id] else []) + InLayer(queue[1..], p)
  {
    var n := |queue| - 1;
    if n > 0 {
      InLayerFirst(queue[..n], p);
      assert queue[..n][1..] == queue[1..][..n - 1];
    } else {
      assert queue[..0] == [] && queue[1..] == [];
    }
  }

  lemma {:induction false} InLayerHolds(queue: seq<RemapNode>, p: int, v: nat)
    requires v in InLayer(queue, p)
    ensures exists i :: 0 <= i < |queue| && queue[i].id == v && queue[i].pos == p
  {
    var n := |queue| - 1;
    if v in InLayer(queue[..n], p) {
      InLayerHolds(queue[..n], p, v);
      var i :| 0 <= i < n && queue[..n][i].id == v && queue[..n][i].pos == p;
      assert queue[i] == queue[..n][i];
    }
  }

  /** A new target at the end disturbs no order, and comes last of all. */
  lemma NameOneMore(targets: seq<nat>, states: seq<nat>, d: nat)
    requires NamedInOrder(targets, states) && d !in states
    ensures NamedInOrder(targets + [d], states) && NamedInOrder(targets + [d], states + [d])
  {
    hide NamedBefore;
    forall i | 0 <= i < |states|
      ensures NamedBefore(targets + [d], states[i], d)
    {
      assert states[i] in states;
      var m := LastMentionOf(targets, states[i]);
      StaysBefore(targets, m, states[i], d, d);
    }
    forall i, j | 0 <= i < j < |states|
      ensures NamedBefore(targets + [d], states[i], states[j])
    {
      assert states[i] in states;
      var m := MentionBefore(targets, states[i], states[j]);
      StaysBefore(targets, m, states[i], states[j], d);
    }
  }

  lemma StaysBefore(targets: seq<nat>, m: nat, v: nat, w: nat, d: nat)
    requires m < |targets| && LastMention(targets, m, v) && v != d && (w == d || w in targets[m + 1..])
    ensures NamedBefore(targets + [d], v, w)
  {
    var all := targets + [d];
    assert all[m + 1..] == targets[m + 1..] + [d];
    assert LastMention(all, m, v);
  }

  lemma {:induction false} LastMentionOf(targets: seq<nat>, v: nat) returns (m: nat)
    requires v in targets
    ensures m < |targets| && LastMention(targets, m, v)
  {
    m := |targets| - 1;
    while targets[m] != v
      invariant m < |targets| && v !in targets[m + 1..]
      decreases m
    {
      assert targets[m..] == [targets[m]] + targets[m + 1..];
      assert targets == targets[..m] + targets[m..];
      m := m - 1;
    }
  }

  lemma MentionBefore(targets: seq<nat>, v: nat, w: nat) returns (m: nat)
    requires NamedBefore(targets, v, w)
    ensures m < |targets| && LastMention(targets, m, v) && w in targets[m + 1..]
  {
    m :| 0 <= m < |targets| && LastMention(targets, m, v) && w in targets[m + 1..];
  }

  // ---------- The search keeps the order ----------

  /** While the last layer is being listed: what of it is still in the queue follows in
      order, and so does what its relaxed transitions have put into the next layer. */
  ghost predicate OrderKept(a: Automaton, layers: seq<seq<nat>>, queue: seq<RemapNode>) {
    layers == [] ||
    var c := |layers| - 1;
    && (forall l :: 0 < l < c ==> NamedInOrder(TargetsOf(a, layers[l - 1]), layers[l]))
    && (c > 0 ==> NamedInOrder(TargetsOf(a, layers[c - 1]), layers[c] + InLayer(queue, c)))
    && NamedInOrder(TargetsOf(a, layers[c]), InLayer(queue, c + 1))
  }

  /** What the last layer names without its last state. */
  ghost function NamedSoFar(a: Automaton, layers: seq<seq<nat>>): seq<nat>
    requires layers != [] && layers[|layers| - 1] != []
  {
    var layer := layers[|layers| - 1];
    TargetsOf(a, layer[..|layer| - 1])
  }

  /** The same when the state taken is listed but not relaxed. */
  ghost predicate OrderTaken(a: Automaton, layers: seq<seq<nat>>, queue: seq<RemapNode>) {
    layers != [] && layers[|layers| - 1] != [] &&
    var c := |layers| - 1;
    && (forall l :: 0 < l < c ==> NamedInOrder(TargetsOf(a, layers[l - 1]), layers[l]))
    && (c > 0 ==> NamedInOrder(TargetsOf(a, layers[c - 1]), layers[c] + InLayer(queue, c)))
    && NamedInOrder(NamedSoFar(a, layers), InLayer(queue, c + 1))
  }

  lemma TakeKeepsOrder(a: Automaton, layers: seq<seq<nat>>, queue: seq<RemapNode>, pos: map<nat, nat>, done: set<nat>)
    requires OrderKept(a, layers, queue) && queue != []
    requires Waiting(queue, pos, done, |layers| - 1, |layers|)
    ensures |layers| - 1 <= queue[0].pos <= |layers|
    ensures OrderTaken(a, ListState(layers, queue[0]), queue[1..])
  {
    hide NamedInOrder, InLayer, TargetsOf;
    var cur, rest := queue[0], queue[1..];
    var layers', c := ListState(layers, cur), |layers| - 1;
    InLayerFirst(queue, cur.pos);
    InLayerFirst(queue, cur.pos + 1);
    if cur.pos == c {
      var old', new' := layers[c], layers'[c];
      assert new' + InLayer(rest, c) == old' + InLayer(queue, c);
      assert new'[..|new'| - 1] == old';
      assert NamedSoFar(a, layers') == TargetsOf(a, layers[c]);
      assert InLayer(rest, c + 1) == InLayer(queue, c + 1);
      assert c > 0 ==> layers'[c - 1] == layers[c - 1];
    } else {
      assert layers'[c + 1] == [cur.id] && [cur.id][..0] == [];
      assert [cur.id] + InLayer(rest, c + 1) == InLayer(queue, c + 1);
      NothingInLayer(queue, pos, done, c);
      NothingAbove(rest, c + 2);
      NothingNamed(a);
      if c > 0 {
        assert layers[c] + [] == layers[c];
      }
    }
  }

  /** Behind a state of the higher layer the queue holds none of the lower one. */
  lemma NothingInLayer(queue: seq<RemapNode>, pos: map<nat, nat>, done: set<nat>, c: int)
    requires queue != [] && Waiting(queue, pos, done, c, c + 1) && queue[0].pos == c + 1
    ensures InLayer(queue, c) == [] && forall i :: 0 <= i < |queue[1..]| ==> queue[1..][i].pos != c + 2
  {
    if InLayer(queue, c) != [] {
      InLayerHolds(queue, c, InLayer(queue, c)[0]);
    }
  }

  lemma NothingAbove(queue: seq<RemapNode>, p: int)
    requires forall i :: 0 <= i < |queue| ==> queue[i].pos != p
    ensures InLayer(queue, p) == []
  {
    if InLayer(queue, p) != [] {
      InLayerHolds(queue, p, InLayer(queue, p)[0]);
    }
  }

  lemma NothingNamed(a: Automaton)
    ensures TargetsOf(a, []) == [] && NamedInOrder([], [])
  {
  }

  /** Relaxing the taken state completes what its layer names. */
  lemma RelaxKeepsOrder(a: Automaton, layers: seq<seq<nat>>, rest: seq<RemapNode>, queue: seq<RemapNode>, cur: nat)
    requires OrderTaken(a, layers, rest) && cur < a.NumStates()
    requires layers[|layers| - 1][|layers[|layers| - 1]| - 1] == cur
    requires InLayer(queue, |layers| - 1) == InLayer(rest, |layers| - 1)
    requires NamedInOrder(NamedSoFar(a, layers) + Targets(a.transitions[cur]), InLayer(queue, |layers|))
    ensures OrderKept(a, layers, queue)
  {
    hide NamedInOrder, InLayer, Targets;
  }

  lemma OrderEnds(a: Automaton, layers: seq<seq<nat>>)
    requires OrderKept(a, layers, [])
    ensures InOrder(a, layers)
  {
    hide NamedInOrder, TargetsOf;
    if |layers| > 1 {
      assert layers[|layers| - 1] + [] == layers[|layers| - 1];
    }
  }

  /** One relaxed transition: its target is new, and queued behind all others if at all. */
  lemma RelaxOneOrder(targets: seq<nat>, queue: seq<RemapNode>, pos: map<nat, nat>, done: set<nat>, low: nat, d: nat)
    requires NamedInOrder(targets, InLayer(queue, low + 1)) && d !in pos
    requires Waiting(queue, pos, done, low, low + 1)
    ensures NamedInOrder(targets + [d], InLayer(queue, low + 1))
    ensures NamedInOrder(targets + [d], InLayer(queue + [RemapNode(d, low + 1)], low + 1))
    ensures InLayer(queue + [RemapNode(d, low + 1)], low) == InLayer(queue, low)
  {
    hide NamedInOrder, InLayer;
    if d in InLayer(queue, low + 1) {
      InLayerHolds(queue, low + 1, d);
      assert false;
    }
    NameOneMore(targets, InLayer(queue, low + 1), d);
    InLayerAppend(queue, RemapNode(d, low + 1), low + 1);
    InLayerAppend(queue, RemapNode(d, low + 1), low);
  }

  lemma TargetsStep(ts: seq<Transition>, j: nat, named: seq<nat>)
    requires j < |ts|
    ensures named + Targets(ts[..j + 1]) == named + Targets(ts[..j]) + [ts[j].dest]
  {
  }

  lemma NoTargets(ts: seq<Transition>, named: seq<nat>)
    ensures named + Targets(ts[..0]) == named
  {
  }

  lemma OrderStarts(a: Automaton, queue: seq<RemapNode>)
    ensures OrderKept(a, [], queue)
  {
  }

  lemma TakenIsOrdered(a: Automaton, layers: seq<seq<nat>>, rest: seq<RemapNode>, cur: RemapNode)
    requires OrderTaken(a, layers, rest) && |layers| == cur.pos + 1
    ensures layers[|layers| - 1] != []
    ensures NamedInOrder(NamedSoFar(a, layers), InLayer(rest, cur.pos + 1))
  {
  }

  // ---------- The listing is determined ----------

  lemma NamedBeforeIsAsymmetric(targets: seq<nat>, v: nat, w: nat)
    ensures !(NamedBefore(targets, v, w) && NamedBefore(targets, w, v))
  {
  }

  lemma Irreflexive(targets: seq<nat>, v: nat)
    ensures !NamedBefore(targets, v, v)
  {
  }

  /** The order of the last mentions leaves no choice. */
  lemma {:induction false} OrderIsUnique(targets: seq<nat>, s: seq<nat>, t: seq<nat>)
    requires NamedInOrder(targets, s) && NamedInOrder(targets, t)
    requires forall v :: v in s <==> v in t
    ensures s == t
  {
    hide NamedBefore;
    assert (s != [] ==> s[0] in s) && (t != [] ==> t[0] in t);
    if s != [] {
      FirstIsSame(targets, s, t);
      TailsAgree(targets, s, t);
      OrderIsUnique(targets, s[1..], t[1..]);
      assert s == [s[0]] + s[1..] && t == [t[0]] + t[1..];
    }
  }

  lemma FirstIsSame(targets: seq<nat>, s: seq<nat>, t: seq<nat>)
    requires NamedInOrder(targets, s) && NamedInOrder(targets, t) && s != [] && t != []
    requires forall v :: v in s <==> v in t
    ensures s[0] == t[0]
  {
    hide NamedBefore;
    if s[0] != t[0] {
      assert s[0] in t && t[0] in s;
      var i :| 0 <= i < |t| && t[i] == s[0];
      var j :| 0 <= j < |s| && s[j] == t[0];
      NamedBeforeIsAsymmetric(targets, s[0], t[0]);
    }
  }

  lemma TailsAgree(targets: seq<nat>, s: seq<nat>, t: seq<nat>)
    requires NamedInOrder(targets, s) && NamedInOrder(targets, t) && s != [] && t != [] && s[0] == t[0]
    requires forall v :: v in s <==> v in t
    ensures NamedInOrder(targets, s[1..]) && NamedInOrder(targets, t[1..])
    ensures forall v :: v in s[1..] <==> v in t[1..]
  {
    hide NamedBefore;
    TailHolds(targets, s);
    TailHolds(targets, t);
  }

  lemma TailHolds(targets: seq<nat>, s: seq<nat>)
    requires NamedInOrder(targets, s) && s != []
    ensures NamedInOrder(targets, s[1..])
    ensures forall v :: v in s[1..] <==> v in s && v != s[0]
  {
    forall i | 0 < i < |s|
      ensures s[i] != s[0]
    {
      Irreflexive(targets, s[0]);
    }
    assert s == [s[0]] + s[1..];
  }

  lemma {:induction false} SameLayer(a: Automaton, pos: map<nat, nat>, x: seq<seq<nat>>, y: seq<seq<nat>>, l: nat)
    requires Layering(a, pos) && l < |x| && l < |y|
    requires Listed(x, pos, pos.Keys) && Listed(y, pos, pos.Keys) && InOrder(a, x) && InOrder(a, y)
    ensures x[l] == y[l]
  {
    hide NamedInOrder, Layering, Listed;
    if l == 0 {
      FirstLayer(a, pos, x);
      FirstLayer(a, pos, y);
    } else {
      SameLayer(a, pos, x, y, l - 1);
      SameStates(pos, x, y, l);
      OrderIsUnique(TargetsOf(a, x[l - 1]), x[l], y[l]);
    }
  }

  lemma FirstLayer(a: Automaton, pos: map<nat, nat>, layers: seq<seq<nat>>)
    requires Layering(a, pos) && Listed(layers, pos, pos.Keys) && layers != []
    ensures layers[0] == [0]
  {
    forall i | 0 <= i < |layers[0]|
      ensures layers[0][i] == 0
    {
      assert layers[0][i] in pos && pos[layers[0][i]] == 0;
      assert layers[0][i] == 0 || HasParent(a, pos, layers[0][i]);
    }
    assert layers[0][0] == layers[0][|layers[0]| - 1];
  }

  lemma NotLonger(pos: map<nat, nat>, x: seq<seq<nat>>, y: seq<seq<nat>>)
    requires Listed(x, pos, pos.Keys) && Listed(y, pos, pos.Keys)
    ensures |y| <= |x|
  {
    if y != [] {
      var v := y[|y| - 1][0];
      assert v in pos.Keys && pos[v] == |y| - 1;
    }
  }

  /** The automaton and the numbering determine the whole listing. */
  lemma ListingIsUnique(a: Automaton, pos: map<nat, nat>, x: seq<seq<nat>>, y: seq<seq<nat>>)
    requires Layering(a, pos) && Listed(x, pos, pos.Keys) && Listed(y, pos, pos.Keys)
    requires InOrder(a, x) && InOrder(a, y)
    ensures x == y
  {
    hide Layering, Listed, InOrder;
    NotLonger(pos, x, y);
    NotLonger(pos, y, x);
    forall l | 0 <= l < |x|
      ensures x[l] == y[l]
    {
      SameLayer(a, pos, x, y, l);
    }
  }

  lemma SameStates(pos: map<nat, nat>, x: seq<seq<nat>>, y: seq<seq<nat>>, l: nat)
    requires Listed(x, pos, pos.Keys) && Listed(y, pos, pos.Keys) && l < |x| && l < |y|
    ensures forall v :: v in x[l] <==> v in y[l]
  {
    forall v
      ensures v in x[l] <==> v in y[l]
    {
      StateListed(pos, x, l, v);
      StateListed(pos, y, l, v);
    }
  }

  lemma StateListed(pos: map<nat, nat>, layers: seq<seq<nat>>, l: nat, v: nat)
    requires Listed(layers, pos, pos.Keys) && l < |layers|
    ensures v in layers[l] <==> v in pos && pos[v] == l
  {
    if v in layers[l] {
      var i :| 0 <= i < |layers[l]| && layers[l][i] == v;
    }
    if v in pos {
      assert v in pos.Keys;
    }
  }
}

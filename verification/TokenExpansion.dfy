/** The tokens of a layered automaton: every transition becomes one token per label,
and a token into an accepting state above the last layer is doubled by one into
the last layer.
*/
module TokenExpansion {
  import opened AutomatonGraph

  /** One token: the layer it leads to and its single label. */
  datatype EdgeToken = EdgeToken(destination: nat, value: int)

  /** What the expansion of a state needs to know. */
  datatype Layered = Layered(a: Automaton, pos: map<nat, nat>, last: nat) {
    function Destination(t: Transition): nat {
      if t.dest in pos then pos[t.dest] else 0
    }

    /** The tokens of one label of a transition. */
    function TokensOfLabel(t: Transition, v: int): seq<EdgeToken> {
      [EdgeToken(Destination(t), v)] +
      if t.dest in a.accept && Destination(t) != last then [EdgeToken(last, v)] else []
    }

    /** The tokens of a transition's labels below v. */
    function TokensBelow(t: Transition, v: int): seq<EdgeToken>
      decreases v - t.min
    {
      if v <= t.min then [] else TokensBelow(t, v - 1) + TokensOfLabel(t, v - 1)
    }

    function TokensOf(t: Transition): seq<EdgeToken> {
      TokensBelow(t, t.max + 1)
    }

    function TokensOfAll(ts: seq<Transition>): seq<EdgeToken> {
      if ts == [] then [] else TokensOfAll(ts[..|ts| - 1]) + TokensOf(ts[|ts| - 1])
    }

    function Leaving(s: nat): seq<Transition> {
      if s < a.NumStates() then a.transitions[s] else []
    }

    function TokensOfStates(states: seq<nat>): seq<EdgeToken> {
      if states == [] then []
      else TokensOfStates(states[..|states| - 1]) + TokensOfAll(Leaving(states[|states| - 1]))
    }

    /** A transition carries a token's label to the token's layer. */
    predicate Carries(t: Transition, token: EdgeToken) {
      t.min <= token.value <= t.max &&
      (token.destination == Destination(t) ||
       (token.destination == last && t.dest in a.accept && Destination(t) != last))
    }

    ghost predicate StateCarries(s: nat, token: EdgeToken) {
      exists i :: 0 <= i < |Leaving(s)| && Carries(Leaving(s)[i], token)
    }

    lemma {:induction false} TokensBelowExactly(t: Transition, v: int, token: EdgeToken)
      requires v <= t.max + 1
      ensures token in TokensBelow(t, v) <==> token.value < v && Carries(t, token)
      decreases v - t.min
    {
      if v > t.min {
        TokensBelowExactly(t, v - 1, token);
      }
    }

    lemma {:induction false} TokensOfAllExactly(ts: seq<Transition>, token: EdgeToken)
      ensures token in TokensOfAll(ts) <==> exists i :: 0 <= i < |ts| && Carries(ts[i], token)
    {
      hide Carries, TokensOf;
      if ts != [] {
        var n := |ts| - 1;
        TokensOfAllExactly(ts[..n], token);
        TokensOfExactly(ts[n], token);
        if i :| 0 <= i < |ts| && Carries(ts[i], token) {
          assert i < n ==> ts[..n][i] == ts[i];
        }
        if i :| 0 <= i < n && Carries(ts[..n][i], token) {
          assert ts[i] == ts[..n][i];
        }
      }
    }

    lemma TokensOfExactly(t: Transition, token: EdgeToken)
      ensures token in TokensOf(t) <==> Carries(t, token)
    {
      if t.min <= t.max + 1 {
        TokensBelowExactly(t, t.max + 1, token);
      }
    }

    lemma {:induction false} TokensOfStatesExactly(states: seq<nat>, token: EdgeToken)
      ensures token in TokensOfStates(states) <==> exists s :: s in states && StateCarries(s, token)
    {
      hide StateCarries, Leaving;
      if states != [] {
        var n := |states| - 1;
        TokensOfStatesExactly(states[..n], token);
        StateCarriesExactly(states[n], token);
        if s :| s in states && StateCarries(s, token) {
          assert s in states[..n] || s == states[n];
        }
        if s :| s in states[..n] && StateCarries(s, token) {
          assert s in states;
        }
      }
    }

    // ---------- How often, and in what order ----------

    /** The labels of a transition that give two tokens: its target accepts and is
        not in the last layer. */
    predicate Doubled(t: Transition) {
      t.dest in a.accept && Destination(t) != last
    }

    lemma {:induction false} TokensBelowAt(t: Transition, v: int)
      requires t.min <= v
      ensures |TokensBelow(t, v)| == (if Doubled(t) then 2 * (v - t.min) else v - t.min)
      ensures forall k :: 0 <= k < |TokensBelow(t, v)| ==>
                TokensBelow(t, v)[k] ==
                (if Doubled(t) then EdgeToken(if k % 2 == 0 then Destination(t) else last, t.min + k / 2)
                 else EdgeToken(Destination(t), t.min + k))
      decreases v - t.min
    {
      if v > t.min {
        TokensBelowAt(t, v - 1);
      }
    }

    /** The tokens of a transition one by one: label after label, and each label of a
        transition into an accepting state above the last layer twice, first to the
        state's own layer and then to the last one. */
    lemma TokensOfAt(t: Transition, k: nat)
      requires k < |TokensOf(t)|
      ensures TokensOf(t)[k] == if Doubled(t) then EdgeToken(if k % 2 == 0 then Destination(t) else last, t.min + k / 2)
                                else EdgeToken(Destination(t), t.min + k)
    {
      TokensBelowAt(t, if t.min <= t.max + 1 then t.max + 1 else t.min);
    }

    /** One token a label, or two for a doubled one. */
    lemma TokensOfLength(t: Transition)
      ensures var labels := if t.min <= t.max then t.max - t.min + 1 else 0;
              |TokensOf(t)| == if t.dest in a.accept && Destination(t) != last then 2 * labels else labels
    {
      TokensBelowAt(t, if t.min <= t.max + 1 then t.max + 1 else t.min);
    }

    lemma {:induction false} TokensBelowOnce(t: Transition, v: int, token: EdgeToken)
      requires v <= t.max + 1
      ensures multiset(TokensBelow(t, v))[token] == if token.value < v && Carries(t, token) then 1 else 0
      decreases v - t.min
    {
      if v > t.min {
        TokensBelowOnce(t, v - 1, token);
        assert multiset(TokensBelow(t, v)) == multiset(TokensBelow(t, v - 1)) + multiset(TokensOfLabel(t, v - 1));
      }
    }

    /** A transition has each token it carries once. */
    lemma TokensOfOnce(t: Transition, token: EdgeToken)
      ensures multiset(TokensOf(t))[token] == if Carries(t, token) then 1 else 0
    {
      if t.min <= t.max + 1 {
        TokensBelowOnce(t, t.max + 1, token);
      }
    }

    /** The transitions, by state and place, that carry a token. */
    ghost function Carriers(states: set<nat>, token: EdgeToken): set<(nat, nat)> {
      set s, i | s in states && 0 <= i < |Leaving(s)| && Carries(Leaving(s)[i], token) :: (s, i)
    }

    ghost function Places(ts: seq<Transition>, token: EdgeToken): set<nat> {
      set i: nat | i < |ts| && Carries(ts[i], token)
    }

    lemma {:induction false} TokensOfAllCounted(ts: seq<Transition>, token: EdgeToken)
      ensures multiset(TokensOfAll(ts))[token] == |Places(ts, token)|
    {
      hide Carries, TokensOf;
      if ts != [] {
        var n := |ts| - 1;
        TokensOfAllCounted(ts[..n], token);
        TokensOfOnce(ts[n], token);
        assert multiset(TokensOfAll(ts)) == multiset(TokensOfAll(ts[..n])) + multiset(TokensOf(ts[n]));
        assert Places(ts, token) == Places(ts[..n], token) + if Carries(ts[n], token) then {n} else {};
      }
    }

    ghost function Paired(s: nat, places: set<nat>): set<(nat, nat)> {
      set i | i in places :: (s, i)
    }

    lemma {:induction false} PairedSize(s: nat, places: set<nat>)
      ensures |Paired(s, places)| == |places|
    {
      if places == {} {
        assert Paired(s, places) == {};
      } else {
        var p :| p in places;
        PairedSize(s, places - {p});
        assert (s, p) !in Paired(s, places - {p});
        assert Paired(s, places) == Paired(s, places - {p}) + {(s, p)};
      }
    }

    lemma CarriersOfOne(s: nat, token: EdgeToken)
      ensures |Carriers({s}, token)| == |Places(Leaving(s), token)|
    {
      assert Carriers({s}, token) == Paired(s, Places(Leaving(s), token));
      PairedSize(s, Places(Leaving(s), token));
    }

    ghost function Members(states: seq<nat>): set<nat> {
      set s | s in states
    }

    /** A token's multiplicity in a layer of distinct states is the number of their
        transitions that carry it. */
    lemma {:induction false} TokensOfStatesCounted(states: seq<nat>, token: EdgeToken)
      requires forall i, j :: 0 <= i < j < |states| ==> states[i] != states[j]
      ensures multiset(TokensOfStates(states))[token] == |Carriers(Members(states), token)|
    {
      hide Carries, TokensOfAll, Leaving, Carriers, Places;
      if states == [] {
        CarriersOfNone(token);
        assert Members(states) == {};
      } else {
        var n := |states| - 1;
        TokensOfStatesCounted(states[..n], token);
        TokensOfAllCounted(Leaving(states[n]), token);
        CarriersOfOne(states[n], token);
        TokensSplit(states, token);
        assert Members(states) == Members(states[..n]) + {states[n]};
        CarriersAdd(Members(states[..n]), states[n], token);
      }
    }

    lemma CarriersOfNone(token: EdgeToken)
      ensures Carriers({}, token) == {}
    {
    }

    lemma TokensSplit(states: seq<nat>, token: EdgeToken)
      requires states != []
      ensures multiset(TokensOfStates(states))[token] ==
              multiset(TokensOfStates(states[..|states| - 1]))[token] +
              multiset(TokensOfAll(Leaving(states[|states| - 1])))[token]
    {
      assert multiset(TokensOfStates(states)) ==
             multiset(TokensOfStates(states[..|states| - 1])) + multiset(TokensOfAll(Leaving(states[|states| - 1])));
    }

    lemma CarriersAdd(states: set<nat>, s: nat, token: EdgeToken)
      requires s !in states
      ensures |Carriers(states + {s}, token)| == |Carriers(states, token)| + |Carriers({s}, token)|
    {
      assert Carriers(states + {s}, token) == Carriers(states, token) + Carriers({s}, token);
      assert Carriers(states, token) !! Carriers({s}, token);
    }

    lemma TokensOfNone()
      ensures TokensOfAll([]) == [] && TokensOfStates([]) == []
    {
    }

    lemma TokensOfOneMore(ts: seq<Transition>, t: Transition)
      ensures TokensOfAll(ts + [t]) == TokensOfAll(ts) + TokensOf(t)
    {
      assert (ts + [t])[..|ts|] == ts;
    }

    lemma StatesOneMore(states: seq<nat>, s: nat)
      ensures TokensOfStates(states + [s]) == TokensOfStates(states) + TokensOfAll(Leaving(s))
    {
      assert (states + [s])[..|states|] == states;
    }

    /** The order of a layer: state after state, and transition after transition. */
    lemma {:induction false} TokensOfAllAppend(ts: seq<Transition>, us: seq<Transition>)
      ensures TokensOfAll(ts + us) == TokensOfAll(ts) + TokensOfAll(us)
    {
      hide TokensOf, TokensOfAll;
      if us == [] {
        assert ts + us == ts;
        TokensOfNone();
      } else {
        var n := |us| - 1;
        TokensOfAllAppend(ts, us[..n]);
        assert ts + us == (ts + us[..n]) + [us[n]];
        assert us == us[..n] + [us[n]];
        TokensOfOneMore(ts + us[..n], us[n]);
        TokensOfOneMore(us[..n], us[n]);
      }
    }

    lemma {:induction false} TokensInOrder(states: seq<nat>, others: seq<nat>)
      ensures TokensOfStates(states + others) == TokensOfStates(states) + TokensOfStates(others)
    {
      hide TokensOfStates, TokensOfAll, Leaving;
      if others == [] {
        assert states + others == states;
        TokensOfNone();
      } else {
        var n := |others| - 1;
        TokensInOrder(states, others[..n]);
        assert states + others == (states + others[..n]) + [others[n]];
        assert others == others[..n] + [others[n]];
        StatesOneMore(states + others[..n], others[n]);
        StatesOneMore(others[..n], others[n]);
      }
    }

    lemma TokensOfOneState(s: nat)
      requires s < a.NumStates()
      ensures TokensOfStates([s]) == TokensOfAll(a.transitions[s])
    {
      assert [s][..0] == [];
    }

    lemma TokensOfOneTransition(t: Transition)
      ensures TokensOfAll([t]) == TokensOf(t)
    {
      assert [t][..0] == [];
    }

    lemma StateCarriesExactly(s: nat, token: EdgeToken)
      ensures token in TokensOfAll(Leaving(s)) <==> StateCarries(s, token)
    {
      TokensOfAllExactly(Leaving(s), token);
    }
  }

  /** The layers of tokens that represent a layered automaton. */
  ghost predicate Tokenizes(a: Automaton, pos: map<nat, nat>, layers: seq<seq<EdgeToken>>) {
    && layers != []
    && (forall v :: v in pos ==> pos[v] < |layers|)
    && (forall l :: 0 <= l < |layers| ==> Inhabited(pos, l))
    && forall l, token :: 0 <= l < |layers| ==>
         (token in layers[l] <==> FromLayer(a, pos, |layers| - 1, l, token))
  }

  ghost predicate Inhabited(pos: map<nat, nat>, l: nat) {
    exists v :: v in pos && pos[v] == l
  }

  /** Some state of layer l has a transition that carries the token. */
  ghost predicate FromLayer(a: Automaton, pos: map<nat, nat>, last: nat, l: nat, token: EdgeToken) {
    exists s :: s in pos && pos[s] == l && Layered(a, pos, last).StateCarries(s, token)
  }

  /** Every token stands in its layer once for every transition of a state of that
      layer that carries it. */
  ghost predicate Counted(a: Automaton, pos: map<nat, nat>, layers: seq<seq<EdgeToken>>) {
    forall l, token :: 0 <= l < |layers| ==>
      multiset(layers[l])[token] == |Layered(a, pos, |layers| - 1).Carriers(StatesAt(pos, l), token)|
  }

  ghost function StatesAt(pos: map<nat, nat>, l: nat): set<nat> {
    set s | s in pos && pos[s] == l
  }

  lemma CarriedFrom(a: Automaton, pos: map<nat, nat>, last: nat, s: nat, i: nat, token: EdgeToken)
    requires s in pos && s < a.NumStates() && i < |a.transitions[s]|
    requires Layered(a, pos, last).Carries(a.transitions[s][i], token)
    ensures FromLayer(a, pos, last, pos[s], token)
  {
    var g := Layered(a, pos, last);
    assert g.Carries(g.Leaving(s)[i], token);
    assert g.StateCarries(s, token);
  }

  lemma CarrierIsEdge(a: Automaton, s: nat, i: nat)
    requires a.WellFormed() && s < a.NumStates() && i < |a.transitions[s]|
    ensures HasEdge(a, s, a.transitions[s][i].dest)
  {
    CountToPositive(a.transitions[s], a.transitions[s][i].dest);
  }

  /** Every token leads to a later layer. */
  lemma TokensGoForward(a: Automaton, pos: map<nat, nat>, layers: seq<seq<EdgeToken>>, l: nat, token: EdgeToken)
    requires a.WellFormed() && TotalLayering(a, pos) && Tokenizes(a, pos, layers)
    requires l < |layers| && token in layers[l]
    ensures l < token.destination < |layers|
  {
    var g := Layered(a, pos, |layers| - 1);
    assert FromLayer(a, pos, |layers| - 1, l, token);
    var s :| s in pos && pos[s] == l && g.StateCarries(s, token);
    var i :| 0 <= i < |a.transitions[s]| && g.Carries(a.transitions[s][i], token);
    CarrierIsEdge(a, s, i);
  }

  /** The last layer has no tokens; every other layer has some, provided every
      transition has a label. */
  lemma OnlyLastLayerIsEmpty(a: Automaton, pos: map<nat, nat>, layers: seq<seq<EdgeToken>>, l: nat)
    requires a.WellFormed() && TotalLayering(a, pos) && Tokenizes(a, pos, layers)
    requires forall s, i :: 0 <= s < a.NumStates() && 0 <= i < |a.transitions[s]| ==>
               a.transitions[s][i].min <= a.transitions[s][i].max
    requires l < |layers|
    ensures layers[l] == [] <==> l == |layers| - 1
  {
    if l == |layers| - 1 {
      if layers[l] != [] {
        TokensGoForward(a, pos, layers, l, layers[l][0]);
      }
    } else {
      var token := TokenIntoNextLayer(a, pos, layers, l);
    }
  }

  lemma TokenIntoNextLayer(a: Automaton, pos: map<nat, nat>, layers: seq<seq<EdgeToken>>, l: nat)
    returns (token: EdgeToken)
    requires TotalLayering(a, pos) && Tokenizes(a, pos, layers)
    requires forall s, i :: 0 <= s < a.NumStates() && 0 <= i < |a.transitions[s]| ==>
               a.transitions[s][i].min <= a.transitions[s][i].max
    requires l < |layers| - 1
    ensures token in layers[l]
  {
    hide FromLayer;
    assert Inhabited(pos, l + 1);
    var v :| v in pos && pos[v] == l + 1;
    assert HasParent(a, pos, v);
    var u :| u in pos && HasEdge(a, u, v) && pos[v] == pos[u] + 1;
    CountToPositive(a.transitions[u], v);
    var i :| 0 <= i < |a.transitions[u]| && a.transitions[u][i].dest == v;
    token := EdgeToken(l + 1, a.transitions[u][i].min);
    CarriedFrom(a, pos, |layers| - 1, u, i, token);
  }

  /** A run of the automaton on a word, from the start to an accepting state. */
  ghost predicate Accepts(a: Automaton, run: seq<nat>, word: seq<int>) {
    && |run| == |word| + 1 && run[0] == 0 && run[|word|] in a.accept
    && forall i :: 0 <= i < |word| ==> Steps(a, run[i], word[i], run[i + 1])
  }

  ghost predicate Steps(a: Automaton, s: nat, symbol: int, d: nat) {
    s < a.NumStates() &&
    exists i :: 0 <= i < |a.transitions[s]| && a.transitions[s][i].dest == d &&
                a.transitions[s][i].min <= symbol <= a.transitions[s][i].max
  }

  /** A path of tokens from the first layer to the last that spells a word. */
  ghost predicate SpelledBy(layers: seq<seq<EdgeToken>>, path: seq<nat>, word: seq<int>) {
    && |path| == |word| + 1 && path[0] == 0 && path[|word|] == |layers| - 1
    && forall i :: 0 <= i < |word| ==>
         path[i] < |layers| && EdgeToken(path[i + 1], word[i]) in layers[path[i]]
  }

  lemma StepHasToken(a: Automaton, pos: map<nat, nat>, layers: seq<seq<EdgeToken>>, s: nat, symbol: int, d: nat)
    requires a.WellFormed() && TotalLayering(a, pos) && Tokenizes(a, pos, layers) && Steps(a, s, symbol, d)
    ensures s in pos && d in pos && pos[s] < |layers|
    ensures EdgeToken(pos[d], symbol) in layers[pos[s]]
    ensures d in a.accept ==> EdgeToken(|layers| - 1, symbol) in layers[pos[s]]
  {
    var i :| 0 <= i < |a.transitions[s]| && a.transitions[s][i].dest == d &&
             a.transitions[s][i].min <= symbol <= a.transitions[s][i].max;
    CarrierIsEdge(a, s, i);
    CarriedFrom(a, pos, |layers| - 1, s, i, EdgeToken(pos[d], symbol));
    if d in a.accept {
      CarriedFrom(a, pos, |layers| - 1, s, i, EdgeToken(|layers| - 1, symbol));
    }
  }

  /** The token graph contains the language: every non-empty accepted word is spelled
      by a token path from layer 0 to the last layer. */
  lemma AcceptedWordsAreSpelled(a: Automaton, pos: map<nat, nat>, layers: seq<seq<EdgeToken>>,
                                run: seq<nat>, word: seq<int>) returns (path: seq<nat>)
    requires a.WellFormed() && TotalLayering(a, pos) && Tokenizes(a, pos, layers)
    requires Accepts(a, run, word) && word != []
    ensures SpelledBy(layers, path, word)
  {
    hide Tokenizes, TotalLayering, Automaton.WellFormed;
    StartIsFirst(a, pos, layers);
    var n := |word|;
    forall i | 0 <= i < n
      ensures StepIsSpelled(a, pos, layers, run, word, i)
    {
      StepHasToken(a, pos, layers, run[i], word[i], run[i + 1]);
    }
    path := LayersAlong(pos, run, n) + [|layers| - 1];
    forall i | 0 <= i < n
      ensures path[i] < |layers| && EdgeToken(path[i + 1], word[i]) in layers[path[i]]
    {
      assert StepIsSpelled(a, pos, layers, run, word, i);
      assert i + 1 < n ==> path[i + 1] == pos[run[i + 1]];
    }
    assert StepIsSpelled(a, pos, layers, run, word, 0);
  }

  lemma StartIsFirst(a: Automaton, pos: map<nat, nat>, layers: seq<seq<EdgeToken>>)
    requires TotalLayering(a, pos) && Tokenizes(a, pos, layers)
    ensures 0 in pos && pos[0] == 0 && layers != []
  {
  }

  ghost function LayersAlong(pos: map<nat, nat>, run: seq<nat>, n: nat): seq<nat>
    requires n <= |run|
  {
    seq(n, i requires 0 <= i < n => if run[i] in pos then pos[run[i]] else 0)
  }

  ghost predicate StepIsSpelled(a: Automaton, pos: map<nat, nat>, layers: seq<seq<EdgeToken>>,
                                run: seq<nat>, word: seq<int>, i: nat)
    requires |run| == |word| + 1 && i < |word|
  {
    && run[i] in pos && run[i + 1] in pos && pos[run[i]] < |layers|
    && EdgeToken(pos[run[i + 1]], word[i]) in layers[pos[run[i]]]
    && (run[i + 1] in a.accept ==> EdgeToken(|layers| - 1, word[i]) in layers[pos[run[i]]])
  }

  // ---------- When the token graph is exact ----------

  /** Layers of one state each, the last one accepting. */
  ghost predicate OneStateALayer(a: Automaton, pos: map<nat, nat>, last: nat) {
    && (forall u, v :: u in pos && v in pos && pos[u] == pos[v] ==> u == v)
    && (forall v :: v in pos && pos[v] == last ==> v in a.accept)
  }

  /** A token of such a layer is a step of its state. */
  lemma TokenIsStep(a: Automaton, pos: map<nat, nat>, layers: seq<seq<EdgeToken>>, l: nat, token: EdgeToken)
    returns (s: nat, d: nat)
    requires a.WellFormed() && TotalLayering(a, pos) && Tokenizes(a, pos, layers)
    requires OneStateALayer(a, pos, |layers| - 1) && l < |layers| && token in layers[l]
    ensures s in pos && pos[s] == l && d in pos && Steps(a, s, token.value, d)
    ensures token.destination == |layers| - 1 ==> d in a.accept
    ensures token.destination != |layers| - 1 ==> pos[d] == token.destination
  {
    var g := Layered(a, pos, |layers| - 1);
    assert FromLayer(a, pos, |layers| - 1, l, token);
    s :| s in pos && pos[s] == l && g.StateCarries(s, token);
    var i :| 0 <= i < |a.transitions[s]| && g.Carries(a.transitions[s][i], token);
    CarrierIsEdge(a, s, i);
    d := a.transitions[s][i].dest;
  }

  /** The states of a token path, one after the other. */
  lemma {:induction false} PathIsRun(a: Automaton, pos: map<nat, nat>, layers: seq<seq<EdgeToken>>,
                                     path: seq<nat>, word: seq<int>, start: nat) returns (run: seq<nat>)
    requires a.WellFormed() && TotalLayering(a, pos) && Tokenizes(a, pos, layers)
    requires OneStateALayer(a, pos, |layers| - 1) && word != []
    requires |path| == |word| + 1 && path[|word|] == |layers| - 1
    requires forall i :: 0 <= i < |word| ==> path[i] < |layers| && EdgeToken(path[i + 1], word[i]) in layers[path[i]]
    requires start in pos && pos[start] == path[0]
    ensures |run| == |word| + 1 && run[0] == start && run[|word|] in a.accept
    ensures forall i :: 0 <= i < |word| ==> Steps(a, run[i], word[i], run[i + 1])
  {
    hide Tokenizes, TotalLayering, Automaton.WellFormed, Steps;
    var s, d := TokenIsStep(a, pos, layers, path[0], EdgeToken(path[1], word[0]));
    if |word| == 1 {
      run := [start, d];
    } else {
      TokensGoForward(a, pos, layers, path[1], EdgeToken(path[2], word[1]));
      assert forall i :: 0 <= i < |word[1..]| ==> word[1..][i] == word[i + 1] && path[1..][i + 1] == path[i + 2];
      var rest := PathIsRun(a, pos, layers, path[1..], word[1..], d);
      run := [start] + rest;
      forall i | 0 <= i < |word|
        ensures Steps(a, run[i], word[i], run[i + 1])
      {
        if i > 0 {
          assert Steps(a, rest[i - 1], word[1..][i - 1], rest[i - 1 + 1]);
        }
      }
    }
  }

  /** With one state a layer and the last one accepting, the token graph spells exactly
      the non-empty words of the automaton. */
  lemma SpelledExactlyWhenAccepted(a: Automaton, pos: map<nat, nat>, layers: seq<seq<EdgeToken>>, word: seq<int>)
    requires a.WellFormed() && TotalLayering(a, pos) && Tokenizes(a, pos, layers)
    requires OneStateALayer(a, pos, |layers| - 1) && word != []
    ensures (exists path :: SpelledBy(layers, path, word)) <==> exists run :: Accepts(a, run, word)
  {
    hide Tokenizes, TotalLayering, Automaton.WellFormed, OneStateALayer;
    StartIsFirst(a, pos, layers);
    if path :| SpelledBy(layers, path, word) {
      var run := PathIsRun(a, pos, layers, path, word, 0);
      assert Accepts(a, run, word);
    }
    if run :| Accepts(a, run, word) {
      var path := AcceptedWordsAreSpelled(a, pos, layers, run, word);
    }
  }

  /** Two states in the middle layer. */
  function Diamond(): Automaton {
    Automaton([[Transition(0, 0, 1), Transition(1, 1, 2)], [Transition(2, 2, 3)], [Transition(3, 3, 3)], []], {3})
  }

  function DiamondLayers(): map<nat, nat> {
    map[0 := 0, 1 := 1, 2 := 1, 3 := 2]
  }

  /** In general the token graph spells more: tokens of a layer lose their states. */
  lemma SpellsTooMuch(layers: seq<seq<EdgeToken>>)
    requires Tokenizes(Diamond(), DiamondLayers(), layers)
    ensures SpelledBy(layers, [0, 1, 2], [0, 3])
    ensures forall run :: !Accepts(Diamond(), run, [0, 3])
  {
    var a, pos, last := Diamond(), DiamondLayers(), |layers| - 1;
    assert Inhabited(pos, last) && pos[3] < |layers|;
    CarriedFrom(a, pos, last, 0, 0, EdgeToken(1, 0));
    CarriedFrom(a, pos, last, 2, 0, EdgeToken(2, 3));
    assert SpelledBy(layers, [0, 1, 2], [0, 3]);
    forall run
      ensures !Accepts(a, run, [0, 3])
    {
      DiamondRejects(run);
    }
  }

  lemma DiamondRejects(run: seq<nat>)
    ensures !Accepts(Diamond(), run, [0, 3])
  {
    if |run| == 3 && run[0] == 0 {
      assert Steps(Diamond(), 0, 0, run[1]) ==> run[1] == 1;
      assert !Steps(Diamond(), 1, 3, run[2]);
      assert [0, 3][0] == 0 && [0, 3][1] == 3;
    }
  }

  /** The layers used are those of a numbering of every edge. */
  lemma DiamondIsLayered()
    ensures Diamond().WellFormed() && TotalLayering(Diamond(), DiamondLayers())
  {
    hide HasEdge, CountTo;
    var a, pos := Diamond(), DiamondLayers();
    forall u: nat, v: nat
      ensures HasEdge(a, u, v) <==> (u == 0 && (v == 1 || v == 2)) || ((u == 1 || u == 2) && v == 3)
    {
      DiamondEdge(u, v);
    }
    assert HasEdge(a, 0, 1) && HasEdge(a, 0, 2) && HasEdge(a, 1, 3);
    assert HasParent(a, pos, 1) && HasParent(a, pos, 2) && HasParent(a, pos, 3);
  }

  lemma DiamondEdge(u: nat, v: nat)
    ensures HasEdge(Diamond(), u, v) <==> (u == 0 && (v == 1 || v == 2)) || ((u == 1 || u == 2) && v == 3)
  {
    if u < 4 {
      var ts := Diamond().transitions;
      CountToPositive(ts[u], v);
      assert ts[0][0].dest == 1 && ts[0][1].dest == 2 && ts[1][0].dest == 3 && ts[2][0].dest == 3;
    }
  }
}

/** Reading the layers of tokens as a token stream. */
module AutomatonTokenStream {
  import opened Wrappers
  import opened AutomatonGraph
  import opened TokenExpansion

  /** What the reader sets for one token. */
  datatype StreamToken = StreamToken(term: int, increment: nat, length: int, startOffset: nat, endOffset: nat)

  type Layers = seq<seq<EdgeToken>>

  function TokenAt(layers: Layers, l: nat, i: nat): StreamToken
    requires l < |layers| && i < |layers[l]|
  {
    var edge := layers[l][i];
    StreamToken(edge.value, if i == 0 then 1 else 0, edge.destination - l, l, edge.destination)
  }

  /** The tokens still to come from a cursor. */
  function Remaining(layers: Layers, l: nat, i: nat): seq<StreamToken>
    requires l <= |layers| && (l < |layers| ==> i <= |layers[l]|)
    decreases |layers| - l, if l < |layers| then |layers[l]| - i else 0
  {
    if l == |layers| then []
    else if i == |layers[l]| then Remaining(layers, l + 1, 0)
    else [TokenAt(layers, l, i)] + Remaining(layers, l, i + 1)
  }

  function Increments(tokens: seq<StreamToken>): nat {
    if tokens == [] then 0 else tokens[0].increment + Increments(tokens[1..])
  }

  /** Layers as the conversion leaves them: tokens lead forward, and only the last
      layer is without tokens. */
  ghost predicate Forward(layers: Layers) {
    && (forall l, i :: 0 <= l < |layers| && 0 <= i < |layers[l]| ==> l < layers[l][i].destination < |layers|)
    && (forall l :: 0 <= l < |layers| ==> (layers[l] == [] <==> l == |layers| - 1))
  }

  lemma ConversionIsForward(a: Automaton, pos: map<nat, nat>, layers: Layers)
    requires a.WellFormed() && TotalLayering(a, pos) && Tokenizes(a, pos, layers)
    requires forall s, i :: 0 <= s < a.NumStates() && 0 <= i < |a.transitions[s]| ==>
               a.transitions[s][i].min <= a.transitions[s][i].max
    ensures Forward(layers)
  {
    forall l, i | 0 <= l < |layers| && 0 <= i < |layers[l]|
      ensures l < layers[l][i].destination < |layers|
    {
      TokensGoForward(a, pos, layers, l, layers[l][i]);
    }
    forall l | 0 <= l < |layers|
      ensures layers[l] == [] <==> l == |layers| - 1
    {
      OnlyLastLayerIsEmpty(a, pos, layers, l);
    }
  }

  /** The increments read so far add up to one more than the layer of the last
      token read, and every token spans at least one position. */
  lemma {:induction false} PositionsAreLayers(layers: Layers, l: nat, i: nat, k: nat)
    requires Forward(layers) && l < |layers| && i <= |layers[l]|
    requires k < |Remaining(layers, l, i)|
    ensures var tokens := Remaining(layers, l, i);
            && tokens[k].startOffset - (if i == 0 then l - 1 else l) == Increments(tokens[..k + 1])
            && tokens[k].length >= 1
            && tokens[k].startOffset + tokens[k].length == tokens[k].endOffset < |layers|
    decreases |layers| - l, |layers[l]| - i
  {
    hide Increments, Remaining, Forward;
    var tokens := Remaining(layers, l, i);
    ForwardAt(layers, l, i);
    RemainingStep(layers, l, i);
    if i == |layers[l]| {
      PositionsAreLayers(layers, l + 1, 0, k);
    } else {
      IncrementsStep(tokens, k);
      if k > 0 {
        PositionsAreLayers(layers, l, i + 1, k - 1);
      }
    }
  }

  lemma ForwardAt(layers: Layers, l: nat, i: nat)
    requires Forward(layers) && l < |layers|
    ensures i < |layers[l]| ==> l < layers[l][i].destination < |layers|
    ensures layers[l] == [] <==> l == |layers| - 1
  {
  }

  lemma RemainingStep(layers: Layers, l: nat, i: nat)
    requires Forward(layers) && l < |layers| && i <= |layers[l]| && Remaining(layers, l, i) != []
    ensures if i == |layers[l]| then l < |layers| - 1 && Remaining(layers, l, i) == Remaining(layers, l + 1, 0)
            else Remaining(layers, l, i)[0] == TokenAt(layers, l, i)
                 && Remaining(layers, l, i)[1..] == Remaining(layers, l, i + 1)
  {
  }

  lemma IncrementsStep(tokens: seq<StreamToken>, k: nat)
    requires k < |tokens|
    ensures Increments(tokens[..k + 1]) == tokens[0].increment + if k == 0 then 0 else Increments(tokens[1..][..k])
  {
    assert tokens[..k + 1][1..] == tokens[1..][..k];
  }

  /** The whole stream, from the start. */
  lemma StreamPositions(layers: Layers, k: nat)
    requires Forward(layers) && layers != [] && k < |Remaining(layers, 0, 0)|
    ensures var tokens := Remaining(layers, 0, 0);
            Increments(tokens[..k + 1]) - 1 == tokens[k].startOffset && tokens[k].length >= 1
  {
    PositionsAreLayers(layers, 0, 0, k);
  }

  // ---------- The whole stream, edge by edge ----------

  /** How many edges the layers before l have. */
  function EdgesBefore(layers: Layers, l: nat): nat
    requires l <= |layers|
  {
    if l == 0 then 0 else EdgesBefore(layers, l - 1) + |layers[l - 1]|
  }

  /** A token reads an edge of a layer: the edge's label, from its layer to its
      destination, over as many positions as lie between them; only the first edge of
      a layer moves on. */
  ghost predicate Reads(token: StreamToken, layers: Layers, l: nat, i: nat)
    requires l < |layers| && i < |layers[l]|
  {
    && token.term == layers[l][i].value
    && token.startOffset == l && token.endOffset == layers[l][i].destination
    && token.startOffset + token.length == token.endOffset
    && token.increment <= 1 && (token.increment == 1 <==> i == 0)
  }

  lemma {:induction false} RemainingRead(layers: Layers, l: nat, i: nat, m: nat, j: nat)
    requires l <= m < |layers| && j < |layers[m]| && i <= |layers[l]| && (l == m ==> i <= j)
    ensures var k := EdgesBefore(layers, m) + j - EdgesBefore(layers, l) - i;
            0 <= k < |Remaining(layers, l, i)| && Reads(Remaining(layers, l, i)[k], layers, m, j)
    decreases |layers| - l, |layers[l]| - i
  {
    if i == |layers[l]| {
      RemainingRead(layers, l + 1, 0, m, j);
    } else if l != m || i != j {
      RemainingRead(layers, l, i + 1, m, j);
    }
  }

  lemma EdgesThrough(layers: Layers, l: nat)
    requires l < |layers|
    ensures EdgesBefore(layers, l + 1) == EdgesBefore(layers, l) + |layers[l]|
  {
  }

  lemma {:induction false} RemainingSize(layers: Layers, l: nat, i: nat)
    requires l <= |layers| && (l < |layers| ==> i <= |layers[l]|) && (l == |layers| ==> i == 0)
    ensures |Remaining(layers, l, i)| == EdgesBefore(layers, |layers|) - EdgesBefore(layers, l) - i
    decreases |layers| - l, if l < |layers| then |layers[l]| - i else 0
  {
    hide EdgesBefore, TokenAt;
    if l < |layers| {
      if i == |layers[l]| {
        RemainingSize(layers, l + 1, 0);
        EdgesThrough(layers, l);
      } else {
        RemainingSize(layers, l, i + 1);
      }
    }
  }

  /** The stream reads the edges of the layers in order, each once: there are as many
      tokens as edges, and the token behind all edges of the layers before l and behind
      j edges of layer l is that of its edge j. */
  lemma StreamReadsEdges(layers: Layers, l: nat, j: nat)
    ensures |Remaining(layers, 0, 0)| == EdgesBefore(layers, |layers|)
    ensures l < |layers| && j < |layers[l]| ==>
              EdgesBefore(layers, l) + j < |Remaining(layers, 0, 0)| &&
              Reads(Remaining(layers, 0, 0)[EdgesBefore(layers, l) + j], layers, l, j)
  {
    RemainingSize(layers, 0, 0);
    if l < |layers| && j < |layers[l]| {
      RemainingRead(layers, 0, 0, l, j);
    }
  }

  /** Every token of the stream reads an edge, the one at its place. */
  lemma {:induction false} EdgeOfToken(layers: Layers, k: nat) returns (l: nat, j: nat)
    requires k < |Remaining(layers, 0, 0)|
    ensures l < |layers| && j < |layers[l]| && k == EdgesBefore(layers, l) + j
    ensures Reads(Remaining(layers, 0, 0)[k], layers, l, j)
  {
    StreamReadsEdges(layers, 0, 0);
    l := |layers|;
    while EdgesBefore(layers, l) > k
      invariant l <= |layers| && (l == |layers| || EdgesBefore(layers, l + 1) > k)
      invariant EdgesBefore(layers, |layers|) > k
      decreases l
    {
      l := l - 1;
    }
    j := k - EdgesBefore(layers, l);
    StreamReadsEdges(layers, l, j);
  }

  class AutomatonTokenStream {
    const edgesByPos: Layers
    var currentPos: nat
    var currentEdgeIndex: nat

    ghost predicate Valid()
      reads this
    {
      currentPos <= |edgesByPos| &&
      (currentPos < |edgesByPos| ==> currentEdgeIndex <= |edgesByPos[currentPos]|)
    }

    ghost function Rest(): seq<StreamToken>
      reads this
      requires Valid()
    {
      Remaining(edgesByPos, currentPos, currentEdgeIndex)
    }

    constructor (edges: Layers)
      ensures edgesByPos == edges && Valid() && Rest() == Remaining(edges, 0, 0)
    {
      edgesByPos := edges;
      currentPos, currentEdgeIndex := 0, 0;
    }

    method IncrementToken() returns (token: Option<StreamToken>)
      requires Valid()
      modifies this
      ensures Valid()
      ensures token == if old(Rest()) == [] then None else Some(old(Rest())[0])
      ensures Rest() == if old(Rest()) == [] then [] else old(Rest())[1..]
      ensures token.Some? ==> currentPos < |edgesByPos| && 0 < currentEdgeIndex <= |edgesByPos[currentPos]| &&
                              Reads(token.value, edgesByPos, currentPos, currentEdgeIndex - 1)
    {
      while currentPos < |edgesByPos| && currentEdgeIndex == |edgesByPos[currentPos]|
        invariant Valid() && Rest() == old(Rest())
        decreases |edgesByPos| - currentPos
      {
        currentEdgeIndex := 0;
        currentPos := currentPos + 1;
      }
      if currentPos == |edgesByPos| {
        return None;
      }
      var edge := edgesByPos[currentPos][currentEdgeIndex];
      token := Some(StreamToken(edge.value, if currentEdgeIndex == 0 then 1 else 0,
                                edge.destination - currentPos, currentPos, edge.destination));
      currentEdgeIndex := currentEdgeIndex + 1;
    }

    method Reset()
      requires Valid()
      modifies this
      ensures Valid() && Rest() == Remaining(edgesByPos, 0, 0)
    {
      currentPos, currentEdgeIndex := 0, 0;
    }
  }
}

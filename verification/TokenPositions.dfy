/** Token streams as consumers see them: terms at positions.

A stream holds no positions, only increments. The attribute refuses an increment
below zero.
*/
module TokenPositions {

  datatype Token = Token(term: string, increment: nat)

  datatype Placed = Placed(term: string, position: int)

  /** What a consumer sees who adds up increments. */
  function Place(tokens: seq<Token>, position: int): seq<Placed> {
    if tokens == [] then []
    else var here := position + tokens[0].increment;
         [Placed(tokens[0].term, here)] + Place(tokens[1..], here)
  }

  lemma PlaceStep(token: Token, rest: seq<Token>, position: int)
    ensures Place([token] + rest, position)
         == [Placed(token.term, position + token.increment)] + Place(rest, position + token.increment)
  {
    assert ([token] + rest)[1..] == rest;
  }

  lemma PlaceNothing(position: int)
    ensures Place([], position) == []
  {
  }

  function Total(tokens: seq<Token>): nat {
    if tokens == [] then 0 else tokens[0].increment + Total(tokens[1..])
  }

  lemma {:induction false} TotalAppend(a: seq<Token>, b: seq<Token>)
    ensures Total(a + b) == Total(a) + Total(b)
  {
    if a == [] {
      assert a + b == b;
    } else {
      assert (a + b)[1..] == a[1..] + b;
      TotalAppend(a[1..], b);
    }
  }

  lemma TotalParts(tokens: seq<Token>)
    ensures Total(tokens) == if tokens == [] then 0 else tokens[0].increment + Total(tokens[1..])
  {
  }

  // ---------- Plain sums ----------

  function Sum(increments: seq<nat>): nat {
    if increments == [] then 0 else increments[0] + Sum(increments[1..])
  }

  lemma {:induction false} SumAppend(a: seq<nat>, b: seq<nat>)
    ensures Sum(a + b) == Sum(a) + Sum(b)
    ensures |a| == 1 ==> Sum(a) == a[0]
  {
    if a == [] {
      assert a + b == b;
    } else {
      assert (a + b)[1..] == a[1..] + b;
      SumAppend(a[1..], b);
    }
  }

  lemma SumTake(increments: seq<nat>, k: nat)
    requires k < |increments|
    ensures Sum(increments[..k + 1]) == Sum(increments[..k]) + increments[k]
  {
    assert increments[..k + 1] == increments[..k] + [increments[k]];
    SumAppend(increments[..k], [increments[k]]);
    SumAppend([increments[k]], []);
  }

  function Increments(tokens: seq<Token>): (increments: seq<nat>)
    ensures |increments| == |tokens|
  {
    seq(|tokens|, i requires 0 <= i < |tokens| => tokens[i].increment)
  }

  /** The total of a stream is the sum of its increments. */
  lemma {:induction false} TotalIsSum(tokens: seq<Token>)
    ensures Total(tokens) == Sum(Increments(tokens))
  {
    if tokens != [] {
      assert Increments(tokens)[1..] == Increments(tokens[1..]);
      TotalIsSum(tokens[1..]);
    }
  }

  /** A consumer sees token k at the sum of the increments up to it. */
  lemma {:induction false} PlaceIsSum(tokens: seq<Token>, position: int, k: nat)
    requires k < |tokens|
    ensures |Place(tokens, position)| == |tokens|
    ensures Place(tokens, position)[k] == Placed(tokens[k].term, position + Sum(Increments(tokens)[..k + 1]))
  {
    var increments := Increments(tokens);
    assert increments[1..] == Increments(tokens[1..]);
    assert increments[..k + 1] == [increments[0]] + Increments(tokens[1..])[..k];
    SumAppend([increments[0]], Increments(tokens[1..])[..k]);
    if k > 0 {
      PlaceIsSum(tokens[1..], position + tokens[0].increment, k - 1);
    } else {
      PlaceSize(tokens, position);
    }
  }

  lemma {:induction false} PlaceSize(tokens: seq<Token>, position: int)
    ensures |Place(tokens, position)| == |tokens|
  {
    if tokens != [] {
      PlaceSize(tokens[1..], position + tokens[0].increment);
    }
  }
}

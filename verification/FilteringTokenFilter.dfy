/** FilteringTokenFilter: rejected tokens leave their positions behind. */
module Filtering {
  import opened TokenPositions

  /** The accepted tokens, each taking the increments skipped before it. */
  function Kept(tokens: seq<Token>, accepted: seq<bool>, skipped: nat): seq<Token>
    requires |tokens| == |accepted|
  {
    if tokens == [] then []
    else if accepted[0] then [tokens[0].(increment := tokens[0].increment + skipped)] + Kept(tokens[1..], accepted[1..], 0)
    else Kept(tokens[1..], accepted[1..], skipped + tokens[0].increment)
  }

  /** The increments skipped behind the last accepted token. */
  function Trailing(tokens: seq<Token>, accepted: seq<bool>, skipped: nat): nat
    requires |tokens| == |accepted|
  {
    if tokens == [] then skipped
    else Trailing(tokens[1..], accepted[1..], if accepted[0] then 0 else skipped + tokens[0].increment)
  }

  /** The accepted tokens where they stand in the input. */
  function Selected(tokens: seq<Token>, accepted: seq<bool>, position: int): seq<Placed>
    requires |tokens| == |accepted|
  {
    if tokens == [] then []
    else var here := position + tokens[0].increment;
         (if accepted[0] then [Placed(tokens[0].term, here)] else []) + Selected(tokens[1..], accepted[1..], here)
  }

  function CountAccepted(accepted: seq<bool>): nat {
    if accepted == [] then 0 else (if accepted[0] then 1 else 0) + CountAccepted(accepted[1..])
  }

  /** The accepted tokens and no others: token i, if accepted, comes behind as many as
      are accepted before it, and stands where a consumer of the input sees it. */
  lemma {:induction false} SelectedExactly(tokens: seq<Token>, accepted: seq<bool>, position: int, i: nat)
    requires |tokens| == |accepted|
    ensures |Selected(tokens, accepted, position)| == CountAccepted(accepted)
    ensures i < |tokens| && accepted[i] ==>
              var k := CountAccepted(accepted[..i]);
              k < CountAccepted(accepted) &&
              Selected(tokens, accepted, position)[k] ==
              Placed(tokens[i].term, position + Sum(Increments(tokens)[..i + 1]))
  {
    hide Sum, Increments, Selected, CountAccepted;
    if tokens == [] {
      NothingSelected(position);
    } else {
      var here := position + tokens[0].increment;
      SelectedStep(tokens, accepted, position);
      if 0 < i < |tokens| {
        SelectedExactly(tokens[1..], accepted[1..], here, i - 1);
        SumStep(tokens, i);
        CountStep(accepted, i);
      } else {
        SelectedExactly(tokens[1..], accepted[1..], here, |tokens|);
        if i == 0 {
          SumStep(tokens, 0);
          CountNone(accepted);
        }
      }
    }
  }

  lemma NothingSelected(position: int)
    ensures Selected([], [], position) == [] && CountAccepted([]) == 0
  {
  }

  lemma SelectedStep(tokens: seq<Token>, accepted: seq<bool>, position: int)
    requires |tokens| == |accepted| > 0
    ensures var here := position + tokens[0].increment;
            Selected(tokens, accepted, position)
            == (if accepted[0] then [Placed(tokens[0].term, here)] else []) + Selected(tokens[1..], accepted[1..], here)
    ensures CountAccepted(accepted) == (if accepted[0] then 1 else 0) + CountAccepted(accepted[1..])
  {
  }

  lemma CountStep(accepted: seq<bool>, i: nat)
    requires 0 < i <= |accepted|
    ensures CountAccepted(accepted[..i]) == (if accepted[0] then 1 else 0) + CountAccepted(accepted[1..][..i - 1])
  {
    assert accepted[..i][1..] == accepted[1..][..i - 1];
  }

  lemma CountNone(accepted: seq<bool>)
    ensures CountAccepted(accepted[..0]) == 0
  {
  }

  lemma SumStep(tokens: seq<Token>, i: nat)
    requires i < |tokens|
    ensures Sum(Increments(tokens)[..i + 1])
         == tokens[0].increment + if i == 0 then 0 else Sum(Increments(tokens[1..])[..i - 1 + 1])
  {
    assert Increments(tokens)[..i + 1] == [tokens[0].increment] + Increments(tokens[1..])[..i];
    SumAppend([tokens[0].increment], Increments(tokens[1..])[..i]);
  }

  lemma {:induction false} AcceptedKeepPositions(tokens: seq<Token>, accepted: seq<bool>, skipped: nat, position: int)
    requires |tokens| == |accepted|
    ensures Place(Kept(tokens, accepted, skipped), position) == Selected(tokens, accepted, position + skipped)
  {
    if tokens != [] {
      hide Place;
      var token := tokens[0].(increment := tokens[0].increment + skipped);
      if accepted[0] {
        PlaceStep(token, Kept(tokens[1..], accepted[1..], 0), position);
        AcceptedKeepPositions(tokens[1..], accepted[1..], 0, position + token.increment);
      } else {
        AcceptedKeepPositions(tokens[1..], accepted[1..], token.increment, position);
      }
    }
  }

  lemma {:induction false} PositionsAreConserved(tokens: seq<Token>, accepted: seq<bool>, skipped: nat)
    requires |tokens| == |accepted|
    ensures Total(Kept(tokens, accepted, skipped)) + Trailing(tokens, accepted, skipped) == skipped + Total(tokens)
  {
    if tokens != [] {
      var token := tokens[0].(increment := tokens[0].increment + skipped);
      PositionsAreConserved(tokens[1..], accepted[1..], if accepted[0] then 0 else token.increment);
      if accepted[0] {
        TotalAppend([token], Kept(tokens[1..], accepted[1..], 0));
      }
    }
  }

  /** The accept callback is modelled by its answers, one per token. */
  class FilteringTokenFilter {
    const input: seq<Token>
    const accepted: seq<bool>
    var read: nat
    var term: string
    var increment: nat
    var skippedPositions: nat

    ghost predicate Valid()
      reads this
    {
      read <= |input| == |accepted|
    }

    /** The output still to come, whatever was skipped by an earlier call. */
    ghost function Remaining(): seq<Token>
      requires Valid()
      reads this
    {
      Kept(input[read..], accepted[read..], 0)
    }

    constructor (input: seq<Token>, accepted: seq<bool>)
      requires |input| == |accepted|
      ensures Valid() && this.input == input && this.accepted == accepted
      ensures read == 0 && Remaining() == Kept(input, accepted, 0)
    {
      this.input, this.accepted := input, accepted;
      read, term, increment, skippedPositions := 0, "", 0, 0;
    }

    /** Reports the end with the trailing increments skipped by this call alone. */
    method IncrementToken() returns (ok: bool)
      requires Valid()
      modifies this
      ensures Valid() && (ok <==> old(Remaining()) != [])
      ensures ok ==> Token(term, increment) == old(Remaining())[0] && Remaining() == old(Remaining())[1..]
                     && Trailing(input[read..], accepted[read..], 0) == old(Trailing(input[read..], accepted[read..], 0))
      ensures !ok ==> read == |input| && skippedPositions == old(Trailing(input[read..], accepted[read..], 0))
    {
      skippedPositions := 0;
      while true
        invariant Valid() && Kept(input[read..], accepted[read..], skippedPositions) == old(Remaining())
        invariant Trailing(input[read..], accepted[read..], skippedPositions)
               == old(Trailing(input[read..], accepted[read..], 0))
        decreases |input| - read
      {
        if read == |input| {
          return false;
        }
        assert input[read..][1..] == input[read + 1..] && accepted[read..][1..] == accepted[read + 1..];
        term, increment := input[read].term, input[read].increment;
        read := read + 1;
        if accepted[read - 1] {
          if skippedPositions != 0 {
            increment := increment + skippedPositions;
          }
          return true;
        }
        skippedPositions := skippedPositions + increment;
      }
    }

    /** The source's own end comes first and sets the increment it ends with. */
    method End(sourceEnd: nat)
      requires Valid()
      modifies this`increment
      ensures Valid() && increment == sourceEnd + skippedPositions
    {
      increment := sourceEnd;
      increment := increment + skippedPositions;
    }

    method Reset()
      requires Valid()
      modifies this
      ensures Valid() && Remaining() == Kept(input, accepted, 0)
    {
      skippedPositions := 0;
      read := 0;
    }
  }

  /** A consumer reads to the end, asks again the given number of times, and calls End.
      The final position is that of the source only if it did not ask again. */
  method Consume(input: seq<Token>, accepted: seq<bool>, sourceEnd: nat, again: nat)
    returns (out: seq<Placed>, final: int)
    requires |input| == |accepted|
    ensures out == Selected(input, accepted, -1)
    ensures final == -1 + Total(input) + sourceEnd - if again == 0 then 0 else Trailing(input, accepted, 0)
  {
    hide Kept, Trailing, Place, Selected, Total;
    Starts(input, accepted);
    var filter := new FilteringTokenFilter(input, accepted);
    out, final := [], -1;
    ghost var left := filter.Remaining();
    var ok := filter.IncrementToken();
    while ok
      invariant filter.Valid() && fresh(filter) && filter.input == input && filter.accepted == accepted
      invariant left != [] <==> ok
      invariant ok ==> Token(filter.term, filter.increment) == left[0] && filter.Remaining() == left[1..]
      invariant ok ==> Trailing(input[filter.read..], accepted[filter.read..], 0) == Trailing(input, accepted, 0)
      invariant !ok ==> filter.read == |input| && filter.skippedPositions == Trailing(input, accepted, 0)
      invariant out + Place(left, final) == Selected(input, accepted, -1)
      invariant final + Total(left) + Trailing(input, accepted, 0) == -1 + Total(input)
      decreases |left|
    {
      TotalParts(left);
      PlaceStep(left[0], left[1..], final);
      assert left == [left[0]] + left[1..];
      final := final + filter.increment;
      out := out + [Placed(filter.term, final)];
      left := left[1..];
      ok := filter.IncrementToken();
    }
    PlaceNothing(final);
    TotalParts([]);
    for i := 0 to again
      invariant filter.Valid() && fresh(filter) && filter.input == input && filter.read == |input|
      invariant filter.accepted == accepted
      invariant filter.skippedPositions == if i == 0 then Trailing(input, accepted, 0) else 0
    {
      assert input[filter.read..] == [] && accepted[filter.read..] == [];
      AtEnd();
      ok := filter.IncrementToken();
    }
    filter.End(sourceEnd);
    final := final + filter.increment;
  }

  lemma Starts(input: seq<Token>, accepted: seq<bool>)
    requires |input| == |accepted|
    ensures Place(Kept(input, accepted, 0), -1) == Selected(input, accepted, -1)
    ensures Total(Kept(input, accepted, 0)) + Trailing(input, accepted, 0) == Total(input)
    ensures input[0..] == input && accepted[0..] == accepted
  {
    AcceptedKeepPositions(input, accepted, 0, -1);
    PositionsAreConserved(input, accepted, 0);
  }

  lemma AtEnd()
    ensures Kept([], [], 0) == [] && Trailing([], [], 0) == 0
  {
  }
}

/** RemoveDuplicatesTokenFilter: at each position every text goes out once. */
module RemoveDuplicates {
  import opened TokenPositions

  /** The position of token k; the first position is 0, and a stream that starts
      without an increment starts at -1. */
  function Position(input: seq<Token>, k: int): int
    requires -1 <= k < |input|
  {
    if k == -1 then -1 else Position(input, k - 1) + input[k].increment
  }

  /** Positions are sums of increments, from -1 on. */
  lemma {:induction false} PositionIsSum(input: seq<Token>, k: nat)
    requires k < |input|
    ensures Position(input, k) == -1 + Sum(Increments(input)[..k + 1])
  {
    SumTake(Increments(input), k);
    if k == 0 {
      assert Increments(input)[..0] == [];
    } else {
      PositionIsSum(input, k - 1);
    }
  }

  predicate SameToken(input: seq<Token>, j: nat, k: nat)
    requires j < |input| && k < |input|
  {
    input[j].term == input[k].term && Position(input, j) == Position(input, k)
  }

  predicate Duplicate(input: seq<Token>, k: nat)
    requires k < |input|
  {
    exists j :: 0 <= j < k && SameToken(input, j, k)
  }

  /** From token k on, the first occurrences, unchanged. */
  function Firsts(input: seq<Token>, k: nat): seq<Token>
    requires k <= |input|
    decreases |input| - k
  {
    if k == |input| then []
    else if Duplicate(input, k) then Firsts(input, k + 1)
    else [input[k]] + Firsts(input, k + 1)
  }

  function FirstsPlaced(input: seq<Token>, k: nat): seq<Placed>
    requires k <= |input|
    decreases |input| - k
  {
    if k == |input| then []
    else if Duplicate(input, k) then FirstsPlaced(input, k + 1)
    else [Placed(input[k].term, Position(input, k))] + FirstsPlaced(input, k + 1)
  }

  lemma {:induction false} PositionsGrow(input: seq<Token>, j: int, k: int)
    requires -1 <= j <= k < |input|
    ensures Position(input, j) <= Position(input, k)
  {
    if j < k {
      PositionsGrow(input, j, k - 1);
    }
  }

  /** A duplicate never carries an increment, so nothing is ever saved up. */
  lemma DuplicatesStand(input: seq<Token>, k: nat)
    requires k < |input| && Duplicate(input, k)
    ensures input[k].increment == 0
  {
    var j :| 0 <= j < k && SameToken(input, j, k);
    PositionsGrow(input, j, k - 1);
  }

  lemma FirstsStep(input: seq<Token>, k: nat)
    requires k < |input|
    ensures Firsts(input, k) == if Duplicate(input, k) then Firsts(input, k + 1) else [input[k]] + Firsts(input, k + 1)
    ensures FirstsPlaced(input, k) == if Duplicate(input, k) then FirstsPlaced(input, k + 1)
                                      else [Placed(input[k].term, Position(input, k))] + FirstsPlaced(input, k + 1)
    ensures Position(input, k) == Position(input, k - 1) + input[k].increment
  {
    hide Duplicate;
  }

  lemma FirstsEnd(input: seq<Token>)
    ensures Firsts(input, |input|) == [] && FirstsPlaced(input, |input|) == []
  {
  }

  /** What goes out keeps its place, though nothing is adjusted. */
  lemma {:induction false} FirstsKeepPositions(input: seq<Token>, k: nat)
    requires k <= |input|
    ensures Place(Firsts(input, k), Position(input, k - 1)) == FirstsPlaced(input, k)
    decreases |input| - k
  {
    hide Place, Duplicate, Firsts, FirstsPlaced, Position;
    if k == |input| {
      FirstsEnd(input);
      PlaceNothing(Position(input, k - 1));
    } else {
      FirstsStep(input, k);
      FirstsKeepPositions(input, k + 1);
      if Duplicate(input, k) {
        DuplicatesStand(input, k);
      } else {
        PlaceStep(input[k], Firsts(input, k + 1), Position(input, k - 1));
      }
    }
  }

  lemma {:induction false} FirstsArePlaced(input: seq<Token>, k: nat, p: Placed)
    requires k <= |input|
    ensures p in FirstsPlaced(input, k)
       <==> exists i :: k <= i < |input| && !Duplicate(input, i) && IsAt(input, i, p.position, p.term)
    decreases |input| - k
  {
    hide Duplicate, FirstsPlaced, Firsts, Position;
    if k == |input| {
      FirstsEnd(input);
    } else {
      FirstsStep(input, k);
      FirstsArePlaced(input, k + 1, p);
      if !Duplicate(input, k) {
        assert IsAt(input, k, p.position, p.term) <==> p == Placed(input[k].term, Position(input, k));
      }
    }
  }

  lemma {:induction false} FirstsAreDistinct(input: seq<Token>, k: nat)
    requires k <= |input|
    ensures forall a, b :: 0 <= a < b < |FirstsPlaced(input, k)| ==> FirstsPlaced(input, k)[a] != FirstsPlaced(input, k)[b]
    decreases |input| - k
  {
    if k < |input| {
      FirstsAreDistinct(input, k + 1);
      var p := Placed(input[k].term, Position(input, k));
      FirstsArePlaced(input, k + 1, p);
      forall i | k < i < |input| && IsAt(input, i, p.position, p.term)
        ensures Duplicate(input, i)
      {
        assert SameToken(input, k, i);
      }
    }
  }

  lemma {:induction false} FirstOccurrence(input: seq<Token>, i: nat)
    requires i < |input|
    ensures exists j :: 0 <= j <= i && SameToken(input, j, i) && !Duplicate(input, j)
  {
    if Duplicate(input, i) {
      var j :| 0 <= j < i && SameToken(input, j, i);
      FirstOccurrence(input, j);
      var m :| 0 <= m <= j && SameToken(input, m, j) && !Duplicate(input, m);
      assert SameToken(input, m, i);
    } else {
      assert SameToken(input, i, i);
    }
  }

  /** The output holds every pair of position and text of the input, and none twice. */
  lemma OutputIsTheSetOfTokens(input: seq<Token>)
    ensures forall p :: p in FirstsPlaced(input, 0) <==> exists i :: 0 <= i < |input| && IsAt(input, i, p.position, p.term)
    ensures forall a, b :: 0 <= a < b < |FirstsPlaced(input, 0)| ==> FirstsPlaced(input, 0)[a] != FirstsPlaced(input, 0)[b]
  {
    FirstsAreDistinct(input, 0);
    forall p
      ensures p in FirstsPlaced(input, 0) <==> exists i :: 0 <= i < |input| && IsAt(input, i, p.position, p.term)
    {
      FirstsArePlaced(input, 0, p);
      forall i | 0 <= i < |input| && IsAt(input, i, p.position, p.term)
        ensures p in FirstsPlaced(input, 0)
      {
        FirstOccurrence(input, i);
        var j :| 0 <= j <= i && SameToken(input, j, i) && !Duplicate(input, j);
        assert IsAt(input, j, p.position, p.term);
      }
    }
  }

  class RemoveDuplicatesTokenFilter {
    const input: seq<Token>
    var read: nat
    var term: string
    var increment: nat
    var seenTokens: set<string>
    var currentPosition: int
    var savedIncrement: nat
    var hasSavedIncrement: bool

    /** The texts seen are those at the current position, and nothing is saved up. */
    ghost predicate Valid()
      reads this
    {
      && read <= |input| && currentPosition == Position(input, read - 1) && savedIncrement == 0
      && seenTokens == TextsAt(input, read, currentPosition)
    }

    ghost function Remaining(): seq<Token>
      requires Valid()
      reads this
    {
      Firsts(input, read)
    }

    constructor (input: seq<Token>)
      ensures Valid() && this.input == input && Remaining() == Firsts(input, 0)
    {
      this.input := input;
      read, term, increment, seenTokens := 0, "", 0, {};
      currentPosition, savedIncrement, hasSavedIncrement := -1, 0, false;
    }

    /** Delivers the first occurrences one by one. */
    method IncrementToken() returns (ok: bool)
      requires Valid()
      modifies this
      ensures Valid() && (ok <==> old(Remaining()) != [])
      ensures ok ==> Token(term, increment) == old(Remaining())[0] && Remaining() == old(Remaining())[1..]
      ensures !ok ==> read == |input|
    {
      hide Firsts, TextsAt, Duplicate, Position;
      FirstsEnd(input);
      while true
        invariant Valid() && Remaining() == old(Remaining())
        decreases |input| - read
      {
        if read == |input| {
          return false;
        }
        var emitted := TakeToken();
        if emitted {
          return true;
        }
      }
    }

    /** Reads one token; a duplicate does not go out. */
    method TakeToken() returns (emitted: bool)
      requires Valid() && read < |input|
      modifies this
      ensures Valid() && read == old(read) + 1
      ensures old(Remaining()) == (if emitted then [Token(term, increment)] else []) + Remaining()
    {
      hide Firsts, TextsAt, Duplicate, Position;
      var tokenText, posIncr := input[read].term, input[read].increment;
      term, increment := tokenText, posIncr;
      TextsStep(input, read);
      SeenIsDuplicate(input, read);
      FirstsStep(input, read);
      read := read + 1;
      if posIncr > 0 {
        currentPosition := currentPosition + posIncr;
        seenTokens := {};
      }
      if tokenText in seenTokens {
        savedIncrement := savedIncrement + increment;
        hasSavedIncrement := true;
        return false;
      }
      seenTokens := seenTokens + {tokenText};
      if hasSavedIncrement {
        increment := increment + savedIncrement;
        savedIncrement := 0;
        hasSavedIncrement := false;
      }
      return true;
    }

    /** Nothing is remembered from an earlier reading. */
    ghost predicate Cleared()
      reads this
    {
      seenTokens == {} && currentPosition == -1 && savedIncrement == 0 && !hasSavedIncrement
    }

    method End()
      modifies this`seenTokens, this`currentPosition, this`savedIncrement, this`hasSavedIncrement
      ensures Cleared()
    {
      seenTokens, currentPosition, savedIncrement, hasSavedIncrement := {}, -1, 0, false;
    }

    /** Only the source starts again; what is remembered stays, so that End is needed
        before it for the same output to come. */
    method Reset()
      modifies this`read
      ensures old(Cleared()) ==> Valid() && Remaining() == Firsts(input, 0)
    {
      read := 0;
    }

    /** Reads to the end. */
    method ReadAll() returns (out: seq<Token>)
      requires Valid()
      modifies this
      ensures Valid() && read == |input| && out == old(Remaining())
    {
      hide Valid, Remaining;
      out := [];
      ghost var left := Remaining();
      while true
        invariant Valid() && left == Remaining() && out + left == old(Remaining())
        decreases |left|
      {
        var ok := IncrementToken();
        if !ok {
          return;
        }
        out := out + [Token(term, increment)];
        left := left[1..];
      }
    }
  }

  /** Read, ended and reset, the filter gives the same output again: the first
      occurrences. */
  method Replay(input: seq<Token>) returns (once: seq<Token>, again: seq<Token>)
    ensures once == Firsts(input, 0) && again == once
  {
    hide RemoveDuplicatesTokenFilter.Valid, RemoveDuplicatesTokenFilter.Remaining;
    var filter := new RemoveDuplicatesTokenFilter(input);
    once := filter.ReadAll();
    filter.End();
    filter.Reset();
    again := filter.ReadAll();
  }

  /** The texts at this position among the first n tokens. */
  ghost function TextsAt(input: seq<Token>, n: nat, position: int): set<string>
    requires n <= |input|
  {
    set j | 0 <= j < n && Position(input, j) == position :: input[j].term
  }

  /** A step on leaves the texts behind. */
  lemma TextsStep(input: seq<Token>, k: nat)
    requires k < |input|
    ensures TextsAt(input, k + 1, Position(input, k))
         == (if input[k].increment == 0 then TextsAt(input, k, Position(input, k - 1)) else {}) + {input[k].term}
  {
    forall j | 0 <= j < k
      ensures Position(input, j) == Position(input, k)
         <==> input[k].increment == 0 && Position(input, j) == Position(input, k - 1)
    {
      PositionsGrow(input, j, k - 1);
    }
  }

  lemma SeenIsDuplicate(input: seq<Token>, k: nat)
    requires k < |input|
    ensures Duplicate(input, k) <==> input[k].increment == 0 && input[k].term in TextsAt(input, k, Position(input, k - 1))
  {
    if Duplicate(input, k) {
      DuplicatesStand(input, k);
      var j :| 0 <= j < k && SameToken(input, j, k);
    }
    if input[k].increment == 0 && input[k].term in TextsAt(input, k, Position(input, k - 1)) {
      var j :| 0 <= j < k && Position(input, j) == Position(input, k - 1) && input[j].term == input[k].term;
      assert SameToken(input, j, k);
    }
  }

  predicate IsAt(input: seq<Token>, j: nat, position: int, text: string)
    requires j < |input|
  {
    input[j].term == text && Position(input, j) == position
  }
}

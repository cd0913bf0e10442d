/** FlattenGraphFilter: buffers a token graph and emits its tokens in a linear order
with rewritten position increments.

A source token is a record of its increment, its length and the attributes that
are copied through. sort.Slice is any sort: callers rely only on its order.
*/
module FlattenGraph {
  import opened Wrappers
  import opened TokenPositions

  datatype Attributes = Attributes(term: string, startOffset: int, endOffset: int, tokenType: string,
                                   payload: seq<int>, flags: int, isKeyword: bool)

  datatype InputToken = InputToken(attributes: Attributes, increment: nat, length: int)

  datatype OutputToken = OutputToken(attributes: Attributes, increment: int, length: int)

  /** A buffered token; only its place in the output is assigned later. */
  class FlattenTokenData {
    const attributes: Attributes
    const position: nat
    const positionLength: int
    const endPos: int
    var positionIncrement: int
    var outputOrder: nat

    constructor (attributes: Attributes, position: nat, positionLength: int)
      ensures this.attributes == attributes && this.position == position
      ensures this.positionLength == positionLength && endPos == position + positionLength
      ensures outputOrder == 0
    {
      this.attributes, this.position, this.positionLength := attributes, position, positionLength;
      endPos := position + positionLength;
      positionIncrement, outputOrder := 0, 0;
    }
  }

  type Tokens = seq<FlattenTokenData>

  /** The absolute position of input token i: the sum of the increments up to it. */
  function AbsolutePosition(input: seq<InputToken>, i: nat): nat
    requires i < |input|
  {
    input[i].increment + if i == 0 then 0 else AbsolutePosition(input, i - 1)
  }

  lemma {:induction false} AbsolutePositionGrows(input: seq<InputToken>, i: nat, j: nat)
    requires i <= j < |input|
    ensures AbsolutePosition(input, i) <= AbsolutePosition(input, j)
  {
    if i < j {
      AbsolutePositionGrows(input, i, j - 1);
    }
  }

  function IncrementsOf(input: seq<InputToken>): (increments: seq<nat>)
    ensures |increments| == |input|
  {
    seq(|input|, i requires 0 <= i < |input| => input[i].increment)
  }

  lemma {:induction false} PositionIsSum(input: seq<InputToken>, i: nat)
    requires i < |input|
    ensures AbsolutePosition(input, i) == Sum(IncrementsOf(input)[..i + 1])
  {
    SumTake(IncrementsOf(input), i);
    if i == 0 {
      assert IncrementsOf(input)[..0] == [];
    } else {
      PositionIsSum(input, i - 1);
    }
  }

  /** A buffered token holds input token i at its absolute position. */
  ghost predicate Holds(t: FlattenTokenData, input: seq<InputToken>, i: nat, maxPos: nat)
    requires i < |input|
  {
    && t.attributes == input[i].attributes && t.positionLength == input[i].length
    && t.position == AbsolutePosition(input, i)
    && t.endPos == t.position + t.positionLength <= maxPos
  }

  ghost predicate Distinct(ts: Tokens) {
    forall i, j :: 0 <= i < j < |ts| ==> ts[i] != ts[j]
  }

  ghost predicate ByPosition(ts: Tokens) {
    forall i, j :: 0 <= i < j < |ts| ==> ts[i].position <= ts[j].position
  }

  /** The order of the output: earlier positions first, longer spans first. */
  predicate Precedes(s: FlattenTokenData, t: FlattenTokenData) {
    s.position < t.position || (s.position == t.position && s.endPos >= t.endPos)
  }

  ghost predicate SortedSlice(ts: Tokens) {
    forall i, j :: 0 <= i < j < |ts| ==> Precedes(ts[i], ts[j])
  }

  /** sort.Slice by position and descending end position. */
  method SortSlice(ts: Tokens) returns (sorted: Tokens)
    ensures SortedSlice(sorted) && multiset(sorted) == multiset(ts)
  {
    sorted := [];
    for i := 0 to |ts|
      invariant SortedSlice(sorted) && multiset(sorted) == multiset(ts[..i])
    {
      assert ts[..i + 1] == ts[..i] + [ts[i]];
      sorted := InsertSorted(sorted, ts[i]);
    }
    assert ts[..|ts|] == ts;
  }

  method InsertSorted(ts: Tokens, t: FlattenTokenData) returns (sorted: Tokens)
    requires SortedSlice(ts)
    ensures SortedSlice(sorted) && multiset(sorted) == multiset(ts) + multiset{t}
  {
    var k := |ts|;
    while k > 0 && !Precedes(ts[k - 1], t)
      invariant 0 <= k <= |ts|
      invariant forall j :: k <= j < |ts| ==> Precedes(t, ts[j])
    {
      k := k - 1;
    }
    assert ts == ts[..k] + ts[k..];
    sorted := ts[..k] + [t] + ts[k..];
    if k > 0 {
      PrecedesAll(ts[..k], t);
    }
    JoinSorted(ts[..k], t, ts[k..]);
  }

  lemma PrecedesAll(ts: Tokens, t: FlattenTokenData)
    requires ts != [] && SortedSlice(ts) && Precedes(ts[|ts| - 1], t)
    ensures forall j :: 0 <= j < |ts| ==> Precedes(ts[j], t)
  {
    forall j | 0 <= j < |ts|
      ensures Precedes(ts[j], t)
    {
      assert j < |ts| - 1 ==> Precedes(ts[j], ts[|ts| - 1]);
    }
  }

  lemma JoinSorted(first: Tokens, t: FlattenTokenData, rest: Tokens)
    requires SortedSlice(first) && SortedSlice(rest)
    requires forall j :: 0 <= j < |first| ==> Precedes(first[j], t)
    requires forall j :: 0 <= j < |rest| ==> Precedes(t, rest[j])
    ensures SortedSlice(first + [t] + rest)
  {
    var all := first + [t] + rest;
    forall i, j | 0 <= i < j < |all|
      ensures Precedes(all[i], all[j])
    {
      if i < |first| && j > |first| {
        assert Precedes(first[i], t) && Precedes(t, rest[j - |first| - 1]);
      }
    }
  }

  // ---------- Where the first pass stops ----------

  /** Start and end of a token. */
  datatype Span = Span(start: nat, end: int)

  function SpansOf(ts: Tokens): (spans: seq<Span>)
    ensures |spans| == |ts|
  {
    seq(|ts|, i requires 0 <= i < |ts| => Span(ts[i].position, ts[i].endPos))
  }

  function InputSpans(input: seq<InputToken>): (spans: seq<Span>)
    ensures |spans| == |input|
  {
    seq(|input|, i requires 0 <= i < |input| => Span(AbsolutePosition(input, i), AbsolutePosition(input, i) + input[i].length))
  }

  /** The end of the graph. */
  function Top(spans: seq<Span>): (top: nat)
    ensures forall i :: 0 <= i < |spans| ==> spans[i].end <= top
  {
    if spans == [] then 0
    else
      var top := Top(spans[..|spans| - 1]);
      if spans[|spans| - 1].end > top then spans[|spans| - 1].end else top
  }

  /** The end of the graph is the end of a span, unless no span ends above 0. */
  lemma {:induction false} TopIsReached(spans: seq<Span>) returns (i: nat)
    ensures Top(spans) > 0 ==> i < |spans| && spans[i].end == Top(spans)
  {
    i := 0;
    if spans != [] {
      i := TopIsReached(spans[..|spans| - 1]);
      if spans[|spans| - 1].end == Top(spans) {
        i := |spans| - 1;
      }
    }
  }

  lemma TopStart(spans: seq<Span>)
    ensures Top(spans[..0]) == 0
  {
  }

  lemma TopStep(spans: seq<Span>, i: nat)
    requires i < |spans|
    ensures Top(spans[..i + 1]) == if spans[i].end > Top(spans[..i]) then spans[i].end else Top(spans[..i])
  {
    assert spans[..i + 1][..i] == spans[..i];
  }

  /** Where the first span starts that leads to the end of the graph. */
  function Summit(spans: seq<Span>, maxPos: nat): (q: nat)
    ensures q <= maxPos
  {
    if spans == [] then maxPos
    else if spans[0].end == maxPos && spans[0].start < maxPos then spans[0].start
    else Summit(spans[1..], maxPos)
  }

  lemma {:induction false} SummitIsFirst(spans: seq<Span>, maxPos: nat)
    requires forall i, j :: 0 <= i < j < |spans| ==> spans[i].start <= spans[j].start
    ensures Summit(spans, maxPos) < maxPos ==> Span(Summit(spans, maxPos), maxPos) in spans
    ensures forall i :: 0 <= i < |spans| && spans[i].end == maxPos && spans[i].start < maxPos
                        ==> Summit(spans, maxPos) <= spans[i].start
  {
    if spans != [] {
      SummitIsFirst(spans[1..], maxPos);
    }
  }

  /** The tokens of the first pass: those that start before the summit, and at the
      summit the one whose end stops the pass. */
  ghost predicate FirstPass(ts: Tokens, maxPos: nat, first: Tokens) {
    var q := Summit(SpansOf(ts), maxPos);
    && (forall t :: t in first ==> t in ts)
    && (q < maxPos ==> first != [] && first[|first| - 1].position == q && first[|first| - 1].endPos == maxPos)
    && (forall t :: t in ts ==> (t in first <==> t.position < q || (q < maxPos && t == first[|first| - 1])))
  }

  /** The other tokens, in their order. */
  ghost function Others(ts: Tokens, first: Tokens): (others: Tokens)
    ensures forall t :: t in others ==> t in ts && t !in first
    ensures forall t :: t in ts && t !in first ==> t in others
  {
    if ts == [] then []
    else if ts[|ts| - 1] in first then Others(ts[..|ts| - 1], first)
    else Others(ts[..|ts| - 1], first) + [ts[|ts| - 1]]
  }

  lemma NoOthers(ts: Tokens, first: Tokens)
    ensures Others(ts[..0], first) == []
  {
  }

  lemma NextOther(ts: Tokens, i: nat, first: Tokens)
    requires i < |ts|
    ensures Others(ts[..i + 1], first) == if ts[i] in first then Others(ts[..i], first)
                                          else Others(ts[..i], first) + [ts[i]]
  {
    assert ts[..i + 1][..i] == ts[..i];
  }

  /** The others among the first n tokens are in order. */
  ghost predicate OthersInOrder(ts: Tokens, first: Tokens, n: nat)
    requires n <= |ts|
  {
    forall i, j :: 0 <= i < j < n && ts[i] !in first && ts[j] !in first ==> Precedes(ts[i], ts[j])
  }

  lemma {:induction false} OthersSorted(ts: Tokens, first: Tokens, n: nat)
    requires n <= |ts|
    ensures SortedSlice(Others(ts[..n], first)) <==> OthersInOrder(ts, first, n)
  {
    hide Others, SortedSlice, Precedes, OthersInOrder;
    if n == 0 {
      NoOthers(ts, first);
      SortedEmpty(ts, first);
    } else {
      OthersSorted(ts, first, n - 1);
      NextOther(ts, n - 1, first);
      OrderStep(ts, first, n - 1);
      if ts[n - 1] !in first {
        SortedAppend(Others(ts[..n - 1], first), ts[n - 1]);
      }
    }
  }

  lemma OrderStep(ts: Tokens, first: Tokens, n: nat)
    requires n < |ts|
    ensures OthersInOrder(ts, first, n + 1)
       <==> (OthersInOrder(ts, first, n)
             && (ts[n] !in first ==> forall x :: x in Others(ts[..n], first) ==> Precedes(x, ts[n])))
  {
    hide Others, Precedes;
    OthersAre(ts, first, n);
  }

  lemma OthersAre(ts: Tokens, first: Tokens, n: nat)
    requires n <= |ts|
    ensures forall i :: 0 <= i < n && ts[i] !in first ==> ts[i] in Others(ts[..n], first)
    ensures forall t :: t in Others(ts[..n], first) ==> t !in first && exists i :: 0 <= i < n && ts[i] == t
  {
    assert forall i :: 0 <= i < n ==> ts[..n][i] == ts[i];
  }

  lemma SortedEmpty(ts: Tokens, first: Tokens)
    ensures SortedSlice([]) && OthersInOrder(ts, first, 0)
  {
  }

  lemma SortedAppend(ts: Tokens, t: FlattenTokenData)
    ensures SortedSlice(ts + [t]) <==> SortedSlice(ts) && forall x :: x in ts ==> Precedes(x, t)
  {
    if SortedSlice(ts + [t]) {
      forall i, j | 0 <= i < j < |ts|
        ensures Precedes(ts[i], ts[j])
      {
        assert (ts + [t])[i] == ts[i] && (ts + [t])[j] == ts[j];
      }
      forall x | x in ts
        ensures Precedes(x, t)
      {
        var i :| 0 <= i < |ts| && ts[i] == x;
        assert (ts + [t])[i] == x && (ts + [t])[|ts|] == t;
      }
    }
  }

  /** From the summit on, spans of one start come longest first, the skipped one apart. */
  predicate Orderly(spans: seq<Span>, maxPos: nat, skip: nat) {
    var q := Summit(spans, maxPos);
    forall i, j :: 0 <= i < j < |spans| && spans[i].start == spans[j].start >= q && (q < maxPos ==> skip != i && skip != j)
                   ==> spans[i].end >= spans[j].end
  }

  /** The skipped span is one that the first pass may stop at. */
  predicate Stops(spans: seq<Span>, maxPos: nat, skip: nat) {
    var q := Summit(spans, maxPos);
    q < maxPos ==> skip < |spans| && spans[skip] == Span(q, maxPos)
  }

  /** Whether the other tokens are in order can be read off the input. */
  lemma OthersOrderly(ts: Tokens, maxPos: nat, first: Tokens, skip: nat)
    requires ByPosition(ts) && Distinct(ts) && FirstPass(ts, maxPos, first)
    requires Summit(SpansOf(ts), maxPos) < maxPos ==> skip < |ts| && ts[skip] == first[|first| - 1]
    ensures SortedSlice(Others(ts, first)) <==> Orderly(SpansOf(ts), maxPos, skip)
  {
    hide Others, SortedSlice, FirstPass, Summit, Distinct;
    OthersSorted(ts, first, |ts|);
    assert ts[..|ts|] == ts;
    var spans := SpansOf(ts);
    forall i | 0 <= i < |ts|
      ensures ts[i] !in first <==> spans[i].start >= Summit(spans, maxPos) && (Summit(spans, maxPos) < maxPos ==> i != skip)
    {
      NotInFirst(ts, maxPos, first, skip, i);
    }
    if Orderly(spans, maxPos, skip) {
      forall i, j | 0 <= i < j < |ts| && ts[i] !in first && ts[j] !in first
        ensures Precedes(ts[i], ts[j])
      {
        assert spans[i].start == spans[j].start ==> spans[i].end >= spans[j].end;
      }
    }
  }

  lemma NotInFirst(ts: Tokens, maxPos: nat, first: Tokens, skip: nat, i: nat)
    requires Distinct(ts) && FirstPass(ts, maxPos, first) && i < |ts|
    requires Summit(SpansOf(ts), maxPos) < maxPos ==> skip < |ts| && ts[skip] == first[|first| - 1]
    ensures ts[i] !in first
       <==> ts[i].position >= Summit(SpansOf(ts), maxPos) && (Summit(SpansOf(ts), maxPos) < maxPos ==> i != skip)
  {
    hide Summit;
    assert ts[i] in ts;
  }

  lemma NothingToPlace(maxPos: nat)
    ensures FirstPass([], maxPos, []) && Others([], []) == [] && SortedSlice([]) && ByPosition([])
  {
  }

  /** A sorted first part that precedes the rest leaves the order to the rest. */
  lemma SortedJoin(first: Tokens, rest: Tokens)
    requires SortedSlice(first)
    requires first != [] ==> forall t :: t in rest ==> Precedes(first[|first| - 1], t)
    ensures SortedSlice(first + rest) <==> SortedSlice(rest)
  {
    var all := first + rest;
    if SortedSlice(all) {
      forall i, j | 0 <= i < j < |rest|
        ensures Precedes(rest[i], rest[j])
      {
        assert all[|first| + i] == rest[i] && all[|first| + j] == rest[j];
      }
    }
    if SortedSlice(rest) {
      forall i, j | 0 <= i < j < |all|
        ensures Precedes(all[i], all[j])
      {
        if i < |first| <= j {
          assert rest[j - |first|] in rest;
          assert i < |first| - 1 ==> Precedes(first[i], first[|first| - 1]);
        }
      }
    }
  }

  /** The output keeps the promised order exactly when the input has it, apart from a
      span at which the first pass may stop. */
  ghost predicate OrderKnown(input: seq<InputToken>, out: Tokens) {
    var spans := InputSpans(input);
    exists skip :: Stops(spans, Top(spans), skip) && (SortedSlice(out) <==> Orderly(spans, Top(spans), skip))
  }

  lemma KnowOrder(input: seq<InputToken>, out: Tokens, skip: nat)
    requires Stops(InputSpans(input), Top(InputSpans(input)), skip)
    requires SortedSlice(out) <==> Orderly(InputSpans(input), Top(InputSpans(input)), skip)
    ensures OrderKnown(input, out)
  {
  }

  /** The increment that takes a reader from the previous output token to the k-th. */
  function IncrementAt(out: Tokens, k: nat): int
    requires k < |out|
  {
    out[k].position - if k == 0 then 0 else out[k - 1].position
  }

  function IncrementSum(out: Tokens, k: nat): int
    requires k <= |out|
  {
    if k == 0 then 0 else IncrementSum(out, k - 1) + IncrementAt(out, k - 1)
  }

  /** Summing the increments of the output gives each token's position. */
  lemma {:induction false} IncrementsReachPosition(out: Tokens, k: nat)
    requires k < |out|
    ensures IncrementSum(out, k + 1) == out[k].position
  {
    if k > 0 {
      IncrementsReachPosition(out, k - 1);
    }
  }

  lemma {:induction false} DistinctCount(ts: Tokens, t: FlattenTokenData)
    requires Distinct(ts)
    ensures multiset(ts)[t] == if t in ts then 1 else 0
  {
    if ts != [] {
      var n := |ts| - 1;
      assert ts == ts[..n] + [ts[n]];
      DistinctCount(ts[..n], t);
    }
  }

  /** Distinct tokens that are the same tokens form the same multiset. */
  lemma SameTokens(s: Tokens, t: Tokens)
    requires Distinct(s) && Distinct(t)
    requires forall x :: x in s <==> x in t
    ensures multiset(s) == multiset(t)
  {
    forall x | x in s || x in t
      ensures multiset(s)[x] == multiset(t)[x]
    {
      DistinctCount(s, x);
      DistinctCount(t, x);
    }
    assert forall x :: x in multiset(s) <==> x in multiset(t);
  }

  class FlattenGraphFilter {
    const input: seq<InputToken>
    var tokenData: Tokens
    var outputTokens: Tokens
    var currentOutputIndex: nat
    var inputExhausted: bool
    var maxPos: nat

    /** The buffer holds the input tokens at their absolute positions. */
    ghost predicate Buffered()
      reads this`tokenData, this`maxPos
    {
      && |tokenData| == |input| && Distinct(tokenData)
      && forall i :: 0 <= i < |input| ==> BufferedAt(i)
    }

    ghost predicate BufferedAt(i: nat)
      reads this`tokenData, this`maxPos
      requires i < |input| && i < |tokenData|
    {
      Holds(tokenData[i], input, i, maxPos)
    }

    /** The output tokens are buffered tokens, each marked with its place and with
        the increment from its predecessor; unmarked tokens are not in the output. */
    ghost predicate Placed()
      reads this`outputTokens, this`tokenData, tokenData
    {
      && (forall k :: 0 <= k < |outputTokens| ==> PlacedAt(k))
      && (forall t :: t in tokenData && t.outputOrder != 0 ==> t in outputTokens)
    }

    ghost predicate PlacedAt(k: nat)
      reads this`outputTokens, this`tokenData, tokenData
      requires k < |outputTokens|
    {
      var t := outputTokens[k];
      t in tokenData && t.outputOrder == k + 1 && t.positionIncrement == IncrementAt(outputTokens, k)
    }

    /** No token still to be placed belongs before the last one placed. */
    ghost predicate RestFollows()
      reads this`outputTokens, this`tokenData, tokenData
    {
      outputTokens != [] ==>
        forall t :: t in Unplaced() ==> outputTokens[|outputTokens| - 1].position <= t.position
    }

    ghost function Unplaced(): set<FlattenTokenData>
      reads this`tokenData, tokenData
    {
      set t | t in tokenData && t.outputOrder == 0
    }

    constructor (input: seq<InputToken>)
      ensures this.input == input && !inputExhausted
      ensures tokenData == [] && outputTokens == [] && currentOutputIndex == 0 && maxPos == 0
    {
      this.input := input;
      tokenData, outputTokens, currentOutputIndex, inputExhausted, maxPos := [], [], 0, false, 0;
    }

    /** Marks a token with the next place and appends it to the output. */
    method Place(token: FlattenTokenData)
      requires Placed() && RestFollows() && ByPosition(outputTokens)
      requires token in tokenData && token.outputOrder == 0
      modifies this`outputTokens, token
      ensures outputTokens == old(outputTokens) + [token]
      ensures Placed() && ByPosition(outputTokens)
      ensures Unplaced() == old(Unplaced()) - {token}
      ensures (forall t :: t in old(Unplaced()) ==> token.position <= t.position) ==> RestFollows()
    {
      token.outputOrder := |outputTokens| + 1;
      if |outputTokens| == 0 {
        token.positionIncrement := token.position;
      } else {
        var prevToken := outputTokens[|outputTokens| - 1];
        if token.position <= prevToken.position {
          token.positionIncrement := 0;
        } else {
          token.positionIncrement := token.position - prevToken.position;
        }
      }
      outputTokens := outputTokens + [token];
      forall k | 0 <= k < |outputTokens|
        ensures PlacedAt(k)
      {
        if k < |outputTokens| - 1 {
          assert old(PlacedAt(k)) && outputTokens[k] == old(outputTokens[k]);
        }
      }
    }

    /** The tokens at each start position, longer spans first. */
    method GroupByPosition() returns (posToTokens: map<nat, Tokens>)
      ensures Groups(posToTokens, tokenData)
    {
      posToTokens := map[];
      for i := 0 to |tokenData|
        invariant Groups(posToTokens, tokenData[..i])
      {
        assert tokenData[..i + 1] == tokenData[..i] + [tokenData[i]];
        var p := tokenData[i].position;
        var group := if p in posToTokens then posToTokens[p] else [];
        posToTokens := posToTokens[p := group + [tokenData[i]]];
      }
      assert tokenData[..|tokenData|] == tokenData;
      var keys := posToTokens.Keys;
      while keys != {}
        invariant keys <= posToTokens.Keys && Groups(posToTokens, tokenData)
        decreases keys
      {
        var p :| p in keys;
        var sorted := SortSlice(posToTokens[p]);
        assert forall t :: t in sorted <==> t in multiset(sorted);
        assert forall t :: t in posToTokens[p] <==> t in multiset(posToTokens[p]);
        posToTokens := posToTokens[p := sorted];
        keys := keys - {p};
      }
    }

    /** The unplaced tokens that start at or before a position. */
    method Candidates(posToTokens: map<nat, Tokens>, coveredEndPos: nat) returns (candidates: Tokens)
      requires Groups(posToTokens, tokenData)
      ensures forall t :: t in candidates <==> t in Unplaced() && t.position <= coveredEndPos
    {
      candidates := [];
      for pos := 0 to coveredEndPos + 1
        invariant forall t :: t in candidates <==> t in Unplaced() && t.position < pos
      {
        var group := if pos in posToTokens then posToTokens[pos] else [];
        ghost var before := candidates;
        for i := 0 to |group|
          invariant forall t :: t in candidates <==> t in before || (t in group[..i] && t.outputOrder == 0)
        {
          assert group[..i + 1] == group[..i] + [group[i]];
          assert group[i].position == pos;
          if group[i].outputOrder == 0 && group[i].position <= coveredEndPos {
            candidates := candidates + [group[i]];
          }
        }
        assert group[..|group|] == group;
      }
    }

    /** Among tokens of one position, those placed first are the longest. */
    ghost predicate LongestFirst()
      reads this`outputTokens, this`tokenData, tokenData
    {
      && SortedSlice(outputTokens)
      && (outputTokens != [] ==>
            forall t :: t in Unplaced() ==> Precedes(outputTokens[|outputTokens| - 1], t))
    }

    /** Places the best of the candidates. */
    method PlaceBest(candidates: Tokens, ghost coveredEndPos: nat) returns (token: FlattenTokenData)
      requires Placed() && LongestFirst() && candidates != []
      requires forall t :: t in candidates <==> t in Unplaced() && t.position <= coveredEndPos
      requires forall t :: t in outputTokens ==> t.position <= coveredEndPos
      modifies this`outputTokens, tokenData
      ensures Placed() && LongestFirst()
      ensures token in old(Unplaced()) && Unplaced() == old(Unplaced()) - {token}
      ensures outputTokens == old(outputTokens) + [token] && token.position <= coveredEndPos
    {
      var sorted := SortSlice(candidates);
      token := sorted[0];
      BestCandidate(candidates, sorted);
      assert token in Unplaced();
      assert forall t :: t in outputTokens ==> Precedes(t, token) by {
        assert outputTokens != [] ==> Precedes(outputTokens[|outputTokens| - 1], token);
      }
      Place(token);
    }

    /** Placed tokens end in the covered stretch, and only the last of them may end it.
        When another step ended it, all tokens that start inside are placed. */
    ghost predicate Covered(coveredEndPos: nat)
      reads this`outputTokens, this`tokenData, this`maxPos, tokenData
    {
      && (forall t :: t in outputTokens ==> t.position < maxPos && t.endPos <= coveredEndPos)
      && (forall k :: 0 <= k < |outputTokens| - 1 ==> outputTokens[k].endPos < maxPos)
      && (coveredEndPos == maxPos && (outputTokens != [] ==> outputTokens[|outputTokens| - 1].endPos < maxPos)
          ==> forall t :: t in Unplaced() ==> maxPos <= t.position)
    }

    /** The greedy pass: places the best candidate, or moves the covered end on.
        It ends because each step places a token or covers one more position. */
    method PlaceCovering(posToTokens: map<nat, Tokens>)
      requires Groups(posToTokens, tokenData) && outputTokens == [] && Placed()
      requires forall t :: t in tokenData ==> t.endPos <= maxPos
      modifies this`outputTokens, tokenData
      ensures Placed() && LongestFirst() && Covered(maxPos)
    {
      hide Placed, Groups;
      var coveredEndPos: nat := 0;
      while coveredEndPos < maxPos
        invariant 0 <= coveredEndPos <= maxPos
        invariant Placed() && LongestFirst() && Covered(coveredEndPos)
        invariant forall t :: t in outputTokens ==> t.position <= coveredEndPos
        decreases Unplaced(), maxPos - coveredEndPos
      {
        var candidates := Candidates(posToTokens, coveredEndPos);
        if |candidates| == 0 {
          coveredEndPos := coveredEndPos + 1;
        } else {
          var token := PlaceBest(candidates, coveredEndPos);
          if token.endPos > coveredEndPos {
            coveredEndPos := token.endPos;
          }
        }
      }
    }

    /** Which tokens the greedy pass places depends on the input alone, but for the
        choice among equals at the summit. */
    lemma FirstPassIs()
      requires Placed() && LongestFirst() && Covered(maxPos) && ByPosition(tokenData)
      ensures FirstPass(tokenData, maxPos, outputTokens)
    {
      hide Placed, Summit, LongestFirst;
      var spans := SpansOf(tokenData);
      var q := Summit(spans, maxPos);
      SummitIsFirst(spans, maxPos);
      forall t | t in outputTokens
        ensures t in tokenData
      {
        PlacedIsMarked(t);
      }
      forall t | t in tokenData && t.endPos == maxPos && t.position < maxPos
        ensures q <= t.position
      {
        var i :| 0 <= i < |tokenData| && tokenData[i] == t;
        assert spans[i] == Span(t.position, t.endPos);
      }
      if outputTokens != [] && outputTokens[|outputTokens| - 1].endPos == maxPos {
        StoppedAtSummit(q);
      } else {
        NotStopped(q);
      }
    }

    lemma NotStopped(q: nat)
      requires Placed() && Covered(maxPos) && q == Summit(SpansOf(tokenData), maxPos)
      requires outputTokens != [] ==> outputTokens[|outputTokens| - 1].endPos < maxPos
      requires q < maxPos ==> Span(q, maxPos) in SpansOf(tokenData)
      ensures q == maxPos && forall t :: t in tokenData ==> (t in outputTokens <==> t.position < q)
    {
      MarkedExactly();
      forall t | t in tokenData
        ensures t in outputTokens <==> t.position < maxPos
        ensures t.position < maxPos ==> t.endPos < maxPos
      {
        if t in outputTokens {
          var k :| 0 <= k < |outputTokens| && outputTokens[k] == t;
        }
      }
      assert forall i :: 0 <= i < |tokenData| ==> tokenData[i] in tokenData;
    }

    lemma PlacedIsMarked(t: FlattenTokenData)
      requires Placed() && t in outputTokens
      ensures t in tokenData && t !in Unplaced()
    {
      var k :| 0 <= k < |outputTokens| && outputTokens[k] == t;
      assert PlacedAt(k);
    }

    lemma StoppedAtSummit(q: nat)
      requires Placed() && LongestFirst() && Covered(maxPos) && outputTokens != []
      requires outputTokens[|outputTokens| - 1].endPos == maxPos && q == Summit(SpansOf(tokenData), maxPos)
      requires q < maxPos ==> Span(q, maxPos) in SpansOf(tokenData)
      requires forall t :: t in tokenData && t.endPos == maxPos && t.position < maxPos ==> q <= t.position
      ensures q < maxPos && q == outputTokens[|outputTokens| - 1].position
      ensures forall t :: t in tokenData ==> (t in outputTokens <==> t.position < q || t == outputTokens[|outputTokens| - 1])
    {
      var last := outputTokens[|outputTokens| - 1];
      PlacedIsMarked(last);
      var i :| 0 <= i < |SpansOf(tokenData)| && SpansOf(tokenData)[i] == Span(q, maxPos);
      MarkedExactly();
      if tokenData[i] in outputTokens {
        var k :| 0 <= k < |outputTokens| && outputTokens[k] == tokenData[i];
        assert k == |outputTokens| - 1;
      }
      forall t | t in tokenData
        ensures t in outputTokens <==> t.position < q || t == last
      {
        if t in outputTokens && t != last {
          var k :| 0 <= k < |outputTokens| && outputTokens[k] == t;
          assert k < |outputTokens| - 1 && Precedes(t, last);
        }
        if t !in outputTokens {
          assert t in Unplaced() && Precedes(last, t);
        }
      }
    }

    /** The tokens before i are placed, those from i on are as the greedy pass left them. */
    ghost predicate RestPlaced(i: nat, first: Tokens)
      reads this`outputTokens, this`tokenData, tokenData
    {
      && i <= |tokenData|
      && (forall j :: 0 <= j < i ==> tokenData[j] !in Unplaced())
      && (forall j :: i <= j < |tokenData| ==> (tokenData[j] in Unplaced() <==> tokenData[j] !in first))
      && outputTokens == first + Others(tokenData[..i], first)
    }

    /** Places what the greedy pass left over, in input order. */
    method PlaceRest()
      requires Placed() && RestFollows() && ByPosition(outputTokens)
      requires ByPosition(tokenData) && Distinct(tokenData)
      modifies this`outputTokens, tokenData
      ensures Placed() && ByPosition(outputTokens) && Unplaced() == {}
      ensures outputTokens == old(outputTokens) + Others(tokenData, old(outputTokens))
    {
      hide Placed, ByPosition, RestFollows, Others, Distinct, RestPlaced;
      ghost var first := outputTokens;
      BeginRest();
      for i := 0 to |tokenData|
        invariant Placed() && RestFollows() && ByPosition(outputTokens) && RestPlaced(i, first)
      {
        PlaceNext(i, first);
      }
      EndRest(first);
    }

    lemma BeginRest()
      requires Placed()
      ensures RestPlaced(0, outputTokens)
    {
      NoOthers(tokenData, outputTokens);
      assert outputTokens == outputTokens + [];
      MarkedExactly();
    }

    lemma EndRest(first: Tokens)
      requires RestPlaced(|tokenData|, first)
      ensures Unplaced() == {} && outputTokens == first + Others(tokenData, first)
    {
      assert tokenData[..|tokenData|] == tokenData;
    }

    /** Places token i unless the greedy pass did. */
    method PlaceNext(i: nat, ghost first: Tokens)
      requires Placed() && RestFollows() && ByPosition(outputTokens)
      requires ByPosition(tokenData) && Distinct(tokenData)
      requires i < |tokenData| && RestPlaced(i, first)
      modifies this`outputTokens, tokenData
      ensures Placed() && RestFollows() && ByPosition(outputTokens) && RestPlaced(i + 1, first)
    {
      hide Placed, ByPosition, RestFollows, Others;
      var token := tokenData[i];
      NextOther(tokenData, i, first);
      if token.outputOrder == 0 {
        assert token in Unplaced();
        Follows(tokenData, i, Unplaced());
        Place(token);
      }
    }

    lemma MarkedExactly()
      requires Placed()
      ensures forall t :: t in tokenData ==> (t in Unplaced() <==> t !in outputTokens)
    {
      forall t | t in tokenData && t in outputTokens
        ensures t !in Unplaced()
      {
        PlacedIsMarked(t);
      }
    }

    /** Buffered tokens are in order of position and end within the graph. */
    lemma BufferedBounds()
      requires Buffered()
      ensures ByPosition(tokenData) && Distinct(tokenData) && forall t :: t in tokenData ==> t.endPos <= maxPos
    {
      forall i, j | 0 <= i < j < |tokenData|
        ensures tokenData[i].position <= tokenData[j].position
      {
        assert BufferedAt(i) && BufferedAt(j);
        AbsolutePositionGrows(input, i, j);
      }
      forall t | t in tokenData
        ensures t.endPos <= maxPos
      {
        var i :| 0 <= i < |tokenData| && tokenData[i] == t;
        assert BufferedAt(i);
      }
    }

    /** What a reader gets for output token k. */
    ghost function Emission(k: nat): OutputToken
      reads this`outputTokens, outputTokens
      requires k < |outputTokens|
    {
      OutputToken(outputTokens[k].attributes, outputTokens[k].positionIncrement, outputTokens[k].positionLength)
    }

    /** The output after buffering: every buffered token once, by position. */
    ghost predicate Flattened()
      reads this, tokenData
    {
      && inputExhausted && Buffered() && Placed()
      && multiset(outputTokens) == multiset(tokenData) && ByPosition(outputTokens)
      && currentOutputIndex <= |outputTokens| && OrderKnown(input, outputTokens)
    }

    /** Every placed token is distinct, so a full placement is a permutation. */
    lemma PlacedIsPermutation()
      requires Buffered() && Placed() && Unplaced() == {}
      ensures multiset(outputTokens) == multiset(tokenData)
    {
      forall i, j | 0 <= i < j < |outputTokens|
        ensures outputTokens[i] != outputTokens[j]
      {
        assert PlacedAt(i) && PlacedAt(j);
      }
      forall t | t in tokenData
        ensures t in outputTokens
      {
        assert t !in Unplaced();
      }
      forall t | t in outputTokens
        ensures t in tokenData
      {
        var k :| 0 <= k < |outputTokens| && outputTokens[k] == t;
        assert PlacedAt(k);
      }
      SameTokens(outputTokens, tokenData);
    }

    lemma EmissionIs(k: nat)
      requires Flattened() && k < |outputTokens|
      ensures Emission(k).attributes == outputTokens[k].attributes && Emission(k).length == outputTokens[k].positionLength
      ensures Emission(k).increment == IncrementAt(outputTokens, k) >= 0
    {
      assert PlacedAt(k);
    }

    /** The output as a whole, in terms of the input. */
    lemma WholeOutput() returns (skip: nat)
      requires Flattened()
      ensures multiset(LocationsOf(outputTokens)) == multiset(InputLocations(input))
      ensures forall i, j :: 0 <= i < j < |outputTokens| ==> outputTokens[i].position <= outputTokens[j].position
      ensures Stops(InputSpans(input), Top(InputSpans(input)), skip)
      ensures SortedLocations(LocationsOf(outputTokens)) <==> Orderly(InputSpans(input), Top(InputSpans(input)), skip)
    {
      hide Top, Orderly, Stops;
      SameLocations(outputTokens, tokenData);
      BufferedLocations();
      LocationsSorted();
      skip :| Stops(InputSpans(input), Top(InputSpans(input)), skip)
              && (SortedSlice(outputTokens) <==> Orderly(InputSpans(input), Top(InputSpans(input)), skip));
    }

    lemma BufferedLocations()
      requires Buffered()
      ensures LocationsOf(tokenData) == InputLocations(input)
    {
      forall i | 0 <= i < |input|
        ensures LocationsOf(tokenData)[i] == InputLocations(input)[i]
      {
        assert BufferedAt(i);
      }
    }

    lemma LocationsSorted()
      requires Buffered() && multiset(outputTokens) == multiset(tokenData)
      ensures SortedLocations(LocationsOf(outputTokens)) <==> SortedSlice(outputTokens)
    {
      var out := LocationsOf(outputTokens);
      forall t | t in outputTokens
        ensures t.endPos == t.position + t.positionLength
      {
        assert t in multiset(outputTokens) && t in multiset(tokenData);
        var i :| 0 <= i < |tokenData| && tokenData[i] == t;
        assert BufferedAt(i);
      }
      forall i, j | 0 <= i < j < |outputTokens|
        ensures Precedes(outputTokens[i], outputTokens[j])
           <==> out[i].position < out[j].position || (out[i].position == out[j].position && out[i].length >= out[j].length)
      {
        assert outputTokens[i] in outputTokens && outputTokens[j] in outputTokens;
      }
    }

    /** Reading the output: after k + 1 tokens the increments add up to the absolute
        position that the k-th token had in the input. */
    lemma OutputKeepsPositions(k: nat) returns (i: nat)
      requires Flattened() && k < |outputTokens|
      ensures i < |input| && outputTokens[k] == tokenData[i]
      ensures Emission(k).attributes == input[i].attributes && Emission(k).length == input[i].length
      ensures forall j :: 0 <= j <= k ==> Emission(j).increment == IncrementAt(outputTokens, j) >= 0
      ensures IncrementSum(outputTokens, k + 1) == AbsolutePosition(input, i)
    {
      assert PlacedAt(k);
      i :| 0 <= i < |tokenData| && tokenData[i] == outputTokens[k];
      assert BufferedAt(i);
      IncrementsReachPosition(outputTokens, k);
      forall j | 0 <= j <= k
        ensures Emission(j).increment == IncrementAt(outputTokens, j) >= 0
      {
        assert PlacedAt(j);
      }
    }

    /** The tokens of the first pass, longer spans first, and then the others in input
        order. The promised order is kept exactly when the others are in it. */
    method BuildOutputOrder() returns (ghost first: Tokens)
      requires Buffered() && outputTokens == [] && Placed()
      modifies this`outputTokens, tokenData
      ensures Buffered() && Placed() && ByPosition(outputTokens) && Unplaced() == {}
      ensures FirstPass(tokenData, maxPos, first) && SortedSlice(first)
      ensures outputTokens == first + Others(tokenData, first)
      ensures SortedSlice(outputTokens) <==> SortedSlice(Others(tokenData, first))
    {
      hide Placed, Buffered, FirstPass, Others, SortedSlice, ByPosition, Covered, LongestFirst, RestFollows, Distinct;
      first := [];
      if |tokenData| == 0 {
        NothingToPlace(maxPos);
        return;
      }
      BufferedBounds();
      var posToTokens := GroupByPosition();
      PlaceCovering(posToTokens);
      StillBuffered();
      FirstPassIs();
      first := outputTokens;
      OthersFollow();
      PlaceRest();
      StillBuffered();
    }

    /** Placing leaves the buffer alone. */
    twostate lemma StillBuffered()
      requires old(Buffered()) && unchanged(this`tokenData) && unchanged(this`maxPos)
      ensures Buffered() && ByPosition(tokenData) && Distinct(tokenData)
    {
      assert forall i :: 0 <= i < |input| ==> old(BufferedAt(i)) && BufferedAt(i);
      BufferedBounds();
    }

    /** After the greedy pass the rest follows, and decides whether all is in order. */
    lemma OthersFollow()
      requires Placed() && LongestFirst()
      ensures SortedSlice(outputTokens) && ByPosition(outputTokens) && RestFollows()
      ensures SortedSlice(outputTokens + Others(tokenData, outputTokens)) <==> SortedSlice(Others(tokenData, outputTokens))
    {
      MarkedExactly();
      SortedJoin(outputTokens, Others(tokenData, outputTokens));
    }

    /** Reads the whole input and orders it. Whether longer spans come first at every
        position can be told from the input and the span at which the first pass stopped. */
    method BufferInput() returns (ghost first: Tokens, ghost skip: nat)
      requires tokenData == [] && outputTokens == [] && currentOutputIndex == 0 && maxPos == 0
      modifies this
      ensures Flattened() && currentOutputIndex == 0 && fresh(tokenData)
      ensures maxPos == Top(InputSpans(input)) && SpansOf(tokenData) == InputSpans(input)
      ensures FirstPass(tokenData, maxPos, first) && outputTokens == first + Others(tokenData, first)
      ensures Stops(InputSpans(input), maxPos, skip)
      ensures SortedSlice(outputTokens) <==> Orderly(InputSpans(input), maxPos, skip)
      ensures forall i :: 0 <= i < |input| ==> tokenData[i].position == Sum(IncrementsOf(input)[..i + 1])
    {
      hide Others, FirstPass, Buffered, Placed, SortedSlice, ByPosition, Orderly, Stops, Summit, Top, Distinct, OrderKnown, Sum;
      ReadInput();
      first := BuildOutputOrder();
      PlacedIsPermutation();
      BufferedSpans();
      BufferedBounds();
      skip := StopIndex(first);
      OthersOrderly(tokenData, maxPos, first, skip);
      KnowOrder(input, outputTokens, skip);
      BufferedSums();
    }

    lemma BufferedSums()
      requires Buffered()
      ensures forall i :: 0 <= i < |input| ==> tokenData[i].position == Sum(IncrementsOf(input)[..i + 1])
    {
      forall i | 0 <= i < |input|
        ensures tokenData[i].position == Sum(IncrementsOf(input)[..i + 1])
      {
        assert BufferedAt(i);
        PositionIsSum(input, i);
      }
    }

    lemma BufferedSpans()
      requires Buffered()
      ensures SpansOf(tokenData) == InputSpans(input)
    {
      forall i | 0 <= i < |input|
        ensures SpansOf(tokenData)[i] == InputSpans(input)[i]
      {
        assert BufferedAt(i);
      }
    }

    /** The index of the token at which the first pass stopped. */
    lemma StopIndex(first: Tokens) returns (skip: nat)
      requires Buffered() && FirstPass(tokenData, maxPos, first)
      ensures Stops(SpansOf(tokenData), maxPos, skip)
      ensures Summit(SpansOf(tokenData), maxPos) < maxPos ==> skip < |tokenData| && tokenData[skip] == first[|first| - 1]
    {
      skip := 0;
      if Summit(SpansOf(tokenData), maxPos) < maxPos {
        assert first[|first| - 1] in tokenData;
        skip :| 0 <= skip < |tokenData| && tokenData[skip] == first[|first| - 1];
      }
    }

    method ReadInput()
      requires tokenData == [] && outputTokens == [] && currentOutputIndex == 0 && maxPos == 0
      modifies this
      ensures Buffered() && Placed() && inputExhausted && currentOutputIndex == 0 && outputTokens == []
      ensures maxPos == Top(InputSpans(input)) && fresh(tokenData)
    {
      hide Top;
      inputExhausted := true;
      var currentPos := 0;
      TopStart(InputSpans(input));
      for i := 0 to |input|
        invariant fresh(tokenData) && inputExhausted && currentOutputIndex == 0 && outputTokens == []
        invariant |tokenData| == i && Distinct(tokenData) && maxPos == Top(InputSpans(input)[..i])
        invariant currentPos == if i == 0 then 0 else AbsolutePosition(input, i - 1)
        invariant forall j :: 0 <= j < i ==> Holds(tokenData[j], input, j, maxPos)
        invariant forall t :: t in tokenData ==> t.outputOrder == 0
      {
        var posIncr := input[i].increment;
        if posIncr != 0 {
          currentPos := currentPos + posIncr;
        }
        var data := new FlattenTokenData(input[i].attributes, currentPos, input[i].length);
        TopStep(InputSpans(input), i);
        if data.endPos > maxPos {
          maxPos := data.endPos;
        }
        tokenData := tokenData + [data];
      }
      assert InputSpans(input)[..|input|] == InputSpans(input);
    }

    method IncrementToken() returns (token: Option<OutputToken>)
      requires inputExhausted ==> Flattened()
      requires !inputExhausted ==> tokenData == [] && outputTokens == [] && currentOutputIndex == 0 && maxPos == 0
      modifies this
      ensures Flattened() && inputExhausted
      ensures old(inputExhausted) ==> outputTokens == old(outputTokens)
      ensures var k := if old(inputExhausted) then old(currentOutputIndex) else 0;
              if k < |outputTokens| then token == Some(Emission(k)) && currentOutputIndex == k + 1
              else token == None && currentOutputIndex == k && k == |outputTokens|
    {
      hide Placed, Buffered, OrderKnown, ByPosition, FirstPass, Others, Orderly, Stops, Top, SortedSlice;
      if !inputExhausted {
        var _, _ := BufferInput();
      }
      if currentOutputIndex >= |outputTokens| {
        return None;
      }
      var t := outputTokens[currentOutputIndex];
      currentOutputIndex := currentOutputIndex + 1;
      token := Some(OutputToken(t.attributes, t.positionIncrement, t.positionLength));
    }
  }

  lemma Follows(tokens: Tokens, i: nat, unplaced: set<FlattenTokenData>)
    requires ByPosition(tokens) && i < |tokens|
    requires forall t :: t in unplaced ==> t in tokens
    requires forall j :: 0 <= j < i ==> tokens[j] !in unplaced
    ensures forall t :: t in unplaced ==> tokens[i].position <= t.position
  {
    forall t | t in unplaced
      ensures tokens[i].position <= t.position
    {
      var j :| 0 <= j < |tokens| && tokens[j] == t;
    }
  }

  /** The first of the sorted candidates precedes every candidate. */
  lemma BestCandidate(candidates: Tokens, sorted: Tokens)
    requires candidates != [] && SortedSlice(sorted) && multiset(sorted) == multiset(candidates)
    ensures sorted != [] && sorted[0] in candidates
    ensures forall t :: t in candidates ==> Precedes(sorted[0], t)
  {
    assert candidates[0] in multiset(candidates);
    assert |sorted| == |multiset(sorted)| == |candidates|;
    assert sorted[0] in multiset(sorted);
    forall t | t in candidates
      ensures Precedes(sorted[0], t)
    {
      assert t in multiset(sorted);
      var j :| 0 <= j < |sorted| && sorted[j] == t;
    }
  }

  ghost predicate Groups(posToTokens: map<nat, Tokens>, tokens: Tokens) {
    && (forall t :: t in tokens ==> t.position in posToTokens && t in posToTokens[t.position])
    && (forall p, t :: p in posToTokens && t in posToTokens[p] ==> t in tokens && t.position == p)
  }

  // ---------- Reading the whole output ----------

  /** A token where a consumer sees it. */
  datatype Located = Located(attributes: Attributes, length: int, position: int)

  function InputLocations(input: seq<InputToken>): (located: seq<Located>)
    ensures |located| == |input|
  {
    seq(|input|, i requires 0 <= i < |input| => Located(input[i].attributes, input[i].length, AbsolutePosition(input, i)))
  }

  function LocationsOf(ts: Tokens): (located: seq<Located>)
    ensures |located| == |ts|
  {
    seq(|ts|, i requires 0 <= i < |ts| => Located(ts[i].attributes, ts[i].positionLength, ts[i].position))
  }

  function RemoveAt<T>(s: seq<T>, k: nat): seq<T>
    requires k < |s|
  {
    s[..k] + s[k + 1..]
  }

  lemma RemovedOne<T>(s: seq<T>, k: nat)
    requires k < |s|
    ensures multiset(s) == multiset(RemoveAt(s, k)) + multiset{s[k]}
  {
    assert s == s[..k] + ([s[k]] + s[k + 1..]);
  }

  lemma LocationsRemoveAt(s: Tokens, k: nat)
    requires k < |s|
    ensures LocationsOf(RemoveAt(s, k)) == RemoveAt(LocationsOf(s), k)
  {
  }

  lemma {:induction false} SameLocations(s: Tokens, t: Tokens)
    requires multiset(s) == multiset(t)
    ensures multiset(LocationsOf(s)) == multiset(LocationsOf(t))
  {
    assert |multiset(s)| == |s| && |multiset(t)| == |t|;
    if s != [] {
      assert s[0] in multiset(t);
      var k :| 0 <= k < |t| && t[k] == s[0];
      var s', t' := RemoveAt(s, 0), RemoveAt(t, k);
      hide LocationsOf, RemoveAt;
      RemovedOne(s, 0);
      RemovedOne(t, k);
      SameAfterRemoval(multiset(s'), multiset(t'), s[0]);
      SameLocations(s', t');
      LocationsRemoveAt(s, 0);
      LocationsRemoveAt(t, k);
      RemovedOne(LocationsOf(s), 0);
      RemovedOne(LocationsOf(t), k);
      LocationAt(s, 0);
      LocationAt(t, k);
    }
  }

  lemma LocationAt(s: Tokens, k: nat)
    requires k < |s|
    ensures LocationsOf(s)[k] == Located(s[k].attributes, s[k].positionLength, s[k].position)
  {
  }

  lemma SameAfterRemoval<T>(a: multiset<T>, b: multiset<T>, x: T)
    requires a + multiset{x} == b + multiset{x}
    ensures a == b
  {
    assert a == a + multiset{x} - multiset{x};
    assert b == b + multiset{x} - multiset{x};
  }

  /** Earlier positions first, longer spans first. */
  ghost predicate SortedLocations(out: seq<Located>) {
    forall i, j :: 0 <= i < j < |out| ==>
      out[i].position < out[j].position || (out[i].position == out[j].position && out[i].length >= out[j].length)
  }

  /** The consumer adds up the increments delivered. It sees every input token once, at
      the sum of the input increments up to it, in order of position, and in the promised
      order exactly when the input is orderly apart from a span at which the first pass
      may stop. The increments delivered come to as much as those of the input. */
  method Consume(input: seq<InputToken>) returns (out: seq<Located>, delivered: seq<nat>, ghost skip: nat)
    ensures multiset(out) == multiset(InputLocations(input))
    ensures forall i :: 0 <= i < |input| ==>
              InputLocations(input)[i] == Located(input[i].attributes, input[i].length, Sum(IncrementsOf(input)[..i + 1]))
    ensures AddedUp(out, delivered) && Sum(delivered) == Sum(IncrementsOf(input))
    ensures forall i, j :: 0 <= i < j < |out| ==> out[i].position <= out[j].position
    ensures Stops(InputSpans(input), Top(InputSpans(input)), skip)
    ensures SortedLocations(out) <==> Orderly(InputSpans(input), Top(InputSpans(input)), skip)
  {
    hide FlattenGraphFilter.Flattened, Top, Orderly, Stops, SortedLocations, LocationsOf, InputLocations, InputSpans;
    hide Sum, AddedUp;
    var filter := new FlattenGraphFilter(input);
    var position := 0;
    out, delivered := [], [];
    var token := filter.IncrementToken();
    ghost var ts := filter.outputTokens;
    LocationsStart(ts);
    SumOfNone();
    while token.Some?
      invariant fresh(filter) && filter.Flattened() && filter.inputExhausted && filter.input == input
      invariant |out| == |delivered| <= |ts| && filter.outputTokens == ts && out == LocationsOf(ts[..|out|])
      invariant position == (if |out| == 0 then 0 else ts[|out| - 1].position) == Sum(delivered)
      invariant AddedUp(out, delivered)
      invariant token.Some? ==> |out| < |ts| && filter.currentOutputIndex == |out| + 1 && token == Some(filter.Emission(|out|))
      invariant token.None? ==> |out| == |ts|
      decreases |ts| - |out|
    {
      filter.EmissionIs(|out|);
      LocationsStep(ts, |out|);
      position := position + token.value.increment;
      var next := Located(token.value.attributes, token.value.length, position);
      SumGrows(out, delivered, next, token.value.increment);
      out := out + [next];
      delivered := delivered + [token.value.increment];
      token := filter.IncrementToken();
    }
    assert ts[..|ts|] == ts;
    skip := filter.WholeOutput();
    PositionsInOrder(ts);
    LocationsAreSums(input);
    LastIsTotal(input, out);
    if out != [] {
      LocationAt(ts, |ts| - 1);
    }
  }

  lemma SumOfNone()
    ensures Sum([]) == 0 && AddedUp([], [])
  {
  }

  lemma SumGrows(out: seq<Located>, delivered: seq<nat>, next: Located, increment: nat)
    requires AddedUp(out, delivered) && next.position == Sum(delivered) + increment
    ensures Sum(delivered + [increment]) == Sum(delivered) + increment
    ensures AddedUp(out + [next], delivered + [increment])
  {
    hide Sum;
    SumAppend(delivered, [increment]);
    SumAppend([increment], []);
    forall k | 0 <= k < |out + [next]|
      ensures (out + [next])[k].position == Sum((delivered + [increment])[..k + 1])
    {
      if k < |out| {
        assert (delivered + [increment])[..k + 1] == delivered[..k + 1];
      } else {
        assert (delivered + [increment])[..k + 1] == delivered + [increment];
      }
    }
  }

  /** Every position is the sum of the increments delivered up to its token. */
  ghost predicate AddedUp(out: seq<Located>, delivered: seq<nat>) {
    |delivered| == |out| && forall k :: 0 <= k < |out| ==> out[k].position == Sum(delivered[..k + 1])
  }

  lemma LocationsAreSums(input: seq<InputToken>)
    ensures forall i :: 0 <= i < |input| ==>
              InputLocations(input)[i] == Located(input[i].attributes, input[i].length, Sum(IncrementsOf(input)[..i + 1]))
  {
    hide Sum, AbsolutePosition;
    forall i | 0 <= i < |input|
      ensures InputLocations(input)[i] == Located(input[i].attributes, input[i].length, Sum(IncrementsOf(input)[..i + 1]))
    {
      PositionIsSum(input, i);
    }
  }

  /** The consumer ends at the sum of all input increments. */
  lemma LastIsTotal(input: seq<InputToken>, out: seq<Located>)
    requires multiset(out) == multiset(InputLocations(input))
    requires forall i, j :: 0 <= i < j < |out| ==> out[i].position <= out[j].position
    ensures |out| == |input|
    ensures out != [] ==> out[|out| - 1].position == Sum(IncrementsOf(input))
    ensures out == [] ==> Sum(IncrementsOf(input)) == 0
  {
    hide Sum, AbsolutePosition;
    assert |multiset(out)| == |out| && |multiset(InputLocations(input))| == |input|;
    var n := |input|;
    if n == 0 {
      assert IncrementsOf(input) == [];
      SumOfNone();
    } else {
      PositionIsSum(input, n - 1);
      assert IncrementsOf(input)[..n] == IncrementsOf(input);
      var last := InputLocations(input)[n - 1];
      assert last in multiset(out);
      var k :| 0 <= k < n && out[k] == last;
      assert out[n - 1] in multiset(InputLocations(input));
      var i :| 0 <= i < n && InputLocations(input)[i] == out[n - 1];
      AbsolutePositionGrows(input, i, n - 1);
    }
  }

  lemma LocationsStart(ts: Tokens)
    ensures LocationsOf(ts[..0]) == []
  {
  }

  lemma LocationsStep(ts: Tokens, k: nat)
    requires k < |ts|
    ensures LocationsOf(ts[..k + 1]) == LocationsOf(ts[..k]) + [Located(ts[k].attributes, ts[k].positionLength, ts[k].position)]
  {
  }

  lemma PositionsInOrder(ts: Tokens)
    requires forall i, j :: 0 <= i < j < |ts| ==> ts[i].position <= ts[j].position
    ensures forall i, j :: 0 <= i < j < |ts| ==> LocationsOf(ts)[i].position <= LocationsOf(ts)[j].position
  {
  }

  /** Three words from one position, the last but one the shortest: the promised order
      of longer spans first is not kept. */
  const UPSET := [InputToken(BLANK, 1, 3), InputToken(BLANK, 0, 1), InputToken(BLANK, 0, 2)]
  const BLANK := Attributes("", 0, 0, "word", [], 0, false)

  lemma UpsetSpans()
    ensures InputSpans(UPSET) == [Span(1, 4), Span(1, 2), Span(1, 3)]
    ensures Top(InputSpans(UPSET)) == 4 && Summit(InputSpans(UPSET), 4) == 1
  {
    assert AbsolutePosition(UPSET, 0) == 1 && AbsolutePosition(UPSET, 1) == 1 && AbsolutePosition(UPSET, 2) == 1;
    var spans := [Span(1, 4), Span(1, 2), Span(1, 3)];
    assert spans[..2][..1][..0] == [] && spans[..2][..1] == [Span(1, 4)] && spans[..2] == [Span(1, 4), Span(1, 2)];
    assert Top([Span(1, 4)]) == 4 && Top(spans[..2]) == 4;
  }

  /** Whichever span the pass stops at, this input is not orderly. */
  lemma LongestFirstCanFail(skip: nat)
    requires Stops(InputSpans(UPSET), Top(InputSpans(UPSET)), skip)
    ensures !Orderly(InputSpans(UPSET), Top(InputSpans(UPSET)), skip)
  {
    UpsetSpans();
    var spans := InputSpans(UPSET);
    assert spans[1].start == spans[2].start && spans[1].end < spans[2].end;
  }

  /** The filter delivers that input with its shortest token before a longer one. */
  method ConsumeUpset() returns (out: seq<Located>)
    ensures multiset(out) == multiset(InputLocations(UPSET)) && !SortedLocations(out)
  {
    hide Stops, Orderly, SortedLocations;
    var delivered;
    ghost var skip;
    out, delivered, skip := Consume(UPSET);
    LongestFirstCanFail(skip);
  }

  /** A stop word was removed before the second word: it stays two positions behind
      the first. */
  method ConsumeGap(first: Attributes, second: Attributes) returns (out: seq<Located>, delivered: seq<nat>)
    ensures out == [Located(first, 1, 1), Located(second, 1, 3)] && delivered == [1, 2]
  {
    hide Stops, Orderly, SortedLocations, Top, InputSpans, AbsolutePosition;
    var input := [InputToken(first, 1, 1), InputToken(second, 2, 1)];
    ghost var skip;
    out, delivered, skip := Consume(input);
    GapLocations(first, second);
    TwoInOrder(out, InputLocations(input)[0], InputLocations(input)[1]);
    assert delivered[..1] == [delivered[0]] && delivered == delivered[..1] + [delivered[1]];
    SumAppend(delivered[..1], [delivered[1]]);
    SumAppend([delivered[1]], []);
  }

  lemma GapLocations(first: Attributes, second: Attributes)
    ensures var input := [InputToken(first, 1, 1), InputToken(second, 2, 1)];
            && InputLocations(input) == [Located(first, 1, 1), Located(second, 1, 3)]
            && Sum(IncrementsOf(input)) == 3
  {
    var input := [InputToken(first, 1, 1), InputToken(second, 2, 1)];
    assert IncrementsOf(input) == [1, 2];
    assert Sum([1, 2]) == 1 + Sum([1, 2][1..]) && [1, 2][1..] == [2];
    assert AbsolutePosition(input, 1) == 3;
  }

  lemma TwoInOrder(out: seq<Located>, x: Located, y: Located)
    requires multiset(out) == multiset([x, y]) && x.position < y.position
    requires forall i, j :: 0 <= i < j < |out| ==> out[i].position <= out[j].position
    ensures out == [x, y]
  {
    assert |multiset(out)| == |out| == 2;
    assert multiset(out) == multiset{out[0], out[1]} by {
      assert out == [out[0], out[1]];
    }
    assert out[0] in multiset{x, y} && out[1] in multiset{x, y};
    assert multiset{x, y}[x] == 1 && multiset{x, y}[y] == 1;
  }
}

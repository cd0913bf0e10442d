/** LookaheadTokenFilter: any mix of peeking and reading returns the input stream.

The filter shares one set of attributes with its source: reading the source
overwrites them, CaptureState copies them and RestoreState sets them. The source
is its remaining tokens. AfterPosition does nothing in this filter, so no token is
ever inserted.
*/
module Lookahead {
  import opened Rolling
  import opened Wrappers

  /** What the attributes guarantee of any source. */
  ghost predicate WellBehaved(input: seq<Token>) {
    forall i :: 0 <= i < |input| ==> input[i].increment >= 0 && input[i].length >= 0
  }

  /** A first token without a position of its own stands before position 0. */
  predicate StartsBefore(input: seq<Token>) {
    input != [] && input[0].increment == 0
  }

  /** What a call comes to; reading a token before position 0 is a panic. */
  datatype Outcome = Got | Ended | Panicked

  function Concat(queues: seq<seq<Token>>): seq<Token> {
    if queues == [] then [] else queues[0] + Concat(queues[1..])
  }

  function Padded(queues: seq<seq<Token>>, n: nat): (padded: seq<seq<Token>>)
    ensures |padded| == |queues| + n
  {
    queues + seq(n, _ => [])
  }

  /** Positions not buffered yet add nothing. */
  lemma {:induction false} ConcatPadded(queues: seq<seq<Token>>, n: nat)
    ensures Concat(Padded(queues, n)) == Concat(queues)
  {
    if queues != [] {
      assert Padded(queues, n)[1..] == Padded(queues[1..], n);
      ConcatPadded(queues[1..], n);
    } else if n > 0 {
      assert Padded(queues, n)[1..] == Padded(queues, n - 1);
      ConcatPadded(queues, n - 1);
    }
  }

  lemma {:induction false} ConcatEmpty(queues: seq<seq<Token>>)
    requires forall j :: 0 <= j < |queues| ==> queues[j] == []
    ensures Concat(queues) == []
  {
    if queues != [] {
      ConcatEmpty(queues[1..]);
    }
  }

  /** A token added to the last position in use is the last token. */
  lemma {:induction false} ConcatAdd(queues: seq<seq<Token>>, k: nat, t: Token)
    requires k < |queues| && forall j :: k < j < |queues| ==> queues[j] == []
    ensures Concat(queues[k := queues[k] + [t]]) == Concat(queues) + [t]
  {
    var queues' := queues[k := queues[k] + [t]];
    if k == 0 {
      ConcatEmpty(queues[1..]);
      assert queues'[1..] == queues[1..];
    } else {
      ConcatAdd(queues[1..], k - 1, t);
      assert queues'[1..] == queues[1..][k - 1 := queues[1..][k - 1] + [t]];
      assert queues'[0] == queues[0];
    }
  }

  /** The tokens of a position still to be read. */
  ghost predicate Holds(p: LookaheadPosition, queue: seq<Token>)
    reads p
  {
    p.nextRead <= |p.inputTokens| && p.inputTokens[p.nextRead..] == queue
  }

  lemma ConcatHead(queues: seq<seq<Token>>)
    requires queues != [] && queues[0] != []
    ensures Concat(queues) != [] && Concat(queues)[0] == queues[0][0]
    ensures Concat(queues[0 := queues[0][1..]]) == Concat(queues)[1..]
  {
    assert queues[0 := queues[0][1..]][1..] == queues[1..];
  }

  class LookaheadTokenFilter {
    const input: seq<Token>
    const positions: RollingBuffer
    var attributes: Token
    var read: nat
    var inputPos: int
    var outputPos: nat
    var end: bool
    var tokenPending: bool
    ghost var emitted: nat
    ghost var queues: seq<seq<Token>>

    /** The buffer's window starts at the output position, and queues lists the
        unread tokens of its positions; nothing is buffered after the input position. */
    ghost predicate Buffered()
      reads this`queues, this`outputPos, this`inputPos, positions, positions.buffer, positions.Instances()
    {
      && positions.Valid() && positions.First() == outputPos && positions.count == |queues|
      && (forall k :: 0 <= k < |queues| ==> Holds(positions.At(outputPos + k), queues[k]))
      && (forall k :: 0 <= k < |queues| && outputPos + k > inputPos ==> queues[k] == [])
    }

    /** The tokens read from the source and not emitted are the buffered ones and
        then the pending one. */
    ghost predicate Synchronized()
      reads this
    {
      && WellBehaved(input) && emitted <= read <= |input|
      && (end ==> read == |input|)
      && (inputPos == -1 <==> read == 0)
      && (tokenPending ==> read > 0 && attributes == input[read - 1])
      && (read == 0 ==> outputPos == 0)
      && (read > 0 ==> outputPos <= inputPos < outputPos + |queues|)
      && Concat(queues) + (if tokenPending then [input[read - 1]] else []) == input[emitted..read]
    }

    ghost predicate Valid()
      reads this, positions, positions.buffer, positions.Instances()
    {
      Buffered() && Synchronized()
    }

    /** Buffering does not depend on what has been handed over. */
    twostate lemma BufferedStays()
      requires old(Buffered()) && unchanged(this`queues) && unchanged(this`outputPos) && unchanged(this`inputPos)
      requires unchanged(positions) && unchanged(positions.buffer)
      requires forall i :: 0 <= i < positions.buffer.Length ==> unchanged(positions.buffer[i])
      ensures Buffered()
    {
      hide RollingBuffer.Valid, RollingBuffer.At;
      assert old(positions.Valid());
      positions.StaysValid();
      positions.HasShape();
      forall k | 0 <= k < |queues|
        ensures Holds(positions.At(outputPos + k), queues[k])
      {
        assert old(Holds(positions.At(outputPos + k), queues[k]));
        positions.AtIs(outputPos + k);
      }
    }

    constructor (input: seq<Token>, attributes: Token)
      requires WellBehaved(input)
      ensures Valid() && this.input == input && emitted == read == 0 && !end
      ensures fresh(positions) && fresh(positions.Instances())
    {
      this.input, this.attributes := input, attributes;
      positions := new RollingBuffer();
      read, inputPos, outputPos, end, tokenPending := 0, -1, 0, false, false;
      emitted, queues := 0, [];
    }

    /** Looks a position up in the buffer. */
    method Fetch(pos: nat) returns (p: LookaheadPosition)
      requires Buffered() && outputPos <= pos
      modifies this`queues, positions
      ensures Buffered() && outputPos <= pos < outputPos + |queues| && p == positions.At(pos)
      ensures Extends(old(queues), queues) && p in positions.Instances()
      ensures forall q :: outputPos <= q < outputPos + |old(queues)| ==> positions.At(q) == old(positions.At(q))
      ensures fresh(positions.Instances() - old(positions.Instances()))
    {
      hide RollingBuffer.Valid, RollingBuffer.At;
      positions.HasShape();
      p := positions.Get(pos);
      positions.HasShape();
      positions.AtIs(pos);
      queues := Padded(queues, positions.count - |queues|);
      forall k | 0 <= k < |queues|
        ensures Holds(positions.At(outputPos + k), queues[k])
      {
        if k < |old(queues)| {
          assert old(positions.InBounds(outputPos + k));
          assert old(Holds(positions.At(outputPos + k), queues[k]));
        } else {
          assert positions.At(outputPos + k).Pristine();
        }
      }
    }

    /** Buffers a token at the input position. */
    method BufferToken(t: Token)
      requires Buffered() && outputPos <= inputPos
      modifies this`queues, positions, positions.Instances()
      ensures Buffered()
      ensures Added(old(queues), inputPos - outputPos, t, queues)
      ensures forall q :: outputPos <= q < outputPos + |old(queues)| ==> positions.At(q) == old(positions.At(q))
      ensures fresh(positions.Instances() - old(positions.Instances()))
    {
      hide Buffered, RollingBuffer.At;
      var p := Fetch(inputPos);
      AddToken(p, t);
    }

    method AddToken(p: LookaheadPosition, t: Token)
      requires Buffered() && outputPos <= inputPos < outputPos + |queues| && p == positions.At(inputPos)
      modifies this`queues, p
      ensures Buffered() && queues == old(queues)[inputPos - outputPos := old(queues)[inputPos - outputPos] + [t]]
      ensures forall q :: outputPos <= q < outputPos + |queues| ==> positions.At(q) == old(positions.At(q))
    {
      hide RollingBuffer.Valid, RollingBuffer.At;
      ghost var k := inputPos - outputPos;
      assert Holds(p, queues[k]);
      positions.HasShape();
      queues := queues[k := queues[k] + [t]];
      p.Add(t);
      positions.UseOf(inputPos);
      positions.HasShape();
      forall j | 0 <= j < |queues|
        ensures Holds(positions.At(outputPos + j), queues[j])
      {
        assert old(Holds(positions.At(outputPos + j), queues[j]));
        assert positions.InBounds(outputPos + j);
        if j == k {
          assert p.inputTokens[p.nextRead..] == old(p.inputTokens)[p.nextRead..] + [t];
        } else {
          assert unchanged(positions.At(outputPos + j));
        }
      }
    }

    /** Buffers the pending token. */
    method Capture()
      requires Valid() && tokenPending
      modifies this`queues, this`tokenPending, positions, positions.Instances()
      ensures Valid() && !tokenPending
      ensures |queues| >= |old(queues)| && forall k :: 0 <= k < |old(queues)| ==> old(queues[k]) <= queues[k]
      ensures forall q :: outputPos <= q < outputPos + |old(queues)| ==> positions.At(q) == old(positions.At(q))
      ensures fresh(positions.Instances() - old(positions.Instances()))
    {
      hide Buffered, Concat, WellBehaved;
      AfterInputEmpty();
      BufferToken(attributes);
      AddedConcat(old(queues), inputPos - outputPos, attributes, queues);
      tokenPending := false;
    }

    lemma AfterInputEmpty()
      requires Buffered()
      ensures forall k :: 0 <= k < |queues| && outputPos + k > inputPos ==> queues[k] == []
    {
    }

    /** The first offset seen at a position is kept. */
    method NoteOffset(ghost pos: nat, p: LookaheadPosition, offset: int, atStart: bool)
      requires Buffered() && outputPos <= pos < outputPos + |queues| && p == positions.At(pos)
      modifies p`startOffset, p`endOffset
      ensures Buffered()
      ensures p.startOffset == if atStart && old(p.startOffset) == -1 then offset else old(p.startOffset)
      ensures p.endOffset == if !atStart && old(p.endOffset) == -1 then offset else old(p.endOffset)
    {
      hide RollingBuffer.Valid, RollingBuffer.At;
      positions.HasShape();
      if atStart && p.startOffset == -1 {
        p.startOffset := offset;
      }
      if !atStart && p.endOffset == -1 {
        p.endOffset := offset;
      }
      positions.UseOf(pos);
      positions.HasShape();
      forall j | 0 <= j < |queues|
        ensures Holds(positions.At(outputPos + j), queues[j])
      {
        assert old(Holds(positions.At(outputPos + j), queues[j]));
        assert positions.InBounds(outputPos + j);
      }
    }

    /** Reads one more token of the source and leaves it pending. Of the source's two
        panics the first cannot arise, as the assertion says; the second arises on the
        first token of an input that starts before position 0. */
    method PeekToken() returns (outcome: Outcome)
      requires Valid()
      modifies this, positions, positions.Instances()
      ensures outcome.Panicked? <==> old(read) == 0 && StartsBefore(input)
      ensures !outcome.Panicked? ==> Valid() && emitted == old(emitted)
      ensures outcome.Got? ==> old(!end && read < |input|) && read == old(read) + 1 && attributes == input[old(read)] && !end
      ensures outcome.Ended? ==> old(end || read == |input|) && read == old(read) && end
      ensures fresh(positions.Instances() - old(positions.Instances()))
    {
      hide Buffered, Concat, WellBehaved;
      if end {
        return Ended;
      }
      assert !(inputPos != -1 && outputPos > inputPos);
      if tokenPending {
        Capture();
      }
      if read == |input| {
        end := true;
        return Ended;
      }
      var panicked := ReadSource();
      outcome := if panicked then Panicked else Got;
    }

    /** The source's next token becomes the current and pending one. */
    method ReadSource() returns (panicked: bool)
      requires Valid() && !tokenPending && !end && read < |input|
      modifies this`attributes, this`read, this`inputPos, this`tokenPending, this`queues, positions, positions.Instances()
      ensures panicked <==> old(read) == 0 && StartsBefore(input)
      ensures !panicked ==> Valid() && read == old(read) + 1 && attributes == input[old(read)]
      ensures fresh(positions.Instances() - old(positions.Instances()))
    {
      hide Buffered, Concat, WellBehaved;
      NextIsWellBehaved();
      attributes := input[read];
      AdvanceInput(attributes.increment);
      if inputPos < 0 {
        return true;
      }
      FetchSpan();
      assert input[emitted..read] + [attributes] == input[emitted..read + 1];
      read := read + 1;
      tokenPending := true;
      panicked := false;
    }

    lemma NextIsWellBehaved()
      requires WellBehaved(input) && read < |input|
      ensures input[read].increment >= 0 && input[read].length >= 0
    {
    }

    method AdvanceInput(increment: nat)
      requires Buffered()
      modifies this`inputPos
      ensures Buffered() && inputPos == old(inputPos) + increment
    {
      inputPos := inputPos + increment;
    }

    /** Returns the next token of the source in order, from the buffer or directly. */
    method NextToken() returns (outcome: Outcome)
      requires Valid()
      modifies this, positions, positions.Instances()
      ensures outcome.Panicked? <==> old(read) == 0 && StartsBefore(input)
      ensures !outcome.Panicked? ==> Valid() && (outcome.Got? <==> old(emitted) < |input|)
      ensures outcome.Got? ==> emitted == old(emitted) + 1 && attributes == input[old(emitted)]
      ensures outcome.Ended? ==> emitted == old(emitted) && end
      ensures fresh(positions.Instances() - old(positions.Instances()))
    {
      hide Buffered, Concat, WellBehaved, Holds, RollingBuffer.Valid, RollingBuffer.At, RollingBuffer.Shape, RollingBuffer.First;
      while true
        invariant Valid() && emitted == old(emitted) && read >= old(read)
        invariant old(read) == 0 && StartsBefore(input) ==> read == 0
        invariant fresh(positions.Instances() - old(positions.Instances()))
        decreases |input| - read, if inputPos == -1 then 0 else inputPos - outputPos
      {
        var posData := LookUpOutput();
        UnreadAtOutput(posData);
        if posData.nextRead < |posData.inputTokens| {
          BufferedIsRead();
          EmitBuffered(posData);
          return Got;
        }
        if inputPos == -1 || outputPos == inputPos {
          NothingBuffered();
          if tokenPending {
            TakePending();
            return Got;
          }
          if end {
            return Ended;
          }
          outcome := PeekToken();
          if !outcome.Got? {
            return outcome;
          }
        } else {
          MoveOn();
        }
      }
    }

    /** What is buffered has been read. */
    lemma BufferedIsRead()
      requires Valid() && queues != [] && queues[0] != []
      ensures read > 0
    {
      ConcatHead(queues);
    }

    /** A pending token must be buffered before a restored one overwrites it. */
    method EmitBuffered(posData: LookaheadPosition)
      requires Valid() && queues != [] && queues[0] != []
      requires posData == positions.At(outputPos) && posData in positions.Instances()
      modifies this`attributes, this`emitted, this`queues, this`tokenPending, positions, positions.Instances()
      ensures Valid() && attributes == input[old(emitted)] && emitted == old(emitted) + 1 && emitted <= |input|
      ensures fresh(positions.Instances() - old(positions.Instances()))
    {
      hide Buffered, Concat, WellBehaved, RollingBuffer.At;
      if tokenPending {
        Capture();
      }
      TakeBuffered(posData);
    }

    method LookUpOutput() returns (posData: LookaheadPosition)
      requires Valid()
      modifies this`queues, positions
      ensures Valid() && queues != [] && posData == positions.At(outputPos) && posData in positions.Instances()
      ensures fresh(positions.Instances() - old(positions.Instances()))
    {
      hide Buffered, Concat, WellBehaved, RollingBuffer.At;
      posData := Fetch(outputPos);
      ConcatPadded(old(queues), |queues| - |old(queues)|);
    }

    lemma UnreadAtOutput(posData: LookaheadPosition)
      requires Buffered() && queues != [] && posData == positions.At(outputPos)
      ensures posData.nextRead < |posData.inputTokens| <==> queues[0] != []
    {
      assert Holds(positions.At(outputPos + 0), queues[0]);
    }

    /** At the input position the buffer holds nothing more. */
    lemma NothingBuffered()
      requires Valid() && queues != [] && queues[0] == []
      requires inputPos == -1 || outputPos == inputPos
      ensures Concat(queues) == []
    {
      ConcatEmpty(queues);
    }

    /** Restores the next buffered token of the output position. */
    method TakeBuffered(posData: LookaheadPosition)
      requires Valid() && !tokenPending && queues != [] && posData == positions.At(outputPos)
      requires queues[0] != []
      modifies this`attributes, this`emitted, this`queues, posData
      ensures Valid() && attributes == input[old(emitted)] && emitted == old(emitted) + 1 && emitted <= |input|
    {
      hide Buffered, Concat, WellBehaved;
      ReadBuffered(posData);
      label read:
      ConcatHead(old(queues));
      assert Concat(old(queues)) + [] == input[emitted..read];
      assert input[emitted..read][1..] == input[emitted + 1..read];
      emitted := emitted + 1;
      BufferedStays@read();
      assert Concat(queues) + [] == input[emitted..read];
    }

    method ReadBuffered(posData: LookaheadPosition)
      requires Buffered() && queues != [] && posData == positions.At(outputPos)
      requires queues[0] != []
      modifies this`attributes, this`queues, posData
      ensures Buffered() && attributes == old(queues[0])[0]
      ensures queues == old(queues)[0 := old(queues[0])[1..]]
    {
      hide RollingBuffer.Valid, RollingBuffer.At;
      positions.HasShape();
      assert Holds(positions.At(outputPos + 0), queues[0]);
      queues := queues[0 := queues[0][1..]];
      attributes := posData.NextState();
      positions.UseOf(outputPos);
      positions.HasShape();
      forall j | 0 <= j < |queues|
        ensures Holds(positions.At(outputPos + j), queues[j])
      {
        assert old(Holds(positions.At(outputPos + j), queues[j]));
        assert positions.InBounds(outputPos + j);
      }
    }

    /** Hands over the pending token without buffering it. */
    method TakePending()
      requires Valid() && tokenPending && Concat(queues) == []
      modifies this`tokenPending, this`emitted
      ensures Valid() && attributes == input[old(emitted)] && emitted == old(emitted) + 1 && emitted <= |input|
    {
      hide Buffered, Concat, WellBehaved;
      assert |input[emitted..read]| == 1 && input[emitted..read][0] == input[read - 1];
      tokenPending := false;
      emitted := emitted + 1;
      BufferedStays();
      assert Concat(queues) + [] == input[emitted..read];
    }

    /** Leaves an exhausted output position and frees it. */
    method MoveOn()
      requires Valid() && queues != [] && queues[0] == [] && inputPos != -1 && outputPos < inputPos
      modifies this`outputPos, this`queues, positions, positions.Instances()
      ensures Valid() && outputPos == old(outputPos) + 1
      ensures positions.Instances() == old(positions.Instances())
    {
      hide Buffered, WellBehaved;
      FreeOutput();
    }

    method FreeOutput()
      requires Buffered() && queues != []
      modifies this`outputPos, this`queues, positions`count, positions.Instances()
      ensures Buffered() && outputPos == old(outputPos) + 1 && queues == old(queues)[1..]
      ensures positions.Instances() == old(positions.Instances())
    {
      hide RollingBuffer.Valid, RollingBuffer.At;
      positions.HasShape();
      positions.AtIs(outputPos);
      outputPos := outputPos + 1;
      queues := queues[1..];
      positions.FreeBefore(outputPos);
      positions.HasShape();
      forall j | 0 <= j < |queues|
        ensures Holds(positions.At(outputPos + j), queues[j])
      {
        assert old(Holds(positions.At(outputPos + (j + 1)), queues[j + 1]));
        assert positions.InBounds(outputPos + j);
      }
    }

    /** Looks up both ends of the current token. */
    method FetchSpan()
      requires Buffered() && 0 <= outputPos <= inputPos && attributes.length >= 0
      modifies this`queues, positions, positions.Instances()
      ensures Buffered() && inputPos < outputPos + |queues| && Concat(queues) == Concat(old(queues))
      ensures fresh(positions.Instances() - old(positions.Instances()))
    {
      hide Buffered, Concat, RollingBuffer.At;
      ghost var q0 := queues;
      var startPosData := Fetch(inputPos);
      ghost var q1 := queues;
      var endPosData := Fetch(inputPos + attributes.length);
      ConcatPadded(q0, |q1| - |q0|);
      ConcatPadded(q1, |queues| - |q1|);
      NoteOffset(inputPos, startPosData, attributes.startOffset, true);
      NoteOffset(inputPos + attributes.length, endPosData, attributes.endOffset, false);
    }

    /** Forgets what is buffered; the source starts again at its first token. */
    method Reset()
      requires Valid()
      modifies this, positions, positions.Instances()
      ensures Valid() && emitted == read == 0 && !end
      ensures fresh(positions.Instances() - old(positions.Instances()))
    {
      hide RollingBuffer.Valid, RollingBuffer.At, Holds, WellBehaved;
      positions.Reset();
      label reset:
      read, inputPos, outputPos, end, tokenPending := 0, -1, 0, false, false;
      emitted, queues := 0, [];
      positions.StaysValid@reset();
    }
  }

  datatype Call = Peek | Next | Rewind

  /** What a consumer receives who makes these calls when emitted tokens are out. */
  function Received(input: seq<Token>, calls: seq<Call>, emitted: nat): seq<Token>
    requires emitted <= |input|
  {
    if calls == [] then []
    else match calls[0]
      case Peek => Received(input, calls[1..], emitted)
      case Next => if emitted == |input| then Received(input, calls[1..], emitted)
                   else [input[emitted]] + Received(input, calls[1..], emitted + 1)
      case Rewind => Received(input, calls[1..], 0)
  }

  function Nexts(calls: seq<Call>): nat {
    if calls == [] then 0 else (if calls[0].Next? then 1 else 0) + Nexts(calls[1..])
  }

  /** However peeks and reads are mixed, the tokens received are the input, in order,
      as far as it was read. */
  lemma {:induction false} ReceivedIsInput(input: seq<Token>, calls: seq<Call>, emitted: nat)
    requires emitted <= |input| && Rewind !in calls
    ensures var n := emitted + Nexts(calls);
            Received(input, calls, emitted) == input[emitted..if n <= |input| then n else |input|]
  {
    if calls != [] {
      assert calls == [calls[0]] + calls[1..];
      var n := emitted + Nexts(calls);
      var end := if n <= |input| then n else |input|;
      if calls[0].Next? && emitted < |input| {
        ReceivedIsInput(input, calls[1..], emitted + 1);
        assert input[emitted..end] == [input[emitted]] + input[emitted + 1..end];
      } else {
        ReceivedIsInput(input, calls[1..], emitted);
      }
    }
  }

  /** Behind a reset the input comes again from the start. */
  lemma {:induction false} ReceivedAfterRewind(input: seq<Token>, before: seq<Call>, behind: seq<Call>, emitted: nat)
    requires emitted <= |input|
    ensures Received(input, before + [Rewind] + behind, emitted)
         == Received(input, before, emitted) + Received(input, behind, 0)
  {
    var calls := before + [Rewind] + behind;
    if before == [] {
      assert calls[1..] == behind;
    } else {
      assert calls[0] == before[0] && calls[1..] == before[1..] + [Rewind] + behind;
      match before[0]
      case Peek => ReceivedAfterRewind(input, before[1..], behind, emitted);
      case Next => ReceivedAfterRewind(input, before[1..], behind, if emitted < |input| then emitted + 1 else emitted);
      case Rewind => ReceivedAfterRewind(input, before[1..], behind, 0);
    }
  }

  /** Whether any call asks for a token. */
  predicate Reads(calls: seq<Call>) {
    Peek in calls || Next in calls
  }

  /** A consumer mixing peeks, reads and resets as it likes receives the tokens in order.
      None is the panic: it comes with the first read of an input that starts before
      position 0, and only then. */
  method Drive(input: seq<Token>, attributes: Token, calls: seq<Call>) returns (received: Option<seq<Token>>)
    requires WellBehaved(input)
    ensures received == if StartsBefore(input) && Reads(calls) then None else Some(Received(input, calls, 0))
  {
    hide WellBehaved, LookaheadTokenFilter.Valid;
    var filter := new LookaheadTokenFilter(input, attributes);
    var out := [];
    for i := 0 to |calls|
      invariant filter.Valid() && filter.input == input && filter.emitted <= |input|
      invariant fresh(filter) && fresh(filter.positions) && fresh(filter.positions.Instances())
      invariant StartsBefore(input) ==> filter.read == 0 && !Reads(calls[..i])
      invariant out + Received(input, calls[i..], filter.emitted) == Received(input, calls, 0)
    {
      assert calls[i..][1..] == calls[i + 1..];
      assert calls[..i + 1] == calls[..i] + [calls[i]];
      match calls[i]
      case Peek =>
        var outcome := filter.PeekToken();
        if outcome.Panicked? {
          return None;
        }
      case Next =>
        var outcome := filter.NextToken();
        if outcome.Panicked? {
          return None;
        }
        if outcome.Got? {
          out := out + [filter.attributes];
        }
      case Rewind =>
        filter.Reset();
    }
    assert calls[..|calls|] == calls && calls[|calls|..] == [] && out + [] == out;
    return Some(out);
  }

  /** More positions, not used yet. */
  ghost predicate Extends(queues: seq<seq<Token>>, queues': seq<seq<Token>>) {
    |queues| <= |queues'| && queues' == Padded(queues, |queues'| - |queues|)
  }

  /** One more token at position k, past the positions listed so far if need be. */
  ghost predicate Added(queues: seq<seq<Token>>, k: nat, t: Token, queues': seq<seq<Token>>) {
    |queues| <= |queues'| && k < |queues'| &&
    var padded := Padded(queues, |queues'| - |queues|);
    queues' == padded[k := padded[k] + [t]]
  }

  lemma AddedConcat(queues: seq<seq<Token>>, k: nat, t: Token, queues': seq<seq<Token>>)
    requires Added(queues, k, t, queues')
    requires forall j :: k < j < |queues| ==> queues[j] == []
    ensures Concat(queues') == Concat(queues) + [t]
  {
    var padded := Padded(queues, |queues'| - |queues|);
    ConcatPadded(queues, |queues'| - |queues|);
    ConcatAdd(padded, k, t);
  }
}

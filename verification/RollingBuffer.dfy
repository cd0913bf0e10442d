/** RollingBuffer: a ring of reusable instances indexed by an ever growing position.

The source is generic in the instance; the one use of it, the lookahead filter's
buffer of positions, is modelled. The abstract view is At: position to instance.
*/
module Rolling {

  datatype Token = Token(term: string, increment: int, length: int, startOffset: int, endOffset: int)

  /** All state of one position. */
  class LookaheadPosition {
    var inputTokens: seq<Token>
    var nextRead: nat
    var startOffset: int
    var endOffset: int

    ghost predicate Pristine()
      reads this
    {
      inputTokens == [] && nextRead == 0 && startOffset == -1 && endOffset == -1
    }

    constructor ()
      ensures Pristine()
    {
      inputTokens, nextRead, startOffset, endOffset := [], 0, -1, -1;
    }

    method Reset()
      modifies this
      ensures Pristine()
    {
      inputTokens, nextRead, startOffset, endOffset := [], 0, -1, -1;
    }

    method Add(state: Token)
      modifies this`inputTokens
      ensures inputTokens == old(inputTokens) + [state]
    {
      inputTokens := inputTokens + [state];
    }

    /** The source panics when every buffered token has been read. */
    method NextState() returns (state: Token)
      requires nextRead < |inputTokens|
      modifies this`nextRead
      ensures state == inputTokens[old(nextRead)] && nextRead == old(nextRead) + 1
    {
      state := inputTokens[nextRead];
      nextRead := nextRead + 1;
    }
  }

  class RollingBuffer {
    var buffer: array<LookaheadPosition>
    var nextWrite: nat
    var nextPos: nat
    var count: nat

    /** How many writes ago slot i was written, were the ring full. */
    function Age(i: nat): int
      reads this`buffer, this`nextWrite
      requires i < buffer.Length
    {
      if i < nextWrite then nextWrite - 1 - i else nextWrite - 1 - i + buffer.Length
    }

    ghost predicate Shape()
      reads this, buffer
    {
      && 0 < buffer.Length && nextWrite <= buffer.Length
      && count <= buffer.Length && count <= nextPos
      && forall i, j :: 0 <= i < j < buffer.Length ==> buffer[i] != buffer[j]
    }

    /** Slots outside the window of retained positions are ready for reuse. */
    ghost predicate Valid()
      reads this, buffer, Instances()
    {
      Shape() && forall i :: 0 <= i < buffer.Length && Age(i) >= count ==> buffer[i].Pristine()
    }

    ghost function Instances(): set<LookaheadPosition>
      reads this`buffer, buffer
    {
      set i | 0 <= i < buffer.Length :: buffer[i]
    }

    function IndexOf(pos: int): int
      reads this`buffer, this`nextWrite, this`nextPos
    {
      var idx := nextWrite - (nextPos - pos);
      if idx < 0 then idx + buffer.Length else idx
    }

    /** The earliest position retained. */
    function First(): int
      reads this
    {
      nextPos - count
    }

    predicate InBounds(pos: int)
      reads this
    {
      First() <= pos < nextPos
    }

    /** The instance of a retained position. */
    ghost function At(pos: int): LookaheadPosition
      reads this, buffer
      requires Shape() && InBounds(pos)
    {
      buffer[IndexOf(pos)]
    }

    lemma AtIs(pos: int)
      requires Shape() && InBounds(pos)
      ensures 0 <= IndexOf(pos) < buffer.Length && buffer[IndexOf(pos)] == At(pos)
      ensures At(pos) in Instances()
    {
    }

    lemma HasShape()
      requires Valid()
      ensures Shape()
    {
    }

    lemma NextIndex(pos: int)
      requires Shape() && InBounds(pos) && InBounds(pos + 1)
      ensures IndexOf(pos + 1) == if IndexOf(pos) + 1 == buffer.Length then 0 else IndexOf(pos) + 1
    {
    }

    /** Using the instance of one position disturbs neither the others nor the ring. */
    twostate lemma UseOf(pos: int)
      requires old(Valid()) && old(InBounds(pos)) && unchanged(this) && unchanged(buffer)
      requires forall i :: 0 <= i < buffer.Length && buffer[i] != old(At(pos)) ==> unchanged(buffer[i])
      ensures Valid()
      ensures forall q :: InBounds(q) ==> At(q) == old(At(q)) && (q != pos ==> unchanged(At(q)))
    {
      forall q | InBounds(q) && q != pos
        ensures At(q) != At(pos)
      {
      }
      forall i | 0 <= i < buffer.Length && Age(i) >= count
        ensures buffer[i].Pristine()
      {
        assert old(Age(i)) == Age(i);
      }
    }

    twostate lemma StaysValid()
      requires old(Valid()) && unchanged(this) && unchanged(buffer)
      requires forall i :: 0 <= i < buffer.Length ==> unchanged(buffer[i])
      ensures Valid()
    {
      forall i | 0 <= i < buffer.Length && Age(i) >= count
        ensures buffer[i].Pristine()
      {
        assert old(Age(i)) == Age(i);
      }
    }

    constructor ()
      ensures Valid() && nextPos == count == 0
      ensures fresh(buffer) && fresh(Instances())
    {
      var instances := NewInstances(8);
      nextWrite, nextPos, count := 0, 0, 0;
      buffer := new LookaheadPosition[8](i requires 0 <= i < 8 => instances[i]);
      new;
      assert forall i :: 0 <= i < buffer.Length ==> buffer[i] == instances[i];
    }

    /** Doubles as the source's factory loop: n new instances. */
    static method NewInstances(n: nat) returns (instances: seq<LookaheadPosition>)
      ensures |instances| == n && forall i :: 0 <= i < n ==> fresh(instances[i]) && instances[i].Pristine()
      ensures forall i, j :: 0 <= i < j < n ==> instances[i] != instances[j]
    {
      instances := [];
      for k := 0 to n
        invariant |instances| == k
        invariant forall i :: 0 <= i < k ==> fresh(instances[i]) && instances[i].Pristine()
        invariant forall i, j :: 0 <= i < j < k ==> instances[i] != instances[j]
      {
        var instance := new LookaheadPosition();
        instances := instances + [instance];
      }
    }

    /** A full ring is laid out from its oldest position in a larger buffer. */
    method Grow()
      requires Valid() && count == buffer.Length
      modifies this`buffer, this`nextWrite
      ensures Valid() && count < buffer.Length && fresh(buffer)
      ensures fresh(Instances() - old(Instances()))
      ensures forall p :: old(InBounds(p)) ==> At(p) == old(At(p))
    {
      var newLen := Oversize(1 + count);
      var extra := NewInstances(newLen - buffer.Length);
      var all := buffer[nextWrite..] + buffer[..nextWrite] + extra;
      RotationIsDistinct(buffer[..], nextWrite, extra);
      var newBuffer := new LookaheadPosition[newLen](i requires 0 <= i < newLen => all[i]);
      assert forall i :: 0 <= i < newLen ==> newBuffer[i] == all[i];
      nextWrite := buffer.Length;
      buffer := newBuffer;
      forall p | old(InBounds(p))
        ensures At(p) == old(At(p))
      {
        assert IndexOf(p) == p - First();
      }
    }

    static lemma RotationIsDistinct(s: seq<LookaheadPosition>, k: nat, extra: seq<LookaheadPosition>)
      requires k <= |s| && forall i, j :: 0 <= i < j < |s| ==> s[i] != s[j]
      requires forall i, j :: 0 <= i < j < |extra| ==> extra[i] != extra[j]
      requires forall i, j :: 0 <= i < |s| && 0 <= j < |extra| ==> s[i] != extra[j]
      ensures var all := s[k..] + s[..k] + extra;
              forall i, j :: 0 <= i < j < |all| ==> all[i] != all[j]
    {
    }

    /** One more position enters the window. */
    method Advance()
      requires Valid()
      modifies this
      ensures Valid() && nextPos == old(nextPos) + 1 && count == old(count) + 1
      ensures buffer == old(buffer) || fresh(buffer)
      ensures fresh(Instances() - old(Instances()))
      ensures forall p :: old(InBounds(p)) ==> At(p) == old(At(p))
      ensures At(old(nextPos)).Pristine()
    {
      hide At, IndexOf;
      if count == buffer.Length {
        Grow();
      }
      Write();
    }

    method Write()
      requires Valid() && count < buffer.Length
      modifies this`nextWrite, this`nextPos, this`count
      ensures Valid() && nextPos == old(nextPos) + 1 && count == old(count) + 1
      ensures forall p :: old(InBounds(p)) ==> At(p) == old(At(p))
      ensures At(old(nextPos)).Pristine()
    {
      if nextWrite == buffer.Length {
        nextWrite := 0;
      }
      assert Age(nextWrite) >= count;
      nextWrite := nextWrite + 1;
      nextPos := nextPos + 1;
      count := count + 1;
    }

    /** The instance for a position at or after the window's first; positions not
        looked up before enter the window pristine. The source panics on an earlier
        position. */
    method Get(pos: nat) returns (instance: LookaheadPosition)
      requires Valid() && First() <= pos
      modifies this
      ensures Valid() && InBounds(pos) && instance == At(pos)
      ensures First() == old(First()) && nextPos == if old(nextPos) <= pos then pos + 1 else old(nextPos)
      ensures buffer == old(buffer) || fresh(buffer)
      ensures fresh(Instances() - old(Instances()))
      ensures forall p :: old(InBounds(p)) ==> At(p) == old(At(p))
      ensures forall p :: old(nextPos) <= p < nextPos ==> At(p).Pristine()
    {
      hide At, IndexOf;
      while pos >= nextPos
        invariant Valid() && First() == old(First())
        invariant old(nextPos) <= nextPos && (nextPos <= pos + 1 || nextPos == old(nextPos))
        invariant buffer == old(buffer) || fresh(buffer)
        invariant fresh(Instances() - old(Instances()))
        invariant forall p :: old(InBounds(p)) ==> At(p) == old(At(p))
        invariant forall p :: old(nextPos) <= p < nextPos ==> At(p).Pristine()
        decreases pos - nextPos
      {
        label before:
        Advance();
        forall p | old(nextPos) <= p < nextPos
          ensures At(p).Pristine()
        {
          if p < nextPos - 1 {
            assert old@before(InBounds(p)) && old@before(At(p).Pristine());
            assert At(p) == old@before(At(p));
          }
        }
      }
      AtIs(pos);
      instance := buffer[IndexOf(pos)];
    }

    function OldestIndex(): (index: nat)
      reads this, buffer
      requires Shape()
      ensures index <= buffer.Length
      ensures count > 0 ==> (if index == buffer.Length then 0 else index) == IndexOf(First())
    {
      if nextWrite - count < 0 then nextWrite - count + buffer.Length else nextWrite - count
    }

    /** Distinct positions have distinct instances. */
    lemma AtIsInjective(p: int, q: int)
      requires Shape() && InBounds(p) && InBounds(q) && p != q
      ensures At(p) != At(q)
    {
    }

    /** Drops the positions before pos; the source panics outside the window. */
    method FreeBefore(pos: nat)
      requires Valid() && First() <= pos <= nextPos
      modifies this`count, set p | First() <= p < pos :: At(p)
      ensures Valid() && First() == pos
      ensures forall p :: InBounds(p) ==> At(p) == old(At(p)) && unchanged(At(p))
    {
      hide Age;
      var toFree := count - (nextPos - pos);
      var index := OldestIndex();
      forall p, q | pos <= p < nextPos && First() <= q < pos
        ensures At(p) != At(q)
      {
        AtIsInjective(p, q);
      }
      ResetSlots(index, toFree, set p | First() <= p < pos :: At(p));
      FreedSlots(toFree);
      count := count - toFree;
    }

    /** Resets the slots of the earliest positions, around the end of the ring. */
    method ResetSlots(start: nat, toFree: nat, ghost freed: set<LookaheadPosition>)
      requires Valid() && toFree <= count && start <= buffer.Length
      requires toFree > 0 ==> (if start == buffer.Length then 0 else start) == IndexOf(First())
      requires forall p :: First() <= p < First() + toFree ==> At(p) in freed
      modifies freed
      ensures Valid() && forall p :: First() <= p < First() + toFree ==> At(p).Pristine()
    {
      hide Age, IndexOf, At;
      var index := start;
      for i := 0 to toFree
        invariant 0 <= index <= buffer.Length
        invariant i < toFree ==> (if index == buffer.Length then 0 else index) == IndexOf(First() + i)
        invariant forall p :: First() <= p < First() + i ==> At(p).Pristine()
        invariant Valid()
      {
        if index == buffer.Length {
          index := 0;
        }
        AtIs(First() + i);
        if i + 1 < toFree {
          NextIndex(First() + i);
        }
        buffer[index].Reset();
        index := index + 1;
      }
    }

    /** Empties the window, from the latest position back, and starts again at 0. */
    method Reset()
      requires Valid()
      modifies this`nextWrite, this`nextPos, this`count, Instances()
      ensures Valid() && nextPos == count == 0 && Instances() == old(Instances())
    {
      var write := nextWrite - 1;
      var left := count;
      while left > 0
        invariant 0 <= left <= count
        invariant -1 <= write < buffer.Length
        invariant left > 0 ==> Age(if write == -1 then buffer.Length - 1 else write) == count - left
        invariant Shape()
        invariant forall i :: 0 <= i < buffer.Length && (Age(i) >= count || Age(i) < count - left) ==> buffer[i].Pristine()
      {
        if write == -1 {
          write := buffer.Length - 1;
        }
        buffer[write].Reset();
        write := write - 1;
        left := left - 1;
      }
      nextWrite, nextPos, count := 0, 0, 0;
    }

    /** Slots that leave the window with the freed positions. */
    lemma FreedSlots(toFree: nat)
      requires Valid() && toFree <= count
      requires forall p :: First() <= p < First() + toFree ==> At(p).Pristine()
      ensures forall i :: 0 <= i < buffer.Length && Age(i) >= count - toFree ==> buffer[i].Pristine()
    {
      forall i | 0 <= i < buffer.Length && Age(i) >= count - toFree
        ensures buffer[i].Pristine()
      {
        if Age(i) < count {
          var p := nextPos - 1 - Age(i);
          assert IndexOf(p) == i && buffer[i] == At(p);
        }
      }
    }
  }

  /** The growth policy: an eighth more than asked for, and at least three. */
  function Oversize(minTargetSize: nat): (size: nat)
    ensures size > minTargetSize || minTargetSize == 0
    ensures minTargetSize > 0 ==> size >= minTargetSize + 3
    ensures minTargetSize >= 32 ==> 8 * (size - minTargetSize) <= minTargetSize < 8 * (size - minTargetSize) + 8
    ensures 0 < minTargetSize < 32 ==> size == minTargetSize + 3
  {
    if minTargetSize == 0 then 0
    else minTargetSize + if minTargetSize / 8 < 3 then 3 else minTargetSize / 8
  }
}

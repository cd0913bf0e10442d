/** Deleting from and inserting into a buffer of code points in place.

The first length entries of the buffer are in use; what lies behind them is left
over from earlier deletions.
*/
module RuneBuffer {

  type Rune = r: int | 0 <= r < 0x11_0000

  /** Shifts the entries behind pos one place down. */
  method Delete(s: array<Rune>, pos: int, length: nat) returns (newLength: nat)
    requires length <= s.Length
    modifies s
    ensures newLength == if 0 <= pos < length then length - 1 else length
    ensures 0 <= pos < length ==> s[..newLength] == old(s[..pos] + s[pos + 1..length])
    ensures !(0 <= pos < length) ==> s[..] == old(s[..])
  {
    if pos < 0 || pos >= length {
      return length;
    }
    for k := pos to length - 1
      invariant forall j :: 0 <= j < pos || k <= j < length ==> s[j] == old(s[j])
      invariant forall j :: pos <= j < k ==> s[j] == old(s[j + 1])
    {
      s[k] := s[k + 1];
    }
    newLength := length - 1;
  }

  /** Makes room for one more entry at the end, as append does. */
  method Append(s: array<Rune>, r: Rune) returns (t: array<Rune>)
    ensures fresh(t) && t[..] == s[..] + [r]
  {
    t := new Rune[s.Length + 1](i requires 0 <= i <= s.Length reads s => if i < s.Length then s[i] else r);
  }

  /** Shifts the entries from pos on one place up. */
  method ShiftUp(s: array<Rune>, pos: nat, length: nat)
    requires pos <= length < s.Length
    modifies s
    ensures s[..pos] == old(s[..pos]) && s[pos + 1..length + 1] == old(s[pos..length])
  {
    var k := length;
    while k > pos
      invariant pos <= k <= length
      invariant forall j :: 0 <= j < k ==> s[j] == old(s[j])
      invariant forall j :: k < j <= length ==> s[j] == old(s[j - 1])
    {
      s[k] := s[k - 1];
      k := k - 1;
    }
  }
}

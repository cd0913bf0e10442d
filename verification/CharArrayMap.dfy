/** CharArrayMap: an open-addressed hash map from rune slices to values, with
optional case folding, double hashing and growth by doubling.

The ghost field entries is the abstract map; every method is stated on it.
A Go string is the sequence of its runes. A nil slot is None; the rune slices
the source shares with its callers are values here, and a method that lower-cases
its argument in place returns the new contents.
*/
module CharMap {
  import opened Wrappers
  import opened PowersOfTwo
  import opened ProbeTable

  const INIT_SIZE: nat := 8

  /** unicode.ToLower, of which only idempotence is used. */
  function ToLower(lower: Rune -> Rune, r: Rune): Rune {
    lower(r)
  }

  ghost predicate Idempotent(lower: Rune -> Rune) {
    forall r :: ToLower(lower, ToLower(lower, r)) == ToLower(lower, r)
  }

  function FoldKey(ignoreCase: bool, lower: Rune -> Rune, key: Key): (folded: Key)
    ensures |folded| == |key|
  {
    if ignoreCase then seq(|key|, i requires 0 <= i < |key| => ToLower(lower, key[i])) else key
  }

  /** Every rune of a key is folded, or none is. */
  lemma FoldsEveryRune(ignoreCase: bool, lower: Rune -> Rune, key: Key, i: nat)
    requires i < |key|
    ensures FoldKey(ignoreCase, lower, key)[i] == if ignoreCase then lower(key[i]) else key[i]
  {
  }

  /** Two keys are one exactly when they agree, rune by rune, after folding. */
  lemma SameKeyExactly(ignoreCase: bool, lower: Rune -> Rune, a: Key, b: Key)
    ensures FoldKey(ignoreCase, lower, a) == FoldKey(ignoreCase, lower, b)
       <==> |a| == |b| && forall i :: 0 <= i < |a| ==> SameRune(ignoreCase, lower, a[i], b[i])
  {
    if FoldKey(ignoreCase, lower, a) == FoldKey(ignoreCase, lower, b) {
      forall i | 0 <= i < |a|
        ensures SameRune(ignoreCase, lower, a[i], b[i])
      {
        FoldsEveryRune(ignoreCase, lower, a, i);
        FoldsEveryRune(ignoreCase, lower, b, i);
      }
    }
    if |a| == |b| && forall i :: 0 <= i < |a| ==> SameRune(ignoreCase, lower, a[i], b[i]) {
      forall i | 0 <= i < |a|
        ensures FoldKey(ignoreCase, lower, a)[i] == FoldKey(ignoreCase, lower, b)[i]
      {
        FoldsEveryRune(ignoreCase, lower, a, i);
        FoldsEveryRune(ignoreCase, lower, b, i);
      }
    }
  }

  predicate SameRune(ignoreCase: bool, lower: Rune -> Rune, r: Rune, s: Rune) {
    r == s || (ignoreCase && lower(r) == lower(s))
  }

  class CharArrayMap<V> {
    const ignoreCase: bool
    const lower: Rune -> Rune
    const zero: V
    var count: nat
    var keys: array<Option<Key>>
    var values: array<V>
    ghost var entries: map<Key, V>

    /** What a search relies on. */
    ghost predicate Searchable()
      reads this, keys
    {
      && Idempotent(lower)
      && WellPlaced(keys[..])
      && forall k {:trigger IsFolded(k)} :: k in KeySet(keys[..]) ==> IsFolded(k)
    }

    /** What every reachable table satisfies, apart from the load bound. */
    ghost predicate Consistent()
      reads this, keys, values
    {
      && Searchable()
      && keys.Length >= INIT_SIZE
      && (keys as object) != (values as object)
      && Represents(keys[..], values[..], entries)
      && count == |entries|
    }

    ghost predicate Valid()
      reads this, keys, values
    {
      Consistent() && count + count / 4 <= keys.Length
    }

    /** The form in which a key is stored and compared. */
    function Fold(key: Key): Key {
      FoldKey(ignoreCase, lower, key)
    }

    /** Stored keys are in the form that Fold produces. */
    ghost predicate IsFolded(key: Key) {
      Fold(key) == key
    }

    lemma FoldIdempotent(key: Key)
      requires Idempotent(lower)
      ensures Fold(Fold(key)) == Fold(key)
    {
      if ignoreCase {
        var once := Fold(key);
        var twice := Fold(once);
        forall i | 0 <= i < |key|
          ensures twice[i] == once[i]
        {
          assert once[i] == ToLower(lower, key[i]) && twice[i] == ToLower(lower, once[i]);
        }
        assert twice == once;
      }
    }

    lemma FreeSlot()
      requires Valid()
      ensures HasFreeSlot(keys[..])
    {
      LoadBoundLeavesSlot(keys[..]);
    }

    constructor (startSize: int, ignoreCase: bool, lower: Rune -> Rune, zero: V)
      requires Idempotent(lower)
      ensures Valid() && fresh(keys) && fresh(values)
      ensures this.ignoreCase == ignoreCase && this.lower == lower && this.zero == zero
      ensures entries == map[]
      ensures startSize + startSize / 4 <= keys.Length
    {
      var size := INIT_SIZE;
      assert Pow2(3) == size;
      while startSize + startSize / 4 > size
        invariant size >= INIT_SIZE && PowerOfTwo(size)
        decreases startSize + startSize / 4 - size
      {
        Doubling(size);
        size := size * 2;
      }
      this.ignoreCase, this.lower, this.zero := ignoreCase, lower, zero;
      count := 0;
      keys := new Option<Key>[size](_ => None);
      values := new V[size](_ => zero);
      entries := map[];
      new;
      EmptyTable(keys[..], values[..]);
    }

    method Clear()
      requires Valid()
      modifies this`count, this`entries, keys, values
      ensures Valid() && entries == map[]
    {
      count := 0;
      entries := map[];
      for i := 0 to keys.Length
        invariant forall s :: 0 <= s < i ==> keys[s] == None
        modifies keys
      {
        keys[i] := None;
      }
      for i := 0 to values.Length
        invariant forall s :: 0 <= s < keys.Length ==> keys[s] == None
        modifies values
      {
        values[i] := zero;
      }
      EmptyTable(keys[..], values[..]);
    }

    method GetHashCode(text: Key, off: nat, length: nat) returns (code: int)
      requires off + length <= |text|
      ensures code == HashOf(Fold(text[off..off + length]))
    {
      code := 0;
      ghost var folded := Fold(text[off..off + length]);
      if ignoreCase {
        for i := off to off + length
          invariant code == HashOf(folded[..i - off])
        {
          assert folded[..i - off + 1][..i - off] == folded[..i - off];
          code := code * 31 + ToLower(lower, text[i]);
        }
      } else {
        for i := off to off + length
          invariant code == HashOf(folded[..i - off])
        {
          assert folded[..i - off + 1][..i - off] == folded[..i - off];
          code := code * 31 + text[i];
        }
      }
      assert folded[..length] == folded;
    }

    method GetHashCodeString(text: Key) returns (code: int)
      ensures code == HashOf(Fold(text))
    {
      ghost var folded := Fold(text);
      if text == [] {
        return 0;
      }
      code := 0;
      if ignoreCase {
        for i := 0 to |text|
          invariant code == HashOf(folded[..i])
        {
          assert folded[..i + 1][..i] == folded[..i];
          code := code * 31 + ToLower(lower, text[i]);
        }
      } else {
        for i := 0 to |text|
          invariant code == HashOf(folded[..i])
        {
          assert folded[..i + 1][..i] == folded[..i];
          code := code * 31 + text[i];
        }
      }
      assert folded[..|text|] == folded;
    }

    method EqualsRunes(text1: Key, off: nat, length: nat, text2: Key) returns (same: bool)
      requires off + length <= |text1|
      ensures same <==> Fold(text1[off..off + length]) == text2
    {
      ghost var folded := Fold(text1[off..off + length]);
      if length != |text2| {
        return false;
      }
      if ignoreCase {
        for i := 0 to length
          invariant forall h :: 0 <= h < i ==> folded[h] == text2[h]
        {
          if ToLower(lower, text1[off + i]) != text2[i] {
            assert folded[i] != text2[i];
            return false;
          }
        }
      } else {
        for i := 0 to length
          invariant forall h :: 0 <= h < i ==> folded[h] == text2[h]
        {
          if text1[off + i] != text2[i] {
            assert folded[i] != text2[i];
            return false;
          }
        }
      }
      return true;
    }

    /** Folds both sides, unlike EqualsRunes; the same test on stored keys. */
    method EqualsString(text1: Key, text2: Key) returns (same: bool)
      requires Fold(text2) == text2
      ensures same <==> Fold(text1) == text2
    {
      ghost var folded := Fold(text1);
      if |text1| != |text2| {
        return false;
      }
      if ignoreCase {
        for i := 0 to |text1|
          invariant forall h :: 0 <= h < i ==> folded[h] == text2[h]
        {
          assert Fold(text2)[i] == ToLower(lower, text2[i]);
          if ToLower(lower, text1[i]) != ToLower(lower, text2[i]) {
            assert folded[i] != text2[i];
            return false;
          }
        }
      } else {
        for i := 0 to |text1|
          invariant forall h :: 0 <= h < i ==> folded[h] == text2[h]
        {
          if text1[i] != text2[i] {
            assert folded[i] != text2[i];
            return false;
          }
        }
      }
      return true;
    }

    /** Whether the search for a rune slice ends at a slot: it is free or holds the key. */
    method EndsAt(text: Key, off: nat, length: nat, pos: nat, ghost key: Key) returns (ends: bool)
      requires Searchable() && pos < keys.Length && off + length <= |text|
      requires key == Fold(text[off..off + length])
      ensures ends <==> keys[pos] == None || keys[pos] == Some(key)
    {
      var text2 := keys[pos];
      if text2.None? {
        return true;
      }
      ends := EqualsRunes(text, off, length, text2.value);
    }

    /** The probe loop on a rune slice: it terminates at the key's own slot when
        the key is stored and at a free slot otherwise. */
    method GetSlot(text: Key, off: nat, length: nat) returns (pos: nat)
      requires Searchable() && HasFreeSlot(keys[..]) && off + length <= |text|
      ensures pos < keys.Length
      ensures pos == LookupSlot(keys[..], Fold(text[off..off + length]))
      ensures keys[pos] == if Fold(text[off..off + length]) in KeySet(keys[..])
                           then Some(Fold(text[off..off + length])) else None
    {
      var code := GetHashCode(text, off, length);
      pos := Probe(text, off, length, code, Fold(text[off..off + length]));
    }

    method Probe(text: Key, off: nat, length: nat, hash: int, ghost key: Key) returns (pos: nat)
      requires Searchable() && HasFreeSlot(keys[..]) && off + length <= |text|
      requires key == Fold(text[off..off + length]) && hash == HashOf(key)
      ensures pos < keys.Length && pos == LookupSlot(keys[..], key)
      ensures keys[pos] == if key in KeySet(keys[..]) then Some(key) else None
    {
      ghost var ks, j := keys[..], 0;
      var code := hash;
      pos := code % keys.Length;
      var ends := EndsAt(text, off, length, pos, key);
      SearchTerminates(ks, key);
      ghost var stop := FirstStop(ks, key, 0);
      if !ends {
        var inc := WithLowBit(code / 256 + code);
        while !ends
          invariant pos == ProbeAt(HashOf(key), |ks|, j) && code == ProbeCode(HashOf(key), j)
          invariant j <= stop
          invariant ends <==> Stops(ks, key, j)
          decreases stop - j, !ends
        {
          code, j := code + inc, j + 1;
          pos := code % keys.Length;
          ends := EndsAt(text, off, length, pos, key);
        }
      }
      SearchEnds(ks, key, j);
    }

    /** Whether the search for a string ends at a slot. */
    method EndsAtString(text: Key, pos: nat) returns (ends: bool)
      requires Searchable() && pos < keys.Length
      ensures ends <==> keys[pos] == None || keys[pos] == Some(Fold(text))
    {
      var text2 := keys[pos];
      if text2.None? {
        return true;
      }
      assert keys[..][pos] == text2 && IsFolded(text2.value);
      ends := EqualsString(text, text2.value);
    }

    /** The probe loop on a string ends at the same slot as on its runes. */
    method GetSlotString(text: Key) returns (pos: nat)
      requires Searchable() && HasFreeSlot(keys[..])
      ensures pos < keys.Length
      ensures pos == LookupSlot(keys[..], Fold(text))
      ensures keys[pos] == if Fold(text) in KeySet(keys[..]) then Some(Fold(text)) else None
    {
      ghost var key, ks, j := Fold(text), keys[..], 0;
      var code := GetHashCodeString(text);
      pos := code % keys.Length;
      var ends := EndsAtString(text, pos);
      SearchTerminates(ks, key);
      ghost var stop := FirstStop(ks, key, 0);
      if !ends {
        var inc := WithLowBit(code / 256 + code);
        while !ends
          invariant pos == ProbeAt(HashOf(key), |ks|, j) && code == ProbeCode(HashOf(key), j)
          invariant j <= stop
          invariant ends <==> Stops(ks, key, j)
          decreases stop - j, !ends
        {
          code, j := code + inc, j + 1;
          pos := code % keys.Length;
          ends := EndsAtString(text, pos);
        }
      }
      SearchEnds(ks, key, j);
    }

    method ContainsKey(text: Key, off: nat, length: nat) returns (present: bool)
      requires Valid() && off + length <= |text|
      ensures present <==> Fold(text[off..off + length]) in entries
    {
      FreeSlot();
      LookupRepresents(keys[..], values[..], entries, Fold(text[off..off + length]));
      var slot := GetSlot(text, off, length);
      present := keys[slot].Some?;
    }

    method ContainsKeyString(text: Key) returns (present: bool)
      requires Valid()
      ensures present <==> Fold(text) in entries
    {
      FreeSlot();
      LookupRepresents(keys[..], values[..], entries, Fold(text));
      var slot := GetSlotString(text);
      present := keys[slot].Some?;
    }

    method Get(text: Key, off: nat, length: nat) returns (value: V)
      requires Valid() && off + length <= |text|
      ensures var key := Fold(text[off..off + length]);
              value == if key in entries then entries[key] else zero
    {
      FreeSlot();
      LookupRepresents(keys[..], values[..], entries, Fold(text[off..off + length]));
      var slot := GetSlot(text, off, length);
      value := if keys[slot].None? then zero else values[slot];
    }

    method GetString(text: Key) returns (value: V)
      requires Valid()
      ensures value == if Fold(text) in entries then entries[Fold(text)] else zero
    {
      FreeSlot();
      LookupRepresents(keys[..], values[..], entries, Fold(text));
      var slot := GetSlotString(text);
      value := if keys[slot].None? then zero else values[slot];
    }

    /** Returns the previous value, or zero, and the contents of the caller's
        slice afterwards. */
    method PutRunes(text: Key, value: V) returns (previous: V, text': Key)
      requires Valid()
      modifies this, keys, values
      ensures Valid()
      ensures keys == old(keys) || fresh(keys)
      ensures values == old(values) || fresh(values)
      ensures text' == Fold(text)
      ensures previous == if text' in old(entries) then old(entries)[text'] else zero
      ensures entries == old(entries)[text' := value]
    {
      text' := text;
      if ignoreCase {
        text' := ToLowerRunes(text', 0, |text'|);
      }
      assert text' == Fold(text);
      FoldIdempotent(text);
      previous := PutFolded(text', value);
    }

    method PutFolded(text: Key, value: V) returns (previous: V)
      requires Valid() && Fold(text) == text
      modifies this`count, this`keys, this`values, this`entries, keys, values
      ensures Valid()
      ensures keys == old(keys) || fresh(keys)
      ensures values == old(values) || fresh(values)
      ensures previous == if text in old(entries) then old(entries)[text] else zero
      ensures entries == old(entries)[text := value]
    {
      FreeSlot();
      LookupRepresents(keys[..], values[..], entries, text);
      assert text[0..0 + |text|] == text;
      var slot := GetSlot(text, 0, |text|);
      if keys[slot].Some? {
        previous := values[slot];
        Overwrite(slot, text, value);
        return;
      }
      previous := zero;
      Store(slot, text, value);
      if count + count / 4 > keys.Length {
        Rehash();
      }
    }

    /** Replaces the value of a stored key. */
    method Overwrite(slot: nat, key: Key, value: V)
      requires Valid() && HasFreeSlot(keys[..]) && key in entries
      requires slot == LookupSlot(keys[..], key)
      modifies this`entries, values
      ensures Valid() && entries == old(entries)[key := value]
    {
      ReplaceRepresents(keys[..], values[..], entries, key, value);
      values[slot] := value;
      assert values[..] == old(values[..])[slot := value];
      entries := entries[key := value];
    }

    /** Puts a new key into the free slot where its search ended. */
    method Store(slot: nat, key: Key, value: V)
      requires Consistent() && HasFreeSlot(keys[..]) && key !in entries && Fold(key) == key
      requires slot == LookupSlot(keys[..], key)
      modifies this`entries, this`count, keys, values
      ensures Consistent() && entries == old(entries)[key := value]
      ensures count == old(count) + 1
    {
      InsertRepresents(keys[..], values[..], entries, key, value);
      keys[slot] := Some(key);
      values[slot] := value;
      count := count + 1;
      entries := entries[key := value];
      assert keys[..] == old(keys[..])[slot := Some(key)];
      assert values[..] == old(values[..])[slot := value];
      assert forall k :: k in KeySet(keys[..]) ==> k in entries;
    }

    method ToLowerRunes(runes: Key, off: nat, length: nat) returns (runes': Key)
      ensures |runes'| == |runes|
      ensures forall i :: 0 <= i < |runes| ==>
                runes'[i] == if off <= i < off + length then ToLower(lower, runes[i]) else runes[i]
    {
      runes' := runes;
      var i := off;
      while i < off + length && i < |runes|
        invariant off <= i <= off + length && |runes'| == |runes|
        invariant forall h :: 0 <= h < |runes| ==>
                    runes'[h] == if off <= h < i then ToLower(lower, runes[h]) else runes[h]
      {
        runes' := runes'[i := ToLower(lower, runes'[i])];
        i := i + 1;
      }
    }

    /** Doubles the table and restores the load bound; no lookup changes. */
    method Rehash()
      requires Consistent()
      requires count - 1 + (count - 1) / 4 <= keys.Length
      modifies this`keys, this`values
      ensures Valid() && fresh(keys) && fresh(values)
      ensures keys.Length == 2 * old(keys.Length)
      ensures entries == old(entries)
    {
      var oldKeys, oldValues := keys, values;
      ghost var ks, vs := oldKeys[..], oldValues[..];
      ghost var part: map<Key, V> := map[];
      Allocate(2 * keys.Length);
      for i := 0 to oldKeys.Length
        invariant oldKeys[..] == ks && oldValues[..] == vs
        invariant fresh(keys) && fresh(values) && keys.Length == 2 * oldKeys.Length
        invariant (keys as object) != (values as object)
        invariant Searchable() && Represents(keys[..], values[..], part)
        invariant part.Keys == KeysBelow(ks, i)
        invariant forall k :: k in part ==> k in entries && part[k] == entries[k]
        modifies keys, values
      {
        var text := oldKeys[i];
        KeysBelowStep(ks, i);
        if text.Some? {
          RoomFor(ks, i, keys[..]);
          assert Carries(ks, vs, entries, i) && IsFolded(text.value);
          Reinsert(text.value, oldValues[i], part);
          part := part[text.value := oldValues[i]];
        }
      }
      KeysBelowAll(ks);
      assert part == entries;
    }

    method Allocate(newSize: nat)
      requires Searchable() && newSize == 2 * keys.Length
      modifies this`keys, this`values
      ensures fresh(keys) && fresh(values) && keys.Length == newSize
      ensures (keys as object) != (values as object)
      ensures Searchable() && Represents(keys[..], values[..], map[])
    {
      Doubling(keys.Length);
      keys := new Option<Key>[newSize](_ => None);
      values := new V[newSize](_ => zero);
      EmptyTable(keys[..], values[..]);
      assert KeySet(keys[..]) == {};
    }

    /** The next key of the old table is new to the larger one, which has room. */
    lemma RoomFor(ks: Slots, i: nat, larger: Slots)
      requires WellPlaced(ks) && i < |ks| && ks[i].Some?
      requires WellPlaced(larger) && |larger| > |ks|
      requires KeySet(larger) == KeysBelow(ks, i)
      ensures HasFreeSlot(larger) && ks[i].value !in KeySet(larger)
      ensures ks[i].value in KeySet(ks)
    {
      FreshKey(ks, i);
      KeyCount(ks, i);
      SpareSlot(larger);
    }

    /** Puts an old key into the slot its search finds in the new table. */
    method Reinsert(key: Key, value: V, ghost part: map<Key, V>)
      requires Searchable() && HasFreeSlot(keys[..]) && Fold(key) == key
      requires (keys as object) != (values as object)
      requires Represents(keys[..], values[..], part) && key !in part
      modifies keys, values
      ensures Searchable() && Represents(keys[..], values[..], part[key := value])
    {
      InsertRepresents(keys[..], values[..], part, key, value);
      assert key[0..0 + |key|] == key;
      var slot := GetSlot(key, 0, |key|);
      keys[slot] := Some(key);
      values[slot] := value;
      assert keys[..] == old(keys[..])[slot := Some(key)];
      assert values[..] == old(values[..])[slot := value];
      assert KeySet(keys[..]) == part.Keys + {key};
    }
  }
}

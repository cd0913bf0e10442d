/** CharArraySet: a CharArrayMap without values, and the operations on two sets.

AddRunes lower-cases the slice it is given. The two-set operations hand it the
stored slices of their arguments, so its effect is written back to the slot the
slice came from: an argument stays as it was whenever the result is not the only
one of the two to ignore case.
*/
module CharSet {
  import opened Wrappers
  import opened ProbeTable
  import opened CharMap

  class CharArraySet {
    const m: CharArrayMap<()>

    ghost predicate Valid()
      reads this, m, m.keys, m.values
    {
      m.Valid()
    }

    ghost function Elems(): set<Key>
      reads this, m
    {
      m.entries.Keys
    }

    lemma StoredElems()
      requires Valid()
      ensures Elems() == KeySet(m.keys[..]) && |Elems()| == m.count
    {
    }

    lemma LowerIsIdempotent()
      requires Valid()
      ensures Idempotent(m.lower)
    {
    }

    constructor (startSize: int, ignoreCase: bool, lower: Rune -> Rune)
      requires Idempotent(lower)
      ensures Valid() && fresh(m) && fresh(m.keys) && fresh(m.values)
      ensures m.ignoreCase == ignoreCase && m.lower == lower
      ensures Elems() == {}
    {
      m := new CharArrayMap<()>(startSize, ignoreCase, lower, ());
    }

    method Contains(text: Key, off: nat, length: nat) returns (present: bool)
      requires Valid() && off + length <= |text|
      ensures present <==> m.Fold(text[off..off + length]) in Elems()
    {
      present := m.ContainsKey(text, off, length);
    }

    method Add(text: Key) returns (added: bool)
      requires Valid()
      modifies m, m.keys, m.values
      ensures Valid()
      ensures m.keys == old(m.keys) || fresh(m.keys)
      ensures m.values == old(m.values) || fresh(m.values)
      ensures added <==> m.Fold(text) !in old(Elems())
      ensures Elems() == old(Elems()) + {m.Fold(text)}
    {
      var present := m.ContainsKeyString(text);
      if present {
        return false;
      }
      var _, _ := m.PutRunes(text, ());
      added := true;
    }

    /** Returns the contents of the caller's slice afterwards: folded when the
        element was added, untouched when it was already present. */
    method AddRunes(text: Key) returns (added: bool, text': Key)
      requires Valid()
      modifies m, m.keys, m.values
      ensures Valid()
      ensures m.keys == old(m.keys) || fresh(m.keys)
      ensures m.values == old(m.values) || fresh(m.values)
      ensures added <==> m.Fold(text) !in old(Elems())
      ensures text' == if added then m.Fold(text) else text
      ensures Elems() == old(Elems()) + {m.Fold(text)}
    {
      assert text[0..0 + |text|] == text;
      var present := m.ContainsKey(text, 0, |text|);
      if present {
        return false, text;
      }
      var _, folded := m.PutRunes(text, ());
      added, text' := true, folded;
    }

    /** The two sets share no storage. */
    ghost predicate ApartFrom(src: CharArraySet)
      reads this, m, src, src.m
    {
      && m != src.m && m.lower == src.m.lower
      && src.m.keys != m.keys && (src.m.keys as object) != (m.values as object)
      && src.m.values != m.values && (src.m.values as object) != (m.keys as object)
    }

    /** Hands the slice stored in slot i of another set to AddRunes, and leaves in
        the slot what AddRunes makes of it. */
    method AddSlot(src: CharArraySet, i: nat)
      requires Valid() && ApartFrom(src) && i < src.m.keys.Length
      modifies m, m.keys, m.values, src.m.keys
      ensures Valid() && ApartFrom(src)
      ensures m.keys == old(m.keys) || fresh(m.keys)
      ensures m.values == old(m.values) || fresh(m.values)
      ensures Elems() == old(Elems()) + FoldSlot(m.ignoreCase, m.lower, old(src.m.keys[i]))
      ensures src.m.keys[..] == old(src.m.keys[..])[i := Rewritten(m.ignoreCase, m.lower, old(Elems()), old(src.m.keys[i]))]
    {
      if src.m.keys[i].Some? {
        var text := src.m.keys[i].value;
        var _, text' := AddRunes(text);
        src.m.keys[i] := Some(text');
      }
    }

    /** Adds copies of the elements of another set. */
    method AddCopies(src: CharArraySet)
      requires Valid() && src.Valid() && ApartFrom(src)
      modifies m, m.keys, m.values
      ensures Valid()
      ensures Elems() == old(Elems()) + FoldAll(m.ignoreCase, m.lower, src.Elems())
    {
      hide CharArrayMap.Valid, FoldKey, FoldAll, KeySet, FoldOnto;
      FoldOntoNone(Elems(), m.ignoreCase, m.lower, src.m.keys[..]);
      ghost var ks, before := src.m.keys[..], Elems();
      src.StoredElems();
      for i := 0 to src.m.keys.Length
        invariant Valid() && ApartFrom(src) && src.m.keys[..] == ks
        invariant m.keys == old(m.keys) || fresh(m.keys)
        invariant m.values == old(m.values) || fresh(m.values)
        invariant Elems() == FoldOnto(before, m.ignoreCase, m.lower, ks, i)
      {
        FoldOntoNext(before, m.ignoreCase, m.lower, ks, i);
        if src.m.keys[i].Some? {
          var keyCopy := src.m.keys[i].value;
          var _, _ := AddRunes(keyCopy);
        }
      }
      FoldOntoAll(before, m.ignoreCase, m.lower, ks);
    }

    /** Whether every element of another set, folded by this one, is in this set. */
    method ContainsStored(src: CharArraySet) returns (all: bool)
      requires Valid() && src.Valid() && m.lower == src.m.lower
      ensures all <==> FoldAll(m.ignoreCase, m.lower, src.Elems()) <= Elems()
    {
      ghost var ks := src.m.keys[..];
      src.StoredElems();
      for i := 0 to src.m.keys.Length
        invariant FoldOnto({}, m.ignoreCase, m.lower, ks, i) <= Elems()
      {
        if src.m.keys[i].Some? {
          var text := src.m.keys[i].value;
          assert text[0..0 + |text|] == text;
          var present := Contains(text, 0, |text|);
          if !present {
            assert ks[i].value in KeySet(ks);
            assert m.Fold(text) in FoldAll(m.ignoreCase, m.lower, src.Elems());
            return false;
          }
        }
      }
      FoldOntoAll({}, m.ignoreCase, m.lower, ks);
      return true;
    }

    /** Adds every element of another set, folded by this one. */
    method AddStored(src: CharArraySet)
      requires Valid() && src.Valid() && ApartFrom(src)
      modifies m, m.keys, m.values, src.m.keys
      ensures Valid()
      ensures m.keys == old(m.keys) || fresh(m.keys)
      ensures m.values == old(m.values) || fresh(m.values)
      ensures Elems() == old(Elems()) + FoldAll(m.ignoreCase, m.lower, old(src.Elems()))
      ensures SlotsRewritten(src, m.ignoreCase, old(Elems()))
    {
      hide CharArrayMap.Valid, FoldKey, FoldAll, KeySet, KeepsSlot, FoldSlot, FoldOnto, Rewritten, Added;
      ghost var ks, before := src.m.keys[..], Elems();
      src.StoredElems();
      AddedNone(before, m.ignoreCase, m.lower, ks);
      for i := 0 to src.m.keys.Length
        invariant Valid() && ApartFrom(src)
        invariant m.keys == old(m.keys) || fresh(m.keys)
        invariant m.values == old(m.values) || fresh(m.values)
        invariant Elems() == FoldOnto(before, m.ignoreCase, m.lower, ks, i)
        invariant src.m.keys[..] == Added(before, m.ignoreCase, m.lower, ks, i)
      {
        AddedNext(before, m.ignoreCase, m.lower, ks, i);
        AddSlot(src, i);
      }
      FoldOntoAll(before, m.ignoreCase, m.lower, ks);
    }

    /** AddSlot, when another set contains (present) or lacks (!present) the key. */
    method AddSlotIf(src: CharArraySet, i: nat, other: CharArraySet, present: bool)
      requires Valid() && other.Valid() && ApartFrom(src) && ApartFrom(other)
      requires i < src.m.keys.Length
      modifies m, m.keys, m.values, src.m.keys
      ensures Valid() && ApartFrom(src) && ApartFrom(other)
      ensures m.keys == old(m.keys) || fresh(m.keys)
      ensures m.values == old(m.values) || fresh(m.values)
      ensures Elems() == old(Elems()) +
                         SelectSlot(m.ignoreCase, m.lower, old(src.m.keys[i]), other.m.ignoreCase, old(other.Elems()), present)
      ensures src.m.keys[..] == old(src.m.keys[..])[i :=
                RewrittenIf(m.ignoreCase, m.lower, old(Elems()), old(src.m.keys[i]), other.m.ignoreCase, old(other.Elems()), present)]
    {
      hide CharArrayMap.Valid, FoldKey, KeySet, KeepsSlot, FoldSlot, Rewritten;
      if src.m.keys[i].Some? {
        var text := src.m.keys[i].value;
        assert text[0..0 + |text|] == text;
        var found := other.Contains(text, 0, |text|);
        if found == present {
          AddSlot(src, i);
        }
      }
    }

    /** Adds the elements of one set, folded by this one, that another set contains
        (present) or lacks (!present). */
    method AddSelected(src: CharArraySet, other: CharArraySet, present: bool)
      requires Valid() && src.Valid() && other.Valid()
      requires ApartFrom(src) && ApartFrom(other) && Separate(src, other)
      requires src.m == other.m ==> !m.ignoreCase || src.m.ignoreCase
      modifies m, m.keys, m.values, src.m.keys
      ensures Valid()
      ensures Elems() == old(Elems()) + FoldAll(m.ignoreCase, m.lower,
                           Select(other.m.ignoreCase, m.lower, old(src.Elems()), old(other.Elems()), present))
      ensures !m.ignoreCase || src.m.ignoreCase ==> SameSlots(src)
    {
      hide CharArrayMap.Valid, FoldKey, FoldAll, KeySet, Select, SelectSlot, SelectOnto, RewrittenIf, SelectAdded;
      ghost var ks, before, all := src.m.keys[..], Elems(), other.Elems();
      src.StoredElems();
      SelectedNone(before, m.ignoreCase, m.lower, ks, other.m.ignoreCase, all, present);
      SelectedKeepsFolded(src, before, m.ignoreCase, other.m.ignoreCase, all, present);
      for i := 0 to src.m.keys.Length
        invariant Valid() && ApartFrom(src) && ApartFrom(other)
        invariant m.keys == old(m.keys) || fresh(m.keys)
        invariant m.values == old(m.values) || fresh(m.values)
        invariant Elems() == SelectOnto(before, m.ignoreCase, m.lower, ks, other.m.ignoreCase, all, present, i)
        invariant src.m.keys[..] == SelectAdded(before, m.ignoreCase, m.lower, ks, other.m.ignoreCase, all, present, i)
        invariant SameSlots(other)
      {
        StillValid(other);
        SelectedNext(before, m.ignoreCase, m.lower, ks, other.m.ignoreCase, all, present, i);
        AddSlotIf(src, i, other, present);
        assert src.m == other.m ==> src.m.keys[..] == ks;
      }
      SelectOntoAll(before, m.ignoreCase, m.lower, ks, other.m.ignoreCase, all, present);
    }
  }

  /** What is left in a slot whose key is added to a set: the key, folded if it was new. */
  ghost function Rewritten(ignoreCase: bool, lower: Rune -> Rune, elems: set<Key>, slot: Option<Key>): Option<Key> {
    if slot.Some? && FoldKey(ignoreCase, lower, slot.value) !in elems then Some(FoldKey(ignoreCase, lower, slot.value))
    else slot
  }

  /** The same when the key is added only if another set contains (present) or lacks it. */
  ghost function RewrittenIf(ignoreCase: bool, lower: Rune -> Rune, elems: set<Key>, slot: Option<Key>,
                             otherIgnoreCase: bool, others: set<Key>, present: bool): Option<Key> {
    if slot.Some? && (FoldKey(otherIgnoreCase, lower, slot.value) in others) == present
    then Rewritten(ignoreCase, lower, elems, slot) else slot
  }

  lemma RewrittenKeeps(ignoreCase: bool, lower: Rune -> Rune, elems: set<Key>, slot: Option<Key>)
    requires KeepsSlot(ignoreCase, lower, slot)
    ensures Rewritten(ignoreCase, lower, elems, slot) == slot
  {
  }

  /** The slots after the keys of the first i were added, in turn, to a set of the
      given elements. */
  ghost function Added(before: set<Key>, ignoreCase: bool, lower: Rune -> Rune, ks: Slots, i: nat): (ks': Slots)
    requires i <= |ks|
    ensures |ks'| == |ks| && ks'[i..] == ks[i..]
  {
    if i == 0 then ks
    else Added(before, ignoreCase, lower, ks, i - 1)[i - 1 :=
           Rewritten(ignoreCase, lower, FoldOnto(before, ignoreCase, lower, ks, i - 1), ks[i - 1])]
  }

  lemma AddedNone(before: set<Key>, ignoreCase: bool, lower: Rune -> Rune, ks: Slots)
    ensures Added(before, ignoreCase, lower, ks, 0) == ks
    ensures FoldOnto(before, ignoreCase, lower, ks, 0) == before
  {
  }

  lemma AddedNext(before: set<Key>, ignoreCase: bool, lower: Rune -> Rune, ks: Slots, i: nat)
    requires i < |ks|
    ensures Added(before, ignoreCase, lower, ks, i)[i] == ks[i]
    ensures Added(before, ignoreCase, lower, ks, i + 1) == Added(before, ignoreCase, lower, ks, i)[i :=
              Rewritten(ignoreCase, lower, FoldOnto(before, ignoreCase, lower, ks, i), ks[i])]
    ensures FoldOnto(before, ignoreCase, lower, ks, i + 1)
         == FoldOnto(before, ignoreCase, lower, ks, i) + FoldSlot(ignoreCase, lower, ks[i])
  {
    assert Added(before, ignoreCase, lower, ks, i)[i..][0] == ks[i..][0];
  }

  lemma {:induction false} AddedKeeps(before: set<Key>, ignoreCase: bool, lower: Rune -> Rune, ks: Slots, i: nat)
    requires i <= |ks| && forall s :: 0 <= s < |ks| ==> KeepsSlot(ignoreCase, lower, ks[s])
    ensures Added(before, ignoreCase, lower, ks, i) == ks
  {
    if i > 0 {
      AddedKeeps(before, ignoreCase, lower, ks, i - 1);
      RewrittenKeeps(ignoreCase, lower, FoldOnto(before, ignoreCase, lower, ks, i - 1), ks[i - 1]);
    }
  }

  /** Every slot holds what adding its key, in turn, to a set of these elements left. */
  twostate predicate SlotsRewritten(src: CharArraySet, ignoreCase: bool, elems: set<Key>)
    reads src, src.m, src.m.keys
  {
    src.m.keys == old(src.m.keys) &&
    src.m.keys[..] == Added(elems, ignoreCase, src.m.lower, old(src.m.keys[..]), src.m.keys.Length)
  }

  /** Only folding to a case that the stored keys lack rewrites them. */
  lemma SlotsKeepFolded(src: CharArraySet, ignoreCase: bool)
    requires src.Valid()
    ensures !ignoreCase || src.m.ignoreCase ==>
              forall elems :: Added(elems, ignoreCase, src.m.lower, src.m.keys[..], src.m.keys.Length) == src.m.keys[..]
  {
    hide Added, KeepsSlot;
    if !ignoreCase || src.m.ignoreCase {
      StoredKeysAreFolded(src, ignoreCase);
      forall elems
        ensures Added(elems, ignoreCase, src.m.lower, src.m.keys[..], src.m.keys.Length) == src.m.keys[..]
      {
        AddedKeeps(elems, ignoreCase, src.m.lower, src.m.keys[..], src.m.keys.Length);
      }
    }
  }

  ghost function FoldAll(ignoreCase: bool, lower: Rune -> Rune, keys: set<Key>): set<Key> {
    set k | k in keys :: FoldKey(ignoreCase, lower, k)
  }

  /** Folding leaves the key in a slot alone. */
  predicate KeepsSlot(ignoreCase: bool, lower: Rune -> Rune, slot: Option<Key>) {
    slot.Some? ==> FoldKey(ignoreCase, lower, slot.value) == slot.value
  }

  /** The folded key of a slot, as a set of at most one element. */
  ghost function FoldSlot(ignoreCase: bool, lower: Rune -> Rune, slot: Option<Key>): set<Key> {
    if slot.Some? then {FoldKey(ignoreCase, lower, slot.value)} else {}
  }

  /** A set of keys joined by the folded keys of the first i slots. */
  ghost function FoldOnto(before: set<Key>, ignoreCase: bool, lower: Rune -> Rune, ks: Slots, i: nat): set<Key>
    requires i <= |ks|
  {
    if i == 0 then before
    else FoldOnto(before, ignoreCase, lower, ks, i - 1) + FoldSlot(ignoreCase, lower, ks[i - 1])
  }

  lemma FoldOntoNone(before: set<Key>, ignoreCase: bool, lower: Rune -> Rune, ks: Slots)
    ensures FoldOnto(before, ignoreCase, lower, ks, 0) == before
  {
  }

  lemma FoldOntoNext(before: set<Key>, ignoreCase: bool, lower: Rune -> Rune, ks: Slots, i: nat)
    requires i < |ks|
    ensures FoldOnto(before, ignoreCase, lower, ks, i + 1)
         == FoldOnto(before, ignoreCase, lower, ks, i) + FoldSlot(ignoreCase, lower, ks[i])
  {
  }

  lemma {:induction false} FoldOntoBelow(before: set<Key>, ignoreCase: bool, lower: Rune -> Rune, ks: Slots, i: nat)
    requires i <= |ks|
    ensures FoldOnto(before, ignoreCase, lower, ks, i) ==
            before + FoldAll(ignoreCase, lower, KeysBelow(ks, i))
  {
    if i > 0 {
      FoldOntoBelow(before, ignoreCase, lower, ks, i - 1);
      KeysBelowStep(ks, i - 1);
    }
  }

  lemma FoldOntoAll(before: set<Key>, ignoreCase: bool, lower: Rune -> Rune, ks: Slots)
    ensures FoldOnto(before, ignoreCase, lower, ks, |ks|) == before + FoldAll(ignoreCase, lower, KeySet(ks))
  {
    FoldOntoBelow(before, ignoreCase, lower, ks, |ks|);
    KeysBelowAll(ks);
  }

  /** The keys of one set that another set finds (present) or does not find. */
  ghost function Select(ignoreCase: bool, lower: Rune -> Rune, keys: set<Key>, others: set<Key>, present: bool): set<Key> {
    set k | k in keys && (FoldKey(ignoreCase, lower, k) in others) == present
  }

  ghost function SelectOnto(before: set<Key>, ignoreCase: bool, lower: Rune -> Rune, ks: Slots,
                            otherIgnoreCase: bool, others: set<Key>, present: bool, i: nat): set<Key>
    requires i <= |ks|
  {
    if i == 0 then before
    else SelectOnto(before, ignoreCase, lower, ks, otherIgnoreCase, others, present, i - 1) +
         SelectSlot(ignoreCase, lower, ks[i - 1], otherIgnoreCase, others, present)
  }

  /** The slots after the selected ones of the first i keys were added. */
  ghost function SelectAdded(before: set<Key>, ignoreCase: bool, lower: Rune -> Rune, ks: Slots,
                             otherIgnoreCase: bool, others: set<Key>, present: bool, i: nat): (ks': Slots)
    requires i <= |ks|
    ensures |ks'| == |ks| && ks'[i..] == ks[i..]
  {
    if i == 0 then ks
    else SelectAdded(before, ignoreCase, lower, ks, otherIgnoreCase, others, present, i - 1)[i - 1 :=
           RewrittenIf(ignoreCase, lower, SelectOnto(before, ignoreCase, lower, ks, otherIgnoreCase, others, present, i - 1),
                       ks[i - 1], otherIgnoreCase, others, present)]
  }

  lemma SelectedNone(before: set<Key>, ignoreCase: bool, lower: Rune -> Rune, ks: Slots,
                     otherIgnoreCase: bool, others: set<Key>, present: bool)
    ensures SelectOnto(before, ignoreCase, lower, ks, otherIgnoreCase, others, present, 0) == before
    ensures SelectAdded(before, ignoreCase, lower, ks, otherIgnoreCase, others, present, 0) == ks
  {
  }

  lemma SelectedNext(before: set<Key>, ignoreCase: bool, lower: Rune -> Rune, ks: Slots,
                     otherIgnoreCase: bool, others: set<Key>, present: bool, i: nat)
    requires i < |ks|
    ensures SelectOnto(before, ignoreCase, lower, ks, otherIgnoreCase, others, present, i + 1)
         == SelectOnto(before, ignoreCase, lower, ks, otherIgnoreCase, others, present, i)
            + SelectSlot(ignoreCase, lower, ks[i], otherIgnoreCase, others, present)
    ensures var now := SelectAdded(before, ignoreCase, lower, ks, otherIgnoreCase, others, present, i);
            && now[i] == ks[i]
            && SelectAdded(before, ignoreCase, lower, ks, otherIgnoreCase, others, present, i + 1) == now[i :=
                 RewrittenIf(ignoreCase, lower, SelectOnto(before, ignoreCase, lower, ks, otherIgnoreCase, others, present, i),
                             ks[i], otherIgnoreCase, others, present)]
  {
    assert SelectAdded(before, ignoreCase, lower, ks, otherIgnoreCase, others, present, i)[i..][0] == ks[i..][0];
  }

  lemma {:induction false} SelectedKeeps(before: set<Key>, ignoreCase: bool, lower: Rune -> Rune, ks: Slots,
                                         otherIgnoreCase: bool, others: set<Key>, present: bool, i: nat)
    requires i <= |ks| && forall s :: 0 <= s < |ks| ==> KeepsSlot(ignoreCase, lower, ks[s])
    ensures SelectAdded(before, ignoreCase, lower, ks, otherIgnoreCase, others, present, i) == ks
  {
    if i > 0 {
      SelectedKeeps(before, ignoreCase, lower, ks, otherIgnoreCase, others, present, i - 1);
      RewrittenKeeps(ignoreCase, lower, SelectOnto(before, ignoreCase, lower, ks, otherIgnoreCase, others, present, i - 1), ks[i - 1]);
    }
  }

  lemma SelectedKeepsFolded(src: CharArraySet, before: set<Key>, ignoreCase: bool,
                            otherIgnoreCase: bool, others: set<Key>, present: bool)
    requires src.Valid()
    ensures !ignoreCase || src.m.ignoreCase ==>
              forall i :: 0 <= i <= src.m.keys.Length ==>
                SelectAdded(before, ignoreCase, src.m.lower, src.m.keys[..], otherIgnoreCase, others, present, i) == src.m.keys[..]
  {
    hide SelectAdded, KeepsSlot;
    if !ignoreCase || src.m.ignoreCase {
      StoredKeysAreFolded(src, ignoreCase);
      forall i | 0 <= i <= src.m.keys.Length
        ensures SelectAdded(before, ignoreCase, src.m.lower, src.m.keys[..], otherIgnoreCase, others, present, i) == src.m.keys[..]
      {
        SelectedKeeps(before, ignoreCase, src.m.lower, src.m.keys[..], otherIgnoreCase, others, present, i);
      }
    }
  }

  ghost function SelectSlot(ignoreCase: bool, lower: Rune -> Rune, slot: Option<Key>,
                            otherIgnoreCase: bool, others: set<Key>, present: bool): set<Key> {
    if slot.Some? && (FoldKey(otherIgnoreCase, lower, slot.value) in others) == present
    then FoldSlot(ignoreCase, lower, slot) else {}
  }

  lemma {:induction false} SelectOntoBelow(before: set<Key>, ignoreCase: bool, lower: Rune -> Rune, ks: Slots,
                                           otherIgnoreCase: bool, others: set<Key>, present: bool, i: nat)
    requires i <= |ks|
    ensures SelectOnto(before, ignoreCase, lower, ks, otherIgnoreCase, others, present, i) ==
            before + FoldAll(ignoreCase, lower, Select(otherIgnoreCase, lower, KeysBelow(ks, i), others, present))
  {
    if i > 0 {
      SelectOntoBelow(before, ignoreCase, lower, ks, otherIgnoreCase, others, present, i - 1);
      KeysBelowStep(ks, i - 1);
      SelectStep(ignoreCase, lower, KeysBelow(ks, i - 1), ks[i - 1], otherIgnoreCase, others, present);
    }
  }

  lemma SelectStep(ignoreCase: bool, lower: Rune -> Rune, keys: set<Key>, slot: Option<Key>,
                   otherIgnoreCase: bool, others: set<Key>, present: bool)
    ensures var keys' := keys + if slot.Some? then {slot.value} else {};
            FoldAll(ignoreCase, lower, Select(otherIgnoreCase, lower, keys', others, present)) ==
            FoldAll(ignoreCase, lower, Select(otherIgnoreCase, lower, keys, others, present)) +
            SelectSlot(ignoreCase, lower, slot, otherIgnoreCase, others, present)
  {
  }

  lemma SelectOntoAll(before: set<Key>, ignoreCase: bool, lower: Rune -> Rune, ks: Slots,
                      otherIgnoreCase: bool, others: set<Key>, present: bool)
    ensures SelectOnto(before, ignoreCase, lower, ks, otherIgnoreCase, others, present, |ks|) ==
            before + FoldAll(ignoreCase, lower, Select(otherIgnoreCase, lower, KeySet(ks), others, present))
  {
    SelectOntoBelow(before, ignoreCase, lower, ks, otherIgnoreCase, others, present, |ks|);
    KeysBelowAll(ks);
  }

  /** A map that ignores case stores folded keys; a map that does not leaves every
      key alone. */
  lemma StoredKeysAreFolded(src: CharArraySet, ignoreCase: bool)
    requires src.Valid() && (!ignoreCase || src.m.ignoreCase)
    ensures forall s :: 0 <= s < src.m.keys.Length ==>
              KeepsSlot(ignoreCase, src.m.lower, src.m.keys[s])
  {
    forall s | 0 <= s < src.m.keys.Length && src.m.keys[s].Some?
      ensures src.m.Fold(src.m.keys[s].value) == src.m.keys[s].value
    {
      assert src.m.keys[..][s].value in KeySet(src.m.keys[..]);
      assert src.m.IsFolded(src.m.keys[s].value);
    }
  }

  lemma FoldAllIsIdentity(src: CharArraySet, ignoreCase: bool)
    requires src.Valid() && (!ignoreCase || src.m.ignoreCase)
    ensures FoldAll(ignoreCase, src.m.lower, src.Elems()) == src.Elems()
  {
    var ks := src.m.keys[..];
    StoredKeysAreFolded(src, ignoreCase);
    forall k | k in src.Elems()
      ensures FoldKey(ignoreCase, src.m.lower, k) == k
    {
      var i :| 0 <= i < |ks| && ks[i] == Some(k);
      assert KeepsSlot(ignoreCase, src.m.lower, src.m.keys[i]);
    }
  }

  /** Two argument sets are the same object or share no storage. */
  ghost predicate Separate(a: CharArraySet, b: CharArraySet)
    reads a, a.m, b, b.m
  {
    a.m.lower == b.m.lower && (a.m == b.m || a.ApartFrom(b))
  }

  /** CopySet: the copy of an empty set is case sensitive, whatever the original was. */
  method CopySet(original: CharArraySet) returns (result: CharArraySet)
    requires original.Valid()
    ensures fresh(result.m) && result.Valid() && result.Elems() == original.Elems()
    ensures result.m.ignoreCase == (original.m.ignoreCase && original.Elems() != {})
  {
    original.StoredElems();
    hide CharArrayMap.Valid, FoldKey, FoldAll, KeySet;
    if original.m.count == 0 {
      result := new CharArraySet(0, false, original.m.lower);
      return;
    }
    result := new CharArraySet(original.m.count, original.m.ignoreCase, original.m.lower);
    result.AddCopies(original);
    FoldAllIsIdentity(original, original.m.ignoreCase);
  }

  /** Size and one-way inclusion decide equality, unless only the second set
      ignores case. */
  method SetEquals(a: CharArraySet, b: CharArraySet) returns (same: bool)
    requires a.Valid() && b.Valid() && a.m.lower == b.m.lower
    ensures same <==> |a.Elems()| == |b.Elems()| &&
                      FoldAll(b.m.ignoreCase, b.m.lower, a.Elems()) <= b.Elems()
    ensures !b.m.ignoreCase || a.m.ignoreCase ==> (same <==> a.Elems() == b.Elems())
  {
    if !b.m.ignoreCase || a.m.ignoreCase {
      FoldAllIsIdentity(a, b.m.ignoreCase);
      InclusionAndSize(a.Elems(), b.Elems());
    }
    if a.m.count != b.m.count {
      return false;
    }
    same := b.ContainsStored(a);
  }

  lemma InclusionAndSize<T>(a: set<T>, b: set<T>)
    ensures a == b <==> |a| == |b| && a <= b
  {
    if a <= b && |a| == |b| {
      assert b == a + (b - a);
    }
  }

  /** When only the second set ignores case, size and inclusion can agree on two
      different sets. */
  lemma EqualsCanConfuseCase(lower: Rune -> Rune, upperA: Rune, lowerA: Rune)
    requires Idempotent(lower) && lowerA == ToLower(lower, upperA) != upperA
    ensures var a, b := {[upperA]}, {[lowerA]};
            a != b && |a| == |b| && FoldAll(true, lower, a) <= b
  {
    assert [upperA][0] != [lowerA][0];
    assert FoldKey(true, lower, [upperA]) == [lowerA];
  }

  /** The source's own test accepts two such sets. */
  method ConfuseCase(lower: Rune -> Rune, upperA: Rune, lowerA: Rune)
    returns (a: CharArraySet, b: CharArraySet, same: bool)
    requires Idempotent(lower) && lowerA == ToLower(lower, upperA) != upperA
    ensures fresh(a) && fresh(b) && a.Valid() && b.Valid() && same && a.Elems() != b.Elems()
  {
    hide CharArrayMap.Valid, KeySet;
    a := new CharArraySet(1, false, lower);
    b := new CharArraySet(1, true, lower);
    var _ := a.Add([upperA]);
    var _ := b.Add([lowerA]);
    assert a.Elems() == {[upperA]};
    assert b.Elems() == {[lowerA]} by {
      assert b.m.Fold([lowerA]) == [lowerA];
    }
    EqualsCanConfuseCase(lower, upperA, lowerA);
    same := SetEquals(a, b);
  }

  method SetUnion(a: CharArraySet, b: CharArraySet) returns (result: CharArraySet)
    requires a.Valid() && b.Valid() && Separate(a, b)
    modifies a.m.keys, b.m.keys
    ensures fresh(result.m) && result.Valid() && result.m.ignoreCase == a.m.ignoreCase
    ensures result.Elems() == old(a.Elems()) + FoldAll(a.m.ignoreCase, a.m.lower, old(b.Elems()))
    ensures !a.m.ignoreCase || b.m.ignoreCase ==> result.Elems() == old(a.Elems()) + old(b.Elems())
    ensures !a.m.ignoreCase || b.m.ignoreCase ==> SameSlots(a) && SameSlots(b)
    ensures SlotsRewritten(b, a.m.ignoreCase, old(a.Elems()))
  {
    result := new CharArraySet(a.m.count + b.m.count, a.m.ignoreCase, a.m.lower);
    UnionInto(result, a, b);
  }

  /** The two passes of SetUnion. */
  method UnionInto(result: CharArraySet, a: CharArraySet, b: CharArraySet)
    requires result.Valid() && a.Valid() && b.Valid() && Separate(a, b)
    requires result.ApartFrom(a) && result.ApartFrom(b) && result.m.ignoreCase == a.m.ignoreCase
    requires result.Elems() == {}
    modifies result.m, result.m.keys, result.m.values, a.m.keys, b.m.keys
    ensures result.Valid()
    ensures result.Elems() == old(a.Elems()) + FoldAll(a.m.ignoreCase, a.m.lower, old(b.Elems()))
    ensures !a.m.ignoreCase || b.m.ignoreCase ==> result.Elems() == old(a.Elems()) + old(b.Elems())
    ensures !a.m.ignoreCase || b.m.ignoreCase ==> SameSlots(a) && SameSlots(b)
    ensures SlotsRewritten(b, a.m.ignoreCase, old(a.Elems()))
  {
    hide CharArrayMap.Valid, FoldKey, FoldAll, KeySet, Added;
    FoldAllIsIdentity(a, a.m.ignoreCase);
    if !a.m.ignoreCase || b.m.ignoreCase {
      FoldAllIsIdentity(b, a.m.ignoreCase);
    }
    SlotsKeepFolded(a, a.m.ignoreCase);
    SlotsKeepFolded(b, a.m.ignoreCase);
    result.AddStored(a);
    StillValid(b);
    ghost var elems := result.Elems();
    assert elems == old(a.Elems()) && b.m.keys[..] == old(b.m.keys[..]);
    result.AddStored(b);
  }

  /** Every slot of a set holds the key it held before. */
  twostate predicate SameSlots(src: CharArraySet)
    reads src, src.m, src.m.keys
  {
    src.m.keys == old(src.m.keys) &&
    forall s :: 0 <= s < src.m.keys.Length ==> src.m.keys[s] == old(src.m.keys[s])
  }

  /** A set whose slots hold what they held is as valid as it was. */
  twostate lemma StillValid(src: CharArraySet)
    requires old(src.Valid())
    requires unchanged(src.m) && unchanged(src.m.values) && SameSlots(src)
    ensures src.Valid()
  {
    assert src.m.keys[..] == old(src.m.keys[..]);
    assert src.m.values[..] == old(src.m.values[..]);
  }

  method SetIntersection(a: CharArraySet, b: CharArraySet) returns (result: CharArraySet)
    requires a.Valid() && b.Valid() && Separate(a, b)
    modifies a.m.keys, b.m.keys
    ensures fresh(result.m) && result.Valid() && result.m.ignoreCase == a.m.ignoreCase
    ensures result.Elems() == FoldAll(a.m.ignoreCase, a.m.lower,
              if |old(a.Elems())| > |old(b.Elems())|
              then Select(a.m.ignoreCase, a.m.lower, old(b.Elems()), old(a.Elems()), true)
              else Select(b.m.ignoreCase, a.m.lower, old(a.Elems()), old(b.Elems()), true))
    ensures a.m.ignoreCase == b.m.ignoreCase ==> result.Elems() == old(a.Elems()) * old(b.Elems())
    ensures !a.m.ignoreCase || b.m.ignoreCase ==> SameSlots(a) && SameSlots(b)
  {
    hide CharArrayMap.Valid, FoldKey, FoldAll, KeySet, Select, Idempotent;
    a.StoredElems();
    b.StoredElems();
    a.LowerIsIdempotent();
    result := new CharArraySet(if a.m.count < b.m.count then a.m.count else b.m.count, a.m.ignoreCase, a.m.lower);
    var smaller, larger := a, b;
    if a.m.count > b.m.count {
      smaller, larger := b, a;
    }
    IntersectInto(result, smaller, larger);
  }

  /** The pass of SetIntersection over the smaller set. */
  method IntersectInto(result: CharArraySet, smaller: CharArraySet, larger: CharArraySet)
    requires result.Valid() && smaller.Valid() && larger.Valid() && Separate(smaller, larger)
    requires result.ApartFrom(smaller) && result.ApartFrom(larger) && result.Elems() == {}
    requires result.m.ignoreCase == smaller.m.ignoreCase || result.m.ignoreCase == larger.m.ignoreCase
    modifies result.m, result.m.keys, result.m.values, smaller.m.keys
    ensures result.Valid()
    ensures result.Elems() == FoldAll(result.m.ignoreCase, result.m.lower,
              Select(larger.m.ignoreCase, result.m.lower, old(smaller.Elems()), old(larger.Elems()), true))
    ensures result.m.ignoreCase == smaller.m.ignoreCase == larger.m.ignoreCase ==>
              result.Elems() == old(smaller.Elems()) * old(larger.Elems())
    ensures !result.m.ignoreCase || smaller.m.ignoreCase ==> SameSlots(smaller)
  {
    hide CharArrayMap.Valid, FoldKey, FoldAll, KeySet, Select;
    if smaller.m.ignoreCase == larger.m.ignoreCase {
      SelectedAmongEqual(smaller, larger, true);
    }
    result.AddSelected(smaller, larger, true);
  }

  method SetDifference(a: CharArraySet, b: CharArraySet) returns (result: CharArraySet)
    requires a.Valid() && b.Valid() && Separate(a, b)
    modifies a.m.keys
    ensures fresh(result.m) && result.Valid() && result.m.ignoreCase == a.m.ignoreCase
    ensures result.Elems() == FoldAll(a.m.ignoreCase, a.m.lower,
              Select(b.m.ignoreCase, a.m.lower, old(a.Elems()), old(b.Elems()), false))
    ensures !b.m.ignoreCase || a.m.ignoreCase ==> result.Elems() == old(a.Elems()) - old(b.Elems())
    ensures SameSlots(a)
  {
    hide CharArrayMap.Valid, FoldKey, FoldAll, KeySet, Select, Idempotent;
    a.LowerIsIdempotent();
    result := new CharArraySet(a.m.count, a.m.ignoreCase, a.m.lower);
    if !b.m.ignoreCase || a.m.ignoreCase {
      SelectedAmongEqual(a, b, false);
    }
    result.AddSelected(a, b, false);
  }

  /** On keys that folding leaves alone, selection is plain set algebra. */
  lemma SelectedAmongEqual(src: CharArraySet, other: CharArraySet, present: bool)
    requires src.Valid() && other.Valid() && src.m.lower == other.m.lower
    requires !other.m.ignoreCase || src.m.ignoreCase
    ensures var selected := Select(other.m.ignoreCase, src.m.lower, src.Elems(), other.Elems(), present);
            FoldAll(src.m.ignoreCase, src.m.lower, selected) ==
            if present then src.Elems() * other.Elems() else src.Elems() - other.Elems()
  {
    forall k | k in src.Elems()
      ensures FoldKey(src.m.ignoreCase, src.m.lower, k) == k
      ensures FoldKey(other.m.ignoreCase, src.m.lower, k) == k
    {
      ElementIsFolded(src, k);
    }
  }

  lemma ElementIsFolded(src: CharArraySet, k: Key)
    requires src.Valid() && k in src.Elems()
    ensures FoldKey(src.m.ignoreCase, src.m.lower, k) == k
  {
    var ks := src.m.keys[..];
    StoredKeysAreFolded(src, src.m.ignoreCase);
    var i :| 0 <= i < |ks| && ks[i] == Some(k);
    assert KeepsSlot(src.m.ignoreCase, src.m.lower, src.m.keys[i]);
  }
}

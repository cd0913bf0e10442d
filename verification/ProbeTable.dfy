/** The slot array of CharArrayMap as a mathematical object: which slots a key
probes, where the search for a key stops, and the invariant that makes that
search correct.

Hash codes are unbounded integers here; WrappingDoesNotMoveSlots shows that the
64-bit codes of the source select the same slots.
*/
module ProbeTable {
  import opened Wrappers
  import opened PowersOfTwo

  type Rune = int
  type Key = seq<Rune>
  type Slots = seq<Option<Key>>

  /** The polynomial code of a key, most significant rune first. */
  function HashOf(key: Key): int {
    if key == [] then 0 else HashOf(key[..|key| - 1]) * 31 + key[|key| - 1]
  }

  function Power31(n: nat): nat {
    if n == 0 then 1 else 31 * Power31(n - 1)
  }

  /** In the code of a key the runes before the last n count for 31 to the n each. */
  lemma {:induction false} HashAppend(a: Key, b: Key)
    ensures HashOf(a + b) == HashOf(a) * Power31(|b|) + HashOf(b)
    ensures |b| == 1 ==> HashOf(b) == b[0]
  {
    if b == [] {
      assert a + b == a;
    } else {
      var c := b[..|b| - 1];
      assert (a + b)[..|a + b| - 1] == a + c;
      HashAppend(a, c);
      assert HashOf(a) * Power31(|b|) == HashOf(a) * Power31(|c|) * 31;
    }
  }

  /** Two codes as the source computes them. */
  lemma KnownHashes()
    ensures HashOf([97, 98]) == 3105 && Stride(3105) == 3117 && Stride(0) == 1
  {
    assert HashOf([97]) == 97 by {
      assert [97][..0] == [];
    }
    assert [97, 98][..1] == [97];
  }

  /** Setting the lowest bit; the source writes x | 1. */
  function WithLowBit(x: int): (y: int)
    ensures y % 2 == 1 && x <= y <= x + 1
  {
    if x % 2 == 0 then x + 1 else x
  }

  /** The probe stride; the arithmetic shift by 8 is division by 256 rounding down. */
  function Stride(code: int): int {
    WithLowBit(code / 256 + code)
  }

  /** The code after j strides. */
  function ProbeCode(code: int, j: nat): int {
    if j == 0 then code else ProbeCode(code, j - 1) + Stride(code)
  }

  lemma {:induction false} ProbeCodeClosed(code: int, j: nat)
    ensures ProbeCode(code, j) == code + j * Stride(code)
  {
    if j > 0 {
      ProbeCodeClosed(code, j - 1);
    }
  }

  /** The slot of the j-th probe in a table of n slots. */
  function ProbeAt(code: int, n: nat, j: nat): (slot: nat)
    requires n > 0
    ensures slot < n
  {
    ProbeCode(code, j) % n
  }

  ghost predicate PowerOfTwo(n: nat) {
    exists p: nat :: Pow2(p) == n
  }

  lemma Doubling(n: nat)
    requires PowerOfTwo(n)
    ensures PowerOfTwo(2 * n)
  {
    var p: nat :| Pow2(p) == n;
    assert Pow2(p + 1) == 2 * n;
  }

  /** A probe stops at an empty slot or at the key itself. */
  predicate Stops(ks: Slots, key: Key, j: nat)
    requires |ks| > 0
  {
    var slot := ks[ProbeAt(HashOf(key), |ks|, j)];
    slot == None || slot == Some(key)
  }

  /** The first stopping probe from j on, or |ks| when there is none below |ks|. */
  function FirstStop(ks: Slots, key: Key, j: nat): (r: nat)
    requires |ks| > 0 && j <= |ks|
    ensures j <= r <= |ks|
    ensures forall i :: j <= i < r ==> !Stops(ks, key, i)
    ensures r < |ks| ==> Stops(ks, key, r)
    decreases |ks| - j
  {
    if j == |ks| || Stops(ks, key, j) then j else FirstStop(ks, key, j + 1)
  }

  lemma FirstStopIs(ks: Slots, key: Key, r: nat)
    requires |ks| > 0 && r < |ks|
    requires Stops(ks, key, r)
    requires forall i :: 0 <= i < r ==> !Stops(ks, key, i)
    ensures FirstStop(ks, key, 0) == r
  {
  }

  /** Where the search for a key ends. */
  function LookupSlot(ks: Slots, key: Key): (slot: nat)
    requires |ks| > 0
    ensures slot < |ks|
  {
    ProbeAt(HashOf(key), |ks|, FirstStop(ks, key, 0))
  }

  predicate HasFreeSlot(ks: Slots) {
    None in ks
  }

  /** The search for the key in slot s, if any, ends at s without running
      through all the probes. */
  predicate Placed(ks: Slots, s: nat)
    requires s < |ks|
  {
    ks[s].Some? ==> LookupSlot(ks, ks[s].value) == s && FirstStop(ks, ks[s].value, 0) < |ks|
  }

  /** The table invariant. */
  ghost predicate WellPlaced(ks: Slots) {
    PowerOfTwo(|ks|) && forall s {:trigger Placed(ks, s)} :: 0 <= s < |ks| ==> Placed(ks, s)
  }

  ghost function KeySet(ks: Slots): set<Key> {
    set s | 0 <= s < |ks| && ks[s].Some? :: ks[s].value
  }

  /** The search ends within |ks| probes: an odd stride over a power-of-two table
      visits every slot, so it meets a free one. */
  lemma SearchTerminates(ks: Slots, key: Key)
    requires PowerOfTwo(|ks|) && HasFreeSlot(ks)
    ensures FirstStop(ks, key, 0) < |ks|
  {
    var free :| 0 <= free < |ks| && ks[free] == None;
    var p: nat :| Pow2(p) == |ks|;
    var j := OddStrideReaches(HashOf(key), Stride(HashOf(key)), p, free);
    ProbeCodeClosed(HashOf(key), j);
    assert ProbeAt(HashOf(key), |ks|, j) == free;
    assert Stops(ks, key, j);
  }

  /** The search finds a key exactly when some slot holds it, and the slot it
      finds is the only one. */
  lemma LookupFinds(ks: Slots, key: Key)
    requires WellPlaced(ks) && HasFreeSlot(ks)
    ensures key in KeySet(ks) <==> ks[LookupSlot(ks, key)] == Some(key)
    ensures key !in KeySet(ks) <==> ks[LookupSlot(ks, key)] == None
    ensures forall s :: 0 <= s < |ks| && ks[s] == Some(key) ==> s == LookupSlot(ks, key)
  {
    SearchTerminates(ks, key);
    var slot := LookupSlot(ks, key);
    assert Stops(ks, key, FirstStop(ks, key, 0));
    forall s | 0 <= s < |ks| && ks[s] == Some(key)
      ensures s == slot
    {
      assert Placed(ks, s);
    }
    assert ks[slot] == Some(key) ==> key in KeySet(ks);
  }

  /** A probe that stops, with none stopping before it, is where the search ends. */
  lemma SearchEnds(ks: Slots, key: Key, j: nat)
    requires WellPlaced(ks) && HasFreeSlot(ks)
    requires Stops(ks, key, j) && j <= FirstStop(ks, key, 0)
    ensures ProbeAt(HashOf(key), |ks|, j) == LookupSlot(ks, key)
    ensures ks[LookupSlot(ks, key)] == if key in KeySet(ks) then Some(key) else None
  {
    SearchTerminates(ks, key);
    LookupFinds(ks, key);
  }

  /** Storing an absent key at the end of its own search keeps every other search. */
  lemma InsertKeepsPlacement(ks: Slots, key: Key, ks': Slots)
    requires WellPlaced(ks) && HasFreeSlot(ks)
    requires key !in KeySet(ks)
    requires ks' == ks[LookupSlot(ks, key) := Some(key)]
    ensures WellPlaced(ks')
    ensures KeySet(ks') == KeySet(ks) + {key}
  {
    var slot := LookupSlot(ks, key);
    LookupFinds(ks, key);
    forall s | 0 <= s < |ks'|
      ensures Placed(ks', s)
    {
      if ks'[s].Some? {
        SearchAfterInsert(ks, key, ks', s);
      }
    }
    assert KeySet(ks') == KeySet(ks) + {key} by {
      forall k | k in KeySet(ks) + {key}
        ensures k in KeySet(ks')
      {
        if k in KeySet(ks) {
          var s :| 0 <= s < |ks| && ks[s] == Some(k);
          assert ks'[s] == Some(k);
        } else {
          assert ks'[slot] == Some(k);
        }
      }
    }
  }

  lemma SearchAfterInsert(ks: Slots, key: Key, ks': Slots, s: nat)
    requires WellPlaced(ks) && HasFreeSlot(ks)
    requires ks[LookupSlot(ks, key)] == None
    requires ks' == ks[LookupSlot(ks, key) := Some(key)]
    requires s < |ks'| && ks'[s].Some?
    ensures Placed(ks', s)
  {
    var slot := LookupSlot(ks, key);
    assert Placed(ks, s);
    var k := ks'[s].value;
    SearchTerminates(ks, key);
    var r := FirstStop(ks, k, 0);
    assert s == slot ==> k == key;
    forall i | 0 <= i < r
      ensures !Stops(ks', k, i)
    {
      assert !Stops(ks, k, i);
      assert ProbeAt(HashOf(k), |ks|, i) != slot;
    }
    assert Stops(ks', k, r);
    FirstStopIs(ks', k, r);
  }

  /** The keys of the first i slots. */
  ghost function KeysBelow(ks: Slots, i: nat): set<Key>
    requires i <= |ks|
  {
    KeySet(ks[..i])
  }

  lemma KeysBelowStep(ks: Slots, i: nat)
    requires i < |ks|
    ensures KeysBelow(ks, i + 1) == KeysBelow(ks, i) + (if ks[i].Some? then {ks[i].value} else {})
  {
    var a, b := ks[..i], ks[..i + 1];
    forall k | k in KeySet(a)
      ensures k in KeySet(b)
    {
      var s :| 0 <= s < |a| && a[s] == Some(k);
      assert b[s] == Some(k);
    }
    if ks[i].Some? {
      assert b[i] == ks[i];
    }
  }

  lemma KeysBelowAll(ks: Slots)
    ensures KeysBelow(ks, |ks|) == KeySet(ks)
  {
    assert ks[..|ks|] == ks;
  }

  /** Stored keys are pairwise distinct. */
  lemma FreshKey(ks: Slots, i: nat)
    requires WellPlaced(ks) && i < |ks| && ks[i].Some?
    ensures ks[i].value !in KeysBelow(ks, i)
  {
    forall s | 0 <= s < i && ks[..i][s].Some?
      ensures ks[..i][s] != ks[i]
    {
      assert Placed(ks, s) && Placed(ks, i);
    }
  }

  /** A prefix of the table without a gap holds as many keys as slots. */
  lemma {:induction false} KeyCount(ks: Slots, i: nat)
    requires WellPlaced(ks) && i <= |ks|
    ensures |KeysBelow(ks, i)| <= i
    ensures None !in ks[..i] ==> |KeysBelow(ks, i)| == i
  {
    hide WellPlaced, KeysBelow;
    if i == 0 {
      KeysBelowNone(ks);
    } else {
      KeyCount(ks, i - 1);
      KeysBelowStep(ks, i - 1);
      GapStep(ks, i - 1);
      if ks[i - 1].Some? {
        FreshKey(ks, i - 1);
      }
    }
  }

  lemma KeysBelowNone(ks: Slots)
    ensures KeysBelow(ks, 0) == {}
  {
  }

  lemma GapStep(ks: Slots, i: nat)
    requires i < |ks|
    ensures None !in ks[..i + 1] <==> None !in ks[..i] && ks[i].Some?
  {
    assert ks[..i + 1] == ks[..i] + [ks[i]];
  }

  /** Fewer keys than slots leaves a free slot. */
  lemma SpareSlot(ks: Slots)
    requires WellPlaced(ks) && |KeySet(ks)| < |ks|
    ensures HasFreeSlot(ks)
  {
    KeyCount(ks, |ks|);
    KeysBelowAll(ks);
    assert ks[..|ks|] == ks;
  }

  /** The load test count + count/4 <= n leaves a free slot. */
  lemma LoadBoundLeavesSlot(ks: Slots)
    requires WellPlaced(ks) && |ks| >= 8
    requires |KeySet(ks)| + |KeySet(ks)| / 4 <= |ks|
    ensures HasFreeSlot(ks)
  {
    SpareSlot(ks);
  }

  /** Slot s carries the value the abstract map gives its key. */
  ghost predicate Carries<V>(ks: Slots, vs: seq<V>, m: map<Key, V>, s: nat)
    requires s < |ks| == |vs|
  {
    ks[s].Some? ==> ks[s].value in m && vs[s] == m[ks[s].value]
  }

  /** The two parallel arrays represent an abstract map. */
  ghost predicate Represents<V>(ks: Slots, vs: seq<V>, m: map<Key, V>) {
    && |ks| == |vs|
    && WellPlaced(ks)
    && m.Keys == KeySet(ks)
    && forall s {:trigger Carries(ks, vs, m, s)} :: 0 <= s < |ks| ==> Carries(ks, vs, m, s)
  }

  lemma EmptyTable<V>(ks: Slots, vs: seq<V>)
    requires PowerOfTwo(|ks|) && |vs| == |ks|
    requires forall s :: 0 <= s < |ks| ==> ks[s] == None
    ensures Represents(ks, vs, map[])
  {
    assert KeySet(ks) == {};
  }

  lemma LookupRepresents<V>(ks: Slots, vs: seq<V>, m: map<Key, V>, key: Key)
    requires Represents(ks, vs, m) && HasFreeSlot(ks)
    ensures var slot := LookupSlot(ks, key);
            if key in m then ks[slot] == Some(key) && vs[slot] == m[key] else ks[slot] == None
  {
    LookupFinds(ks, key);
    assert Carries(ks, vs, m, LookupSlot(ks, key));
  }

  lemma InsertRepresents<V>(ks: Slots, vs: seq<V>, m: map<Key, V>, key: Key, value: V)
    requires Represents(ks, vs, m) && HasFreeSlot(ks) && key !in m
    ensures var slot := LookupSlot(ks, key);
            Represents(ks[slot := Some(key)], vs[slot := value], m[key := value])
    ensures |m[key := value]| == |m| + 1
  {
    var slot := LookupSlot(ks, key);
    var ks', vs', m' := ks[slot := Some(key)], vs[slot := value], m[key := value];
    InsertKeepsPlacement(ks, key, ks');
    forall s | 0 <= s < |ks'|
      ensures Carries(ks', vs', m', s)
    {
      assert Carries(ks, vs, m, s);
      if s != slot && ks[s].Some? {
        assert ks[s].value in KeySet(ks);
      }
    }
    assert m'.Keys == m.Keys + {key};
  }

  lemma ReplaceRepresents<V>(ks: Slots, vs: seq<V>, m: map<Key, V>, key: Key, value: V)
    requires Represents(ks, vs, m) && HasFreeSlot(ks) && key in m
    ensures Represents(ks, vs[LookupSlot(ks, key) := value], m[key := value])
    ensures |m[key := value]| == |m|
  {
    var slot := LookupSlot(ks, key);
    var vs', m' := vs[slot := value], m[key := value];
    LookupFinds(ks, key);
    assert m'.Keys == m.Keys;
    forall s | 0 <= s < |ks|
      ensures Carries(ks, vs', m', s)
    {
      assert Carries(ks, vs, m, s);
    }
  }

  /** A signed 64-bit register holding x. */
  function Wrap64(x: int): (w: int)
    ensures -0x8000_0000_0000_0000 <= w < 0x8000_0000_0000_0000
  {
    (x + 0x8000_0000_0000_0000) % 0x1_0000_0000_0000_0000 - 0x8000_0000_0000_0000
  }

  lemma Wrap64Difference(x: int) returns (k: int)
    ensures Wrap64(x) == x + k * 0x1_0000_0000_0000_0000
  {
    k := -((x + 0x8000_0000_0000_0000) / 0x1_0000_0000_0000_0000);
  }

  /** 2^64 is 2^q times 2^p. */
  lemma Pow2At64(p: nat) returns (m: nat)
    requires p <= 56
    ensures 0x100_0000_0000_0000 == m * Pow2(p) && 0x1_0000_0000_0000_0000 == 256 * m * Pow2(p)
  {
    m := Pow2(56 - p);
    Pow2Splits(56 - p, p);
    Pow2Is56();
    assert 256 * m * Pow2(p) == 256 * (m * Pow2(p));
  }

  lemma Pow2Is56()
    ensures Pow2(56) == 0x100_0000_0000_0000
  {
    assert Pow2(8) == 256;
    Pow2Splits(8, 8);
    Pow2Splits(16, 8);
    Pow2Splits(24, 8);
    Pow2Splits(32, 8);
    Pow2Splits(40, 8);
    Pow2Splits(48, 8);
  }

  /** Overflow of the hash code does not move any probe of a table of at most
      2^56 slots: code, shifted code and every later probe differ from their
      unbounded counterparts by a multiple of the table size. */
  lemma WrappingDoesNotMoveSlots(code: int, p: nat, j: nat)
    requires p <= 56
    ensures ProbeAt(Wrap64(code), Pow2(p), j) == ProbeAt(code, Pow2(p), j)
    ensures Wrap64(ProbeCode(code, j)) % Pow2(p) == ProbeAt(code, Pow2(p), j)
  {
    WrappedCodeProbesAlike(code, p, j);
    WrapKeepsResidue(ProbeCode(code, j), p);
  }

  lemma WrappedCodeProbesAlike(code: int, p: nat, j: nat)
    requires p <= 56
    ensures ProbeAt(Wrap64(code), Pow2(p), j) == ProbeAt(code, Pow2(p), j)
  {
    var x := WrappedCode(code, p);
    ProbeShift(code, Wrap64(code), x * Pow2(p), x, Pow2(p), j);
  }

  lemma WrappedCode(code: int, p: nat) returns (x: int)
    requires p <= 56
    ensures Wrap64(code) == code + 256 * (x * Pow2(p))
    ensures Stride(Wrap64(code)) == Stride(code) + 257 * (x * Pow2(p))
  {
    var k := Wrap64Difference(code);
    var m := Pow2At64(p);
    x := k * m;
    Associate(k, m, Pow2(p));
    EvenMultiple(k);
    StrideShift(code, k * 0x100_0000_0000_0000);
  }

  lemma Associate(k: int, m: int, n: int)
    ensures (k * m) * n == k * (m * n)
  {
  }

  lemma WrapKeepsResidue(x: int, p: nat)
    requires p <= 56
    ensures Wrap64(x) % Pow2(p) == x % Pow2(p)
  {
    var m := Pow2At64(p);
    var k := Wrap64Difference(x);
    assert k * (256 * m * Pow2(p)) == (k * (256 * m)) * Pow2(p);
    ModShift(x, k * (256 * m), Pow2(p));
  }

  lemma ProbeShift(code: int, w: int, c: int, x: int, n: nat, j: nat)
    requires n > 0 && c == x * n
    requires w == code + 256 * c && Stride(w) == Stride(code) + 257 * c
    ensures ProbeAt(w, n, j) == ProbeAt(code, n, j)
  {
    hide Stride, ProbeCode, ProbeAt;
    ProbeAtClosed(code, n, j);
    ProbeAtClosed(w, n, j);
    Distribute(j, Stride(code), c);
    ProbeMultiple(x, j, n);
    ModShift(code + j * Stride(code), x * (256 + 257 * j), n);
  }

  lemma ProbeAtClosed(code: int, n: nat, j: nat)
    requires n > 0
    ensures ProbeAt(code, n, j) == (code + j * Stride(code)) % n
  {
    hide Stride;
    ProbeCodeClosed(code, j);
  }

  lemma Distribute(j: int, v: int, c: int)
    ensures j * (v + 257 * c) == j * v + 257 * (j * c)
  {
  }

  lemma ProbeMultiple(x: int, j: int, n: int)
    ensures (x * (256 + 257 * j)) * n == 256 * (x * n) + 257 * (j * (x * n))
  {
    assert (x * (256 + 257 * j)) * n == (x * n) * (256 + 257 * j);
  }

  lemma EvenMultiple(k: int)
    ensures (k * 0x100_0000_0000_0000) % 2 == 0
  {
  }

  lemma StrideShift(code: int, c: int)
    requires c % 2 == 0
    ensures Stride(code + 256 * c) == Stride(code) + 257 * c
  {
    assert (code + 256 * c) / 256 == code / 256 + c;
  }
}

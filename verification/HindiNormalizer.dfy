/** HindiNormalizer: spelling variants of Hindi collapsed in place.

Code points are those of the Devanagari block and the two zero-width joiners.
*/
module Hindi {
  import opened RuneBuffer

  const NA: Rune := 0x0928
  const VIRAMA: Rune := 0x094D
  const ANUSVARA: Rune := 0x0902
  const NUKTA: Rune := 0x093C
  const ZWJ: Rune := 0x200D
  const ZWNJ: Rune := 0x200C

  /** The characters that carry no letter of their own. */
  predicate Dropped(r: Rune) {
    r == NUKTA || r == ZWJ || r == ZWNJ || r == VIRAMA
  }

  /** The letter that stands for r and its variants. */
  function Fold(r: Rune): Rune {
    if r == 0x0901 then ANUSVARA
    else if r == 0x0929 then NA
    else if r == 0x0931 then 0x0930
    else if r == 0x0934 then 0x0933
    else if r == 0x0958 then 0x0915
    else if r == 0x0959 then 0x0916
    else if r == 0x095A then 0x0917
    else if r == 0x095B then 0x091C
    else if r == 0x095C then 0x0921
    else if r == 0x095D then 0x0922
    else if r == 0x095E then 0x092B
    else if r == 0x095F then 0x092F
    else if r == 0x0945 || r == 0x0946 then 0x0947
    else if r == 0x0949 || r == 0x094A then 0x094B
    else if r == 0x090D || r == 0x090E then 0x090F
    else if r == 0x0911 || r == 0x0912 then 0x0913
    else if r == 0x0972 then 0x0905
    else if r == 0x0906 then 0x0905
    else if r == 0x0908 then 0x0907
    else if r == 0x090A then 0x0909
    else if r == 0x0960 then 0x090B
    else if r == 0x0961 then 0x090C
    else if r == 0x0910 then 0x090F
    else if r == 0x0914 then 0x0913
    else if r == 0x0940 then 0x093F
    else if r == 0x0942 then 0x0941
    else if r == 0x0944 then 0x0943
    else if r == 0x0963 then 0x0962
    else if r == 0x0948 then 0x0947
    else if r == 0x094C then 0x094B
    else r
  }

  /** What one character becomes, seen with the character behind it. */
  function Piece(s: seq<Rune>): seq<Rune>
    requires s != []
  {
    if Dropped(s[0]) then []
    else if s[0] == NA && |s| > 1 && s[1] == VIRAMA then [ANUSVARA]
    else [Fold(s[0])]
  }

  /** The text read once from left to right. */
  function Normal(s: seq<Rune>): seq<Rune> {
    if s == [] then [] else Piece(s) + Normal(s[1..])
  }

  /** The letters that have variants, each with its variants. */
  function Letters(): seq<(Rune, seq<Rune>)> {
    [(0x0902, [0x0901]), (0x0928, [0x0929]), (0x0930, [0x0931]), (0x0933, [0x0934]),
     (0x0915, [0x0958]), (0x0916, [0x0959]), (0x0917, [0x095A]), (0x091C, [0x095B]),
     (0x0921, [0x095C]), (0x0922, [0x095D]), (0x092B, [0x095E]), (0x092F, [0x095F]),
     (0x0905, [0x0906, 0x0972]), (0x0907, [0x0908]), (0x0909, [0x090A]),
     (0x090B, [0x0960]), (0x090C, [0x0961]),
     (0x090F, [0x090D, 0x090E, 0x0910]), (0x0913, [0x0911, 0x0912, 0x0914]),
     (0x093F, [0x0940]), (0x0941, [0x0942]), (0x0943, [0x0944]), (0x0962, [0x0963]),
     (0x0947, [0x0945, 0x0946, 0x0948]), (0x094B, [0x0949, 0x094A, 0x094C])]
  }

  /** A variant alone becomes its letter. */
  lemma VariantsBecomeLetters(i: nat, j: nat)
    requires i < |Letters()| && j < |Letters()[i].1|
    ensures Normal([Letters()[i].1[j]]) == [Letters()[i].0]
  {
    assert Normal([]) == [];
    assert Fold(Letters()[i].1[j]) == Letters()[i].0;
  }

  ghost predicate IsVariant(r: Rune) {
    exists i :: 0 <= i < |Letters()| && r in Letters()[i].1
  }

  /** Any other character but nukta, virama and the joiners stays, alone. */
  lemma OthersStay(r: Rune)
    requires !IsVariant(r) && r != 0x093C && r != 0x094D && r != 0x200C && r != 0x200D
    ensures Normal([r]) == [r]
  {
    assert r !in Letters()[0].1 && r !in Letters()[1].1 && r !in Letters()[2].1 && r !in Letters()[3].1;
    assert r !in Letters()[4].1 && r !in Letters()[5].1 && r !in Letters()[6].1 && r !in Letters()[7].1;
    assert r !in Letters()[8].1 && r !in Letters()[9].1 && r !in Letters()[10].1 && r !in Letters()[11].1;
    assert r !in Letters()[12].1 && r !in Letters()[13].1 && r !in Letters()[14].1 && r !in Letters()[15].1;
    assert r !in Letters()[16].1 && r !in Letters()[17].1 && r !in Letters()[18].1 && r !in Letters()[19].1;
    assert r !in Letters()[20].1 && r !in Letters()[21].1 && r !in Letters()[22].1 && r !in Letters()[23].1;
    assert r !in Letters()[24].1;
    assert Normal([]) == [];
  }

  /** The na with a virama behind it is an anusvara; alone it stays, and the virama goes. */
  lemma NaVirama(rest: seq<Rune>)
    ensures Normal([0x0928, 0x094D] + rest) == [0x0902] + Normal(rest)
    ensures Normal([0x094D] + rest) == Normal(rest) && Normal([0x093C] + rest) == Normal(rest)
    ensures Normal([0x200C] + rest) == Normal(rest) && Normal([0x200D] + rest) == Normal(rest)
  {
    var s := [0x0928, 0x094D] + rest;
    assert s[1..] == [0x094D] + rest;
    assert ([0x094D] + rest)[1..] == rest && ([0x093C] + rest)[1..] == rest;
    assert ([0x200C] + rest)[1..] == rest && ([0x200D] + rest)[1..] == rest;
  }

  /** Nothing in the text is dropped or stands for another letter. */
  predicate Settled(s: seq<Rune>) {
    forall k :: 0 <= k < |s| ==> !Dropped(s[k]) && Fold(s[k]) == s[k]
  }

  lemma FoldIsSettled(r: Rune)
    ensures Fold(Fold(r)) == Fold(r) && (Dropped(r) || !Dropped(Fold(r)))
  {
  }

  lemma {:induction false} NormalIsSettled(s: seq<Rune>)
    ensures Settled(Normal(s)) && |Normal(s)| <= |s|
  {
    if s != [] {
      NormalIsSettled(s[1..]);
      FoldIsSettled(s[0]);
    }
  }

  /** Normalising changes a text exactly when something in it is not settled. */
  lemma {:induction false} UnchangedExactlyWhenSettled(s: seq<Rune>)
    ensures Normal(s) == s <==> Settled(s)
  {
    NormalIsSettled(s);
    if s != [] && Settled(s) {
      assert Settled(s[1..]);
      UnchangedExactlyWhenSettled(s[1..]);
      assert |s| > 1 ==> !Dropped(s[1]);
    }
  }

  lemma Idempotent(s: seq<Rune>)
    ensures Normal(Normal(s)) == Normal(s)
  {
    NormalIsSettled(s);
    UnchangedExactlyWhenSettled(Normal(s));
  }

  lemma NormalStep(r: Rune, rest: seq<Rune>)
    ensures Normal([r] + rest) == if Dropped(r) then Normal(rest)
                                  else if r == NA && rest != [] && rest[0] == VIRAMA then [ANUSVARA] + Normal(rest[1..])
                                  else [Fold(r)] + Normal(rest)
  {
    assert ([r] + rest)[1..] == rest;
  }

  lemma NormalEnd()
    ensures Normal([]) == []
  {
  }

  method Normalize(input: seq<Rune>) returns (result: seq<Rune>)
    ensures result == Normal(input)
  {
    hide Normal, Fold;
    NormalEnd();
    if input == [] {
      return [];
    }
    var s := new Rune[|input|](k requires 0 <= k < |input| => input[k]);
    var length := |input|;
    assert s[..0] + Normal(s[0..length]) == Normal(input) by {
      assert s[0..length] == input;
    }
    var i: int := 0;
    while i < length
      invariant 0 <= i <= length <= s.Length && fresh(s)
      invariant s[..i] + Normal(s[i..length]) == Normal(input)
      decreases length - i
    {
      i, length := Step(s, i, length);
      i := i + 1;
    }
    assert s[i..length] == [];
    result := s[..length];
  }

  /** One round of the loop: i steps back when the character at i goes. */
  method Step(s: array<Rune>, i: nat, length: nat) returns (i': int, length': nat)
    requires i < length <= s.Length
    modifies s
    ensures i' + 1 >= 0 && i' < length' <= s.Length && length' - i' - 1 < length - i
    ensures s[..i' + 1] + Normal(s[i' + 1..length']) == old(s[..i] + Normal(s[i..length]))
  {
    hide Normal, Fold;
    i', length' := i, length;
    var r := s[i];
    ghost var before, behind := s[..i], s[i + 1..length];
    Split(s[..], i, length);
    NormalStep(r, behind);
    NaIsSettled();
    if r == NA && i + 1 < length && s[i + 1] == VIRAMA {
      length' := CollapseDeadNa(s, i, length);
      Regroup(before, [ANUSVARA], Normal(behind[1..]));
    } else if Dropped(r) {
      length' := Drop(s, i, length);
      i' := i - 1;
    } else {
      Replace(s, i, length, Fold(r));
      Regroup(before, [Fold(r)], Normal(behind));
    }
  }

  lemma Split(s: seq<Rune>, i: nat, length: nat)
    requires i <= length <= |s|
    ensures i < length ==> s[i..length] == [s[i]] + s[i + 1..length]
    ensures length == |s| ==> s[..i] + s[i..length] == s
  {
  }

  lemma Regroup(a: seq<Rune>, b: seq<Rune>, c: seq<Rune>)
    ensures a + b + c == a + (b + c)
  {
  }

  method Replace(s: array<Rune>, i: nat, length: nat, r: Rune)
    requires i < length <= s.Length
    modifies s
    ensures s[..i + 1] == old(s[..i]) + [r] && s[i + 1..length] == old(s[i + 1..length])
  {
    s[i] := r;
  }

  method Drop(s: array<Rune>, i: nat, length: nat) returns (length': nat)
    requires i < length <= s.Length
    modifies s
    ensures length' == length - 1
    ensures s[..i] == old(s[..i]) && s[i..length'] == old(s[i + 1..length])
  {
    ghost var before, behind := s[..i], s[i + 1..length];
    length' := Delete(s, i, length);
    assert s[..length'] == before + behind;
    assert s[..i] == s[..length'][..i] && s[i..length'] == s[..length'][i..];
  }

  /** Dead NA becomes an anusvara. */
  method CollapseDeadNa(s: array<Rune>, i: nat, length: nat) returns (length': nat)
    requires i + 1 < length <= s.Length
    modifies s
    ensures length' == length - 1
    ensures s[..i + 1] == old(s[..i]) + [ANUSVARA] && s[i + 1..length'] == old(s[i + 1..length])[1..]
  {
    ghost var before, behind := s[..i], s[i + 2..length];
    s[i] := ANUSVARA;
    length' := Delete(s, i + 1, length);
    assert s[..length'] == before + [ANUSVARA] + behind;
    assert s[..i + 1] == s[..length'][..i + 1] && s[i + 1..length'] == s[..length'][i + 1..];
  }

  lemma NaIsSettled()
    ensures Fold(NA) == NA && !Dropped(NA)
  {
  }
}

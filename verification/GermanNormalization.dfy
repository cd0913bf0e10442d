/** GermanNormalizationFilter: umlauts and their spellings with e collapsed in place. */
module German {
  import opened RuneBuffer

  const A: Rune := 'a' as int
  const E: Rune := 'e' as int
  const I: Rune := 'i' as int
  const O: Rune := 'o' as int
  const Q: Rune := 'q' as int
  const S: Rune := 's' as int
  const U: Rune := 'u' as int
  const Y: Rune := 'y' as int
  const A_UMLAUT: Rune := 0xE4
  const O_UMLAUT: Rune := 0xF6
  const U_UMLAUT: Rune := 0xFC
  const SHARP_S: Rune := 0xDF

  /** Ordinary; after a letter whose e is an umlaut; after a vowel or q. */
  datatype State = Plain | Umlaut | Vowel

  // ---------- The rules, character by character ----------

  predicate IsVowel(r: Rune) {
    r == A || r == O || r == U || r == E || r == I || r == Q || r == Y
    || r == A_UMLAUT || r == O_UMLAUT || r == U_UMLAUT
  }

  /** An e is dropped behind a or o, and behind a u that does not follow a vowel or q. */
  predicate Dropped(s: seq<Rune>, k: nat)
    requires k < |s|
  {
    s[k] == E && k > 0 && (s[k - 1] == A || s[k - 1] == O || (s[k - 1] == U && (k == 1 || !IsVowel(s[k - 2]))))
  }

  function Fold(r: Rune): seq<Rune> {
    if r == A_UMLAUT then [A]
    else if r == O_UMLAUT then [O]
    else if r == U_UMLAUT then [U]
    else if r == SHARP_S then [S, S]
    else [r]
  }

  /** The text from position k on, normalised. */
  function Spelled(s: seq<Rune>, k: nat): seq<Rune>
    requires k <= |s|
    decreases |s| - k
  {
    if k == |s| then [] else (if Dropped(s, k) then [] else Fold(s[k])) + Spelled(s, k + 1)
  }

  /** Single characters: a, o and u for their umlauts, two s for a sharp s. */
  lemma SingleCharacters(r: Rune)
    ensures Spelled([0xE4], 0) == [97] && Spelled([0xF6], 0) == [111] && Spelled([0xFC], 0) == [117]
    ensures Spelled([0xDF], 0) == [115, 115]
    ensures r != 0xE4 && r != 0xF6 && r != 0xFC && r != 0xDF ==> Spelled([r], 0) == [r]
  {
    assert forall c: Rune :: Spelled([c], 1) == [];
  }

  /** Where the e goes: behind a and o always; behind a u unless a, e, i, o, q, u, y or
      an umlaut stands before it; behind nothing else. */
  lemma WhereEGoes(c: Rune, d: Rune)
    ensures Dropped([c, d, 101], 2) <==>
            d == 97 || d == 111 ||
            (d == 117 && c != 97 && c != 101 && c != 105 && c != 111 && c != 113 && c != 117 && c != 121
             && c != 0xE4 && c != 0xF6 && c != 0xFC)
    ensures Dropped([d, 101], 1) <==> d == 97 || d == 111 || d == 117
    ensures !Dropped([101], 0)
  {
  }

  // ---------- The state machine ----------

  function Next(state: State, r: Rune): State {
    if r == A || r == O then Umlaut
    else if r == U then if state.Plain? then Umlaut else Vowel
    else if IsVowel(r) then Vowel
    else Plain
  }

  function Run(state: State, s: seq<Rune>): seq<Rune>
    decreases |s|
  {
    if s == [] then []
    else (if s[0] == E && state.Umlaut? then [] else Fold(s[0])) + Run(Next(state, s[0]), s[1..])
  }

  /** What the state says about the characters before k. */
  ghost predicate Explains(s: seq<Rune>, k: nat, state: State)
    requires k <= |s|
  {
    && (state.Plain? <==> k == 0 || !IsVowel(s[k - 1]))
    && (k < |s| && s[k] == E ==> (state.Umlaut? <==> Dropped(s, k)))
    && (state.Umlaut? ==> k > 0)
  }

  /** Three states suffice to look back two characters. */
  lemma StateStep(s: seq<Rune>, k: nat, state: State)
    requires k < |s| && Explains(s, k, state)
    ensures Explains(s, k + 1, Next(state, s[k]))
  {
  }

  lemma {:induction false} MachineFollowsRules(s: seq<Rune>, k: nat, state: State)
    requires k <= |s| && Explains(s, k, state)
    ensures Run(state, s[k..]) == Spelled(s, k)
    decreases |s| - k
  {
    if k < |s| {
      StateStep(s, k, state);
      MachineFollowsRules(s, k + 1, Next(state, s[k]));
      assert s[k..][1..] == s[k + 1..];
    }
  }

  // ---------- The result ----------

  predicate Unmarked(s: seq<Rune>) {
    A_UMLAUT !in s && O_UMLAUT !in s && U_UMLAUT !in s && SHARP_S !in s
  }

  lemma FoldIsUnmarked(r: Rune)
    ensures Unmarked(Fold(r)) && |Fold(r)| <= 2
  {
  }

  lemma {:induction false} SpelledIsUnmarked(s: seq<Rune>, k: nat)
    requires k <= |s|
    ensures Unmarked(Spelled(s, k)) && |Spelled(s, k)| <= 2 * (|s| - k)
    decreases |s| - k
  {
    hide Fold;
    if k < |s| {
      FoldIsUnmarked(s[k]);
      SpelledIsUnmarked(s, k + 1);
    }
  }

  /** A text is left alone exactly when it is unmarked and no e is dropped. */
  lemma {:induction false} UnchangedExactlyWhen(s: seq<Rune>)
    ensures Spelled(s, 0) == s <==> Unmarked(s) && forall k :: 0 <= k < |s| ==> !Dropped(s, k)
  {
    SpelledIsUnmarked(s, 0);
    if Unmarked(s) {
      UnmarkedSpelling(s, 0);
    }
  }

  lemma {:induction false} UnmarkedSpelling(s: seq<Rune>, k: nat)
    requires Unmarked(s) && k <= |s|
    ensures |Spelled(s, k)| <= |s| - k
    ensures (forall j :: k <= j < |s| ==> !Dropped(s, j)) ==> Spelled(s, k) == s[k..]
    ensures |Spelled(s, k)| == |s| - k ==> forall j :: k <= j < |s| ==> !Dropped(s, j)
    decreases |s| - k
  {
    if k < |s| {
      UnmarkedSpelling(s, k + 1);
      assert s[k] in s && Fold(s[k]) == [s[k]];
      assert s[k..] == [s[k]] + s[k + 1..];
    }
  }

  lemma RunStep(state: State, r: Rune, rest: seq<Rune>)
    ensures Run(state, [r] + rest) == (if r == E && state.Umlaut? then [] else Fold(r)) + Run(Next(state, r), rest)
  {
    assert ([r] + rest)[1..] == rest;
  }

  lemma RunEnd(state: State)
    ensures Run(state, []) == []
  {
  }

  // ---------- A second pass ----------

  /** An e that the first pass keeps and the second one drops: the first pass has bared
      the a, o or u before it, or has dropped an e between. */
  predicate Exposed(s: seq<Rune>, k: nat)
    requires k < |s|
  {
    s[k] == E && !Dropped(s, k) && k > 0
    && (s[k - 1] == A_UMLAUT || s[k - 1] == O_UMLAUT
        || (s[k - 1] == U_UMLAUT && (k == 1 || !IsVowel(s[k - 2])))
        || Dropped(s, k - 1))
  }

  /** The state of a second pass when the first one has come to position k, had the
      second one dropped nothing so far. */
  function Second(s: seq<Rune>, k: nat): State
    requires k <= |s|
  {
    if k == 0 then Plain
    else if Dropped(s, k - 1) then Second(s, k - 1)
    else if s[k - 1] == SHARP_S then Plain
    else Next(Second(s, k - 1), Fold(s[k - 1])[0])
  }

  /** What that state says about the characters before k. */
  lemma {:induction false} SecondExplained(s: seq<Rune>, k: nat)
    requires k <= |s|
    ensures Second(s, k).Plain? <==> k == 0 || !IsVowel(s[k - 1])
    ensures k < |s| && s[k] == E && !Dropped(s, k) ==> (Second(s, k).Umlaut? <==> Exposed(s, k))
    ensures k < |s| && Dropped(s, k) ==> Second(s, k).Umlaut?
  {
    if k > 0 {
      SecondExplained(s, k - 1);
    }
  }

  lemma {:induction false} RunShortens(state: State, s: seq<Rune>)
    requires Unmarked(s)
    ensures |Run(state, s)| <= |s|
    decreases |s|
  {
    if s != [] {
      assert Unmarked(s[1..]);
      assert s[0] in s;
      RunShortens(Next(state, s[0]), s[1..]);
    }
  }

  lemma {:induction false} SecondPass(s: seq<Rune>, k: nat)
    requires k <= |s|
    ensures |Run(Second(s, k), Spelled(s, k))| <= |Spelled(s, k)|
    ensures (forall j :: k <= j < |s| ==> !Exposed(s, j)) ==> Run(Second(s, k), Spelled(s, k)) == Spelled(s, k)
    ensures (exists j :: k <= j < |s| && Exposed(s, j)) ==> |Run(Second(s, k), Spelled(s, k))| < |Spelled(s, k)|
    decreases |s| - k
  {
    hide Run, Spelled, Exposed, Dropped;
    SpelledStep(s, k);
    RunEnd(Second(s, k));
    if k < |s| {
      var rest := Spelled(s, k + 1);
      SecondPass(s, k + 1);
      SecondExplained(s, k);
      ExposedIs(s, k);
      if Dropped(s, k) {
      } else if Exposed(s, k) {
        RunStep(Second(s, k), E, rest);
        SpelledIsUnmarked(s, k + 1);
        RunShortens(Vowel, rest);
      } else {
        PieceRuns(s, k, rest);
      }
    }
  }

  lemma ExposedIs(s: seq<Rune>, k: nat)
    requires k < |s|
    ensures Exposed(s, k) ==> s[k] == E && !Dropped(s, k)
  {
  }

  lemma SpelledStep(s: seq<Rune>, k: nat)
    requires k <= |s|
    ensures Spelled(s, k) == if k == |s| then [] else if Dropped(s, k) then Spelled(s, k + 1) else Fold(s[k]) + Spelled(s, k + 1)
  {
  }

  /** A piece that is not an exposed e passes a second time unchanged. */
  lemma PieceRuns(s: seq<Rune>, k: nat, rest: seq<Rune>)
    requires k < |s| && !Dropped(s, k) && (s[k] == E ==> !Second(s, k).Umlaut?)
    ensures Run(Second(s, k), Fold(s[k]) + rest) == Fold(s[k]) + Run(Second(s, k + 1), rest)
  {
    hide Run, Dropped;
    var state := Second(s, k);
    if s[k] == SHARP_S {
      RunStep(state, S, [S] + rest);
      RunStep(Plain, S, rest);
      assert [S, S] + rest == [S] + ([S] + rest);
      assert [S, S] + Run(Plain, rest) == [S] + ([S] + Run(Plain, rest));
    } else {
      RunStep(state, Fold(s[k])[0], rest);
      assert Fold(s[k]) == [Fold(s[k])[0]];
    }
  }

  /** A second pass changes nothing exactly when no e is exposed. */
  lemma IdempotentExactlyWhen(s: seq<Rune>)
    ensures Spelled(Spelled(s, 0), 0) == Spelled(s, 0) <==> forall k :: 0 <= k < |s| ==> !Exposed(s, k)
  {
    hide Run, Spelled, Exposed;
    SecondPass(s, 0);
    var once := Spelled(s, 0);
    assert once[0..] == once;
    MachineFollowsRules(once, 0, Plain);
  }

  /** Both causes: an umlaut before the e, and an e dropped before it. */
  lemma NotIdempotent()
    ensures Spelled(Spelled([A_UMLAUT, E], 0), 0) != Spelled([A_UMLAUT, E], 0)
    ensures Spelled(Spelled([A, E, E], 0), 0) != Spelled([A, E, E], 0)
  {
    hide Spelled;
    IdempotentExactlyWhen([A_UMLAUT, E]);
    IdempotentExactlyWhen([A, E, E]);
    assert Exposed([A_UMLAUT, E], 1);
    assert Dropped([A, E, E], 1) && Exposed([A, E, E], 2);
  }

  // ---------- The filter's loop ----------

  method Normalize(term: seq<Rune>) returns (res: seq<Rune>)
    ensures res == Spelled(term, 0)
  {
    hide Run;
    var runes := new Rune[|term|](k requires 0 <= k < |term| => term[k]);
    var state := Plain;
    var length := |term|;
    var i := 0;
    assert runes[i..length] == term == term[0..];
    MachineFollowsRules(term, 0, Plain);
    while i < length
      invariant 0 <= i <= length <= runes.Length && fresh(runes)
      invariant runes[..i] + Run(state, runes[i..length]) == Spelled(term, 0)
      decreases length - i
    {
      runes, i, length, state := Step(runes, i, length, state);
    }
    RunEnd(state);
    assert runes[i..length] == [];
    res := runes[..length];
  }

  /** Puts two s in the place of the character at i. */
  method Expand(runes: array<Rune>, i: nat, length: nat) returns (runes': array<Rune>)
    requires i < length <= runes.Length
    modifies runes
    ensures fresh(runes') && runes'.Length == runes.Length + 1
    ensures runes'[..i + 2] == old(runes[..i]) + [S, S] && runes'[i + 2..length + 1] == old(runes[i + 1..length])
  {
    ghost var before, behind := runes[..i], runes[i + 1..length];
    runes[i] := S;
    runes' := Append(runes, 0);
    ghost var all := runes[..] + [0];
    assert all[..i + 1] == before + [S] && all[i + 1..length] == behind;
    ShiftUp(runes', i + 1, length);
    runes'[i + 1] := S;
    assert runes'[..i + 1] == before + [S];
    assert runes'[..i + 2] == before + [S, S];
  }

  /** One round of the loop; the buffer may be replaced by a longer one. */
  method Step(runes: array<Rune>, i: nat, length: nat, state: State)
    returns (runes': array<Rune>, i': nat, length': nat, state': State)
    requires i < length <= runes.Length
    modifies runes
    ensures runes' == runes || fresh(runes')
    ensures i' <= length' <= runes'.Length && length' - i' < length - i
    ensures runes'[..i'] + Run(state', runes'[i'..length']) == old(runes[..i] + Run(state, runes[i..length]))
  {
    hide Run;
    runes', length' := runes, length;
    var c := runes[i];
    state' := Next(state, c);
    ghost var before, behind := runes[..i], runes[i + 1..length];
    assert runes[i..length] == [c] + behind;
    RunStep(state, c, behind);
    if c == E && state.Umlaut? {
      length' := Delete(runes, i, length);
      assert runes[..i] == before && runes[i..length'] == behind;
      return runes, i, length', state';
    }
    if c == SHARP_S {
      runes' := Expand(runes, i, length);
      length' := length + 1;
      i' := i + 2;
    } else {
      runes[i] := Fold(c)[0];
      i' := i + 1;
      assert runes[..i'] == before + Fold(c) && runes[i'..length'] == behind;
    }
  }
}

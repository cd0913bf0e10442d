/** PorterStemmer: the steps carried out in place on a buffer.

The buffer holds the word; k is the end of what is left of it, and j is the end of
the stem before the ending that was last found.
*/
module Porter {
  import opened PorterFacts
  import opened PorterRules
  import opened Wrappers

  function Lower(lower: char -> char, c: char): char {
    lower(c)
  }

  function Folded(lower: char -> char, word: string): (folded: string)
    ensures |folded| == |word|
  {
    seq(|word|, i requires 0 <= i < |word| => Lower(lower, word[i]))
  }

  /** What the stemmer makes of a word; None is an index out of range. */
  function Stemmed(lower: char -> char, word: string): Option<string> {
    if |word| <= 2 then Some(word)
    else if FallsShort(Folded(lower, word)) then None
    else Some(Steps(Folded(lower, word)))
  }

  /** Words of one or two letters stay as they are; of any other word every letter is
      folded first. */
  lemma ShortWordsStay(lower: char -> char, word: string, i: nat)
    ensures |word| <= 2 ==> Stemmed(lower, word) == Some(word)
    ensures i < |word| ==> Folded(lower, word)[i] == lower(word[i])
  {
    hide Steps, FallsShort;
  }

  lemma NeverLonger(lower: char -> char, word: string)
    ensures Stemmed(lower, word).Some? ==> |Stemmed(lower, word).value| <= |word|
  {
    hide Steps, FallsShort;
    if |word| > 2 && !FallsShort(Folded(lower, word)) {
      StepsLength(Folded(lower, word));
    }
  }

  /** A word of three letters on which the stemmer fails. */
  lemma FailsOnIes(lower: char -> char)
    requires Lower(lower, 'i') == 'i' && Lower(lower, 'e') == 'e' && Lower(lower, 's') == 's'
    ensures Stemmed(lower, "ies") == None
  {
    hide Steps;
    assert Folded(lower, "ies") == "ies";
  }

  class PorterStemmer {
    var b: string
    var k: nat
    var j: nat

    predicate Valid()
      reads this
    {
      k <= |b| && j <= |b|
    }

    function Word(): string
      requires Valid()
      reads this
    {
      b[..k]
    }

    constructor ()
      ensures Valid()
    {
      b, k, j := [], 0, 0;
    }

    /** Stems a word. The index k - 2 of step 2 is out of range when a single letter is
        left; the source panics there. */
    method Stem(word: string, lower: char -> char) returns (stem: Option<string>)
      modifies this
      ensures stem == Stemmed(lower, word)
    {
      hide Step1a, Step1b, Step1c, Step2, Step3, Step4, Step5a, Step5b, FallsShort;
      if |word| <= 2 {
        return Some(word);
      }
      Load(word, lower);
      assert Word() == b;
      FallsShortExactlyWhen(b);
      DoStep1a();
      DoStep1b();
      DoStep1c();
      if k < 2 {
        return None;
      }
      LaterLength(Word());
      DoStep2();
      LaterLength(Word());
      DoStep3();
      LaterLength(Word());
      DoStep4();
      LaterLength(Word());
      DoStep5a();
      DoStep5b();
      return Some(Word());
    }

    method Load(word: string, lower: char -> char)
      modifies this
      ensures Valid() && b == Folded(lower, word) && k == |b|
    {
      b := [];
      for i := 0 to |word|
        invariant |b| == i && forall m :: 0 <= m < i ==> b[m] == Lower(lower, word[m])
      {
        b := b + [Lower(lower, word[i])];
      }
      k := |b|;
      j := 0;
    }

    // ---------- Helpers ----------

    /** Looks for an ending, and remembers the stem before it. */
    method EndsWith(suffix: string) returns (found: bool)
      requires Valid()
      modifies this`j
      ensures Valid() && found == Ends(Word(), suffix)
      ensures j == if found then k - |suffix| else old(j)
    {
      if k < |suffix| {
        return false;
      }
      for i := 0 to |suffix|
        invariant forall m :: 0 <= m < i ==> b[k - |suffix| + m] == suffix[m]
      {
        if b[k - |suffix| + i] != suffix[i] {
          DifferentEnding(b[..k], suffix, i);
          return false;
        }
      }
      assert Word()[k - |suffix|..] == suffix;
      j := k - |suffix|;
      return true;
    }

    /** Counts the turns from vowels to consonants before j. */
    method CountMeasure() returns (n: nat)
      requires Valid()
      ensures n == Measure(b[..j])
    {
      TransitionsLookBack(b, j, j);
      n := 0;
      var i := 0;
      while true
        invariant i <= j && Transitions(b, i) == 0 && (i > 0 ==> !Vowel(b, i - 1))
        decreases j - i
      {
        if i >= j {
          return;
        }
        if Vowel(b, i) {
          break;
        }
        i := i + 1;
      }
      i := i + 1;
      while true
        invariant 0 < i <= j && Transitions(b, i) == n && Vowel(b, i - 1)
        decreases j - i
      {
        while true
          invariant 0 < i <= j && Transitions(b, i) == n && Vowel(b, i - 1)
          decreases j - i
        {
          if i >= j {
            return;
          }
          if !Vowel(b, i) {
            break;
          }
          i := i + 1;
        }
        i := i + 1;
        n := n + 1;
        while true
          invariant 0 < i <= j && Transitions(b, i) == n && !Vowel(b, i - 1)
          decreases j - i
        {
          if i >= j {
            return;
          }
          if Vowel(b, i) {
            break;
          }
          i := i + 1;
        }
        i := i + 1;
      }
    }

    method HasVowelInStem() returns (found: bool)
      requires Valid()
      ensures found == HasVowel(b, j)
    {
      for i := 0 to j
        invariant forall m :: 0 <= m < i ==> !Vowel(b, m)
      {
        if Vowel(b, i) {
          return true;
        }
      }
      return false;
    }

    /** Puts a replacement behind a stem that has a measure. */
    method ReplaceSuffix(newSuffix: string)
      requires Valid() && j + |newSuffix| <= k
      modifies this`b, this`k
      ensures Valid() && |b| == |old(b)| && k <= old(k)
      ensures Word() == if Measure(old(b[..j])) > 0 then old(b[..j]) + newSuffix else old(Word())
    {
      var m := CountMeasure();
      if m > 0 {
        k := j;
        for i := 0 to |newSuffix|
          invariant Valid() && |b| == |old(b)| && k == j + i
          invariant Word() == old(b[..j]) + newSuffix[..i]
        {
          b := b[k := newSuffix[i]];
          k := k + 1;
        }
      }
    }

    /** One case of a switch: the first ending found is replaced. */
    method ReplaceFirst(rules: seq<Rule>)
      requires Valid() && Shrinks(rules)
      modifies this
      ensures Valid() && |b| == |old(b)| && Word() == Rewrite(old(Word()), rules, 1)
    {
      hide Measure, Ends;
      ChosenStep(Word(), rules, 0);
      assert rules[0..] == rules;
      for i := 0 to |rules|
        invariant Valid() && unchanged(this`b) && unchanged(this`k)
        invariant Chosen(Word(), rules[i..]) == Chosen(Word(), rules)
      {
        ChosenStep(Word(), rules, i);
        var found := EndsWith(rules[i].suffix);
        if found {
          assert b[..j] == StemOf(Word(), rules[i].suffix);
          ReplaceSuffix(rules[i].replacement);
          return;
        }
      }
      ChosenStep(Word(), rules, |rules|);
    }

    /** One case of step 4: whether one of the endings is found. */
    method FindFirst(rules: seq<Rule>) returns (found: bool)
      requires Valid()
      modifies this`j
      ensures Valid() && found == Chosen(Word(), rules).Some?
      ensures found ==> j == k - |Chosen(Word(), rules).value.suffix|
      ensures found ==> Chosen(Word(), rules).value in rules
    {
      hide Ends;
      assert rules[0..] == rules;
      for i := 0 to |rules|
        invariant Valid() && Chosen(Word(), rules[i..]) == Chosen(Word(), rules)
      {
        ChosenStep(Word(), rules, i);
        found := EndsWith(rules[i].suffix);
        if found {
          return;
        }
      }
      ChosenStep(Word(), rules, |rules|);
      return false;
    }

    // ---------- Steps ----------

    method DoStep1a()
      requires Valid() && k >= 2
      modifies this`k, this`j
      ensures Valid() && Word() == Step1a(old(Word()))
    {
      hide Step1a, Ends;
      ghost var w := Word();
      PluralCases(w);
      LastLetter(w, "sses");
      LastLetter(w, "ies");
      if b[k - 1] == 's' {
        var sses := EndsWith("sses");
        if sses {
          k := k - 2;
        } else {
          var ies := EndsWith("ies");
          if ies {
            k := k - 2;
          } else if b[k - 2] != 's' {
            k := k - 1;
          }
        }
      }
    }

    method DoStep1b()
      requires Valid()
      modifies this
      ensures Valid() && Word() == Step1b(old(Word())) && |b| == |old(b)|
    {
      hide Ends, Measure, HasVowel, Repaired;
      ghost var w := Word();
      var eed := EndsWith("eed");
      if eed {
        assert b[..j] == StemOf(w, "eed");
        var m := CountMeasure();
        if m > 0 {
          k := k - 1;
          assert Word() == w[..|w| - 1];
        }
        return;
      }
      ExclusiveEndings(w);
      var found := EndsWith("ed");
      if !found {
        found := EndsWith("ing");
      }
      if found {
        StemHasVowel(w, j);
        StemHasVowel(b, j);
        assert w[..j] == b[..j];
        var vowel := HasVowelInStem();
        if vowel {
          k := j;
          assert Word() == w[..j];
          Repair();
        }
      }
    }

    /** Mends a stem; the buffer has room for the letter that may be added. */
    method Repair()
      requires Valid() && k == j < |b|
      modifies this
      ensures Valid() && Word() == Repaired(old(Word())) && |b| == |old(b)|
    {
      hide Ends, Measure;
      ghost var w := Word();
      LooksBack(b, k);
      var at := EndsWith("at");
      if !at {
        at := EndsWith("bl");
      }
      if !at {
        at := EndsWith("iz");
      }
      if at {
        AppendE();
        return;
      }
      if DoubleConsonant(b, k - 1) {
        var ch := b[k - 1];
        k := k - 1;
        if ch != 'l' && ch != 's' && ch != 'z' {
        } else {
          k := k + 1;
        }
      } else {
        var m := CountMeasure();
        if m == 1 && EndsCVC(b, k - 1) {
          AppendE();
        }
      }
    }

    method AppendE()
      requires Valid() && k < |b|
      modifies this`b, this`k
      ensures Valid() && |b| == |old(b)| && Word() == old(Word()) + "e"
    {
      k := k + 1;
      b := b[k - 1 := 'e'];
    }

    method DoStep1c()
      requires Valid()
      modifies this
      ensures Valid() && Word() == Step1c(old(Word())) && |b| == |old(b)|
    {
      hide Ends, HasVowel;
      ghost var w := Word();
      var y := EndsWith("y");
      if y {
        StemHasVowel(w, j);
        StemHasVowel(b, j);
        assert w[..j] == b[..j];
        var vowel := HasVowelInStem();
        if vowel {
          b := b[k - 1 := 'i'];
          assert Word() == w[..|w| - 1] + "i";
        }
      }
    }

    method DoStep2()
      requires Valid() && k >= 2
      modifies this
      ensures Valid() && Word() == Step2(old(Word())) && |b| == |old(b)|
    {
      hide Switch2, Rules2, Chosen;
      Switch2IsSound(Word());
      ReplaceFirst(Switch2(b[k - 2]));
    }

    method DoStep3()
      requires Valid() && k >= 1
      modifies this
      ensures Valid() && Word() == Step3(old(Word())) && |b| == |old(b)|
    {
      hide Switch3, Rules3, Chosen;
      Switch3IsSound(Word());
      ReplaceFirst(Switch3(b[k - 1]));
    }

    method DoStep4()
      requires Valid()
      modifies this`k, this`j
      ensures Valid() && Word() == Step4(old(Word()))
    {
      hide Switch4, Rules4, Ends, Measure, Chosen;
      ghost var w := Word();
      if k <= 1 {
        ShortWord(w);
        return;
      }
      Switch4IsSound(w);
      EndsThree(w, 'i', 'o', 'n');
      var matched := false;
      if b[k - 2] == 'o' {
        var ion := EndsWith("ion");
        if ion {
          if j > 0 && (b[j - 1] == 's' || b[j - 1] == 't') {
            matched := true;
          }
        } else {
          matched := FindFirst(Switch4('o'));
        }
      } else {
        matched := FindFirst(Switch4(b[k - 2]));
      }
      if matched {
        assert b[..j] == w[..j] && w[..j] + "" == w[..j];
        var m := CountMeasure();
        if m > 1 {
          k := j;
        }
      }
    }

    /** Leaves j at the end of the word as it was: step 5b measures it with the e. */
    method DoStep5a()
      requires Valid() && k >= 1
      modifies this`k, this`j
      ensures Valid() && Word() == Step5a(old(Word())) && k <= j
      ensures Measure(b[..j]) == Measure(Word())
    {
      hide Ends, Measure;
      ghost var w := Word();
      j := k;
      EndsOne(w, 'e');
      if b[k - 1] == 'e' {
        VowelEnd(w);
        LooksBack(b, k);
        var a := CountMeasure();
        if a > 1 || (a == 1 && !EndsCVC(b, k - 2)) {
          k := k - 1;
          assert Word() == StemOf(w, "e");
        }
      }
    }

    method DoStep5b()
      requires Valid() && k >= 1
      requires Measure(b[..j]) == Measure(Word())
      modifies this`k
      ensures Valid() && Word() == Step5b(old(Word()))
    {
      hide Ends, Measure;
      EndsTwo(Word(), 'l', 'l');
      if b[k - 1] == 'l' && DoubleConsonant(b, k - 1) {
        var m := CountMeasure();
        if m > 1 {
          k := k - 1;
        }
      }
    }
  }

  lemma DifferentEnding(w: string, suffix: string, i: nat)
    requires |suffix| <= |w| && i < |suffix| && w[|w| - |suffix| + i] != suffix[i]
    ensures !Ends(w, suffix)
  {
    assert w[|w| - |suffix|..][i] == w[|w| - |suffix| + i];
  }

  lemma ExclusiveEndings(w: string)
    ensures Ends(w, "ed") ==> !Ends(w, "ing")
  {
    LastLetter(w, "ed");
    LastLetter(w, "ing");
  }

  /** The tests on letters look no further than the end of the word. */
  lemma LooksBack(b: string, k: nat)
    requires k <= |b|
    ensures forall i :: 0 <= i < k ==> DoubleConsonant(b[..k], i) == DoubleConsonant(b, i)
    ensures forall i :: 0 <= i < k ==> EndsCVC(b[..k], i) == EndsCVC(b, i)
  {
    forall i | 0 <= i < k
      ensures Vowel(b[..k], i) == Vowel(b, i)
    {
      VowelLooksBack(b, k, i);
    }
  }

  lemma VowelEnd(w: string)
    requires w != [] && w[|w| - 1] == 'e'
    ensures Measure(w[..|w| - 1]) == Measure(w)
  {
    VowelEndKeepsMeasure(w);
  }

  lemma ShortWord(w: string)
    requires |w| <= 1
    ensures Step4(w) == w
  {
    hide Rules4;
    LastLetter(w, "ion");
    var chosen := Chosen(w, Rules4());
    if chosen.Some? {
      MeasureNeedsLetters(StemOf(w, chosen.value.suffix));
    }
  }
}

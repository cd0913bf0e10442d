/** The Porter rules told by the letters of a word: which y is a vowel, what the measure
counts, which ending a step replaces, and what becomes of words in ing and ed.
*/
module PorterWords {
  import opened PorterRules
  import opened PorterFacts
  import opened Wrappers
  import Porter

  // ---------- Vowels ----------

  predicate VowelLetter(c: char) {
    c == 'a' || c == 'e' || c == 'i' || c == 'o' || c == 'u'
  }

  /** The letters from s to i are a run of y with no y before it. */
  ghost predicate RunOfY(w: string, s: nat, i: nat) {
    s <= i < |w| && (forall k :: s <= k <= i ==> w[k] == 'y') && (s == 0 || w[s - 1] != 'y')
  }

  /** In a run of y vowels and consonants alternate. Behind a consonant letter the first
      is a vowel; behind a vowel letter or at the start of the word the second is. */
  lemma {:induction false} VowelInRun(w: string, s: nat, i: nat)
    requires RunOfY(w, s, i)
    ensures var r := i - s + 1;
            Vowel(w, i) <==> if s > 0 && !VowelLetter(w[s - 1]) then r % 2 == 1 else r % 2 == 0
    decreases i
  {
    if s < i {
      VowelInRun(w, s, i - 1);
    }
  }

  /** Every letter is a vowel by its own face, or by its place in a run of y. */
  lemma {:induction false} VowelExactly(w: string, i: nat) returns (s: nat)
    requires i < |w|
    ensures w[i] != 'y' ==> (Vowel(w, i) <==> VowelLetter(w[i]))
    ensures w[i] == 'y' ==> RunOfY(w, s, i)
    ensures w[i] == 'y' ==>
              (Vowel(w, i) <==> if s > 0 && !VowelLetter(w[s - 1]) then (i - s) % 2 == 0 else (i - s) % 2 == 1)
  {
    s := i;
    if w[i] == 'y' {
      while s > 0 && w[s - 1] == 'y'
        invariant s <= i && forall k :: s <= k <= i ==> w[k] == 'y'
      {
        s := s - 1;
      }
      VowelInRun(w, s, i);
    }
  }

  /** A vowel letter, or a y behind the first letter. */
  ghost predicate VowelSomewhere(x: string) {
    exists i :: 0 <= i < |x| && (VowelLetter(x[i]) || (i > 0 && x[i] == 'y'))
  }

  lemma HasVowelExactly(x: string)
    ensures HasVowel(x, |x|) <==> VowelSomewhere(x)
  {
    if i :| 0 <= i < |x| && (VowelLetter(x[i]) || (i > 0 && x[i] == 'y')) {
      assert Vowel(x, i) || Vowel(x, i - 1);
    }
  }

  // ---------- Measure ----------

  /** A vowel with a consonant behind it. */
  predicate Turn(w: string, i: nat) {
    i + 1 < |w| && Vowel(w, i) && !Vowel(w, i + 1)
  }

  ghost function Turns(w: string, n: nat): set<nat>
    requires n <= |w|
  {
    set i: nat | i + 1 < n && Turn(w, i)
  }

  lemma {:induction false} TransitionsCount(w: string, n: nat)
    requires n <= |w|
    ensures Transitions(w, n) == |Turns(w, n)|
  {
    if n < 2 {
      assert Turns(w, n) == {};
    } else {
      TransitionsCount(w, n - 1);
      assert Turns(w, n) == Turns(w, n - 1) + if Turn(w, n - 2) then {n - 2} else {};
    }
  }

  /** The measure is the number of vowels with a consonant behind them. */
  lemma MeasureCounts(w: string)
    ensures Measure(w) == |Turns(w, |w|)|
  {
    TransitionsCount(w, |w|);
  }

  ghost predicate AllConsonants(w: string, n: nat)
    requires n <= |w|
  {
    forall i :: 0 <= i < n ==> !Vowel(w, i)
  }

  /** Consonants, one vowel, and a consonant other than w, x and y. */
  ghost predicate Short(w: string) {
    && |w| >= 3 && AllConsonants(w, |w| - 2)
    && Vowel(w, |w| - 2) && !Vowel(w, |w| - 1)
    && w[|w| - 1] != 'w' && w[|w| - 1] != 'x' && w[|w| - 1] != 'y'
  }

  lemma {:induction false} NoTurns(w: string, n: nat)
    requires n <= |w| && (n > 0 ==> !Vowel(w, n - 1))
    ensures Transitions(w, n) == 0 <==> AllConsonants(w, n)
  {
    if n >= 2 {
      hide Vowel;
      if Vowel(w, n - 2) {
        assert Transitions(w, n) > 0;
      } else {
        NoTurns(w, n - 1);
      }
    }
  }

  /** The words that a final e is given back to. */
  lemma ShortExactly(w: string)
    ensures Measure(w) == 1 && EndsCVC(w, |w| - 1) <==> Short(w)
  {
    hide Vowel;
    if |w| >= 3 && Vowel(w, |w| - 2) && !Vowel(w, |w| - 1) && !Vowel(w, |w| - 3) {
      NoTurns(w, |w| - 2);
      assert Transitions(w, |w|) == Transitions(w, |w| - 1) + 1;
      assert Transitions(w, |w| - 1) == Transitions(w, |w| - 2);
    }
  }

  // ---------- Endings in ing and ed ----------

  predicate LastTwo(x: string, c: char, d: char) {
    |x| >= 2 && x[|x| - 2] == c && x[|x| - 1] == d
  }

  /** What a stem becomes once ing or ed is gone. */
  ghost function Mended(x: string): string {
    if LastTwo(x, 'a', 't') || LastTwo(x, 'b', 'l') || LastTwo(x, 'i', 'z') then x + "e"
    else if |x| >= 2 && x[|x| - 2] == x[|x| - 1] && !Vowel(x, |x| - 1) then
      if x[|x| - 1] == 'l' || x[|x| - 1] == 's' || x[|x| - 1] == 'z' then x else x[..|x| - 1]
    else if Short(x) then x + "e"
    else x
  }

  lemma RepairedIsMended(x: string)
    ensures Repaired(x) == Mended(x)
  {
    hide Ends, Measure;
    EndsTwo(x, 'a', 't');
    EndsTwo(x, 'b', 'l');
    EndsTwo(x, 'i', 'z');
    ShortExactly(x);
  }

  lemma WithoutEnding(x: string, suffix: string)
    ensures Ends(x + suffix, suffix) && StemOf(x + suffix, suffix) == x
    ensures HasVowel(x + suffix, |x|) == HasVowel(x, |x|)
  {
    assert (x + suffix)[..|x|] == x;
    StemHasVowel(x + suffix, |x|);
  }

  /** Words in ing: a stem with a vowel loses it. */
  lemma Step1bIng(x: string)
    ensures Step1b(x + "ing") == if VowelSomewhere(x) then Mended(x) else x + "ing"
  {
    hide Ends, HasVowel, Repaired, Measure, Mended, VowelSomewhere;
    var w := x + "ing";
    WithoutEnding(x, "ing");
    LastLetter(w, "eed");
    LastLetter(w, "ed");
    HasVowelExactly(x);
    RepairedIsMended(x);
  }

  /** Words in ed but not in eed: a stem with a vowel loses it. */
  lemma Step1bEd(x: string)
    requires x == [] || x[|x| - 1] != 'e'
    ensures Step1b(x + "ed") == if VowelSomewhere(x) then Mended(x) else x + "ed"
  {
    hide Ends, HasVowel, Repaired, Measure, Mended, VowelSomewhere;
    var w := x + "ed";
    WithoutEnding(x, "ed");
    EndsThree(w, 'e', 'e', 'd');
    LastLetter(w, "ing");
    HasVowelExactly(x);
    RepairedIsMended(x);
  }

  /** Words in eed: behind a vowel and a consonant the d goes. */
  lemma Step1bEed(x: string)
    ensures Step1b(x + "eed") == if Turns(x, |x|) != {} then x + "ee" else x + "eed"
  {
    hide Ends, HasVowel, Repaired, Measure;
    var w := x + "eed";
    WithoutEnding(x, "eed");
    MeasureCounts(x);
    assert w[..|w| - 1] == x + "ee";
  }

  /** Every other word is left alone by step 1b. */
  lemma Step1bOther(w: string)
    requires !Ends(w, "ing") && !Ends(w, "ed")
    ensures Step1b(w) == w
  {
    OneLetterEndings(w);
  }

  /** A final y becomes i behind a stem with a vowel. */
  lemma Step1cY(x: string)
    ensures Step1c(x + "y") == if VowelSomewhere(x) then x + "i" else x + "y"
  {
    hide Ends, HasVowel, VowelSomewhere;
    WithoutEnding(x, "y");
    HasVowelExactly(x);
    assert (x + "y")[..|x|] == x;
  }

  /** A final e goes behind two turns, or behind one in a stem that is not short. */
  lemma Step5aE(x: string)
    ensures Step5a(x + "e") == if |Turns(x, |x|)| >= 2 || (|Turns(x, |x|)| == 1 && !Short(x)) then x else x + "e"
  {
    hide Ends, Measure;
    WithoutEnding(x, "e");
    MeasureCounts(x);
    ShortExactly(x);
    CVCLooksBack(x);
  }

  lemma CVCLooksBack(x: string)
    ensures EndsCVC(x + "e", |x| - 1) == EndsCVC(x, |x| - 1)
  {
    assert (x + "e")[..|x|] == x;
    Porter.LooksBack(x + "e", |x|);
  }

  /** Of a final double l one goes behind two turns. */
  lemma Step5bLL(x: string)
    ensures Step5b(x + "ll") == if |Turns(x + "ll", |x| + 2)| >= 2 then x + "l" else x + "ll"
  {
    hide Ends, Measure;
    WithoutEnding(x, "ll");
    MeasureCounts(x + "ll");
    assert (x + "ll")[..|x| + 1] == x + "l";
  }

  // ---------- Which ending a step replaces ----------

  /** The endings of steps 2, 3 and 4, longest first. */
  function Table2(): seq<Rule> {
    [
     Rule("ational", "ate"), Rule("ization", "ize"), Rule("iveness", "ive"), Rule("fulness", "ful"), Rule("ousness", "ous"),
     Rule("tional", "tion"), Rule("biliti", "ble"), Rule("entli", "ent"), Rule("ousli", "ous"), Rule("ation", "ate"),
     Rule("alism", "al"), Rule("aliti", "al"), Rule("iviti", "ive"), Rule("enci", "ence"), Rule("anci", "ance"),
     Rule("izer", "ize"), Rule("alli", "al"), Rule("ator", "ate"), Rule("logi", "log"), Rule("bli", "ble"),
     Rule("eli", "e")]
  }

  function Table3(): seq<Rule> {
    [
     Rule("icate", "ic"), Rule("ative", ""), Rule("alize", "al"), Rule("iciti", "ic"), Rule("ical", "ic"),
     Rule("ness", ""), Rule("ful", "")]
  }

  function Table4(): seq<Rule> {
    [
     Rule("ement", ""), Rule("ance", ""), Rule("ence", ""), Rule("able", ""), Rule("ible", ""), Rule("ment", ""),
     Rule("ant", ""), Rule("ent", ""), Rule("ism", ""), Rule("ate", ""), Rule("iti", ""), Rule("ous", ""),
     Rule("ive", ""), Rule("ize", ""), Rule("al", ""), Rule("er", ""), Rule("ic", ""), Rule("ou", "")]
  }

  ghost predicate SameRules(xs: seq<Rule>, ys: seq<Rule>) {
    forall r :: r in xs <==> r in ys
  }

  ghost predicate InCase(cases: seq<SwitchCase>, r: Rule) {
    exists i :: 0 <= i < |cases| && r in cases[i].rules
  }

  lemma {:induction false} InSomeCase(cases: seq<SwitchCase>, r: Rule)
    ensures r in AllRules(cases) <==> InCase(cases, r)
  {
    if cases != [] {
      InSomeCase(cases[1..], r);
      if i :| 0 <= i < |cases| && r in cases[i].rules {
        assert i > 0 ==> cases[1..][i - 1] == cases[i];
      }
      if i :| 0 <= i < |cases[1..]| && r in cases[1..][i].rules {
        assert cases[i + 1] == cases[1..][i];
      }
    }
  }

  lemma InTable2(r: Rule)
    ensures r in Rules2() <==> r in Table2()
  {
    hide Rules2, Cases2;
    InCases2(r);
  }

  lemma InCases2(r: Rule)
    ensures r in Rules2() <==>
            r in Step2A().rules || r in Step2C().rules || r in Step2E().rules || r in Step2L().rules ||
            r in Step2O().rules || r in Step2S().rules || r in Step2T().rules || r in Step2G().rules
  {
    hide AllRules, Step2A, Step2C, Step2E, Step2L, Step2O, Step2S, Step2T, Step2G;
    InSomeCase(Cases2(), r);
    assert Cases2()[0] == Step2A();
    assert Cases2()[1] == Step2C();
    assert Cases2()[2] == Step2E();
    assert Cases2()[3] == Step2L();
    assert Cases2()[4] == Step2O();
    assert Cases2()[5] == Step2S();
    assert Cases2()[6] == Step2T();
    assert Cases2()[7] == Step2G();
  }

  lemma InTable3(r: Rule)
    ensures r in Rules3() <==> r in Table3()
  {
    hide Rules3, Cases3;
    InCases3(r);
  }

  lemma InCases3(r: Rule)
    ensures r in Rules3() <==>
            r in Step3E().rules || r in Step3I().rules || r in Step3L().rules || r in Step3S().rules
  {
    hide AllRules, Step3E, Step3I, Step3L, Step3S;
    InSomeCase(Cases3(), r);
    assert Cases3()[0] == Step3E();
    assert Cases3()[1] == Step3I();
    assert Cases3()[2] == Step3L();
    assert Cases3()[3] == Step3S();
  }

  lemma InTable4(r: Rule)
    ensures r in Rules4() <==> r in Table4()
  {
    hide Rules4, Cases4;
    InCases4(r);
  }

  lemma InCases4(r: Rule)
    ensures r in Rules4() <==>
            r in Step4A().rules || r in Step4C().rules || r in Step4E().rules || r in Step4I().rules ||
            r in Step4L().rules || r in Step4N().rules || r in Step4O().rules || r in Step4S().rules ||
            r in Step4T().rules || r in Step4U().rules || r in Step4V().rules || r in Step4Z().rules
  {
    hide AllRules, Step4A, Step4C, Step4E, Step4I, Step4L, Step4N, Step4O, Step4S, Step4T, Step4U, Step4V, Step4Z;
    InSomeCase(Cases4(), r);
    assert Cases4()[0] == Step4A();
    assert Cases4()[1] == Step4C();
    assert Cases4()[2] == Step4E();
    assert Cases4()[3] == Step4I();
    assert Cases4()[4] == Step4L();
    assert Cases4()[5] == Step4N();
    assert Cases4()[6] == Step4O();
    assert Cases4()[7] == Step4S();
    assert Cases4()[8] == Step4T();
    assert Cases4()[9] == Step4U();
    assert Cases4()[10] == Step4V();
    assert Cases4()[11] == Step4Z();
  }


  ghost predicate NoEnding(w: string, table: seq<Rule>) {
    forall r :: r in table ==> !Ends(w, r.suffix)
  }

  ghost predicate LongestEnding(w: string, table: seq<Rule>, r: Rule) {
    r in table && Ends(w, r.suffix) && forall s :: s in table && Ends(w, s.suffix) ==> |s.suffix| <= |r.suffix|
  }

  lemma LongestChosen(w: string, cases: seq<SwitchCase>, back: nat, min: nat)
    requires IsSwitch(cases, back) && AllLongestFirst(cases)
    ensures var r := Chosen(w, AllRules(cases));
            && (r.None? ==> NoEnding(w, AllRules(cases)) && Rewrite(w, AllRules(cases), min) == w)
            && (r.Some? ==> LongestEnding(w, AllRules(cases), r.value))
  {
    hide Ends, IsSwitch, AllLongestFirst, Chosen, AllRules, Measure;
    forall s | s in AllRules(cases) && Ends(w, s.suffix)
      ensures Chosen(w, AllRules(cases)).Some? && |s.suffix| <= |Chosen(w, AllRules(cases)).value.suffix|
    {
      InSomeCase(cases, s);
      var i :| 0 <= i < |cases| && s in cases[i].rules;
      LongestEndingWins(w, cases, back, i, s);
    }
  }

  /** Step 2 replaces the longest ending of its table behind a stem with a turn. */
  lemma Step2Longest(w: string) returns (r: Option<Rule>)
    ensures r.None? ==> NoEnding(w, Table2()) && Step2(w) == w
    ensures r.Some? ==>
              LongestEnding(w, Table2(), r.value) &&
              var x := StemOf(w, r.value.suffix);
              Step2(w) == if Turns(x, |x|) != {} then x + r.value.replacement else w
  {
    hide Ends, IsSwitch, AllLongestFirst, Chosen, Cases2, Table2, Measure;
    forall s
      ensures s in Rules2() <==> s in Table2()
    {
      InTable2(s);
    }
    Step2IsSwitch();
    Step2LongestFirst();
    LongestChosen(w, Cases2(), 2, 1);
    r := Chosen(w, Rules2());
    if r.Some? {
      EndingIs(w, r.value.suffix);
      MeasureCounts(StemOf(w, r.value.suffix));
    }
  }

  /** So does step 3. */
  lemma Step3Longest(w: string) returns (r: Option<Rule>)
    ensures r.None? ==> NoEnding(w, Table3()) && Step3(w) == w
    ensures r.Some? ==>
              LongestEnding(w, Table3(), r.value) &&
              var x := StemOf(w, r.value.suffix);
              Step3(w) == if Turns(x, |x|) != {} then x + r.value.replacement else w
  {
    hide Ends, IsSwitch, AllLongestFirst, Chosen, Cases3, Table3, Measure;
    forall s
      ensures s in Rules3() <==> s in Table3()
    {
      InTable3(s);
    }
    Step3IsSwitch();
    Step3LongestFirst();
    LongestChosen(w, Cases3(), 1, 1);
    r := Chosen(w, Rules3());
    if r.Some? {
      EndingIs(w, r.value.suffix);
      MeasureCounts(StemOf(w, r.value.suffix));
    }
  }

  /** Step 4 drops the longest ending of its table behind a stem with two turns. */
  lemma Step4Longest(w: string) returns (r: Option<Rule>)
    requires !Ends(w, "ion")
    ensures r.None? ==> NoEnding(w, Table4()) && Step4(w) == w
    ensures r.Some? ==>
              LongestEnding(w, Table4(), r.value) &&
              var x := StemOf(w, r.value.suffix);
              Step4(w) == if |Turns(x, |x|)| >= 2 then x else w
  {
    hide Ends, IsSwitch, AllLongestFirst, Chosen, Cases4, Table4, Measure;
    forall s
      ensures s in Rules4() <==> s in Table4()
    {
      InTable4(s);
    }
    Step4IsSwitch();
    Step4LongestFirst();
    LongestChosen(w, Cases4(), 2, 2);
    r := Chosen(w, Rules4());
    if r.Some? {
      EndingIs(w, r.value.suffix);
      MeasureCounts(StemOf(w, r.value.suffix));
      Table4Erases(r.value);
      assert StemOf(w, r.value.suffix) + "" == StemOf(w, r.value.suffix);
    }
  }

  lemma Table4Erases(r: Rule)
    requires r in Table4()
    ensures r.replacement == ""
  {
  }

  /** The ending ion goes behind s or t and two turns. */
  lemma Step4Ion(x: string)
    ensures Step4(x + "ion") ==
            if x != [] && (x[|x| - 1] == 's' || x[|x| - 1] == 't') && |Turns(x, |x|)| >= 2 then x else x + "ion"
  {
    hide Ends, Measure, Rewrite;
    WithoutEnding(x, "ion");
    MeasureCounts(x);
  }

  // ---------- Whole words ----------

  /** The steps behind step 1b. */
  function Later(w: string): string {
    Step5b(Step5a(Step4(Step3(Step2(Step1c(w))))))
  }

  lemma NoPlural(w: string)
    requires |w| >= 2 && w[|w| - 1] != 's'
    ensures Steps(w) == Later(Step1b(w))
  {
    hide Step1a, Step1b, Step1c, Step2, Step3, Step4, Step5a, Step5b;
    PluralCases(w);
  }

  /** The stem of a word in ing: with a vowel before it the ending goes, and the stem is
      mended; the word fails when all that is left is one vowel. */
  lemma StemIng(lower: char -> char, word: string, x: string)
    requires Porter.Folded(lower, word) == x + "ing"
    ensures Porter.Stemmed(lower, word) ==
            if |x| == 1 && VowelLetter(x[0]) then None
            else Some(Later(if VowelSomewhere(x) then Mended(x) else x + "ing"))
  {
    hide Steps, Later, FallsShort, Mended, VowelSomewhere, Step1b;
    var w := x + "ing";
    NoPlural(w);
    Step1bIng(x);
    ShortLetters(w);
    assert w[|w| - 1] == 'g';
  }

  /** The stem of a word in ed but not in eed. */
  lemma StemEd(lower: char -> char, word: string, x: string)
    requires Porter.Folded(lower, word) == x + "ed" && x != [] && x[|x| - 1] != 'e'
    ensures Porter.Stemmed(lower, word) ==
            if |x| == 1 && VowelLetter(x[0]) then None
            else Some(Later(if VowelSomewhere(x) then Mended(x) else x + "ed"))
  {
    hide Steps, Later, FallsShort, Mended, VowelSomewhere, Step1b;
    var w := x + "ed";
    NoPlural(w);
    Step1bEd(x);
    ShortLetters(w);
    assert w[|w| - 1] == 'd';
  }

  /** The last letters of all endings of steps 2 to 5. */
  predicate EndingLetter(c: char) {
    c == 'c' || c == 'e' || c == 'i' || c == 'l' || c == 'm' || c == 'n' || c == 'r' || c == 's' || c == 't' || c == 'u'
  }

  ghost predicate EndInLetters(table: seq<Rule>) {
    forall i :: 0 <= i < |table| ==>
      table[i].suffix != [] && EndingLetter(table[i].suffix[|table[i].suffix| - 1])
  }

  lemma Table2Ends()
    ensures EndInLetters(Table2())
  {
    hide EndingLetter;
    EndingLetters();
  }

  lemma Table3Ends()
    ensures EndInLetters(Table3())
  {
    hide EndingLetter;
    EndingLetters();
  }

  lemma Table4Ends()
    ensures EndInLetters(Table4())
  {
    hide EndingLetter;
    EndingLetters();
  }

  lemma EndingLetters()
    ensures EndingLetter('c') && EndingLetter('e') && EndingLetter('i') && EndingLetter('l') && EndingLetter('m')
    ensures EndingLetter('n') && EndingLetter('r') && EndingLetter('s') && EndingLetter('t') && EndingLetter('u')
  {
  }

  lemma NoneEnds(w: string, table: seq<Rule>)
    requires w != [] && !EndingLetter(w[|w| - 1]) && EndInLetters(table)
    ensures NoEnding(w, table)
  {
    hide Ends;
    forall r | r in table
      ensures !Ends(w, r.suffix)
    {
      var i :| 0 <= i < |table| && table[i] == r;
      LastLetter(w, r.suffix);
    }
  }

  /** A word that ends in any other letter is left alone by steps 2 to 5. */
  lemma QuietEnd(w: string)
    requires w != [] && !EndingLetter(w[|w| - 1])
    ensures Step2(w) == w && Step3(w) == w && Step4(w) == w && Step5a(w) == w && Step5b(w) == w
  {
    hide Ends, Rules2, Rules3, Rules4, Measure, Step2, Step3, Step4, Table2, Table3, Table4;
    Table2Ends();
    Table3Ends();
    Table4Ends();
    NoneEnds(w, Table2());
    NoneEnds(w, Table3());
    NoneEnds(w, Table4());
    var r2 := Step2Longest(w);
    var r3 := Step3Longest(w);
    LastLetter(w, "ion");
    var r4 := Step4Longest(w);
    LastLetter(w, "e");
    LastLetter(w, "ll");
  }

  /** A stem with a vowel, and not to be mended, that ends in such a letter other than y. */
  lemma QuietStem(x: string)
    requires x != [] && !EndingLetter(x[|x| - 1]) && VowelSomewhere(x) && Mended(x) == x
    requires x[|x| - 1] == 'y' ==> !VowelSomewhere(x[..|x| - 1])
    ensures Steps(x + "ing") == x
  {
    hide Steps, Later, Mended, VowelSomewhere, Step1b, Step1c, Step2, Step3, Step4, Step5a, Step5b, Ends;
    NoPlural(x + "ing");
    Step1bIng(x);
    assert Step1c(x) == x by {
      if x[|x| - 1] == 'y' {
        assert x == x[..|x| - 1] + "y";
        Step1cY(x[..|x| - 1]);
      } else {
        NoFinalY(x);
      }
    }
    QuietEnd(x);
    LaterIs(x);
  }

  lemma NoFinalY(w: string)
    requires w != [] && w[|w| - 1] != 'y'
    ensures Step1c(w) == w
  {
    LastLetter(w, "y");
  }

  lemma LaterIs(w: string)
    ensures Later(w) == Step5b(Step5a(Step4(Step3(Step2(Step1c(w))))))
  {
  }

  /** The y behind the consonants is the vowel that lets the ending go. */
  lemma FlyingIsFly()
    ensures Steps("flying") == "fly"
  {
    hide Steps;
    var x := "fly";
    assert VowelLetter(x[2]) || x[2] == 'y';
    assert x[..2] == "fl";
    QuietStem(x);
    assert x + "ing" == "flying";
  }

  lemma JumpingIsJump()
    ensures Steps("jumping") == "jump"
  {
    hide Steps;
    var x := "jump";
    assert VowelLetter(x[1]);
    QuietStem(x);
    assert x + "ing" == "jumping";
  }
}

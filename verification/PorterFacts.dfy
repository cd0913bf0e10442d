/** What the Porter rules guarantee: the switches are sound, the longest suffix is
chosen, no step lengthens a word, and which words fall short of two letters.
*/
module PorterFacts {
  import opened PorterRules
  import opened Wrappers

  // ---------- The tables ----------

  lemma Step2IsSwitch()
    ensures IsSwitch(Cases2(), 2)
  {
  }

  lemma Step3IsSwitch()
    ensures IsSwitch(Cases3(), 1)
  {
  }

  lemma Step4IsSwitch()
    ensures IsSwitch(Cases4(), 2)
  {
  }

  /** The rules that the case for a letter tries, none longer than what it replaces. */
  function Switch2(letter: char): (rules: seq<Rule>)
    ensures Shrinks(rules)
  {
    CasesShrink(Cases2(), letter);
    Select(Cases2(), letter)
  }

  function Switch3(letter: char): (rules: seq<Rule>)
    ensures Shrinks(rules)
  {
    CasesShrink(Cases3(), letter);
    Select(Cases3(), letter)
  }

  function Switch4(letter: char): (rules: seq<Rule>)
    ensures Shrinks(rules) && Erases(rules)
  {
    CasesShrink(Cases4(), letter);
    Step4Erases();
    Select(Cases4(), letter)
  }

  predicate Erases(rules: seq<Rule>) {
    forall i :: 0 <= i < |rules| ==> rules[i].replacement == ""
  }

  lemma Step4Erases()
    ensures forall i :: 0 <= i < |Cases4()| ==> Erases(Cases4()[i].rules)
  {
  }

  predicate Shrinks(rules: seq<Rule>) {
    forall i :: 0 <= i < |rules| ==> |rules[i].replacement| <= |rules[i].suffix|
  }

  lemma {:induction false} CasesShrink(cases: seq<SwitchCase>, letter: char)
    ensures Shrinks(Select(cases, letter))
  {
    if cases != [] {
      assert Fits(cases[0]);
      CasesShrink(cases[1..], letter);
    }
  }

  /** The switches of steps 2, 3 and 4 choose what the whole rule list would. */
  lemma Switch2IsSound(w: string)
    requires |w| >= 2
    ensures Chosen(w, Switch2(w[|w| - 2])) == Chosen(w, Rules2())
  {
    hide Cases2, IsSwitch, Chosen, Select, AllRules;
    Step2IsSwitch();
    SwitchChooses(w, Cases2(), 2);
  }

  lemma Switch3IsSound(w: string)
    requires |w| >= 1
    ensures Chosen(w, Switch3(w[|w| - 1])) == Chosen(w, Rules3())
  {
    hide Cases3, IsSwitch, Chosen, Select, AllRules;
    Step3IsSwitch();
    SwitchChooses(w, Cases3(), 1);
  }

  lemma Switch4IsSound(w: string)
    requires |w| >= 2
    ensures Chosen(w, Switch4(w[|w| - 2])) == Chosen(w, Rules4())
  {
    hide Cases4, IsSwitch, Chosen, Select, AllRules;
    Step4IsSwitch();
    SwitchChooses(w, Cases4(), 2);
  }

  lemma NotAnEnding(w: string, suffix: string)
    requires 0 < |suffix| <= |w| && suffix[0] != w[|w| - |suffix|]
    ensures !Ends(w, suffix)
  {
  }

  lemma Step2LongestFirst()
    ensures AllLongestFirst(Cases2())
  {
    hide LongestFirst;
    Step2LongestA();
    Step2LongestL();
    Step2LongestO();
    Step2LongestS();
    Step2LongestT();
  }

  lemma Step2LongestA()
    ensures LongestFirst(Step2A().rules) && LongestFirst(Step2C().rules)
    ensures LongestFirst(Step2E().rules) && LongestFirst(Step2G().rules)
  {
  }

  lemma Step2LongestL()
    ensures LongestFirst(Step2L().rules)
  {
    hide Ends;
    NotAnEnding("alli", "bli");
    NotAnEnding("entli", "bli");
    NotAnEnding("ousli", "bli");
    NotAnEnding("entli", "alli");
    NotAnEnding("ousli", "alli");
    NotAnEnding("ousli", "eli");
  }

  lemma Step2LongestO()
    ensures LongestFirst(Step2O().rules)
  {
    hide Ends;
  }

  lemma Step2LongestS()
    ensures LongestFirst(Step2S().rules)
  {
    hide Ends;
    NotAnEnding("iveness", "alism");
    NotAnEnding("fulness", "alism");
    NotAnEnding("ousness", "alism");
  }

  lemma Step2LongestT()
    ensures LongestFirst(Step2T().rules)
  {
    hide Ends;
    NotAnEnding("biliti", "aliti");
    assert "biliti"[2] != "iviti"[1];
    NotIviti();
  }

  lemma NotIviti()
    ensures !Ends("biliti", "iviti")
  {
    assert "biliti"[6 - 5..][1] == 'l';
  }

  lemma Step3LongestFirst()
    ensures AllLongestFirst(Cases3())
  {
    hide Ends;
  }

  lemma Step4LongestFirst()
    ensures AllLongestFirst(Cases4())
  {
    hide LongestFirst;
    Step4LongestN();
    Step4LongestRest();
  }

  lemma Step4LongestN()
    ensures LongestFirst(Step4N().rules)
  {
    hide Ends;
    NotAnEnding("ement", "ant");
    NotAnEnding("ment", "ant");
  }

  lemma Step4LongestRest()
    ensures LongestFirst(Step4A().rules) && LongestFirst(Step4C().rules) && LongestFirst(Step4E().rules)
    ensures LongestFirst(Step4I().rules) && LongestFirst(Step4L().rules) && LongestFirst(Step4O().rules)
    ensures LongestFirst(Step4S().rules) && LongestFirst(Step4T().rules) && LongestFirst(Step4U().rules)
    ensures LongestFirst(Step4V().rules) && LongestFirst(Step4Z().rules)
  {
    hide Ends;
  }

  // ---------- Lengths ----------

  lemma {:induction false} AllRulesShrink(cases: seq<SwitchCase>, r: Rule)
    requires r in AllRules(cases)
    ensures |r.replacement| <= |r.suffix|
  {
    if r in cases[0].rules {
      var i :| 0 <= i < |cases[0].rules| && cases[0].rules[i] == r;
      assert Fits(cases[0]);
    } else {
      AllRulesShrink(cases[1..], r);
    }
  }

  lemma RewriteLength(w: string, cases: seq<SwitchCase>, min: nat)
    ensures |Rewrite(w, AllRules(cases), min)| <= |w|
    ensures min > 0 && |w| >= 2 ==> |Rewrite(w, AllRules(cases), min)| >= 2
  {
    hide Measure;
    var chosen := Chosen(w, AllRules(cases));
    if chosen.Some? {
      AllRulesShrink(cases, chosen.value);
      MeasureNeedsLetters(StemOf(w, chosen.value.suffix));
    }
  }

  /** Step 1a as its code reads. */
  lemma PluralCases(w: string)
    requires |w| >= 2
    ensures Step1a(w) == if w[|w| - 1] != 's' then w
                         else if Ends(w, "sses") || Ends(w, "ies") then w[..|w| - 2]
                         else if w[|w| - 2] != 's' then w[..|w| - 1]
                         else w
  {
    hide Ends, Measure, Chosen;
    EndsOne(w, 's');
    EndsTwo(w, 's', 's');
    LastLetter(w, "sses");
    LastLetter(w, "ies");
    ChosenPlural(w);
    RegainEnding(w);
  }

  lemma RegainEnding(w: string)
    ensures Ends(w, "sses") ==> |w| >= 4 && w[..|w| - 4] + "ss" == w[..|w| - 2]
    ensures Ends(w, "ies") ==> |w| >= 3 && w[..|w| - 3] + "i" == w[..|w| - 2]
    ensures Ends(w, "ss") ==> |w| >= 2 && w[..|w| - 2] + "ss" == w
    ensures Ends(w, "s") ==> |w| >= 1 && w[..|w| - 1] + "" == w[..|w| - 1]
  {
    hide Ends;
    if Ends(w, "sses") {
      EndingIs(w, "sses");
    }
    if Ends(w, "ies") {
      EndingIs(w, "ies");
    }
    if Ends(w, "ss") {
      EndingIs(w, "ss");
    }
    if Ends(w, "s") {
      EndingIs(w, "s");
    }
  }

  lemma ChosenPlural(w: string)
    ensures Chosen(w, Plurals()) == if Ends(w, "sses") then Some(Rule("sses", "ss"))
                                  else if Ends(w, "ies") then Some(Rule("ies", "i"))
                                  else if Ends(w, "ss") then Some(Rule("ss", "ss"))
                                  else if Ends(w, "s") then Some(Rule("s", ""))
                                  else None
  {
    hide Ends, Chosen;
    ChosenStep(w, Plurals(), 0);
    ChosenStep(w, Plurals(), 1);
    ChosenStep(w, Plurals(), 2);
    ChosenStep(w, Plurals(), 3);
    ChosenStep(w, Plurals(), 4);
    assert Plurals()[0..] == Plurals();
  }

  lemma ChosenStep(w: string, rules: seq<Rule>, n: nat)
    requires n <= |rules|
    ensures Chosen(w, rules[n..]) == if n == |rules| then None
                                     else if Ends(w, rules[n].suffix) then Some(rules[n])
                                     else Chosen(w, rules[n + 1..])
  {
    hide Ends;
    if n < |rules| {
      assert rules[n..][1..] == rules[n + 1..];
    }
  }

  lemma EndsOne(w: string, c: char)
    requires w != []
    ensures Ends(w, [c]) <==> w[|w| - 1] == c
  {
    assert w[|w| - 1..] == [w[|w| - 1]];
  }

  lemma EndsTwo(w: string, c: char, d: char)
    ensures Ends(w, [c, d]) <==> |w| >= 2 && w[|w| - 2] == c && w[|w| - 1] == d
  {
    if |w| >= 2 {
      assert w[|w| - 2..] == [w[|w| - 2], w[|w| - 1]];
    }
  }

  lemma LastLetter(w: string, suffix: string)
    requires suffix != []
    ensures Ends(w, suffix) ==> |w| >= |suffix| && w[|w| - 1] == suffix[|suffix| - 1]
  {
    if Ends(w, suffix) {
      assert w[|w| - |suffix|..][|suffix| - 1] == w[|w| - 1];
    }
  }

  lemma EndingIs(w: string, suffix: string)
    requires Ends(w, suffix)
    ensures |suffix| <= |w| && w == w[..|w| - |suffix|] + suffix
  {
  }

  lemma Step1aLength(w: string)
    requires |w| >= 3
    ensures 1 <= |Step1a(w)| <= |w|
    ensures |Step1a(w)| == 1 <==> w == "ies"
  {
    hide Ends;
    PluralCases(w);
    LastLetter(w, "sses");
    LastLetter(w, "ies");
    if Ends(w, "ies") && |w| == 3 {
      EndingIs(w, "ies");
    }
    if w == "ies" {
      WholeWord(w);
    }
  }

  lemma WholeWord(w: string)
    ensures Ends(w, w)
  {
  }

  predicate IsLetterVowel(c: char) {
    c in "aeiou"
  }

  /** A vowel and then ed or ing, eed apart: the stem is one letter. */
  predicate OneLetterStem(w: string) {
    w != [] && IsLetterVowel(w[0]) && ((w[1..] == "ed" && w[0] != 'e') || w[1..] == "ing")
  }

  lemma FirstVowel(w: string)
    requires w != []
    ensures Vowel(w, 0) <==> IsLetterVowel(w[0])
  {
  }

  lemma StemHasVowel(w: string, n: nat)
    requires n <= |w|
    ensures HasVowel(w[..n], n) == HasVowel(w, n)
    ensures HasVowel(w, n) ==> n >= 1
    ensures n == 1 ==> (HasVowel(w, n) <==> IsLetterVowel(w[0]))
  {
    if n == 1 {
      FirstVowel(w);
    }
    forall i | 0 <= i < n
      ensures Vowel(w[..n], i) == Vowel(w, i)
    {
      VowelLooksBack(w, n, i);
    }
  }

  /** A stem with a vowel keeps its first letter, and loses all others only if it has none. */
  lemma RepairedLength(w: string)
    requires HasVowel(w, |w|)
    ensures 1 <= |Repaired(w)| <= |w| + 1 && (|Repaired(w)| == 1 <==> |w| == 1)
  {
    hide Ends, Measure;
    if |w| == 1 {
      LastLetter(w, "at");
      LastLetter(w, "bl");
      LastLetter(w, "iz");
    } else if |w| == 2 && DoubleConsonant(w, 1) {
      FirstVowel(w);
      assert false;
    }
  }

  lemma Step1bLength(w: string)
    requires w != []
    ensures 1 <= |Step1b(w)| <= |w|
    ensures |Step1b(w)| == 1 <==> |w| == 1 || OneLetterStem(w)
  {
    hide Ends, Measure, HasVowel, Repaired, OneLetterStem;
    LastLetter(w, "eed");
    LastLetter(w, "ed");
    LastLetter(w, "ing");
    OneLetterEndings(w);
    if Ends(w, "eed") {
      MeasureNeedsLetters(StemOf(w, "eed"));
    } else if Ends(w, "ed") && HasVowel(w, |w| - 2) {
      StemHasVowel(w, |w| - 2);
      RepairedLength(StemOf(w, "ed"));
    } else if Ends(w, "ing") && HasVowel(w, |w| - 3) {
      StemHasVowel(w, |w| - 3);
      RepairedLength(StemOf(w, "ing"));
    } else if OneLetterStem(w) {
      StemHasVowel(w, 1);
    }
  }

  lemma OneLetterEndings(w: string)
    ensures OneLetterStem(w) <==> (|w| == 3 && IsLetterVowel(w[0]) && Ends(w, "ed") && !Ends(w, "eed"))
                                  || (|w| == 4 && IsLetterVowel(w[0]) && Ends(w, "ing"))
    ensures Ends(w, "ed") ==> !Ends(w, "ing") && |w| >= 2
    ensures Ends(w, "eed") ==> Ends(w, "ed") && |w| >= 3
  {
    hide Ends, IsLetterVowel;
    if w != [] {
      Tail2(w, 'e', 'd');
      Tail3(w, 'i', 'n', 'g');
    }
    EndsThree(w, 'e', 'e', 'd');
    EndsThree(w, 'i', 'n', 'g');
    EndsTwo(w, 'e', 'd');
  }

  lemma EndsThree(w: string, c: char, d: char, e: char)
    ensures Ends(w, [c, d, e]) <==> |w| >= 3 && w[|w| - 3] == c && w[|w| - 2] == d && w[|w| - 1] == e
  {
    if |w| >= 3 {
      assert w[|w| - 3..] == [w[|w| - 3], w[|w| - 2], w[|w| - 1]];
    }
  }

  lemma Tail2(w: string, c: char, d: char)
    requires w != []
    ensures w[1..] == [c, d] <==> |w| == 3 && w[1] == c && w[2] == d
  {
    if w[1..] == [c, d] {
      assert w[1..][0] == w[1] && w[1..][1] == w[2];
    }
  }

  lemma Tail3(w: string, c: char, d: char, e: char)
    requires w != []
    ensures w[1..] == [c, d, e] <==> |w| == 4 && w[1] == c && w[2] == d && w[3] == e
  {
    if w[1..] == [c, d, e] {
      assert w[1..][0] == w[1] && w[1..][1] == w[2] && w[1..][2] == w[3];
    }
  }

  lemma Tail4(w: string, c: char, d: char, e: char, f: char)
    requires w != []
    ensures w[1..] == [c, d, e, f] <==> |w| == 5 && w[1] == c && w[2] == d && w[3] == e && w[4] == f
  {
    if w[1..] == [c, d, e, f] {
      assert w[1..][0] == w[1] && w[1..][1] == w[2] && w[1..][2] == w[3] && w[1..][3] == w[4];
    }
  }

  // ---------- The words that fall short ----------

  /** The words that the first step leaves with a single letter. */
  predicate FallsShort(w: string) {
    w == "ies"
    || (w != [] && IsLetterVowel(w[0])
        && (w[1..] == "ing" || w[1..] == "ings" || (w[0] != 'e' && (w[1..] == "ed" || w[1..] == "eds"))))
  }

  /** The first step leaves a letter of every word, and only one of these words. */
  lemma FallsShortExactlyWhen(w: string)
    requires |w| >= 3
    ensures 1 <= |Step1(w)| <= |w| && (|Step1(w)| < 2 <==> FallsShort(w))
  {
    hide Ends, Step1a, Step1b, OneLetterStem, FallsShort;
    Step1aLength(w);
    Step1bLength(Step1a(w));
    OneLetterPlural(w);
  }

  lemma OneLetterPlural(w: string)
    requires |w| >= 3
    ensures OneLetterStem(Step1a(w)) || w == "ies" <==> FallsShort(w)
  {
    hide Ends, Step1a, IsLetterVowel;
    PluralCases(w);
    LastLetter(w, "sses");
    EndsThree(w, 'i', 'e', 's');
    ShortLetters(w);
    OneLetterLetters(Step1a(w));
    if Ends(w, "sses") {
      SecondLast(w);
    }
    WholeThree(w);
  }

  lemma SecondLast(w: string)
    requires Ends(w, "sses")
    ensures |w| >= 4 && w[|w| - 2] == 'e' && w[|w| - 3] == 's'
  {
    assert w[|w| - 4..][2] == w[|w| - 2] && w[|w| - 4..][1] == w[|w| - 3];
  }

  lemma WholeThree(w: string)
    ensures w == "ies" <==> |w| == 3 && w[0] == 'i' && w[1] == 'e' && w[2] == 's'
  {
  }

  lemma OneLetterLetters(w: string)
    requires w != []
    ensures OneLetterStem(w)
       <==> IsLetterVowel(w[0]) && ((|w| == 3 && w[1] == 'e' && w[2] == 'd' && w[0] != 'e')
                                    || (|w| == 4 && w[1] == 'i' && w[2] == 'n' && w[3] == 'g'))
  {
    hide IsLetterVowel;
    Tail2(w, 'e', 'd');
    Tail3(w, 'i', 'n', 'g');
  }

  lemma ShortLetters(w: string)
    requires w != []
    ensures FallsShort(w)
       <==> w == "ies"
            || (IsLetterVowel(w[0])
                && ((|w| == 4 && w[1] == 'i' && w[2] == 'n' && w[3] == 'g')
                    || (|w| == 5 && w[1] == 'i' && w[2] == 'n' && w[3] == 'g' && w[4] == 's')
                    || (w[0] != 'e' && |w| == 3 && w[1] == 'e' && w[2] == 'd')
                    || (w[0] != 'e' && |w| == 4 && w[1] == 'e' && w[2] == 'd' && w[3] == 's')))
  {
    hide IsLetterVowel;
    Tail2(w, 'e', 'd');
    Tail3(w, 'e', 'd', 's');
    Tail3(w, 'i', 'n', 'g');
    Tail4(w, 'i', 'n', 'g', 's');
  }

  /** Behind the first step no step lengthens a word or leaves less than a letter. */
  lemma StepsLength(w: string)
    requires |w| >= 3 && !FallsShort(w)
    ensures 1 <= |Steps(w)| <= |w|
  {
    hide Step1, Step2, Step3, Step4, Step5a, Step5b, FallsShort;
    FallsShortExactlyWhen(w);
    LaterLength(Step1(w));
    LaterLength(Step2(Step1(w)));
    LaterLength(Step3(Step2(Step1(w))));
    LaterLength(Step4(Step3(Step2(Step1(w)))));
    LaterLength(Step5a(Step4(Step3(Step2(Step1(w))))));
  }

  lemma LaterLength(w: string)
    requires |w| >= 2
    ensures 2 <= |Step2(w)| <= |w|
    ensures 2 <= |Step3(w)| <= |w|
    ensures 2 <= |Step4(w)| <= |w|
    ensures 2 <= |Step5a(w)| <= |w|
    ensures 1 <= |Step5b(w)| <= |w|
  {
    hide Ends, Measure, Rewrite, AllRules;
    RewriteLength(w, Cases2(), 1);
    RewriteLength(w, Cases3(), 1);
    RewriteLength(w, Cases4(), 2);
    if |w| >= 3 {
      MeasureNeedsLetters(StemOf(w, "ion"));
    }
    MeasureNeedsLetters(StemOf(w, "e"));
  }
}

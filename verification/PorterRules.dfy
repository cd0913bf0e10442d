/** The Porter stemmer's steps as rules on words.

A step rewrites a word by its ending. The rules are those of the code, read as
one list for each step; the code's switch on a letter near the end of the word is
shown to choose the same rule.
*/
module PorterRules {
  import opened Wrappers

  // ---------- Letters and measure ----------

  /** A y is a vowel behind a consonant. */
  predicate Vowel(w: string, i: nat)
    requires i < |w|
  {
    match w[i]
    case 'a' | 'e' | 'i' | 'o' | 'u' => true
    case 'y' => i > 0 && !Vowel(w, i - 1)
    case _ => false
  }

  lemma {:induction false} VowelLooksBack(w: string, n: nat, i: nat)
    requires i < n <= |w|
    ensures Vowel(w[..n], i) == Vowel(w, i)
  {
    if i > 0 {
      VowelLooksBack(w, n, i - 1);
    }
  }

  /** How often a vowel is followed by a consonant among the first n letters. */
  function Transitions(w: string, n: nat): nat
    requires n <= |w|
  {
    if n < 2 then 0 else Transitions(w, n - 1) + if Vowel(w, n - 2) && !Vowel(w, n - 1) then 1 else 0
  }

  lemma {:induction false} TransitionsLookBack(w: string, n: nat, i: nat)
    requires i <= n <= |w|
    ensures Transitions(w[..n], i) == Transitions(w, i)
  {
    if i >= 2 {
      VowelLooksBack(w, n, i - 2);
      VowelLooksBack(w, n, i - 1);
      TransitionsLookBack(w, n, i - 1);
    }
  }

  function Measure(w: string): nat {
    Transitions(w, |w|)
  }

  /** A stem with a measure has a vowel and a consonant. */
  lemma {:induction false} MeasureNeedsLetters(w: string)
    ensures 2 * Measure(w) <= |w|
  {
    TransitionsBound(w, |w|);
  }

  lemma {:induction false} TransitionsBound(w: string, n: nat)
    requires n <= |w|
    ensures 2 * Transitions(w, n) <= n
    ensures n > 0 && Vowel(w, n - 1) ==> 2 * Transitions(w, n) < n
  {
    if n >= 2 {
      TransitionsBound(w, n - 1);
    }
  }

  /** A vowel at the end does not count. */
  lemma VowelEndKeepsMeasure(w: string)
    requires w != [] && Vowel(w, |w| - 1)
    ensures Measure(w[..|w| - 1]) == Measure(w)
  {
    TransitionsLookBack(w, |w| - 1, |w| - 1);
  }

  predicate HasVowel(w: string, n: nat)
    requires n <= |w|
  {
    exists i :: 0 <= i < n && Vowel(w, i)
  }

  /** The letter at i repeats the consonant before it. */
  predicate DoubleConsonant(w: string, i: int)
    requires i < |w|
  {
    i >= 1 && w[i] == w[i - 1] && !Vowel(w, i)
  }

  /** Consonant, vowel, consonant up to i, the last not w, x or y. */
  predicate EndsCVC(w: string, i: int)
    requires i < |w|
  {
    i >= 2 && !Vowel(w, i) && Vowel(w, i - 1) && !Vowel(w, i - 2) && w[i] != 'w' && w[i] != 'x' && w[i] != 'y'
  }

  // ---------- Rules ----------

  datatype Rule = Rule(suffix: string, replacement: string)

  predicate Ends(w: string, suffix: string) {
    |suffix| <= |w| && w[|w| - |suffix|..] == suffix
  }

  function StemOf(w: string, suffix: string): string
    requires |suffix| <= |w|
  {
    w[..|w| - |suffix|]
  }

  /** The first rule that matches the word's ending. */
  function Chosen(w: string, rules: seq<Rule>): (r: Option<Rule>)
    ensures r.Some? ==> r.value in rules && Ends(w, r.value.suffix)
  {
    if rules == [] then None
    else if Ends(w, rules[0].suffix) then Some(rules[0])
    else Chosen(w, rules[1..])
  }

  /** Applies the chosen rule if the stem before the ending has the measure asked for. */
  function Rewrite(w: string, rules: seq<Rule>, min: nat): string {
    match Chosen(w, rules)
    case None => w
    case Some(r) => if Measure(StemOf(w, r.suffix)) >= min then StemOf(w, r.suffix) + r.replacement else w
  }

  lemma {:induction false} ChosenConcat(w: string, xs: seq<Rule>, ys: seq<Rule>)
    ensures Chosen(w, xs + ys) == if Chosen(w, xs).Some? then Chosen(w, xs) else Chosen(w, ys)
  {
    if xs == [] {
      assert xs + ys == ys;
    } else {
      assert (xs + ys)[1..] == xs[1..] + ys;
      ChosenConcat(w, xs[1..], ys);
    }
  }

  lemma {:induction false} NotChosen(w: string, rules: seq<Rule>)
    requires forall r :: r in rules ==> !Ends(w, r.suffix)
    ensures Chosen(w, rules) == None
  {
    if rules != [] {
      assert rules[0] in rules;
      NotChosen(w, rules[1..]);
    }
  }

  // ---------- Switching on a letter ----------

  /** The rules tried when the letter that far from the end of the word is this one. */
  datatype Case = Case(letter: char, back: nat, rules: seq<Rule>)

  predicate LetterAt(w: string, back: nat, letter: char) {
    0 < back <= |w| && w[|w| - back] == letter
  }

  /** Every suffix has the letter where the switch looks, and no replacement is longer. */
  predicate Fits(c: Case) {
    forall i :: 0 <= i < |c.rules| ==> LetterAt(c.rules[i].suffix, c.back, c.letter)
                                       && |c.rules[i].replacement| <= |c.rules[i].suffix|
  }

  type SwitchCase = c: Case | Fits(c) witness Case('a', 1, [])

  function AllRules(cases: seq<SwitchCase>): seq<Rule> {
    if cases == [] then [] else cases[0].rules + AllRules(cases[1..])
  }

  function Select(cases: seq<SwitchCase>, letter: char): (rules: seq<Rule>)
    ensures rules == [] || exists i :: 0 <= i < |cases| && cases[i].rules == rules && cases[i].letter == letter
  {
    if cases == [] then []
    else if cases[0].letter == letter then cases[0].rules
    else Select(cases[1..], letter)
  }

  /** All cases look at the same place, and no letter has two. */
  ghost predicate IsSwitch(cases: seq<SwitchCase>, back: nat) {
    && back > 0 && (forall i :: 0 <= i < |cases| ==> cases[i].back == back)
    && (forall i, j :: 0 <= i < j < |cases| ==> cases[i].letter != cases[j].letter)
  }

  lemma EndingHasLetter(w: string, suffix: string, back: nat, letter: char)
    requires Ends(w, suffix) && LetterAt(suffix, back, letter)
    ensures LetterAt(w, back, letter)
  {
    assert w[|w| - |suffix|..][|suffix| - back] == w[|w| - back];
  }

  lemma OtherLetter(w: string, c: SwitchCase)
    requires !LetterAt(w, c.back, c.letter)
    ensures Chosen(w, c.rules) == None
  {
    forall i | 0 <= i < |c.rules|
      ensures !Ends(w, c.rules[i].suffix)
    {
      if Ends(w, c.rules[i].suffix) {
        EndingHasLetter(w, c.rules[i].suffix, c.back, c.letter);
      }
    }
    NotChosen(w, c.rules);
  }

  lemma {:induction false} OtherLetters(w: string, cases: seq<SwitchCase>, back: nat)
    requires IsSwitch(cases, back) && back <= |w|
    requires forall i :: 0 <= i < |cases| ==> cases[i].letter != w[|w| - back]
    ensures Chosen(w, AllRules(cases)) == None
  {
    if cases != [] {
      OtherLetter(w, cases[0]);
      ChosenConcat(w, cases[0].rules, AllRules(cases[1..]));
      OtherLetters(w, cases[1..], back);
    }
  }

  /** The switch chooses the rule that the whole list would. */
  lemma {:induction false} SwitchChooses(w: string, cases: seq<SwitchCase>, back: nat)
    requires IsSwitch(cases, back) && back <= |w|
    ensures Chosen(w, Select(cases, w[|w| - back])) == Chosen(w, AllRules(cases))
  {
    if cases != [] {
      var rest := cases[1..];
      ChosenConcat(w, cases[0].rules, AllRules(rest));
      if cases[0].letter == w[|w| - back] {
        OtherLetters(w, rest, back);
      } else {
        SwitchChooses(w, rest, back);
        OtherLetter(w, cases[0]);
      }
    }
  }

  // ---------- Longest match ----------

  /** No suffix is part of a later one. */
  ghost predicate LongestFirst(rules: seq<Rule>) {
    forall i, j :: 0 <= i < j < |rules| && |rules[i].suffix| < |rules[j].suffix| ==> !Ends(rules[j].suffix, rules[i].suffix)
  }

  lemma {:induction false} ChosenIsLongest(w: string, rules: seq<Rule>, r: Rule)
    requires LongestFirst(rules) && r in rules && Ends(w, r.suffix)
    ensures Chosen(w, rules).Some? && |r.suffix| <= |Chosen(w, rules).value.suffix|
  {
    if Ends(w, rules[0].suffix) {
      if |rules[0].suffix| < |r.suffix| {
        var j :| 0 <= j < |rules| && rules[j] == r;
        assert r.suffix[|r.suffix| - |rules[0].suffix|..] == w[|w| - |rules[0].suffix|..];
      }
    } else {
      ChosenIsLongest(w, rules[1..], r);
    }
  }

  ghost predicate AllLongestFirst(cases: seq<SwitchCase>) {
    forall i :: 0 <= i < |cases| ==> LongestFirst(cases[i].rules)
  }

  /** In a whole step, whichever case a rule stands in, the longest ending wins. */
  lemma LongestEndingWins(w: string, cases: seq<SwitchCase>, back: nat, i: nat, r: Rule)
    requires IsSwitch(cases, back) && AllLongestFirst(cases)
    requires i < |cases| && r in cases[i].rules && Ends(w, r.suffix)
    ensures Chosen(w, AllRules(cases)).Some? && |r.suffix| <= |Chosen(w, AllRules(cases)).value.suffix|
  {
    var n :| 0 <= n < |cases[i].rules| && cases[i].rules[n] == r;
    assert Fits(cases[i]);
    EndingHasLetter(w, r.suffix, back, cases[i].letter);
    SelectFinds(cases, i);
    SwitchChooses(w, cases, back);
    ChosenIsLongest(w, cases[i].rules, r);
  }

  lemma {:induction false} SelectFinds(cases: seq<SwitchCase>, i: nat)
    requires i < |cases| && forall a, b :: 0 <= a < b < |cases| ==> cases[a].letter != cases[b].letter
    ensures Select(cases, cases[i].letter) == cases[i].rules
  {
    if i > 0 {
      SelectFinds(cases[1..], i - 1);
    }
  }

  // ---------- The tables ----------

  function Plurals(): seq<Rule> {
    [Rule("sses", "ss"), Rule("ies", "i"), Rule("ss", "ss"), Rule("s", "")]
  }

  function Step2A(): SwitchCase {
    Case('a', 2, [Rule("ational", "ate"), Rule("tional", "tion")])
  }

  function Step2C(): SwitchCase {
    Case('c', 2, [Rule("enci", "ence"), Rule("anci", "ance")])
  }

  function Step2E(): SwitchCase {
    Case('e', 2, [Rule("izer", "ize")])
  }

  function Step2L(): SwitchCase {
    Case('l', 2, [Rule("bli", "ble"), Rule("alli", "al"), Rule("entli", "ent"), Rule("eli", "e"), Rule("ousli", "ous")])
  }

  function Step2O(): SwitchCase {
    Case('o', 2, [Rule("ization", "ize"), Rule("ation", "ate"), Rule("ator", "ate")])
  }

  function Step2S(): SwitchCase {
    Case('s', 2, [Rule("alism", "al"), Rule("iveness", "ive"), Rule("fulness", "ful"), Rule("ousness", "ous")])
  }

  function Step2T(): SwitchCase {
    Case('t', 2, [Rule("aliti", "al"), Rule("iviti", "ive"), Rule("biliti", "ble")])
  }

  function Step2G(): SwitchCase {
    Case('g', 2, [Rule("logi", "log")])
  }

  function Cases2(): seq<SwitchCase> {
    [Step2A(), Step2C(), Step2E(), Step2L(), Step2O(), Step2S(), Step2T(), Step2G()]
  }

  function Step3E(): SwitchCase {
    Case('e', 1, [Rule("icate", "ic"), Rule("ative", ""), Rule("alize", "al")])
  }

  function Step3I(): SwitchCase {
    Case('i', 1, [Rule("iciti", "ic")])
  }

  function Step3L(): SwitchCase {
    Case('l', 1, [Rule("ical", "ic"), Rule("ful", "")])
  }

  function Step3S(): SwitchCase {
    Case('s', 1, [Rule("ness", "")])
  }

  function Cases3(): seq<SwitchCase> {
    [Step3E(), Step3I(), Step3L(), Step3S()]
  }

  function Step4A(): SwitchCase {
    Case('a', 2, [Rule("al", "")])
  }

  function Step4C(): SwitchCase {
    Case('c', 2, [Rule("ance", ""), Rule("ence", "")])
  }

  function Step4E(): SwitchCase {
    Case('e', 2, [Rule("er", "")])
  }

  function Step4I(): SwitchCase {
    Case('i', 2, [Rule("ic", "")])
  }

  function Step4L(): SwitchCase {
    Case('l', 2, [Rule("able", ""), Rule("ible", "")])
  }

  function Step4N(): SwitchCase {
    Case('n', 2, [Rule("ant", ""), Rule("ement", ""), Rule("ment", ""), Rule("ent", "")])
  }

  function Step4O(): SwitchCase {
    Case('o', 2, [Rule("ou", "")])
  }

  function Step4S(): SwitchCase {
    Case('s', 2, [Rule("ism", "")])
  }

  function Step4T(): SwitchCase {
    Case('t', 2, [Rule("ate", ""), Rule("iti", "")])
  }

  function Step4U(): SwitchCase {
    Case('u', 2, [Rule("ous", "")])
  }

  function Step4V(): SwitchCase {
    Case('v', 2, [Rule("ive", "")])
  }

  function Step4Z(): SwitchCase {
    Case('z', 2, [Rule("ize", "")])
  }

  function Cases4(): seq<SwitchCase> {
    [Step4A(), Step4C(), Step4E(), Step4I(), Step4L(), Step4N(), Step4O(), Step4S(), Step4T(), Step4U(), Step4V(), Step4Z()]
  }

  // ---------- The steps ----------

  function Step1a(w: string): string {
    Rewrite(w, Plurals(), 0)
  }

  function Step1b(w: string): string {
    if Ends(w, "eed") then if Measure(StemOf(w, "eed")) > 0 then w[..|w| - 1] else w
    else if Ends(w, "ed") && HasVowel(w, |w| - 2) then Repaired(StemOf(w, "ed"))
    else if Ends(w, "ing") && HasVowel(w, |w| - 3) then Repaired(StemOf(w, "ing"))
    else w
  }

  /** What a stem needs once ed or ing is gone. */
  function Repaired(w: string): (r: string)
    ensures |w| - 1 <= |r| <= |w| + 1
  {
    if Ends(w, "at") || Ends(w, "bl") || Ends(w, "iz") then w + "e"
    else if DoubleConsonant(w, |w| - 1) then if w[|w| - 1] in "lsz" then w else w[..|w| - 1]
    else if Measure(w) == 1 && EndsCVC(w, |w| - 1) then w + "e"
    else w
  }

  function Step1c(w: string): string {
    if Ends(w, "y") && HasVowel(w, |w| - 1) then w[..|w| - 1] + "i" else w
  }

  function Step1(w: string): string {
    Step1c(Step1b(Step1a(w)))
  }

  function Rules2(): seq<Rule> {
    AllRules(Cases2())
  }

  function Rules3(): seq<Rule> {
    AllRules(Cases3())
  }

  function Rules4(): seq<Rule> {
    AllRules(Cases4())
  }

  function Step2(w: string): string {
    Rewrite(w, Rules2(), 1)
  }

  function Step3(w: string): string {
    Rewrite(w, Rules3(), 1)
  }

  /** The ending ion goes only behind s or t. */
  function Step4(w: string): string {
    if Ends(w, "ion") then
      if |w| > 3 && w[|w| - 4] in "st" && Measure(StemOf(w, "ion")) > 1 then StemOf(w, "ion") else w
    else Rewrite(w, Rules4(), 2)
  }

  function Step5a(w: string): string {
    if Ends(w, "e") && var m := Measure(StemOf(w, "e")); m > 1 || (m == 1 && !EndsCVC(w, |w| - 2)) then StemOf(w, "e")
    else w
  }

  function Step5b(w: string): string {
    if Ends(w, "ll") && Measure(w) > 1 then w[..|w| - 1] else w
  }

  function Steps(w: string): string {
    Step5b(Step5a(Step4(Step3(Step2(Step1(w))))))
  }
}

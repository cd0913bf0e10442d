/** CSVUtil: one line of comma-separated fields, printed and parsed. */
module Csv {

  const QUOTE := '"'
  const COMMA := ','

  /** Every quote doubled. */
  function Double(s: string): string {
    if s == "" then ""
    else (if s[0] == QUOTE then [QUOTE, QUOTE] else [s[0]]) + Double(s[1..])
  }

  /** Every pair of quotes, left to right and without overlap, made one. */
  function Halve(s: string): string {
    if s == "" then ""
    else if |s| > 1 && s[0] == QUOTE && s[1] == QUOTE then [QUOTE] + Halve(s[2..])
    else [s[0]] + Halve(s[1..])
  }

  function QuoteEscape(original: string): string {
    var out := Double(original);
    if COMMA in out then [QUOTE] + out + [QUOTE] else out
  }

  /** A quote, at least one character and no quote, a quote. */
  predicate IsQuoted(s: string) {
    |s| > 2 && s[0] == QUOTE && s[|s| - 1] == QUOTE && QUOTE !in s[1..|s| - 1]
  }

  function UnQuoteUnEscape(s: string): string {
    Halve(if IsQuoted(s) then s[1..|s| - 1] else s)
  }

  function CountQuotes(s: string): nat {
    if s == "" then 0 else (if s[0] == QUOTE then 1 else 0) + CountQuotes(s[1..])
  }

  /** The stretches of a line between its unquoted commas; current is the stretch
      read so far. */
  function Stretches(line: string, insideQuote: bool, current: string): (stretches: seq<string>)
    ensures stretches != []
  {
    if line == "" then [current]
    else if line[0] == QUOTE then Stretches(line[1..], !insideQuote, current + [QUOTE])
    else if line[0] == COMMA && !insideQuote then [current] + Stretches(line[1..], false, "")
    else Stretches(line[1..], insideQuote, current + [line[0]])
  }

  function Unquoted(stretches: seq<string>): (fields: seq<string>)
    ensures |fields| == |stretches| && forall i :: 0 <= i < |fields| ==> fields[i] == UnQuoteUnEscape(stretches[i])
  {
    if stretches == [] then [] else [UnQuoteUnEscape(stretches[0])] + Unquoted(stretches[1..])
  }

  /** What a line means. */
  function Parsed(line: string): seq<string> {
    if line == "" || CountQuotes(line) % 2 != 0 then [] else Unquoted(Stretches(line, false, ""))
  }

  function Join(fields: seq<string>): string {
    if fields == [] then ""
    else if |fields| == 1 then fields[0]
    else fields[0] + [COMMA] + Join(fields[1..])
  }

  function Escaped(fields: seq<string>): (escaped: seq<string>)
    ensures |escaped| == |fields| && forall i :: 0 <= i < |fields| ==> escaped[i] == QuoteEscape(fields[i])
  {
    if fields == [] then [] else [QuoteEscape(fields[0])] + Escaped(fields[1..])
  }

  // ---------- One character at a time ----------

  lemma StretchesStep(c: char, rest: string, insideQuote: bool, current: string)
    ensures Stretches([c] + rest, insideQuote, current)
         == if c == COMMA && !insideQuote then [current] + Stretches(rest, false, "")
            else Stretches(rest, insideQuote != (c == QUOTE), current + [c])
  {
    assert ([c] + rest)[1..] == rest;
  }

  lemma ClosedStep(c: char, rest: string, from: bool, to: bool)
    ensures Closed([c] + rest, from, to) == (!(c == COMMA && !from) && Closed(rest, from != (c == QUOTE), to))
  {
    assert ([c] + rest)[1..] == rest;
  }

  lemma DoubleStep(c: char, rest: string)
    ensures Double([c] + rest) == (if c == QUOTE then [QUOTE, QUOTE] else [c]) + Double(rest)
  {
    assert ([c] + rest)[1..] == rest;
  }

  lemma EmptyAndQuote()
    ensures Double("") == "" && Halve("") == "" && Halve([QUOTE]) == [QUOTE]
  {
  }

  lemma HalvePair(rest: string)
    ensures Halve([QUOTE, QUOTE] + rest) == [QUOTE] + Halve(rest)
  {
    assert ([QUOTE, QUOTE] + rest)[2..] == rest;
  }

  lemma HalveOther(c: char, rest: string)
    requires c != QUOTE
    ensures Halve([c] + rest) == [c] + Halve(rest)
    ensures Halve([QUOTE, c] + rest) == [QUOTE, c] + Halve(rest)
  {
    assert ([c] + rest)[1..] == rest;
    assert ([QUOTE, c] + rest)[1..] == [c] + rest;
  }

  lemma UnquotedStep(first: string, rest: seq<string>)
    ensures Unquoted([first] + rest) == [UnQuoteUnEscape(first)] + Unquoted(rest)
  {
    assert ([first] + rest)[1..] == rest;
  }

  // ---------- Parsing ----------

  method CSVParse(line: string) returns (fields: seq<string>)
    ensures fields == Parsed(line)
  {
    hide Stretches, Unquoted, CountQuotes;
    if line == "" {
      return [];
    }
    var quotes := Count(line);
    if quotes % 2 != 0 {
      return [];
    }
    fields := SplitLine(line);
  }

  method Count(line: string) returns (quotes: nat)
    ensures quotes == CountQuotes(line)
  {
    quotes := 0;
    for i := 0 to |line|
      invariant quotes + CountQuotes(line[i..]) == CountQuotes(line)
    {
      if line[i] == QUOTE {
        quotes := quotes + 1;
      }
    }
  }

  method SplitLine(line: string) returns (fields: seq<string>)
    ensures fields == Unquoted(Stretches(line, false, ""))
  {
    hide Stretches, Unquoted, UnQuoteUnEscape;
    fields := [];
    var current, insideQuote := "", false;
    for i := 0 to |line|
      invariant fields + Unquoted(Stretches(line[i..], insideQuote, current)) == Unquoted(Stretches(line, false, ""))
    {
      assert line[i..] == [line[i]] + line[i + 1..];
      StretchesStep(line[i], line[i + 1..], insideQuote, current);
      if line[i] == QUOTE {
        insideQuote := !insideQuote;
        current := current + [line[i]];
      } else if line[i] == COMMA && !insideQuote {
        UnquotedStep(current, Stretches(line[i + 1..], false, ""));
        fields := fields + [UnQuoteUnEscape(current)];
        current := "";
      } else {
        current := current + [line[i]];
      }
    }
    fields := fields + [UnQuoteUnEscape(current)];
    LastField(current, insideQuote);
  }

  lemma LastField(current: string, insideQuote: bool)
    ensures Unquoted(Stretches("", insideQuote, current)) == [UnQuoteUnEscape(current)]
  {
    UnquotedStep(current, []);
    assert [current] + [] == [current];
  }

  // ---------- The stretches of a line ----------

  /** A stretch without an unquoted comma that takes the quoting from one state to
      another. */
  predicate Closed(s: string, from: bool, to: bool) {
    if s == "" then from == to
    else if s[0] == QUOTE then Closed(s[1..], !from, to)
    else if s[0] == COMMA && !from then false
    else Closed(s[1..], from, to)
  }

  lemma {:induction false} ClosedAppend(s: string, t: string, from: bool, mid: bool, to: bool)
    requires Closed(s, from, mid) && Closed(t, mid, to)
    ensures Closed(s + t, from, to)
  {
    if s == "" {
      assert s + t == t;
    } else {
      assert (s + t)[1..] == s[1..] + t;
      ClosedAppend(s[1..], t, from != (s[0] == QUOTE), mid, to);
    }
  }

  lemma {:induction false} StretchesSkip(s: string, rest: string, insideQuote: bool, current: string)
    requires Closed(s, insideQuote, false)
    ensures Stretches(s + rest, insideQuote, current) == Stretches(rest, false, current + s)
  {
    if s == "" {
      assert s + rest == rest && current + s == current;
    } else {
      assert s + rest == [s[0]] + (s[1..] + rest);
      StretchesStep(s[0], s[1..] + rest, insideQuote, current);
      assert current + s == current + [s[0]] + s[1..];
      StretchesSkip(s[1..], rest, insideQuote != (s[0] == QUOTE), current + [s[0]]);
    }
  }

  /** Splitting undoes joining. */
  lemma {:induction false} JoinThenSplit(stretches: seq<string>)
    requires stretches != [] && forall i :: 0 <= i < |stretches| ==> Closed(stretches[i], false, false)
    ensures Stretches(Join(stretches), false, "") == stretches
  {
    hide Join, Stretches, Closed;
    var first, others := stretches[0], stretches[1..];
    assert stretches == [first] + others && "" + first == first;
    if others == [] {
      JoinOne(first);
      StretchesSkip(first, "", false, "");
      assert first + "" == first && stretches == [first];
    } else {
      JoinStep(first, others);
      assert first + [COMMA] + Join(others) == first + ([COMMA] + Join(others));
      StretchesSkip(first, [COMMA] + Join(others), false, "");
      StretchesStep(COMMA, Join(others), false, first);
      JoinThenSplit(others);
    }
  }

  lemma JoinOne(stretch: string)
    ensures Join([stretch]) == stretch
    ensures Stretches("", false, stretch) == [stretch]
  {
  }

  lemma JoinStep(first: string, rest: seq<string>)
    requires rest != []
    ensures Join([first] + rest) == first + [COMMA] + Join(rest)
  {
    assert ([first] + rest)[1..] == rest;
  }

  /** Joining undoes splitting. */
  lemma {:induction false} SplitThenJoin(line: string, insideQuote: bool, current: string)
    ensures Join(Stretches(line, insideQuote, current)) == current + line
  {
    if line != "" {
      hide Join, Stretches;
      var c, rest := line[0], line[1..];
      assert line == [c] + rest;
      StretchesStep(c, rest, insideQuote, current);
      if c == COMMA && !insideQuote {
        SplitThenJoin(rest, false, "");
        JoinStep(current, Stretches(rest, false, ""));
      } else {
        SplitThenJoin(rest, insideQuote != (c == QUOTE), current + [c]);
      }
      assert current + line == current + [c] + rest;
    }
  }

  /** In a line whose quotes pair up, every stretch is closed. */
  lemma {:induction false} SplitIsClosed(line: string, insideQuote: bool, current: string)
    requires CountQuotes(line) % 2 == if insideQuote then 1 else 0
    requires Closed(current, false, insideQuote)
    ensures forall s :: s in Stretches(line, insideQuote, current) ==> Closed(s, false, false)
  {
    if line != "" {
      hide Stretches, Closed;
      var c, rest := line[0], line[1..];
      assert line == [c] + rest;
      StretchesStep(c, rest, insideQuote, current);
      if c == COMMA && !insideQuote {
        ClosedEmpty();
        SplitIsClosed(rest, false, "");
      } else {
        ClosedOne(c, insideQuote);
        ClosedAppend(current, [c], false, insideQuote, insideQuote != (c == QUOTE));
        SplitIsClosed(rest, insideQuote != (c == QUOTE), current + [c]);
      }
    }
  }

  lemma ClosedEmpty()
    ensures Closed("", false, false)
  {
  }

  lemma ClosedOne(c: char, from: bool)
    ensures Closed([c], from, from != (c == QUOTE)) == !(c == COMMA && !from)
  {
    ClosedStep(c, "", from, from != (c == QUOTE));
    assert [c] + "" == [c];
  }

  lemma {:induction false} ClosedQuotesPair(s: string, rest: string, insideQuote: bool)
    requires Closed(s, insideQuote, false)
    ensures CountQuotes(s + rest) % 2 == (CountQuotes(rest) + if insideQuote then 1 else 0) % 2
  {
    if s == "" {
      assert s + rest == rest;
    } else {
      assert (s + rest)[1..] == s[1..] + rest;
      ClosedQuotesPair(s[1..], rest, insideQuote != (s[0] == QUOTE));
    }
  }

  lemma {:induction false} JoinQuotesPair(stretches: seq<string>)
    requires forall i :: 0 <= i < |stretches| ==> Closed(stretches[i], false, false)
    ensures CountQuotes(Join(stretches)) % 2 == 0
  {
    if stretches != [] {
      var rest := if |stretches| == 1 then "" else [COMMA] + Join(stretches[1..]);
      assert Join(stretches) == stretches[0] + rest;
      ClosedQuotesPair(stretches[0], rest, false);
      if |stretches| > 1 {
        assert rest[1..] == Join(stretches[1..]);
        JoinQuotesPair(stretches[1..]);
      }
    }
  }

  // ---------- One field ----------

  lemma {:induction false} DoubledIsClosed(s: string, from: bool)
    requires from || COMMA !in s
    ensures Closed(Double(s), from, from)
  {
    if s != "" {
      hide Closed, Double;
      var c, rest := s[0], s[1..];
      assert s == [c] + rest;
      DoubleStep(c, rest);
      DoubledIsClosed(rest, from);
      if c == QUOTE {
        assert [QUOTE, QUOTE] + Double(rest) == [QUOTE] + ([QUOTE] + Double(rest));
        ClosedStep(QUOTE, [QUOTE] + Double(rest), from, from);
        ClosedStep(QUOTE, Double(rest), !from, from);
      } else {
        ClosedStep(c, Double(rest), from, from);
      }
    }
  }

  lemma {:induction false} HalveDoubled(s: string, t: string)
    ensures Halve(Double(s) + t) == s + Halve(t)
  {
    hide Halve, Double;
    if s == "" {
      EmptyAndQuote();
      assert Double(s) + t == t;
    } else {
      var c, rest := s[0], s[1..];
      assert s == [c] + rest;
      DoubleStep(c, rest);
      HalveDoubled(rest, t);
      if c == QUOTE {
        HalvePair(Double(rest) + t);
        assert [QUOTE, QUOTE] + Double(rest) + t == [QUOTE, QUOTE] + (Double(rest) + t);
      } else {
        HalveOther(c, Double(rest) + t);
        assert [c] + Double(rest) + t == [c] + (Double(rest) + t);
      }
      assert [c] + (rest + Halve(t)) == s + Halve(t);
    }
  }

  /** A quote in front shifts the pairs up to the first other character. */
  lemma {:induction false} HalveShifted(s: string, t: string)
    requires exists i :: 0 <= i < |s| && s[i] != QUOTE
    ensures Halve([QUOTE] + Double(s) + t) == [QUOTE] + s + Halve(t)
  {
    hide Halve, Double;
    var c, rest := s[0], s[1..];
    assert s == [c] + rest;
    DoubleStep(c, rest);
    if c == QUOTE {
      HalveShifted(rest, t);
      HalvePair([QUOTE] + Double(rest) + t);
      assert [QUOTE] + Double(s) + t == [QUOTE, QUOTE] + ([QUOTE] + Double(rest) + t);
      assert [QUOTE] + ([QUOTE] + rest + Halve(t)) == [QUOTE] + s + Halve(t);
    } else {
      HalveDoubled(rest, t);
      HalveOther(c, Double(rest) + t);
      assert [QUOTE] + Double(s) + t == [QUOTE, c] + (Double(rest) + t);
      assert [QUOTE, c] + (rest + Halve(t)) == [QUOTE] + s + Halve(t);
    }
  }

  lemma {:induction false} DoubleKeeps(s: string)
    ensures COMMA in Double(s) <==> COMMA in s
    ensures QUOTE in Double(s) <==> QUOTE in s
    ensures QUOTE !in s ==> Double(s) == s
    ensures |Double(s)| >= |s|
  {
    if s != "" {
      DoubleKeeps(s[1..]);
      assert s == [s[0]] + s[1..];
    }
  }

  /** What becomes of a field printed and parsed. */
  function Image(field: string): string {
    if COMMA in field && QUOTE in field then [QUOTE] + field + [QUOTE] else field
  }

  lemma FieldIsClosed(field: string)
    ensures Closed(QuoteEscape(field), false, false)
  {
    hide Closed, Double;
    DoubleKeeps(field);
    var out := Double(field);
    DoubledIsClosed(field, COMMA in field);
    if COMMA in field {
      ClosedOne(QUOTE, false);
      ClosedOne(QUOTE, true);
      ClosedAppend(out, [QUOTE], true, true, false);
      ClosedAppend([QUOTE], out + [QUOTE], false, true, false);
      assert [QUOTE] + (out + [QUOTE]) == QuoteEscape(field);
    }
  }

  lemma FieldImage(field: string)
    ensures UnQuoteUnEscape(QuoteEscape(field)) == Image(field)
  {
    hide Halve, Double;
    DoubleKeeps(field);
    EmptyAndQuote();
    var out := Double(field);
    assert out + "" == out && field + "" == field;
    HalveDoubled(field, "");
    if COMMA in field {
      var quoted := [QUOTE] + out + [QUOTE];
      assert quoted[1..|quoted| - 1] == out;
      if QUOTE in field {
        HalveShifted(field, [QUOTE]);
      }
    } else {
      DoubledIsNotQuoted(field);
    }
  }

  lemma DoubledIsNotQuoted(field: string)
    ensures !IsQuoted(Double(field))
  {
    var out := Double(field);
    if |out| > 2 && out[0] == QUOTE {
      assert out[1] == QUOTE;
      assert out[1..|out| - 1][0] == QUOTE;
    }
  }

  // ---------- The round trip ----------

  lemma JoinIsEmpty(stretches: seq<string>)
    ensures Join(stretches) == "" <==> stretches == [] || stretches == [""]
  {
  }

  /** What comes back for every list of fields. */
  lemma PrintThenParse(fields: seq<string>)
    requires fields != [""]
    ensures |Parsed(Join(Escaped(fields)))| == |fields|
    ensures forall i :: 0 <= i < |fields| ==> Parsed(Join(Escaped(fields)))[i] == Image(fields[i])
  {
    var escaped := Escaped(fields);
    forall i | 0 <= i < |fields|
      ensures Closed(escaped[i], false, false) && UnQuoteUnEscape(escaped[i]) == Image(fields[i])
      ensures escaped[i] == "" ==> fields[i] == ""
    {
      FieldIsClosed(fields[i]);
      FieldImage(fields[i]);
      DoubleKeeps(fields[i]);
    }
    JoinIsEmpty(escaped);
    if fields != [] {
      JoinQuotesPair(escaped);
      JoinThenSplit(escaped);
    }
  }

  /** Exactly which lists of fields survive being printed and parsed. */
  lemma RoundTrip(fields: seq<string>)
    ensures Parsed(Join(Escaped(fields))) == fields
       <==> fields != [""] && forall i :: 0 <= i < |fields| ==> !(COMMA in fields[i] && QUOTE in fields[i])
  {
    var back := Parsed(Join(Escaped(fields)));
    if fields == [""] {
      assert Escaped(fields) == [""];
    } else {
      PrintThenParse(fields);
      forall i | 0 <= i < |fields| && back == fields
        ensures !(COMMA in fields[i] && QUOTE in fields[i])
      {
        assert |Image(fields[i])| == |fields[i]|;
      }
    }
  }

  // ---------- Lines written by others ----------

  /** A field between quotes, or as it is. */
  function Wrapped(field: string, quoted: bool): string {
    if quoted then [QUOTE] + field + [QUOTE] else field
  }

  function WrappedAll(fields: seq<string>, quoted: seq<bool>): (stretches: seq<string>)
    requires |fields| == |quoted|
    ensures |stretches| == |fields|
  {
    seq(|fields|, i requires 0 <= i < |fields| => Wrapped(fields[i], quoted[i]))
  }

  lemma {:induction false} PlainIsClosed(s: string, from: bool)
    requires QUOTE !in s && (from || COMMA !in s)
    ensures Closed(s, from, from)
  {
    if s != "" {
      assert s[0] in s && forall c :: c in s[1..] ==> c in s;
      PlainIsClosed(s[1..], from);
    }
  }

  lemma {:induction false} PlainStays(s: string)
    requires QUOTE !in s
    ensures Halve(s) == s
  {
    if s != "" {
      assert s[0] in s && forall c :: c in s[1..] ==> c in s;
      PlainStays(s[1..]);
    }
  }

  lemma WrappedField(field: string, quoted: bool)
    requires QUOTE !in field && if quoted then field != "" else COMMA !in field
    ensures Closed(Wrapped(field, quoted), false, false) && UnQuoteUnEscape(Wrapped(field, quoted)) == field
  {
    hide Closed, Halve;
    PlainStays(field);
    PlainIsClosed(field, quoted);
    if quoted {
      var w := Wrapped(field, true);
      assert w[1..|w| - 1] == field;
      ClosedOne(QUOTE, false);
      ClosedOne(QUOTE, true);
      ClosedAppend(field, [QUOTE], true, true, false);
      ClosedAppend([QUOTE], field + [QUOTE], false, true, false);
      assert [QUOTE] + (field + [QUOTE]) == w;
    } else {
      assert QUOTE !in field;
    }
  }

  /** Fields without quotes of their own come out of a line, each between quotes, which
      go, or bare and then without a comma; only an empty field may not be quoted. */
  lemma WrappedFieldsParse(fields: seq<string>, quoted: seq<bool>)
    requires |fields| == |quoted| && fields != [] && fields != [""]
    requires forall i :: 0 <= i < |fields| ==>
               QUOTE !in fields[i] && if quoted[i] then fields[i] != "" else COMMA !in fields[i]
    ensures Parsed(Join(WrappedAll(fields, quoted))) == fields
  {
    hide Join, Closed, Stretches, UnQuoteUnEscape, CountQuotes;
    var stretches := WrappedAll(fields, quoted);
    forall i | 0 <= i < |fields|
      ensures Closed(stretches[i], false, false) && UnQuoteUnEscape(stretches[i]) == fields[i]
    {
      WrappedField(fields[i], quoted[i]);
    }
    JoinThenSplit(stretches);
    JoinQuotesPair(stretches);
    JoinIsEmpty(stretches);
  }

  /** A single field between quotes loses them. */
  lemma LoneQuotedField(s: string)
    requires s != "" && QUOTE !in s
    ensures Parsed([QUOTE] + s + [QUOTE]) == [s]
  {
    WrappedFieldsParse([s], [true]);
    assert WrappedAll([s], [true]) == [[QUOTE] + s + [QUOTE]];
  }

  /** The first quote of a field is doubled, and so is every other one. */
  lemma EscapedQuotes(a: string, b: string)
    requires QUOTE !in a
    ensures QuoteEscape(a) == if COMMA in a then [QUOTE] + a + [QUOTE] else a
    ensures Double(a + [QUOTE] + b) == a + [QUOTE, QUOTE] + Double(b)
  {
    DoubleKeeps(a);
    DoubleAppend(a, [QUOTE] + b);
    DoubleStep(QUOTE, b);
    assert a + [QUOTE] + b == a + ([QUOTE] + b);
    assert a + [QUOTE, QUOTE] + Double(b) == a + ([QUOTE, QUOTE] + Double(b));
  }

  lemma {:induction false} DoubleAppend(a: string, b: string)
    ensures Double(a + b) == Double(a) + Double(b)
  {
    if a == "" {
      assert a + b == b;
    } else {
      assert (a + b)[1..] == a[1..] + b;
      DoubleAppend(a[1..], b);
    }
  }

  lemma {:induction false} QuotesCounted(s: string)
    ensures CountQuotes(s) == multiset(s)[QUOTE]
  {
    if s != "" {
      assert s == [s[0]] + s[1..];
      QuotesCounted(s[1..]);
    }
  }

  lemma {:induction false} NothingUnquoted(stretches: seq<string>)
    ensures Unquoted(stretches) == [] <==> stretches == []
  {
  }

  /** A line has no fields exactly when it is empty or has an odd number of quotes. */
  lemma NoFieldsExactlyWhen(line: string)
    ensures Parsed(line) == [] <==> line == "" || multiset(line)[QUOTE] % 2 == 1
  {
    QuotesCounted(line);
    NothingUnquoted(Stretches(line, false, ""));
  }
}

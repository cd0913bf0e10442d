/** NGramTokenFilter and EdgeNGramTokenFilter: the grams of every token, at its position.

Both filters share one set of attributes with their source; the attributes
modelled are the term and the position increment.
*/
module NGrams {
  import opened TokenPositions
  import opened Wrappers

  datatype Kind = EveryStart | FirstStart

  datatype Config = Config(kind: Kind, minGram: nat, maxGram: nat, preserveOriginal: bool) {
    predicate Valid() {
      1 <= minGram <= maxGram
    }
  }

  // ---------- Windows of a token ----------

  datatype Window = Window(start: nat, size: nat)

  ghost predicate Before(v: Window, w: Window) {
    v.start < w.start || (v.start == w.start && v.size < w.size)
  }

  /** The windows of n characters from the given one on: by start, then by size. */
  function Windows(n: nat, c: Config, start: nat, size: nat): (windows: seq<Window>)
    requires c.Valid()
    ensures forall w :: w in windows ==> w.start + w.size <= n
    decreases if start < n then n - start else 0, if size <= n then n + 1 - size else 0
  {
    if start >= n || (c.kind.FirstStart? && start > 0) then []
    else if size <= c.maxGram && start + size <= n then [Window(start, size)] + Windows(n, c, start, size + 1)
    else Windows(n, c, start + 1, c.minGram)
  }

  /** The windows asked for: a permitted size inside the token. */
  ghost predicate Wanted(n: nat, c: Config, w: Window) {
    c.minGram <= w.size <= c.maxGram && w.start + w.size <= n && (c.kind.FirstStart? ==> w.start == 0)
  }

  /** Exactly the windows asked for that do not come before the given one. */
  lemma {:induction false} WindowsAreWanted(n: nat, c: Config, start: nat, size: nat, w: Window)
    requires c.Valid() && size >= c.minGram
    ensures w in Windows(n, c, start, size) <==> Wanted(n, c, w) && !Before(w, Window(start, size))
    decreases if start < n then n - start else 0, if size <= n then n + 1 - size else 0
  {
    if start >= n || (c.kind.FirstStart? && start > 0) {
    } else if size <= c.maxGram && start + size <= n {
      WindowsAreWanted(n, c, start, size + 1, w);
    } else {
      WindowsAreWanted(n, c, start + 1, c.minGram, w);
    }
  }

  /** In strictly increasing order, so none twice. */
  lemma {:induction false} WindowsAreOrdered(n: nat, c: Config, start: nat, size: nat)
    requires c.Valid() && size >= c.minGram
    ensures forall i, j :: 0 <= i < j < |Windows(n, c, start, size)|
                           ==> Before(Windows(n, c, start, size)[i], Windows(n, c, start, size)[j])
    decreases if start < n then n - start else 0, if size <= n then n + 1 - size else 0
  {
    if start >= n || (c.kind.FirstStart? && start > 0) {
    } else if size <= c.maxGram && start + size <= n {
      var rest := Windows(n, c, start, size + 1);
      WindowsAreOrdered(n, c, start, size + 1);
      forall j | 0 <= j < |rest|
        ensures Before(Window(start, size), rest[j])
      {
        WindowsAreWanted(n, c, start, size + 1, rest[j]);
      }
    } else {
      WindowsAreOrdered(n, c, start + 1, c.minGram);
    }
  }

  function Cut(runes: string, windows: seq<Window>): (grams: seq<string>)
    requires forall w :: w in windows ==> w.start + w.size <= |runes|
    ensures |grams| == |windows|
  {
    if windows == [] then []
    else assert windows[0] in windows;
         [runes[windows[0].start..windows[0].start + windows[0].size]] + Cut(runes, windows[1..])
  }

  /** The original once more, if no gram shows it whole. */
  function Original(c: Config, runes: string): seq<string> {
    if c.preserveOriginal && (|runes| < c.minGram || |runes| > c.maxGram) then [runes] else []
  }

  function GramsFrom(c: Config, runes: string, start: nat, size: nat): seq<string>
    requires c.Valid()
  {
    Cut(runes, Windows(|runes|, c, start, size)) + Original(c, runes)
  }

  /** Everything a token is turned into. */
  function Terms(c: Config, runes: string): seq<string>
    requires c.Valid()
  {
    GramsFrom(c, runes, 0, c.minGram)
  }

  lemma {:induction false} CutAt(runes: string, windows: seq<Window>, k: nat)
    requires forall w :: w in windows ==> w.start + w.size <= |runes|
    requires k < |windows|
    ensures windows[k] in windows
    ensures Cut(runes, windows)[k] == runes[windows[k].start..windows[k].start + windows[k].size]
  {
    assert windows[k] in windows;
    if k > 0 {
      CutAt(runes, windows[1..], k - 1);
    }
  }

  /** The k-th term is the k-th window of the token, and after the windows at most the
      token itself is left. */
  lemma TermsAreWindows(c: Config, runes: string, k: nat)
    requires c.Valid()
    ensures var windows := Windows(|runes|, c, 0, c.minGram);
            && Terms(c, runes)[|windows|..] ==
               (if c.preserveOriginal && !(c.minGram <= |runes| <= c.maxGram) then [runes] else [])
            && (k < |windows| ==>
                  && Wanted(|runes|, c, windows[k])
                  && Terms(c, runes)[k] == runes[windows[k].start..windows[k].start + windows[k].size])
  {
    var windows := Windows(|runes|, c, 0, c.minGram);
    assert Cut(runes, windows) == Terms(c, runes)[..|windows|];
    if k < |windows| {
      CutAt(runes, windows, k);
      WindowsAreWanted(|runes|, c, 0, c.minGram, windows[k]);
    }
  }

  lemma WholeGram(runes: string, w: Window)
    requires w.start + w.size <= |runes|
    ensures runes[w.start..w.start + w.size] == runes <==> w == Window(0, |runes|)
  {
    assert |runes[w.start..w.start + w.size]| == w.size;
  }

  lemma {:induction false} WholeAmongCuts(runes: string, windows: seq<Window>)
    requires forall w :: w in windows ==> w.start + w.size <= |runes|
    ensures multiset(Cut(runes, windows))[runes] == multiset(windows)[Window(0, |runes|)]
  {
    if windows != [] {
      var w, rest := windows[0], windows[1..];
      assert w in windows;
      WholeAmongCuts(runes, rest);
      WholeGram(runes, w);
      CutFirst(runes, windows);
      hide Cut;
      CountFirst(windows, Window(0, |runes|));
      CountFirst(Cut(runes, windows), runes);
    }
  }

  lemma CutFirst(runes: string, windows: seq<Window>)
    requires forall w :: w in windows ==> w.start + w.size <= |runes|
    requires windows != []
    ensures windows[0] in windows
    ensures Cut(runes, windows)[0] == runes[windows[0].start..windows[0].start + windows[0].size]
    ensures Cut(runes, windows)[1..] == Cut(runes, windows[1..])
  {
    assert windows[0] in windows;
  }

  lemma CountFirst<T>(s: seq<T>, x: T)
    requires s != []
    ensures multiset(s)[x] == (if s[0] == x then 1 else 0) + multiset(s[1..])[x]
  {
    assert s == [s[0]] + s[1..];
  }

  lemma {:induction false} OnceInOrder(windows: seq<Window>, w: Window)
    requires forall i, j :: 0 <= i < j < |windows| ==> Before(windows[i], windows[j])
    ensures multiset(windows)[w] == if w in windows then 1 else 0
  {
    if windows != [] {
      assert windows == [windows[0]] + windows[1..];
      OnceInOrder(windows[1..], w);
    }
  }

  /** What preserveOriginal is for: with it, a token's own text is among its terms, once;
      without it, exactly when its length is that of a gram. */
  lemma OriginalOnce(c: Config, runes: string)
    requires c.Valid()
    ensures multiset(Terms(c, runes))[runes] ==
            if c.preserveOriginal || c.minGram <= |runes| <= c.maxGram then 1 else 0
  {
    hide Windows, Cut;
    var windows := Windows(|runes|, c, 0, c.minGram);
    WholeAmongCuts(runes, windows);
    WindowsAreOrdered(|runes|, c, 0, c.minGram);
    OnceInOrder(windows, Window(0, |runes|));
    WindowsAreWanted(|runes|, c, 0, c.minGram, Window(0, |runes|));
    assert multiset(Terms(c, runes)) == multiset(Cut(runes, windows)) + multiset(Original(c, runes));
  }

  // ---------- Streams ----------

  /** The first term takes the increment, the others stay at its position. */
  function Emit(terms: seq<string>, increment: nat): (out: seq<Token>)
    ensures |out| == |terms|
  {
    if terms == [] then [] else [Token(terms[0], increment)] + Emit(terms[1..], 0)
  }

  function Owed(terms: seq<string>, increment: nat): nat {
    if terms == [] then increment else 0
  }

  /** The output for a token's terms and the tokens behind it, owed increments first. */
  function Output(c: Config, terms: seq<string>, tokens: seq<Token>, owed: nat): seq<Token>
    requires c.Valid()
    decreases |tokens|
  {
    Emit(terms, owed) + Stream(c, tokens, Owed(terms, owed))
  }

  function Stream(c: Config, tokens: seq<Token>, owed: nat): seq<Token>
    requires c.Valid()
    decreases |tokens|, 0
  {
    if tokens == [] then []
    else Output(c, Terms(c, tokens[0].term), tokens[1..], owed + tokens[0].increment)
  }

  /** The increments that no term has taken when the stream ends. */
  function Trailing(c: Config, terms: seq<string>, tokens: seq<Token>, owed: nat): nat
    requires c.Valid()
    decreases |tokens|
  {
    if tokens == [] then Owed(terms, owed)
    else Trailing(c, Terms(c, tokens[0].term), tokens[1..], Owed(terms, owed) + tokens[0].increment)
  }

  lemma {:induction false} TotalEmit(terms: seq<string>, owed: nat)
    ensures Total(Emit(terms, owed)) + Owed(terms, owed) == owed
  {
    if terms != [] {
      TotalEmit(terms[1..], 0);
    }
  }

  /** No position is lost: what goes out, with what End reports, is what came in. */
  lemma {:induction false} PositionsAreConserved(c: Config, terms: seq<string>, tokens: seq<Token>, owed: nat)
    requires c.Valid()
    ensures Total(Output(c, terms, tokens, owed)) + Trailing(c, terms, tokens, owed) == owed + Total(tokens)
    decreases |tokens|
  {
    hide Emit, Terms, Total, Owed;
    var owed' := Owed(terms, owed);
    TotalParts(tokens);
    TotalAppend(Emit(terms, owed), Stream(c, tokens, owed'));
    TotalEmit(terms, owed);
    if tokens != [] {
      PositionsAreConserved(c, Terms(c, tokens[0].term), tokens[1..], owed' + tokens[0].increment);
    }
  }

  function AllAt(terms: seq<string>, position: int): seq<Placed> {
    if terms == [] then [] else [Placed(terms[0], position)] + AllAt(terms[1..], position)
  }

  /** At any point of a run: what went out and what is owed is what was read. */
  lemma RunConserves(c: Config, input: seq<Token>, read: nat, emitted: seq<Token>, terms: seq<string>, owed: nat)
    requires c.Valid() && read <= |input|
    requires Stream(c, input, 0) == emitted + Output(c, terms, input[read..], owed)
    requires Trailing(c, [], input, 0) == Trailing(c, terms, input[read..], owed)
    ensures Total(emitted) + owed == Total(input[..read])
  {
    hide Stream, Trailing, Total, Output, Emit;
    PositionsAreConserved(c, terms, input[read..], owed);
    PositionsAreConserved(c, [], input, 0);
    OutputOfNothing(c, input);
    TotalAppend(emitted, Output(c, terms, input[read..], owed));
    TotalAppend(input[..read], input[read..]);
    assert input[..read] + input[read..] == input;
  }

  /** A consumer that adds up all increments and the one at the end stands at the last
      position of the input, short of the source's own end by what that adds. */
  lemma EndIsShort(c: Config, input: seq<Token>, sourceEnd: nat)
    requires c.Valid()
    ensures Total(Stream(c, input, 0)) + Trailing(c, [], input, 0) == Total(input) + sourceEnd <==> sourceEnd == 0
  {
    hide Stream, Trailing, Total, Output;
    PositionsAreConserved(c, [], input, 0);
    OutputOfNothing(c, input);
  }

  lemma OutputOfNothing(c: Config, input: seq<Token>)
    requires c.Valid()
    ensures Output(c, [], input, 0) == Stream(c, input, 0)
  {
  }

  /** Every token's terms, at the token's own position. */
  function Ideal(c: Config, tokens: seq<Token>, position: int): seq<Placed>
    requires c.Valid()
  {
    if tokens == [] then []
    else var here := position + tokens[0].increment;
         AllAt(Terms(c, tokens[0].term), here) + Ideal(c, tokens[1..], here)
  }

  lemma {:induction false} PlaceEmit(terms: seq<string>, owed: nat, rest: seq<Token>, position: int)
    ensures Place(Emit(terms, owed) + rest, position)
         == AllAt(terms, position + owed) + Place(rest, position + owed - Owed(terms, owed))
  {
    hide Place;
    if terms == [] {
      assert Emit(terms, owed) + rest == rest;
    } else {
      var more := Emit(terms[1..], 0) + rest;
      assert Emit(terms, owed) + rest == [Token(terms[0], owed)] + more;
      PlaceStep(Token(terms[0], owed), more, position);
      PlaceEmit(terms[1..], 0, rest, position + owed);
    }
  }

  /** The consumer sees every term at the position of the token it comes from. */
  lemma {:induction false} TermsKeepPositions(c: Config, tokens: seq<Token>, owed: nat, position: int)
    requires c.Valid()
    ensures Place(Stream(c, tokens, owed), position) == Ideal(c, tokens, position + owed)
    decreases |tokens|
  {
    hide Place, Emit, AllAt, Terms;
    if tokens == [] {
      PlaceNothing(position);
    } else {
      var terms := Terms(c, tokens[0].term);
      var owed' := owed + tokens[0].increment;
      PlaceEmit(terms, owed', Stream(c, tokens[1..], Owed(terms, owed')), position);
      TermsKeepPositions(c, tokens[1..], Owed(terms, owed'), position + owed' - Owed(terms, owed'));
    }
  }

  // ---------- Steps of the filters ----------

  lemma WindowsStep(c: Config, runes: string, start: nat, size: nat)
    requires c.Valid()
    ensures start < |runes| && (c.kind.FirstStart? ==> start == 0) ==>
      GramsFrom(c, runes, start, size)
      == if size <= c.maxGram && start + size <= |runes|
         then [runes[start..start + size]] + GramsFrom(c, runes, start, size + 1)
         else GramsFrom(c, runes, start + 1, c.minGram)
    ensures start >= |runes| || (c.kind.FirstStart? && start > 0) ==> GramsFrom(c, runes, start, size) == Original(c, runes)
  {
    if start < |runes| && (c.kind.FirstStart? ==> start == 0) && size <= c.maxGram && start + size <= |runes| {
      var rest := Windows(|runes|, c, start, size + 1);
      assert ([Window(start, size)] + rest)[1..] == rest;
    }
  }

  lemma OutputStep(c: Config, term: string, terms: seq<string>, tokens: seq<Token>, owed: nat)
    requires c.Valid()
    ensures Output(c, [term] + terms, tokens, owed) == [Token(term, owed)] + Output(c, terms, tokens, 0)
    ensures Trailing(c, [term] + terms, tokens, owed) == Trailing(c, terms, tokens, 0)
  {
    assert ([term] + terms)[1..] == terms;
  }

  lemma OutputLast(c: Config, term: string, tokens: seq<Token>, owed: nat)
    requires c.Valid()
    ensures Output(c, [term], tokens, owed) == [Token(term, owed)] + Output(c, [], tokens, 0)
    ensures Trailing(c, [term], tokens, owed) == Trailing(c, [], tokens, 0)
  {
    OutputStep(c, term, [], tokens, owed);
    assert [term] + [] == [term];
  }

  lemma OutputNext(c: Config, token: Token, tokens: seq<Token>, owed: nat)
    requires c.Valid()
    ensures Output(c, [], [token] + tokens, owed) == Output(c, Terms(c, token.term), tokens, owed + token.increment)
    ensures Trailing(c, [], [token] + tokens, owed) == Trailing(c, Terms(c, token.term), tokens, owed + token.increment)
  {
    assert ([token] + tokens)[1..] == tokens;
  }

  lemma OutputEnd(c: Config, owed: nat)
    requires c.Valid()
    ensures Output(c, [], [], owed) == [] && Trailing(c, [], [], owed) == owed
  {
  }

  lemma ShortToken(c: Config, runes: string)
    requires c.Valid() && |runes| < c.minGram
    ensures Terms(c, runes) == if c.preserveOriginal then [runes] else []
  {
    NoWindows(c, |runes|, 0);
  }

  lemma {:induction false} NoWindows(c: Config, n: nat, start: nat)
    requires c.Valid() && n < c.minGram
    ensures Windows(n, c, start, c.minGram) == []
    decreases if start < n then n - start else 0
  {
    if start < n && (c.kind.FirstStart? ==> start == 0) {
      NoWindows(c, n, start + 1);
    }
  }

  /** The filter that starts grams at every character. */
  class NGramTokenFilter {
    const input: seq<Token>
    const c: Config
    var read: nat
    var term: string
    var increment: nat
    var curRunes: Option<string>
    var curPos: nat
    var curGramSize: nat
    var curPosIncr: nat
    var originalEmitted: bool

    ghost predicate Valid()
      reads this
    {
      && c.Valid() && c.kind.EveryStart? && read <= |input|
      && (curRunes.Some? ==>
            && c.minGram <= curGramSize && !originalEmitted
            && (|curRunes.value| < c.minGram ==> !c.preserveOriginal)
            && ((curPos == 0 && curGramSize == c.minGram) || curPosIncr == 0 || |curRunes.value| < c.minGram))
    }

    /** The terms still to come from the current token. */
    ghost function Current(): seq<string>
      requires Valid()
      reads this
    {
      if curRunes.None? then [] else GramsFrom(c, curRunes.value, curPos, curGramSize)
    }

    ghost function Remaining(): seq<Token>
      requires Valid()
      reads this
    {
      Output(c, Current(), input[read..], curPosIncr)
    }

    ghost function AtEnd(): nat
      requires Valid()
      reads this
    {
      Trailing(c, Current(), input[read..], curPosIncr)
    }

    constructor (input: seq<Token>, c: Config)
      requires c.Valid() && c.kind.EveryStart?
      ensures Valid() && this.input == input && this.c == c
      ensures Remaining() == Stream(c, input, 0)
      ensures AtEnd() == Trailing(c, [], input, 0)
    {
      this.input, this.c := input, c;
      read, term, increment := 0, "", 0;
      curRunes, curPos, curGramSize, curPosIncr, originalEmitted := None, 0, 0, 0, false;
    }

    /** Delivers the remaining output one by one. */
    method IncrementToken() returns (ok: bool)
      requires Valid()
      modifies this
      ensures Valid() && AtEnd() == old(AtEnd())
      ensures ok <==> old(Remaining()) != []
      ensures ok ==> Token(term, increment) == old(Remaining())[0] && Remaining() == old(Remaining())[1..]
      ensures !ok ==> curRunes.None? && read == |input|
    {
      hide Output, Trailing, GramsFrom, Terms;
      while true
        invariant Valid() && AtEnd() == old(AtEnd()) && Remaining() == old(Remaining())
        decreases |input| - read, curRunes.Some?, Left()
      {
        if curRunes.None? {
          if read == |input| {
            OutputEnd(c, curPosIncr);
            assert input[read..] == [];
            return false;
          }
          var emitted := StartToken();
          if emitted {
            return true;
          }
        }
        var runes := curRunes.value;
        WindowsStep(c, runes, curPos, curGramSize);
        if curPos + curGramSize <= |runes| && curGramSize <= c.maxGram {
          EmitGram(runes);
          return true;
        }
        var original := NextStart(runes);
        if original {
          return true;
        }
      }
    }

    /** Moves to the next start; past the last one the token is done, but for itself. */
    method NextStart(runes: string) returns (emitted: bool)
      requires Valid() && curRunes == Some(runes) && !(curPos + curGramSize <= |runes| && curGramSize <= c.maxGram)
      modifies this`curPos, this`curGramSize, this`curRunes, this`originalEmitted, this`term, this`increment
      ensures Valid() && AtEnd() == old(AtEnd())
      ensures emitted ==> [Token(term, increment)] + Remaining() == old(Remaining())
      ensures !emitted ==> Remaining() == old(Remaining()) && (curRunes.Some? ==> curRunes == Some(runes) && Left() < old(Left()))
    {
      hide Output, Trailing, GramsFrom, Terms;
      WindowsStep(c, runes, curPos, curGramSize);
      if curPos < |runes| {
        WindowsStep(c, runes, curPos + 1, c.minGram);
      }
      curPos := curPos + 1;
      curGramSize := c.minGram;
      if curPos >= |runes| {
        OutputLast(c, runes, input[read..], curPosIncr);
        if c.preserveOriginal && !originalEmitted && |runes| > c.maxGram {
          originalEmitted := true;
          term := runes;
          increment := 0;
          curRunes := None;
          return true;
        }
        curRunes := None;
      }
      return false;
    }

    ghost function Left(): nat
      reads this
    {
      if curRunes.Some? && curPos <= |curRunes.value| then |curRunes.value| + 1 - curPos else 0
    }

    /** Takes the next token; one too short for any gram may go out as it is. */
    method StartToken() returns (emitted: bool)
      requires Valid() && curRunes.None? && read < |input|
      modifies this
      ensures Valid() && AtEnd() == old(AtEnd()) && read == old(read) + 1
      ensures emitted ==> [Token(term, increment)] + Remaining() == old(Remaining())
      ensures !emitted ==> curRunes.Some? && Remaining() == old(Remaining())
    {
      hide Output, Trailing, GramsFrom;
      assert input[read..] == [input[read]] + input[read + 1..];
      OutputNext(c, input[read], input[read + 1..], curPosIncr);
      term, increment := input[read].term, input[read].increment;
      read := read + 1;
      curRunes := Some(term);
      curPosIncr := curPosIncr + increment;
      curPos := 0;
      curGramSize := c.minGram;
      originalEmitted := false;
      emitted := false;
      if c.preserveOriginal && |curRunes.value| < c.minGram {
        ShortToken(c, term);
        OutputLast(c, term, input[read..], curPosIncr);
        increment := curPosIncr;
        curPosIncr := 0;
        curRunes := None;
        emitted := true;
      }
    }

    method EmitGram(runes: string)
      requires Valid() && curRunes == Some(runes) && curPos + curGramSize <= |runes| && curGramSize <= c.maxGram
      modifies this`term, this`increment, this`curPosIncr, this`curGramSize
      ensures Valid() && AtEnd() == old(AtEnd())
      ensures [Token(term, increment)] + Remaining() == old(Remaining())
    {
      hide Output, Trailing, GramsFrom;
      WindowsStep(c, runes, curPos, curGramSize);
      OutputStep(c, runes[curPos..curPos + curGramSize], GramsFrom(c, runes, curPos, curGramSize + 1), input[read..], curPosIncr);
      term := runes[curPos..curPos + curGramSize];
      if curPos == 0 && curGramSize == c.minGram {
        increment := curPosIncr;
        curPosIncr := 0;
      } else {
        increment := 0;
      }
      curGramSize := curGramSize + 1;
    }

    /** After the stream, the increments no term has taken. The source's own end sets an
        increment first, which is lost. */
    method End(sourceEnd: nat)
      requires Valid() && curRunes.None? && read == |input|
      modifies this`increment
      ensures Valid() && increment == AtEnd()
    {
      OutputEnd(c, curPosIncr);
      assert input[read..] == [];
      increment := sourceEnd;
      increment := curPosIncr;
    }

    /** The source starts again, and so does the output. */
    method Reset()
      requires Valid()
      modifies this
      ensures Valid() && Remaining() == Stream(c, input, 0) && AtEnd() == Trailing(c, [], input, 0)
    {
      read := 0;
      curRunes := None;
      curPosIncr := 0;
      curPos := 0;
    }
  }

  /** The filter that starts grams at the first character only. */
  class EdgeNGramTokenFilter {
    const input: seq<Token>
    const c: Config
    var read: nat
    var term: string
    var increment: nat
    var curRunes: Option<string>
    var curGramSize: nat
    var curPosIncr: nat

    ghost predicate Valid()
      reads this
    {
      && c.Valid() && c.kind.FirstStart? && read <= |input|
      && (curRunes.Some? ==>
            && c.minGram <= curGramSize <= c.maxGram + 1
            && (|curRunes.value| < c.minGram ==> !c.preserveOriginal)
            && (curGramSize == c.minGram || curPosIncr == 0))
    }

    ghost function Current(): seq<string>
      requires Valid()
      reads this
    {
      if curRunes.None? then [] else GramsFrom(c, curRunes.value, 0, curGramSize)
    }

    ghost function Remaining(): seq<Token>
      requires Valid()
      reads this
    {
      Output(c, Current(), input[read..], curPosIncr)
    }

    ghost function AtEnd(): nat
      requires Valid()
      reads this
    {
      Trailing(c, Current(), input[read..], curPosIncr)
    }

    constructor (input: seq<Token>, c: Config)
      requires c.Valid() && c.kind.FirstStart?
      ensures Valid() && this.input == input && this.c == c
      ensures Remaining() == Stream(c, input, 0)
      ensures AtEnd() == Trailing(c, [], input, 0)
    {
      this.input, this.c := input, c;
      read, term, increment := 0, "", 0;
      curRunes, curGramSize, curPosIncr := None, 0, 0;
    }

    method IncrementToken() returns (ok: bool)
      requires Valid()
      modifies this
      ensures Valid() && AtEnd() == old(AtEnd())
      ensures ok <==> old(Remaining()) != []
      ensures ok ==> Token(term, increment) == old(Remaining())[0] && Remaining() == old(Remaining())[1..]
      ensures !ok ==> curRunes.None? && read == |input|
    {
      hide Output, Trailing, GramsFrom, Terms;
      while true
        invariant Valid() && AtEnd() == old(AtEnd()) && Remaining() == old(Remaining())
        decreases |input| - read, curRunes.Some?
      {
        if curRunes.None? {
          if read == |input| {
            OutputEnd(c, curPosIncr);
            assert input[read..] == [];
            return false;
          }
          var emitted := StartToken();
          if emitted {
            return true;
          }
        }
        var runes := curRunes.value;
        PrefixStep(c, runes, curGramSize);
        if curGramSize <= |runes| {
          if curGramSize <= c.maxGram {
            EmitPrefix(runes);
            return true;
          } else if c.preserveOriginal {
            OutputLast(c, runes, input[read..], curPosIncr);
            term := runes;
            increment := 0;
            curRunes := None;
            return true;
          }
        }
        curRunes := None;
      }
    }

    method StartToken() returns (emitted: bool)
      requires Valid() && curRunes.None? && read < |input|
      modifies this
      ensures Valid() && AtEnd() == old(AtEnd()) && read == old(read) + 1
      ensures emitted ==> [Token(term, increment)] + Remaining() == old(Remaining())
      ensures !emitted ==> curRunes.Some? && Remaining() == old(Remaining())
    {
      hide Output, Trailing, GramsFrom;
      assert input[read..] == [input[read]] + input[read + 1..];
      OutputNext(c, input[read], input[read + 1..], curPosIncr);
      term, increment := input[read].term, input[read].increment;
      read := read + 1;
      curRunes := Some(term);
      curPosIncr := curPosIncr + increment;
      if c.preserveOriginal && |curRunes.value| < c.minGram {
        ShortToken(c, term);
        OutputLast(c, term, input[read..], curPosIncr);
        increment := curPosIncr;
        curPosIncr := 0;
        curRunes := None;
        return true;
      }
      curGramSize := c.minGram;
      emitted := false;
    }

    method EmitPrefix(runes: string)
      requires Valid() && curRunes == Some(runes) && curGramSize <= |runes| && curGramSize <= c.maxGram
      modifies this`term, this`increment, this`curPosIncr, this`curGramSize
      ensures Valid() && AtEnd() == old(AtEnd())
      ensures [Token(term, increment)] + Remaining() == old(Remaining())
    {
      hide Output, Trailing, GramsFrom;
      PrefixStep(c, runes, curGramSize);
      OutputStep(c, runes[..curGramSize], GramsFrom(c, runes, 0, curGramSize + 1), input[read..], curPosIncr);
      term := runes[..curGramSize];
      increment := curPosIncr;
      curPosIncr := 0;
      curGramSize := curGramSize + 1;
    }

    method End(sourceEnd: nat)
      requires Valid() && curRunes.None? && read == |input|
      modifies this`increment
      ensures Valid() && increment == AtEnd()
    {
      OutputEnd(c, curPosIncr);
      assert input[read..] == [];
      increment := sourceEnd;
      increment := curPosIncr;
    }

    /** The source starts again, and so does the output. */
    method Reset()
      requires Valid()
      modifies this
      ensures Valid() && Remaining() == Stream(c, input, 0) && AtEnd() == Trailing(c, [], input, 0)
    {
      read := 0;
      curRunes := None;
      curPosIncr := 0;
    }
  }

  /** Bounds out of order are refused. */
  method NewNGramTokenFilter(input: seq<Token>, minGram: int, maxGram: int, preserveOriginal: bool)
    returns (filter: Option<NGramTokenFilter>)
    ensures filter.None? <==> minGram < 1 || minGram > maxGram
    ensures filter.Some? ==> filter.value.Valid() && fresh(filter.value) && filter.value.input == input
                             && filter.value.c == Config(EveryStart, minGram, maxGram, preserveOriginal)
                             && filter.value.Remaining() == Stream(filter.value.c, input, 0)
  {
    if minGram < 1 || minGram > maxGram {
      return None;
    }
    var f := new NGramTokenFilter(input, Config(EveryStart, minGram, maxGram, preserveOriginal));
    return Some(f);
  }

  /** Bounds out of order are refused. */
  method NewEdgeNGramTokenFilter(input: seq<Token>, minGram: int, maxGram: int, preserveOriginal: bool)
    returns (filter: Option<EdgeNGramTokenFilter>)
    ensures filter.None? <==> minGram < 1 || minGram > maxGram
    ensures filter.Some? ==> filter.value.Valid() && fresh(filter.value) && filter.value.input == input
                             && filter.value.c == Config(FirstStart, minGram, maxGram, preserveOriginal)
                             && filter.value.Remaining() == Stream(filter.value.c, input, 0)
  {
    if minGram < 1 || minGram > maxGram {
      return None;
    }
    var f := new EdgeNGramTokenFilter(input, Config(FirstStart, minGram, maxGram, preserveOriginal));
    return Some(f);
  }

  lemma PrefixStep(c: Config, runes: string, size: nat)
    requires c.Valid() && c.kind.FirstStart? && size >= c.minGram
    ensures GramsFrom(c, runes, 0, size)
         == if size <= c.maxGram && size <= |runes| then [runes[..size]] + GramsFrom(c, runes, 0, size + 1)
            else Original(c, runes)
  {
    hide GramsFrom;
    WindowsStep(c, runes, 0, size);
    WindowsStep(c, runes, 1, c.minGram);
  }
}

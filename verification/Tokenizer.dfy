/** cli_parse_line: splitting a command line into words, with quotes and pipes. */
module Tokenizer {
  import opened Text

  const NO_QUOTE: char := 0 as char

  /** The scanner: its position, the start of the open word (-1 for none), the open quote, the finished words. */
  datatype Lex = Lex(p: nat, start: int, quote: char, words: seq<string>)

  predicate Proper(line: string, s: Lex) {
    -1 <= s.start <= s.p <= |line| && (s.quote != NO_QUOTE ==> s.start >= 0)
  }

  function Measure(line: string, s: Lex): nat
    requires Proper(line, s)
  {
    2 * (|line| - s.p) + if s.start >= 0 then 1 else 0
  }

  // one turn of the loop before the end of the line
  function Step(line: string, s: Lex): (s': Lex)
    requires Proper(line, s) && s.p < |line|
    ensures Proper(line, s') && Measure(line, s') < Measure(line, s)
  {
    var c := line[s.p];
    if s.quote != NO_QUOTE && c == s.quote then
      Lex(s.p + 1, -1, NO_QUOTE, s.words + [line[s.start..s.p]])
    else if s.start >= 0 && s.quote == NO_QUOTE && (IsSpace(c) || c == '|') then
      Lex(s.p, -1, NO_QUOTE, s.words + [line[s.start..s.p]])
    else if IsQuote(c) then
      Lex(s.p + 1, s.p + 1, c, s.words)
    else if s.start >= 0 then
      s.(p := s.p + 1)
    else if c == '|' then
      Lex(s.p + 1, -1, NO_QUOTE, s.words + ["|"])
    else
      Lex(s.p + 1, if IsSpace(c) then -1 else s.p, NO_QUOTE, s.words)
  }

  function Scan(line: string, s: Lex, max: nat): (r: seq<string>)
    requires Proper(line, s)
    ensures |r| <= |s.words| || |r| < max
    decreases Measure(line, s)
  {
    if |s.words| + 1 >= max then s.words
    else if s.p == |line| then
      if s.start >= 0 then s.words + [line[s.start..s.p]] else s.words
    else Scan(line, Step(line, s), max)
  }

  function Indent(line: string): (n: nat)
    ensures n <= |line| && (forall k :: 0 <= k < n ==> IsSpace(line[k])) && (n < |line| ==> !IsSpace(line[n]))
  {
    if line == [] || !IsSpace(line[0]) then 0 else 1 + Indent(line[1..])
  }

  function Parse(line: string, max: nat): (r: seq<string>)
    ensures |r| < max || r == []
  {
    var n := Indent(line);
    Scan(line, Lex(n, if n < |line| then n else -1, NO_QUOTE, []), max)
  }

  lemma IndentIs(line: string, n: nat)
    requires n <= |line| && (forall k :: 0 <= k < n ==> IsSpace(line[k])) && (n < |line| ==> !IsSpace(line[n]))
    ensures Indent(line) == n
  {
  }

  method ParseLine(line: string, maxWords: nat) returns (words: seq<string>)
    ensures words == Parse(line, maxWords)
    ensures |words| < maxWords || words == []
  {
    hide Scan, Indent;
    words := [];
    var p := 0;
    var start := -1;
    var quote := NO_QUOTE;
    while p < |line|
      invariant p <= |line| && forall k :: 0 <= k < p ==> IsSpace(line[k])
    {
      if !IsSpace(line[p]) {
        start := p;
        break;
      }
      p := p + 1;
    }
    IndentIs(line, p);
    while |words| + 1 < maxWords
      invariant Proper(line, Lex(p, start, quote, words))
      invariant Scan(line, Lex(p, start, quote, words), maxWords) == Parse(line, maxWords)
      decreases Measure(line, Lex(p, start, quote, words))
    {
      ghost var s := Lex(p, start, quote, words);
      ScanTurn(line, s, maxWords);
      if || p == |line| || (quote != NO_QUOTE && line[p] == quote)
         || (start >= 0 && quote == NO_QUOTE && (IsSpace(line[p]) || line[p] == '|'))
      {
        if start >= 0 {
          words := words + [line[start..p]];
        }
        if p == |line| {
          return;
        }
        if quote != NO_QUOTE {
          p := p + 1;
        }
        quote := NO_QUOTE;
        start := -1;
      } else if IsQuote(line[p]) {
        quote := line[p];
        p := p + 1;
        start := p;
      } else {
        if start < 0 {
          if line[p] == '|' {
            words := words + ["|"];
          } else if !IsSpace(line[p]) {
            start := p;
          }
        }
        p := p + 1;
      }
      assert Lex(p, start, quote, words) == Step(line, s);
    }
    ScanTurn(line, Lex(p, start, quote, words), maxWords);
  }

  lemma ScanTurn(line: string, s: Lex, max: nat)
    requires Proper(line, s)
    ensures Scan(line, s, max) ==
            if |s.words| + 1 >= max then s.words
            else if s.p == |line| then if s.start >= 0 then s.words + [line[s.start..s.p]] else s.words
            else Scan(line, Step(line, s), max)
  {
  }

  predicate NoQuotes(s: string) {
    forall k :: 0 <= k < |s| ==> !IsQuote(s[k])
  }

  ghost predicate AllQuoteFree(words: seq<string>) {
    forall i :: 0 <= i < |words| ==> NoQuotes(words[i])
  }

  /** No word ever holds a quote mark. */
  lemma {:induction false} WordsHoldNoQuotes(line: string, s: Lex, max: nat)
    requires Proper(line, s) && AllQuoteFree(s.words) && (s.start >= 0 ==> NoQuotes(line[s.start..s.p]))
    ensures AllQuoteFree(Scan(line, s, max))
    decreases Measure(line, s)
  {
    hide Scan, Step, NoQuotes;
    ScanTurn(line, s, max);
    if |s.words| + 1 < max && s.p < |line| {
      StepHoldsNoQuotes(line, s);
      WordsHoldNoQuotes(line, Step(line, s), max);
    }
  }

  lemma StepHoldsNoQuotes(line: string, s: Lex)
    requires Proper(line, s) && AllQuoteFree(s.words) && (s.start >= 0 ==> NoQuotes(line[s.start..s.p])) && s.p < |line|
    ensures var s' := Step(line, s); AllQuoteFree(s'.words) && (s'.start >= 0 ==> NoQuotes(line[s'.start..s'.p]))
  {
    if s.start >= 0 {
      assert line[s.start..s.p + 1] == line[s.start..s.p] + [line[s.p]];
    }
  }

  lemma ParsedHoldNoQuotes(line: string, max: nat)
    ensures AllQuoteFree(Parse(line, max))
  {
    var n := Indent(line);
    WordsHoldNoQuotes(line, Lex(n, if n < |line| then n else -1, NO_QUOTE, []), max);
  }

  // ----- what is parsed back from a printed line -----

  datatype Token = Plain(word: string) | Quoted(quote: char, word: string) | Pipe {
    // a plain word is one word as it stands; a quoted one may hold anything
    ghost predicate Wellformed() {
      match this
      case Plain(w) => w != "" && forall k :: 0 <= k < |w| ==> !IsSpace(w[k]) && !IsQuote(w[k]) && w[k] != '|'
      case Quoted(q, _) => IsQuote(q)
      case Pipe => true
    }

    ghost predicate Valid() {
      Wellformed() && (Quoted? ==> NoQuotes(word))
    }

    function Printed(): (s: string)
    {
      match this
      case Plain(w) => w
      case Quoted(q, w) => [q] + w + [q]
      case Pipe => "|"
    }

    function Value(): string {
      if Pipe? then "|" else word
    }
  }

  /** The tokens in order, each after its gap, and a last gap. */
  function Layout(tokens: seq<Token>, gaps: seq<string>): string
    requires |gaps| == |tokens| + 1
  {
    if tokens == [] then gaps[0] else gaps[0] + tokens[0].Printed() + Layout(tokens[1..], gaps[1..])
  }

  function Values(tokens: seq<Token>): (vs: seq<string>)
    ensures |vs| == |tokens|
  {
    if tokens == [] then [] else [tokens[0].Value()] + Values(tokens[1..])
  }

  predicate AllSpace(s: string) {
    forall k :: 0 <= k < |s| ==> IsSpace(s[k])
  }

  // white space may be left out after a quoted word and on either side of a pipe
  ghost predicate Spaced(tokens: seq<Token>, gaps: seq<string>)
    requires |gaps| == |tokens| + 1
  {
    && (forall i :: 0 <= i < |tokens| ==> tokens[i].Wellformed())
    && (forall i :: 0 <= i < |gaps| ==> AllSpace(gaps[i]))
    && (forall i :: 0 < i < |tokens| && tokens[i - 1].Plain? && !tokens[i].Pipe? ==> gaps[i] != "")
  }

  ghost predicate QuotesHoldNone(tokens: seq<Token>) {
    forall i :: 0 <= i < |tokens| && tokens[i].Quoted? ==> NoQuotes(tokens[i].word)
  }

  ghost predicate WellSpaced(tokens: seq<Token>, gaps: seq<string>)
    requires |gaps| == |tokens| + 1
  {
    Spaced(tokens, gaps) && QuotesHoldNone(tokens)
  }

  lemma {:induction false} ScanGap(line: string, p: nat, q: nat, words: seq<string>, max: nat)
    requires p <= q <= |line| && forall k :: p <= k < q ==> IsSpace(line[k])
    ensures Scan(line, Lex(p, -1, NO_QUOTE, words), max) == Scan(line, Lex(q, -1, NO_QUOTE, words), max)
    decreases q - p
  {
    if p < q {
      ScanGap(line, p + 1, q, words, max);
    }
  }

  // inside an open word nothing happens up to its end
  lemma {:induction false} ScanWord(line: string, s: Lex, q: nat, max: nat)
    requires Proper(line, s) && s.start >= 0 && s.p <= q <= |line|
    requires forall k :: s.p <= k < q ==> !IsQuote(line[k])
    requires s.quote == NO_QUOTE ==> forall k :: s.p <= k < q ==> !IsSpace(line[k]) && line[k] != '|'
    requires s.quote == NO_QUOTE || IsQuote(s.quote)
    ensures Scan(line, s, max) == Scan(line, s.(p := q), max)
    decreases q - s.p
  {
    if s.p < q {
      ScanWord(line, s.(p := s.p + 1), q, max);
    }
  }

  predicate PlainEnd(rest: string) {
    rest == "" || IsSpace(rest[0]) || rest[0] == '|'
  }

  // an open plain word ends at the end of the line, at a space and at a pipe
  lemma ScanPlain(line: string, p: nat, q: nat, words: seq<string>, max: nat)
    requires p < q <= |line| && |words| + 1 < max
    requires forall k :: p <= k < q ==> !IsSpace(line[k]) && !IsQuote(line[k]) && line[k] != '|'
    requires PlainEnd(line[q..])
    ensures var r := Scan(line, Lex(q, -1, NO_QUOTE, words + [line[p..q]]), max);
            Scan(line, Lex(p, p, NO_QUOTE, words), max) == r && Scan(line, Lex(p, -1, NO_QUOTE, words), max) == r
  {
    ScanWord(line, Lex(p, p, NO_QUOTE, words), q, max);
    ScanWord(line, Lex(p + 1, p, NO_QUOTE, words), q, max);
    assert q < |line| ==> line[q..][0] == line[q];
  }

  lemma ScanQuoted(line: string, p: nat, q: nat, start: int, words: seq<string>, max: nat)
    requires p + 1 <= q < |line| && IsQuote(line[p]) && line[q] == line[p] && |words| + 1 < max
    requires start == -1 || start == p
    requires forall k :: p < k < q ==> !IsQuote(line[k])
    ensures Scan(line, Lex(p, start, NO_QUOTE, words), max)
         == Scan(line, Lex(q + 1, -1, NO_QUOTE, words + [line[p + 1..q]]), max)
  {
    hide Scan;
    ScanTurn(line, Lex(p, start, NO_QUOTE, words), max);
    ScanWord(line, Lex(p + 1, p + 1, line[p], words), q, max);
    ScanTurn(line, Lex(q, p + 1, line[p], words), max);
  }

  lemma ScanToken(line: string, p: nat, t: Token, words: seq<string>, max: nat, next: nat)
    requires t.Valid() && |words| + 1 < max && next == p + |t.Printed()| && next <= |line|
    requires line[p..next] == t.Printed()
    requires t.Plain? ==> PlainEnd(line[next..])
    ensures var r := Scan(line, Lex(next, -1, NO_QUOTE, words + [t.Value()]), max);
            && Scan(line, Lex(p, -1, NO_QUOTE, words), max) == r
            && (!t.Pipe? ==> Scan(line, Lex(p, p, NO_QUOTE, words), max) == r)
  {
    hide Scan;
    var s := t.Printed();
    assert forall k :: p <= k < next ==> line[k] == line[p..next][k - p];
    match t
    case Plain(w) =>
      ScanPlain(line, p, next, words, max);
    case Quoted(q, w) =>
      assert s[0] == q && s[|s| - 1] == q;
      assert line[p + 1..next - 1] == w;
      assert forall k :: p < k < next - 1 ==> line[k] == w[k - p - 1];
      ScanQuoted(line, p, next - 1, -1, words, max);
      ScanQuoted(line, p, next - 1, p, words, max);
    case Pipe => ScanTurn(line, Lex(p, -1, NO_QUOTE, words), max);
  }

  lemma SplitTwo(line: string, p: nat, a: string, b: string)
    requires p <= |line| && line[p..] == a + b
    ensures p + |a| <= |line| && line[p..p + |a|] == a && line[p + |a|..] == b
  {
    var tail := line[p..];
    assert tail[..|a|] == a && tail[|a|..] == b;
    assert line[p..p + |a|] == tail[..|a|] && line[p + |a|..] == tail[|a|..];
  }

  lemma SkipGap(line: string, p: nat, gap: string, rest: string, words: seq<string>, max: nat)
    requires p <= |line| && line[p..] == gap + rest && AllSpace(gap)
    ensures p + |gap| <= |line| && line[p + |gap|..] == rest
    ensures Scan(line, Lex(p, -1, NO_QUOTE, words), max) == Scan(line, Lex(p + |gap|, -1, NO_QUOTE, words), max)
  {
    SplitTwo(line, p, gap, rest);
    assert forall k :: p <= k < p + |gap| ==> line[k] == line[p..p + |gap|][k - p];
    ScanGap(line, p, p + |gap|, words, max);
  }

  lemma TakeToken(line: string, p: nat, t: Token, text: string, rest: string, words: seq<string>, max: nat)
    requires p <= |line| && text == t.Printed() && line[p..] == text + rest && |words| + 1 < max
    requires t.Valid() && (t.Plain? ==> PlainEnd(rest))
    ensures var next := p + |text|;
            && next <= |line| && line[next..] == rest
            && Scan(line, Lex(p, -1, NO_QUOTE, words), max)
               == Scan(line, Lex(next, -1, NO_QUOTE, words + [t.Value()]), max)
  {
    SplitTwo(line, p, text, rest);
    ScanToken(line, p, t, words, max, p + |text|);
  }

  // from a token boundary, through the gap and the token, to the next boundary
  lemma {:induction false} ScanFirst(line: string, p: nat, gap: string, t: Token, text: string, rest: string,
      words: seq<string>, max: nat)
    requires p <= |line| && text == t.Printed() && line[p..] == gap + text + rest && |words| + 1 < max
    requires t.Valid() && AllSpace(gap) && (t.Plain? ==> PlainEnd(rest))
    ensures var next := p + |gap| + |text|;
            && next <= |line| && line[next..] == rest
            && Scan(line, Lex(p, -1, NO_QUOTE, words), max)
               == Scan(line, Lex(next, -1, NO_QUOTE, words + [t.Value()]), max)
  {
    hide Scan, Step;
    Assoc(gap, text, rest);
    SkipGap(line, p, gap, text + rest, words, max);
    TakeToken(line, p + |gap|, t, text, rest, words, max);
  }

  lemma {:induction false} ScanHead(line: string, p: nat, tokens: seq<Token>, gaps: seq<string>, words: seq<string>,
      max: nat) returns (next: nat)
    requires p <= |line| && |gaps| == |tokens| + 1 && tokens != [] && WellSpaced(tokens, gaps)
    requires line[p..] == Layout(tokens, gaps) && |words| + 1 < max
    ensures next <= |line| && line[next..] == Layout(tokens[1..], gaps[1..])
    ensures Scan(line, Lex(p, -1, NO_QUOTE, words), max)
         == Scan(line, Lex(next, -1, NO_QUOTE, words + [tokens[0].Value()]), max)
  {
    hide Scan, Step;
    var text, rest := tokens[0].Printed(), Layout(tokens[1..], gaps[1..]);
    next := p + |gaps[0]| + |text|;
    EndOfPlain(tokens, gaps);
    ScanFirst(line, p, gaps[0], tokens[0], text, rest, words, max);
  }

  lemma {:induction false} ScanLayout(line: string, p: nat, tokens: seq<Token>, gaps: seq<string>,
      words: seq<string>, max: nat)
    requires p <= |line| && |gaps| == |tokens| + 1 && WellSpaced(tokens, gaps)
    requires line[p..] == Layout(tokens, gaps) && |words| + |tokens| < max
    ensures Scan(line, Lex(p, -1, NO_QUOTE, words), max) == words + Values(tokens)
    decreases |tokens|
  {
    if tokens == [] {
      SkipGap(line, p, gaps[0], "", words, max);
    } else {
      TailIsWellSpaced(tokens, gaps);
      var next := ScanHead(line, p, tokens, gaps, words, max);
      ScanLayout(line, next, tokens[1..], gaps[1..], words + [tokens[0].Value()], max);
      Assoc(words, [tokens[0].Value()], Values(tokens[1..]));
    }
  }

  // what follows a plain token is the end, a space or a pipe
  lemma EndOfPlain(tokens: seq<Token>, gaps: seq<string>)
    requires |gaps| == |tokens| + 1 && tokens != [] && WellSpaced(tokens, gaps)
    ensures tokens[0].Plain? ==> PlainEnd(Layout(tokens[1..], gaps[1..]))
  {
    var rest := Layout(tokens[1..], gaps[1..]);
    assert AllSpace(gaps[1]);
    if tokens[0].Plain? && gaps[1] == "" && |tokens| > 1 {
      assert tokens[1].Pipe?;
      assert rest == "" + "|" + Layout(tokens[1..][1..], gaps[1..][1..]);
    }
  }

  lemma TailIsWellSpaced(tokens: seq<Token>, gaps: seq<string>)
    requires |gaps| == |tokens| + 1 && tokens != [] && WellSpaced(tokens, gaps)
    ensures WellSpaced(tokens[1..], gaps[1..])
  {
    assert forall i :: 0 <= i < |gaps| - 1 ==> gaps[1..][i] == gaps[i + 1];
    assert forall i :: 0 <= i < |tokens| - 1 ==> tokens[1..][i] == tokens[i + 1];
  }

  lemma StillSpaced(tokens: seq<Token>, gaps: seq<string>)
    requires |gaps| == |tokens| + 1 && tokens != [] && Spaced(tokens, gaps)
    ensures Spaced(tokens, gaps[0 := ""])
  {
  }

  lemma PrintedBegins(t: Token)
    requires t.Valid()
    ensures t.Printed() != "" && !IsSpace(t.Printed()[0])
  {
  }

  lemma FirstPosition(line: string, gap: string, text: string, rest: string)
    requires line == gap + text + rest && AllSpace(gap) && text != "" && !IsSpace(text[0])
    ensures var n := |gap|;
            && n + |text| <= |line| && Indent(line) == n
            && line[n..n + |text|] == text && line[n + |text|..] == rest
  {
    var n := |gap|;
    assert line[0..] == line;
    Assoc(gap, text, rest);
    SplitTwo(line, 0, gap, text + rest);
    SplitTwo(line, n, text, rest);
    assert forall k :: 0 <= k < n ==> line[k] == line[0..n][k];
    assert line[n] == line[n..n + |text|][0];
    IndentIs(line, n);
  }

  // the scanner enters its loop with the first token already open
  lemma FirstToken(line: string, n: nat, t: Token, max: nat)
    requires t.Valid() && max > 1 && n + |t.Printed()| <= |line| && line[n..n + |t.Printed()|] == t.Printed()
    requires t.Plain? ==> PlainEnd(line[n + |t.Printed()|..])
    ensures Scan(line, Lex(n, n, NO_QUOTE, []), max)
         == Scan(line, Lex(n, -1, NO_QUOTE, if t.Pipe? then [""] else []), max)
  {
    if t.Pipe? {
      assert line[n] == line[n..n + 1][0];
      assert line[n..n] == "" && [] + [""] == [""];
    } else {
      ScanToken(line, n, t, [], max, n + |t.Printed()|);
    }
  }

  lemma NoGap(gap: string, text: string, rest: string)
    ensures gap + text + rest == gap + ("" + text + rest)
  {
  }

  lemma {:induction false} WithoutGap(tokens: seq<Token>, gaps: seq<string>)
    requires |gaps| == |tokens| + 1 && tokens != []
    ensures Layout(tokens, gaps) == gaps[0] + Layout(tokens, gaps[0 := ""])
  {
    var gaps' := gaps[0 := ""];
    assert gaps'[1..] == gaps[1..];
    NoGap(gaps[0], tokens[0].Printed(), Layout(tokens[1..], gaps[1..]));
  }

  /** The words a line of tokens should give: their values, behind an empty word if the first is a pipe. */
  function Expected(tokens: seq<Token>): (words: seq<string>)
    ensures |words| >= |tokens|
  {
    (if tokens != [] && tokens[0].Pipe? then [""] else []) + Values(tokens)
  }

  /**
   Round trip: any list of at most maxWords - 1 plain, quoted and pipe tokens, printed with white space between
   them, is parsed back to its values, if and only if no quoted word holds a quote mark, of either kind.
   */
  lemma RoundTrip(tokens: seq<Token>, gaps: seq<string>, max: nat)
    requires |gaps| == |tokens| + 1 && Spaced(tokens, gaps) && |Expected(tokens)| < max
    ensures Parse(Layout(tokens, gaps), max) == Expected(tokens) <==> QuotesHoldNone(tokens)
  {
    if QuotesHoldNone(tokens) {
      LayoutIsParsed(tokens, gaps, max);
    } else {
      MarksAreNotParsed(tokens, Layout(tokens, gaps), max);
    }
  }

  lemma MarksAreNotParsed(tokens: seq<Token>, line: string, max: nat)
    requires !QuotesHoldNone(tokens)
    ensures Parse(line, max) != Expected(tokens) && Parse(line, max) != Values(tokens)
  {
    var i :| 0 <= i < |tokens| && tokens[i].Quoted? && !NoQuotes(tokens[i].word);
    ParsedHoldNoQuotes(line, max);
    ValueAt(tokens, i);
    assert Expected(tokens)[|Expected(tokens)| - |tokens| + i] == Values(tokens)[i];
  }

  lemma {:induction false} ValueAt(tokens: seq<Token>, i: nat)
    requires i < |tokens|
    ensures Values(tokens)[i] == tokens[i].Value()
  {
    if i > 0 {
      ValueAt(tokens[1..], i - 1);
    }
  }

  lemma LayoutIsParsed(tokens: seq<Token>, gaps: seq<string>, max: nat)
    requires |gaps| == |tokens| + 1 && WellSpaced(tokens, gaps) && |Expected(tokens)| < max
    ensures Parse(Layout(tokens, gaps), max) == Expected(tokens)
  {
    var line := Layout(tokens, gaps);
    if tokens == [] {
      IndentIs(line, |line|);
    } else {
      EndOfPlain(tokens, gaps);
      StillSpaced(tokens, gaps);
      PrintedBegins(tokens[0]);
      FirstPosition(line, gaps[0], tokens[0].Printed(), Layout(tokens[1..], gaps[1..]));
      FirstToken(line, |gaps[0]|, tokens[0], max);
      WithoutGap(tokens, gaps);
      assert line[|gaps[0]|..] == Layout(tokens, gaps[0 := ""]);
      ScanLayout(line, |gaps[0]|, tokens, gaps[0 := ""], if tokens[0].Pipe? then [""] else [], max);
    }
  }

  function Texts(tokens: seq<Token>): (texts: seq<string>)
    ensures |texts| == |tokens|
  {
    if tokens == [] then [] else [tokens[0].Printed()] + Texts(tokens[1..])
  }

  function Singles(n: nat): (gaps: seq<string>)
    ensures |gaps| == n + 1 && gaps[n] == "" && forall i :: 0 <= i < n ==> gaps[i] == " "
  {
    if n == 0 then [""] else [" "] + Singles(n - 1)
  }

  // join_words lays words out with single spaces
  lemma {:induction false} JoinIsLayout(tokens: seq<Token>)
    requires tokens != []
    ensures Layout(tokens, Singles(|tokens|)) == " " + Join(Texts(tokens))
  {
    var n, rest, first := |tokens|, tokens[1..], tokens[0].Printed();
    assert Singles(n)[1..] == Singles(n - 1) && Texts(tokens)[1..] == Texts(rest);
    if n > 1 {
      JoinIsLayout(rest);
      var tail := Join(Texts(rest));
      assert Layout(tokens, Singles(n)) == " " + first + (" " + tail);
      Assoc(" " + first, " ", tail);
      Assoc(" ", first, " ");
      Assoc(" ", first + " ", tail);
    } else {
      assert Layout(rest, Singles(0)) == "" && " " + first + "" == " " + first;
    }
  }

  lemma SinglesAreSpaces(tokens: seq<Token>)
    requires forall i :: 0 <= i < |tokens| ==> tokens[i].Wellformed()
    ensures Spaced(tokens, Singles(|tokens|))
  {
    hide Token.Wellformed;
    var gaps := Singles(|tokens|);
    forall i | 0 <= i < |gaps| ensures AllSpace(gaps[i]) {
      assert gaps[i] == if i < |tokens| then " " else "";
    }
  }

  /**
   Parsing inverts join_words, on plain words, on quoted words and across pipes, if and only if no quoted word holds a
   quote mark of either kind: the other kind ends a word too.
   */
  lemma JoinRoundTrip(tokens: seq<Token>, max: nat)
    requires tokens != [] && !tokens[0].Pipe? && |tokens| < max
    requires forall i :: 0 <= i < |tokens| ==> tokens[i].Wellformed()
    ensures Parse(Join(Texts(tokens)), max) == Values(tokens) <==> QuotesHoldNone(tokens)
  {
    var n := |tokens|;
    var gaps := Singles(n)[0 := ""];
    SinglesAreSpaces(tokens);
    StillSpaced(tokens, Singles(n));
    JoinIsLayout(tokens);
    WithoutGap(tokens, Singles(n));
    assert (" " + Layout(tokens, gaps))[1..] == Layout(tokens, gaps);
    assert (" " + Join(Texts(tokens)))[1..] == Join(Texts(tokens));
    assert Expected(tokens) == Values(tokens);
    RoundTrip(tokens, gaps, max);
  }

  /**
   A quote mark that does not close the quote it is in starts a new word: what was open up to there, in a quote or
   not, is scanned as if it had never been.
   */
  lemma QuoteDropsWord(line: string, p: nat, q: nat, quote: char, words: seq<string>, max: nat)
    requires p <= q < |line| && IsQuote(line[q]) && line[q] != quote
    ensures Scan(line, Lex(q, p, quote, words), max) == Scan(line, Lex(q, -1, NO_QUOTE, words), max)
  {
  }

  lemma SpaceSeparates(c: char, max: nat)
    requires max > 3 && c as int in {9, 10, 11, 12, 13, 32}
    ensures Parse(['a', c, 'b'], max) == ["a", "b"]
  {
    hide Parse;
    var tokens := [Plain("a"), Plain("b")];
    var gaps := ["", [c], ""];
    RoundTrip(tokens, gaps, max);
    assert tokens[1..] == [Plain("b")] && [Plain("b")][1..] == [];
    assert gaps[1..] == [[c], ""] && [[c], ""][1..] == [""] && Layout([], [""]) == "";
    assert Layout([Plain("b")], [[c], ""]) == [c] + "b" + "" == [c, 'b'];
    assert Layout(tokens, gaps) == "" + "a" + [c, 'b'] == ['a', c, 'b'];
    assert Values([Plain("b")]) == ["b"];
  }

  lemma PipeSeparates(max: nat)
    requires max > 3
    ensures Parse("a|b", max) == ["a", "|", "b"]
  {
    hide Parse;
    var tokens := [Plain("a"), Pipe, Plain("b")];
    var none := ["", "", "", ""];
    RoundTrip(tokens, none, max);
    assert tokens[1..] == [Pipe, Plain("b")] && tokens[1..][1..] == [Plain("b")] && [Plain("b")][1..] == [];
    assert none[1..] == ["", "", ""] && none[1..][1..] == ["", ""] && ["", ""][1..] == [""];
    assert Layout([Plain("b")], ["", ""]) == "b" && Layout([Pipe, Plain("b")], ["", "", ""]) == "|b";
    assert Layout(tokens, none) == "" + "a" + "|b" == "a|b";
    assert Values([Plain("b")]) == ["b"] && Values([Pipe, Plain("b")]) == ["|", "b"];
    assert Expected(tokens) == [] + Values(tokens) == ["a", "|", "b"];
  }

  lemma QuoteHolds(c: char, max: nat)
    requires max > 3 && c in "\"'"
    ensures Parse([c, 'a', ' ', 'b', c], max) == ["a b"]
  {
    var line := [c, 'a', ' ', 'b', c];
    assert "\"'"[0] == '"' && "\"'"[1] == '\'';
    IndentIs(line, 0);
    assert line[1..4] == "a b";
    ScanQuoted(line, 0, 4, 0, [], max);
  }

  /** Words end at white space, which is a blank, a tab and four more, and at pipes; quotes are of two kinds. */
  lemma SeparatorsAndQuotes(c: char, max: nat)
    requires max > 3
    ensures c as int in {9, 10, 11, 12, 13, 32} ==> Parse(['a', c, 'b'], max) == ["a", "b"]
    ensures c == '|' ==> Parse(['a', c, 'b'], max) == ["a", "|", "b"]
    ensures c in "\"'" ==> Parse([c, 'a', ' ', 'b', c], max) == ["a b"]
    ensures c as int !in {9, 10, 11, 12, 13, 32} && c !in "|\"'" ==> Parse(['a', c, 'b'], max) == [['a', c, 'b']]
  {
    if c as int in {9, 10, 11, 12, 13, 32} {
      SpaceSeparates(c, max);
    } else if c == '|' {
      PipeSeparates(max);
    } else if c in "\"'" {
      QuoteHolds(c, max);
    } else {
      NothingSeparates(c, max);
    }
  }

  lemma NothingSeparates(c: char, max: nat)
    requires max > 3 && c as int !in {9, 10, 11, 12, 13, 32} && c !in "|\"'"
    ensures Parse(['a', c, 'b'], max) == [['a', c, 'b']]
  {
    var line := ['a', c, 'b'];
    assert "|\"'"[0] == '|' && "|\"'"[1] == '"' && "|\"'"[2] == '\'';
    IndentIs(line, 0);
    ScanWord(line, Lex(0, 0, NO_QUOTE, []), 3, max);
    assert line[0..3] == line;
  }
}

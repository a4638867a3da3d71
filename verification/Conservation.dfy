/** What cli_parse_line keeps of a line, and what it throws away. */
module Conservation {
  import opened Text
  import opened Tokenizer

  // ----- a reader's view of a line: quotes open and close, words grow -----

  // the quote in force before character i
  function QuoteBefore(line: string, i: nat): (quote: char)
    requires i <= |line|
    ensures quote == NO_QUOTE || IsQuote(quote)
  {
    if i == 0 then NO_QUOTE
    else
      var quote, c := QuoteBefore(line, i - 1), line[i - 1];
      if !IsQuote(c) then quote else if c == quote then NO_QUOTE else c
  }

  predicate Breaks(line: string, i: nat)
    requires i < |line|
  {
    IsQuote(line[i]) || (QuoteBefore(line, i) == NO_QUOTE && (IsSpace(line[i]) || line[i] == '|'))
  }

  // how much of a word precedes character i
  function OpenBefore(line: string, i: nat): (n: nat)
    requires i <= |line|
    ensures n <= i
  {
    if i == 0 || Breaks(line, i - 1) then 0 else OpenBefore(line, i - 1) + 1
  }

  /** Character i is a quote mark, not the closing one, in the middle of a word. */
  predicate Cuts(line: string, i: nat)
    requires i < |line|
  {
    IsQuote(line[i]) && line[i] != QuoteBefore(line, i) && OpenBefore(line, i) > 0
  }

  /** The text of a line from character i on: everything but quote marks and white space outside quotes. */
  function Meant(line: string, i: nat): string
    requires i <= |line|
    decreases |line| - i
  {
    if i == |line| then ""
    else if IsQuote(line[i]) || (QuoteBefore(line, i) == NO_QUOTE && IsSpace(line[i])) then Meant(line, i + 1)
    else [line[i]] + Meant(line, i + 1)
  }

  /** How much of it is in words that are cut. */
  function Dropped(line: string, i: nat): nat
    requires i <= |line|
    decreases |line| - i
  {
    if i == |line| then 0 else (if Cuts(line, i) then OpenBefore(line, i) else 0) + Dropped(line, i + 1)
  }

  lemma {:induction false} DroppedMeaning(line: string, i: nat)
    requires i <= |line|
    ensures Dropped(line, i) == 0 <==> forall k :: i <= k < |line| ==> !Cuts(line, k)
    decreases |line| - i
  {
    if i < |line| {
      DroppedMeaning(line, i + 1);
    }
  }

  // ----- the scanner keeps to it -----

  // a word that has just been closed ends at a space or a pipe, which is still to be read
  ghost predicate Follows(line: string, s: Lex) {
    && Proper(line, s) && s.quote == QuoteBefore(line, s.p)
    && if s.start >= 0 then s.p - s.start == OpenBefore(line, s.p)
       else OpenBefore(line, s.p) == 0 || (s.p < |line| && !IsQuote(line[s.p]) && Breaks(line, s.p))
  }

  function OpenWord(line: string, s: Lex): string
    requires Proper(line, s)
  {
    if s.start >= 0 then line[s.start..s.p] else ""
  }

  // all text delivered or still to come
  function Total(line: string, s: Lex): string
    requires Proper(line, s)
  {
    Concat(s.words) + OpenWord(line, s) + Meant(line, s.p)
  }

  // what a turn of the loop cuts
  function Lost(line: string, s: Lex): nat
    requires Proper(line, s) && s.p < |line|
  {
    if IsQuote(line[s.p]) && line[s.p] != s.quote && s.start >= 0 then s.p - s.start else 0
  }

  lemma StepFollows(line: string, s: Lex)
    requires Follows(line, s) && s.p < |line|
    ensures Follows(line, Step(line, s)) && Dropped(line, s.p) == Lost(line, s) + Dropped(line, Step(line, s).p)
  {
    hide Meant, Concat;
  }

  /** A turn of the loop loses exactly the word it cuts. */
  lemma StepKeeps(line: string, s: Lex)
    requires Follows(line, s) && s.p < |line|
    ensures var before, after := Total(line, s), Total(line, Step(line, s));
            |after| == |before| - Lost(line, s) && (Lost(line, s) == 0 ==> after == before)
  {
    var c, p := line[s.p], s.p + 1;
    if s.quote != NO_QUOTE && c == s.quote {
      CloseWord(s.words, line[s.start..s.p], Meant(line, p));
    } else if s.start >= 0 && s.quote == NO_QUOTE && (IsSpace(c) || c == '|') {
      CloseWord(s.words, line[s.start..s.p], Meant(line, s.p));
    } else if IsQuote(c) {
      assert OpenWord(line, Lex(p, p, c, s.words)) == "" && Concat(s.words) + "" == Concat(s.words);
    } else if s.start >= 0 {
      LetterKeeps(line, s);
    } else if c == '|' {
      PipeKeeps(line, s.p, s.words);
    } else if !IsSpace(c) {
      FirstLetterKeeps(line, s.p, s.words);
    }
  }

  lemma CloseWord(words: seq<string>, w: string, rest: string)
    ensures Concat(words + [w]) + "" + rest == Concat(words) + w + rest
  {
    ConcatSnoc(words, w);
    assert Concat(words + [w]) + "" == Concat(words) + w;
  }

  lemma LetterKeeps(line: string, s: Lex)
    requires Proper(line, s) && 0 <= s.start && s.p < |line| && !IsQuote(line[s.p])
    requires QuoteBefore(line, s.p) == NO_QUOTE ==> !IsSpace(line[s.p])
    ensures Total(line, s.(p := s.p + 1)) == Total(line, s)
  {
    assert line[s.start..s.p + 1] == line[s.start..s.p] + [line[s.p]];
    Assoc(Concat(s.words), line[s.start..s.p], [line[s.p]]);
    Assoc(Concat(s.words) + line[s.start..s.p], [line[s.p]], Meant(line, s.p + 1));
  }

  lemma PipeKeeps(line: string, p: nat, words: seq<string>)
    requires p < |line| && line[p] == '|'
    ensures Total(line, Lex(p + 1, -1, NO_QUOTE, words + ["|"])) == Total(line, Lex(p, -1, NO_QUOTE, words))
  {
    CloseWord(words, "|", Meant(line, p + 1));
    AddLetter(Concat(words), '|', Meant(line, p + 1));
  }

  lemma FirstLetterKeeps(line: string, p: nat, words: seq<string>)
    requires p < |line| && !IsQuote(line[p]) && !IsSpace(line[p])
    ensures Total(line, Lex(p + 1, p, NO_QUOTE, words)) == Total(line, Lex(p, -1, NO_QUOTE, words))
  {
    assert line[p..p + 1] == [line[p]];
    AddLetter(Concat(words), line[p], Meant(line, p + 1));
  }

  lemma AddLetter(before: string, c: char, rest: string)
    ensures before + [c] + rest == before + "" + ([c] + rest)
  {
    assert before + "" == before;
    Assoc(before, [c], rest);
  }

  lemma {:induction false} ScanKeeps(line: string, s: Lex, max: nat)
    requires Follows(line, s)
    ensures var r := Scan(line, s, max);
            && (|r| + 1 < max ==> |Concat(r)| + Dropped(line, s.p) == |Total(line, s)|)
            && (Dropped(line, s.p) == 0 ==>
                  HasPrefix(Concat(r), Total(line, s)) && (|r| + 1 < max ==> Concat(r) == Total(line, s)))
    decreases Measure(line, s)
  {
    if |s.words| + 1 < max {
      if s.p < |line| {
        StepKeeps(line, s);
        StepFollows(line, s);
        ScanKeeps(line, Step(line, s), max);
      } else {
        ConcatSnoc(s.words, OpenWord(line, s));
        assert Concat(s.words) + "" == Concat(s.words) && Total(line, s) == Concat(s.words) + OpenWord(line, s);
      }
    } else {
      assert Total(line, s)[..|Concat(s.words)|] == Concat(s.words);
    }
  }

  lemma {:induction false} IndentFollows(line: string, n: nat)
    requires n <= |line| && forall k :: 0 <= k < n ==> IsSpace(line[k])
    ensures QuoteBefore(line, n) == NO_QUOTE && OpenBefore(line, n) == 0
    ensures Meant(line, 0) == Meant(line, n) && Dropped(line, 0) == Dropped(line, n)
  {
    if n > 0 {
      IndentFollows(line, n - 1);
    }
  }

  /**
   Unless the word limit is reached, the words put together are the text of the line less the words that are cut; so
   they are the text of the line if and only if no quote mark but a closing one comes in the middle of a word.
   */
  lemma ParseKeepsText(line: string, max: nat)
    requires |Parse(line, max)| + 1 < max
    ensures |Concat(Parse(line, max))| + Dropped(line, 0) == |Meant(line, 0)|
    ensures Concat(Parse(line, max)) == Meant(line, 0) <==> forall k :: 0 <= k < |line| ==> !Cuts(line, k)
  {
    ParseTotal(line, max);
    DroppedMeaning(line, 0);
  }

  lemma ParseTotal(line: string, max: nat)
    ensures |Parse(line, max)| + 1 < max ==> |Concat(Parse(line, max))| + Dropped(line, 0) == |Meant(line, 0)|
    ensures Dropped(line, 0) == 0 ==>
              && HasPrefix(Concat(Parse(line, max)), Meant(line, 0))
              && (|Parse(line, max)| + 1 < max ==> Concat(Parse(line, max)) == Meant(line, 0))
  {
    var n := Indent(line);
    var s := Lex(n, if n < |line| then n else -1, NO_QUOTE, []);
    IndentFollows(line, n);
    ScanKeeps(line, s, max);
    assert Total(line, s) == Meant(line, 0);
  }

  // ----- lines without quotes -----

  function StripSpaces(s: string): string {
    if s == "" then "" else (if IsSpace(s[0]) then "" else [s[0]]) + StripSpaces(s[1..])
  }

  lemma {:induction false} MeantWithoutQuotes(line: string, i: nat)
    requires i <= |line| && (forall k :: 0 <= k < |line| ==> !IsQuote(line[k])) && QuoteBefore(line, i) == NO_QUOTE
    ensures Meant(line, i) == StripSpaces(line[i..]) && Dropped(line, i) == 0
    decreases |line| - i
  {
    if i < |line| {
      assert line[i..][1..] == line[i + 1..];
      MeantWithoutQuotes(line, i + 1);
    }
  }

  /**
   Without quotes nothing is lost or invented: the words, put together, are the line without its white space,
   or the beginning of it when the word limit is reached.
   */
  lemma ParseConserves(line: string, max: nat)
    requires forall k :: 0 <= k < |line| ==> !IsQuote(line[k])
    ensures HasPrefix(Concat(Parse(line, max)), StripSpaces(line))
    ensures |Parse(line, max)| + 1 < max ==> Concat(Parse(line, max)) == StripSpaces(line)
  {
    ParseTotal(line, max);
    MeantWithoutQuotes(line, 0);
    assert line[0..] == line;
  }

  /** Typed ab"cd", the word is cd. */
  lemma CutExample()
    ensures Parse("ab\"cd\"", 128) == ["cd"] && Cuts("ab\"cd\"", 2)
  {
    var line := "ab\"cd\"";
    IndentIs(line, 0);
    ScanWord(line, Lex(0, 0, NO_QUOTE, []), 2, 128);
    QuoteDropsWord(line, 0, 2, NO_QUOTE, [], 128);
    ScanQuoted(line, 2, 5, -1, [], 128);
    assert line[3..5] == "cd" && [] + ["cd"] == ["cd"];
    assert Scan(line, Lex(6, -1, NO_QUOTE, ["cd"]), 128) == ["cd"];
    assert OpenBefore(line, 2) == OpenBefore(line, 1) + 1;
  }
}

/** What TAB offers for a line, all that fits, in order, or nothing behind a word that does not. */
module CompletionLaws {
  import opened Text
  import opened CommandTree
  import opened AbbrevIndex
  import opened Interpreter
  import opened Completion
  import opened Tokenizer
  import opened Outcomes

  /** The siblings that positions lead to, each among the subcommands of the one before. */
  function Along(ns: seq<Cmd>, path: seq<nat>): seq<Cmd>
    decreases path
  {
    if path == [] then ns else if path[0] < |ns| then Along(ns[path[0]].children, path[1..]) else []
  }

  // word d begins the name of one visible command alone, the one at path[d]
  ghost predicate LeadsOn(ns: seq<Cmd>, path: seq<nat>, words: seq<string>, d: nat, mode: nat, privilege: int)
    requires d < |path| <= |words|
  {
    Alone(Along(ns, path[..d]), path[d], words[d], mode, privilege)
  }

  ghost predicate Leads(ns: seq<Cmd>, path: seq<nat>, words: seq<string>, mode: nat, privilege: int) {
    |path| <= |words| && forall d :: 0 <= d < |path| ==> LeadsOn(ns, path, words, d, mode, privilege)
  }

  lemma LeadsFromNext(ns: seq<Cmd>, path: seq<nat>, words: seq<string>, mode: nat, privilege: int)
    requires path != [] && Leads(ns, path, words, mode, privilege)
    ensures path[0] < |ns| && Alone(ns, path[0], words[0], mode, privilege)
    ensures Leads(ns[path[0]].children, path[1..], words[1..], mode, privilege)
    ensures Along(ns, path) == Along(ns[path[0]].children, path[1..])
  {
    hide Ambiguous, Visible, FoldPrefix;
    assert LeadsOn(ns, path, words, 0, mode, privilege) && path[..0] == [];
    forall d | 0 <= d < |path| - 1
      ensures LeadsOn(ns[path[0]].children, path[1..], words[1..], d, mode, privilege)
    {
      assert LeadsOn(ns, path, words, d + 1, mode, privilege);
      assert path[..d + 1][1..] == path[1..][..d] && path[..d + 1][0] == path[0];
    }
  }

  lemma {:induction false} LevelIsAlong(ns: seq<Cmd>, path: seq<nat>, words: seq<string>, i: nat, num: nat, mode: nat,
      privilege: int)
    requires i + |path| < num <= |words| + 1 && Leads(ns, path, words[i..], mode, privilege)
    ensures Level(ns, words, i, num, mode, privilege)
         == Level(Along(ns, path), words, i + |path|, num, mode, privilege)
    decreases |path|
  {
    hide Alone;
    if path != [] {
      LeadsFromNext(ns, path, words[i..], mode, privilege);
      assert words[i..][0] == words[i] && words[i..][1..] == words[i + 1..];
      LevelBelow(ns, path[0], words, i, num, mode, privilege);
      LevelIsAlong(ns[path[0]].children, path[1..], words, i + 1, num, mode, privilege);
    }
  }

  /** The whole offer for `prefix` among `level`, up to `max` names. */
  ghost predicate OffersAll(level: seq<Cmd>, prefix: string, names: seq<string>, max: nat, mode: nat,
      privilege: int)
  {
    && |names| == (var n := FittingBefore(level, |level|, prefix, mode, privilege); if n <= max then n else max)
    && forall k :: 0 <= k < |level| && Fitting(level[k], prefix, mode, privilege) ==>
         var n := FittingBefore(level, k, prefix, mode, privilege);
         n < max ==> n < |names| && names[n] == level[k].name
  }

  lemma OfferIsAll(level: seq<Cmd>, prefix: string, max: nat, mode: nat, privilege: int)
    ensures OffersAll(level, prefix, AtMost(Offered(level, prefix, mode, privilege), max), max, mode, privilege)
  {
    hide Fitting, Offered, FittingBefore;
    forall k | 0 <= k <= |level| { OfferedAll(level, k, prefix, mode, privilege); }
  }

  lemma {:induction false} NoPipeLater(words: seq<string>, n: nat)
    requires n <= |words| && forall i :: 1 <= i < n ==> !HasPrefix("|", words[i])
    ensures LastPipe(words, n) == 0
  {
    if n > 1 { NoPipeLater(words, n - 1); }
  }

  /**
   Completion is complete: where each word before the last begins the name of one visible command alone, below the one
   before, every command below them that fits the last word is offered, in its place; and no more.
   */
  lemma CompletionsAreAll(tree: seq<Cmd>, line: string, path: seq<nat>, max: nat, mode: nat, privilege: int)
    requires var command := line[Indent(line)..];
             var words := Parse(command, MAX_LINE_WORDS);
             && NumWords(command, words) == |path| + 1 && Leads(tree, path, words, mode, privilege)
             && forall i :: 1 <= i < |words| ==> !HasPrefix("|", words[i])
    ensures var command := line[Indent(line)..];
            var words := Parse(command, MAX_LINE_WORDS);
            var names := Completions(tree, line, max, mode, privilege);
            OffersAll(Along(tree, path), LastWord(words, |path| + 1), names, max, mode, privilege)
  {
    hide Leads, Along, OffersAll, Offered, HasPrefix;
    var command := line[Indent(line)..];
    var words := Parse(command, MAX_LINE_WORDS);
    NoPipeLater(words, |words|);
    assert words[0..] == words;
    LevelIsAlong(tree, path, words, 0, |path| + 1, mode, privilege);
    OfferIsAll(Along(tree, path), LastWord(words, |path| + 1), max, mode, privilege);
  }

  /** And where some earlier word begins the name of none, or of several, nothing is offered. */
  lemma NothingIsOffered(tree: seq<Cmd>, line: string, path: seq<nat>, max: nat, mode: nat, privilege: int)
    requires var command := line[Indent(line)..];
             var words := Parse(command, MAX_LINE_WORDS);
             && |path| + 1 < NumWords(command, words) && Leads(tree, path, words, mode, privilege)
             && (forall j: nat :: !Alone(Along(tree, path), j, words[|path|], mode, privilege))
    ensures Completions(tree, line, max, mode, privilege) == []
  {
    hide Leads, Along;
    var command := line[Indent(line)..];
    var words := Parse(command, MAX_LINE_WORDS);
    var num := NumWords(command, words);
    assert words[0..] == words;
    LevelIsAlong(tree, path, words, 0, num, mode, privilege);
    if LastPipe(words, |words|) > 0 {
      NoFilterIsEverOffered(tree, line, words, max, mode, privilege);
    }
  }

  // ----- lines as they are typed -----

  lemma {:induction false} TypedLayout(words: seq<string>)
    requires words != []
    ensures Layout(AsTokens(words), Singles(|words|)[|words| := " "]) == " " + Join(words + [""])
  {
    var n, tokens := |words|, AsTokens(words);
    var gaps := Singles(n)[n := " "];
    assert (words + [""])[0] == words[0] && (words + [""])[1..] == words[1..] + [""];
    assert tokens[0].Printed() == words[0];
    if n == 1 {
      assert gaps[1..] == [" "] && tokens[1..] == [] && words[1..] + [""] == [""];
      assert Join([""]) == "" && words[0] + " " + "" == words[0] + " ";
      assert Layout(tokens, gaps) == " " + words[0] + " ";
    } else {
      assert gaps[1..] == Singles(n - 1)[n - 1 := " "] && tokens[1..] == AsTokens(words[1..]);
      TypedLayout(words[1..]);
      var tail := Join(words[1..] + [""]);
      assert Layout(tokens, gaps) == " " + words[0] + (" " + tail);
      Assoc(" " + words[0], " ", tail);
      Assoc(" ", words[0], " ");
      Assoc(" ", words[0] + " ", tail);
    }
  }

  lemma OpenLineParses(words: seq<string>)
    requires 0 < |words| < 128 && forall i :: 0 <= i < |words| ==> Bare(words[i])
    ensures var line := Join(words + [""]);
            && Indent(line) == 0 && Parse(line, MAX_LINE_WORDS) == words && line != "" && line[|line| - 1] == ' '
  {
    hide Bare, Token.Wellformed, Layout, Parse, Indent;
    var n, tokens, line := |words|, AsTokens(words), Join(words + [""]);
    var gaps := Singles(n)[n := " "];
    TypedLayout(words);
    BareAreTokens(words);
    assert Spaced(tokens, gaps) by {
      forall i | 0 <= i < |gaps| ensures AllSpace(gaps[i]) { assert gaps[i] == " "; }
    }
    StillSpaced(tokens, gaps);
    WithoutGap(tokens, gaps);
    assert (" " + line)[1..] == line && (" " + Layout(tokens, gaps[0 := ""]))[1..] == Layout(tokens, gaps[0 := ""]);
    RoundTrip(tokens, gaps[0 := ""], MAX_LINE_WORDS);
    OpenLineEnds(words);
    JoinedBegins(words + [""]);
    IndentIs(line, 0);
  }

  lemma {:induction false} OpenLineEnds(words: seq<string>)
    requires words != []
    ensures Join(words + [""]) != "" && Join(words + [""])[|Join(words + [""])| - 1] == ' '
  {
    assert (words + [""])[1..] == words[1..] + [""];
    if |words| == 1 {
      assert words[1..] + [""] == [""] && Join([""]) == "";
    } else {
      OpenLineEnds(words[1..]);
    }
  }

  lemma {:induction false} JoinedEnds(words: seq<string>)
    requires words != [] && Bare(words[|words| - 1])
    ensures Join(words) != "" && !IsSpace(Join(words)[|Join(words)| - 1])
  {
    if |words| > 1 { JoinedEnds(words[1..]); }
  }

  // the words of a line of bare words, the last of them perhaps still to be typed
  lemma TypedWords(before: seq<string>, prefix: string)
    requires |before| < 127 && (forall i :: 0 <= i < |before| ==> Bare(before[i])) && (prefix == "" || Bare(prefix))
    ensures var line := Join(before + [prefix]);
            var words := before + if prefix == "" then [] else [prefix];
            && line[Indent(line)..] == line && Parse(line, MAX_LINE_WORDS) == words
            && NumWords(line, words) == |before| + 1 && LastWord(words, |before| + 1) == prefix
            && (forall i :: 0 <= i < |words| ==> Bare(words[i]))
  {
    hide Bare, Token.Wellformed;
    var line, words := Join(before + [prefix]), before + [prefix];
    if prefix == "" {
      if before == [] {
        assert words == [""] && line == "";
        IndentIs("", 0);
      } else {
        OpenLineParses(before);
        assert before + [] == before;
      }
    } else {
      JoinedBegins(words);
      JoinedEnds(words);
      BareAreTokens(words);
      JoinRoundTrip(AsTokens(words), MAX_LINE_WORDS);
      IndentIs(line, 0);
    }
  }

  lemma BareIsNoPipe(word: string)
    requires Bare(word)
    ensures !HasPrefix("|", word)
  {
    assert word[0] !in "'\"|" && "'\"|"[2] == '|' && word[..1] == [word[0]];
  }

  /**
   On a line of bare words, with or without a last one begun: where the words before it each begin the name of one
   visible command alone, TAB offers every command below them that fits what has been typed of the last, in order.
   */
  lemma TypedLineOffersAll(tree: seq<Cmd>, before: seq<string>, prefix: string, path: seq<nat>, max: nat, mode: nat,
      privilege: int)
    requires |before| < 127 && (forall i :: 0 <= i < |before| ==> Bare(before[i])) && (prefix == "" || Bare(prefix))
    requires |path| == |before| && Leads(tree, path, before, mode, privilege)
    ensures var names := Completions(tree, Join(before + [prefix]), max, mode, privilege);
            OffersAll(Along(tree, path), prefix, names, max, mode, privilege)
  {
    hide Bare, Alone, Along, OffersAll, HasPrefix;
    var line := Join(before + [prefix]);
    var words := before + if prefix == "" then [] else [prefix];
    TypedWords(before, prefix);
    forall i | 1 <= i < |words| { BareIsNoPipe(words[i]); }
    assert Leads(tree, path, words, mode, privilege) by {
      forall d | 0 <= d < |path| ensures LeadsOn(tree, path, words, d, mode, privilege) {
        assert LeadsOn(tree, path, before, d, mode, privilege) && words[d] == before[d];
      }
    }
    CompletionsAreAll(tree, line, path, max, mode, privilege);
  }
}

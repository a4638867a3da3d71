/** TAB completion: what cli_get_completions offers, and how far that agrees with what a line would run. */
module Completion {
  import opened Text
  import opened CommandTree
  import opened AbbrevIndex
  import opened Interpreter
  import opened DispatchLaws

  const FILTER_NAMES: seq<string> := ["begin", "between", "count", "exclude", "include", "grep", "egrep"]

  /** The only visible sibling whose name `word` begins: what completion descends into. */
  ghost predicate Alone(ns: seq<Cmd>, i: nat, word: string, mode: nat, privilege: int) {
    && i < |ns| && Visible(ns[i], mode, privilege)
    && word != "" && FoldPrefix(word, ns[i].name) && !Ambiguous(ns, i, word, mode, privilege)
  }

  // a command whose name may be offered for `prefix`
  predicate Fitting(c: Cmd, prefix: string, mode: nat, privilege: int) {
    Visible(c, mode, privilege) && FoldPrefix(prefix, c.name)
  }

  /** The names offered for the last word: visible siblings it begins, in the order they were registered. */
  function Offered(ns: seq<Cmd>, prefix: string, mode: nat, privilege: int): seq<string> {
    if ns == [] then []
    else
      (if Fitting(ns[0], prefix, mode, privilege) then [ns[0].name] else [])
      + Offered(ns[1..], prefix, mode, privilege)
  }

  /** The siblings reached by descending through words[i..num - 1]; none if some word is not alone. */
  ghost function Level(ns: seq<Cmd>, words: seq<string>, i: nat, num: nat, mode: nat, privilege: int): seq<Cmd>
    requires i < num <= |words| + 1
    decreases num - i
  {
    if i == num - 1 then ns
    else if exists j: nat :: Alone(ns, j, words[i], mode, privilege) then
      var j: nat :| Alone(ns, j, words[i], mode, privilege);
      Level(ns[j].children, words, i + 1, num, mode, privilege)
    else []
  }

  function LastWord(words: seq<string>, num: nat): string
    requires 0 < num <= |words| + 1
  {
    if num - 1 < |words| then words[num - 1] else ""
  }

  function AtMost(names: seq<string>, max: nat): (r: seq<string>)
    ensures |r| <= max
  {
    if |names| <= max then names else names[..max]
  }

  // the number of words being completed: one more when a new one is about to be typed
  function NumWords(command: string, words: seq<string>): nat {
    |words| + if command == "" || command[|command| - 1] == ' ' then 1 else 0
  }

  // the last word that begins with a pipe, 0 if none
  function LastPipe(words: seq<string>, n: nat): (k: nat)
    requires n <= |words|
    ensures k < n || k == 0
    ensures k > 0 ==> HasPrefix("|", words[k])
  {
    if n == 0 then 0 else if HasPrefix("|", words[n - 1]) then n - 1 else LastPipe(words, n - 1)
  }

  // names of filters that `word` properly begins, among the first n, up to max
  function FilterOffers(word: string, n: nat, max: nat): (names: seq<string>)
    requires n <= |FILTER_NAMES|
    decreases n, word
  {
    if n == 0 then []
    else
      var names := FilterOffers(word, n - 1, max);
      var name := FILTER_NAMES[n - 1];
      if |names| < max && (word == "" || (|word| < |name| && HasPrefix(word, name))) then names + [name] else names
  }

  // the filter names offered when word `filter` is the last that begins with a pipe
  function OfferFilters(words: seq<string>, filter: nat, num: nat, max: nat): seq<string>
    requires filter < |words| <= num
  {
    if filter < num - 1 then [] else FilterOffers(words[num - 1], |FILTER_NAMES|, max)
  }

  ghost function Completions(tree: seq<Cmd>, line: string, max: nat, mode: nat, privilege: int): seq<string> {
    var command := line[Tokenizer.Indent(line)..];
    var words := Tokenizer.Parse(command, MAX_LINE_WORDS);
    var num := NumWords(command, words);
    var filter := LastPipe(words, |words|);
    if num == 0 then []
    else if filter > 0 then
      OfferFilters(words, filter, num, max)
    else AtMost(Offered(Level(tree, words, 0, num, mode, privilege), LastWord(words, num), mode, privilege), max)
  }

  lemma {:induction false} PipeBeginsNoFilter(word: string, n: nat, max: nat)
    requires n <= |FILTER_NAMES| && HasPrefix("|", word)
    ensures FilterOffers(word, n, max) == []
  {
    if n > 0 {
      PipeBeginsNoFilter(word, n - 1, max);
      assert word[0] == '|' && FILTER_NAMES[n - 1][0] != '|';
      assert |word| <= |FILTER_NAMES[n - 1]| ==> FILTER_NAMES[n - 1][..|word|][0] != word[0];
    }
  }

  /** Although filter names are listed for completion, none is ever offered: the word compared is the pipe itself. */
  lemma NoFilterIsEverOffered(tree: seq<Cmd>, line: string, words: seq<string>, max: nat, mode: nat, privilege: int)
    requires words == Tokenizer.Parse(line[Tokenizer.Indent(line)..], MAX_LINE_WORDS) && LastPipe(words, |words|) > 0
    ensures Completions(tree, line, max, mode, privilege) == []
  {
    NoneBehindPipe(words, LastPipe(words, |words|), NumWords(line[Tokenizer.Indent(line)..], words), max);
  }

  lemma NoneBehindPipe(words: seq<string>, filter: nat, num: nat, max: nat)
    requires filter < |words| <= num && HasPrefix("|", words[filter])
    ensures OfferFilters(words, filter, num, max) == []
  {
    PipeBeginsNoFilter(words[filter], |FILTER_NAMES|, max);
  }

  lemma AloneIsOne(ns: seq<Cmd>, i: nat, j: nat, word: string, mode: nat, privilege: int)
    requires Alone(ns, i, word, mode, privilege) && Alone(ns, j, word, mode, privilege)
    ensures i == j
  {
  }

  lemma LevelBelow(ns: seq<Cmd>, j: nat, words: seq<string>, i: nat, num: nat, mode: nat, privilege: int)
    requires i + 1 < num <= |words| + 1 && Alone(ns, j, words[i], mode, privilege)
    ensures Level(ns, words, i, num, mode, privilege) == Level(ns[j].children, words, i + 1, num, mode, privilege)
  {
    forall k: nat | Alone(ns, k, words[i], mode, privilege) ensures k == j {
      AloneIsOne(ns, j, k, words[i], mode, privilege);
    }
  }

  /** Completion's test of an index entry: the word must be as long as the cached abbreviation. */
  lemma LongEnoughIsAlone(ns: seq<Cmd>, i: nat, word: string, mode: nat, privilege: int)
    requires WellNamed(ns) && i < |ns| && Visible(ns[i], mode, privilege)
    ensures FoldPrefix(word, ns[i].name) && |word| >= Shortest(ns, i, mode, privilege)
       <==> Alone(ns, i, word, mode, privilege)
  {
    if word != "" && FoldPrefix(word, ns[i].name) {
      AmbiguousIsClash(ns, i, word, mode, privilege);
      SharedBelowMeaning(ns, i, |ns|, |word|, mode, privilege);
    }
  }

  /** Completion descends where dispatch would, except through a full name that begins a sibling's. */
  lemma DescendsUnlessPrefix(ns: seq<Cmd>, i: nat, word: string, mode: nat, privilege: int)
    ensures Alone(ns, i, word, mode, privilege) <==>
            Names(ns, i, word, mode, privilege) && !Ambiguous(ns, i, word, mode, privilege)
  {
  }

  // on the way down no word is shadowed or asks for help
  ghost predicate Straight(ns: seq<Cmd>, words: seq<string>, i: nat, num: nat, mode: nat, privilege: int)
    requires i < num <= |words| + 1
    decreases num - i
  {
    i < num - 1 ==>
      !EndsInQuery(words[i])
      && forall j: nat :: Alone(ns, j, words[i], mode, privilege) ==>
           !Shadowed(ns, j, words[i], mode, privilege)
           && Straight(ns[j].children, words, i + 1, num, mode, privilege)
  }

  // a walk that took one command for each of n words and ended at c
  predicate EndsAt(walked: Walked, n: nat, c: Cmd, mode: nat) {
    walked.ending == Stopped && walked.mode == mode && |walked.path| == n > 0 && walked.path[n - 1] == c
  }

  /**
   A completed line resolves to what was offered: with the full name of an offered command in place of the last
   word, the walk down the tree takes one command a word and ends at that command, if and only if the command is not
   shadowed.
   */
  lemma {:induction false} OfferedResolves(
    ns: seq<Cmd>, words: seq<string>, i: nat, num: nat, k: nat, line: seq<string>, mode: nat, privilege: int)
    requires WellNamed(ns) && i < num <= |words| + 1 && Straight(ns, words, i, num, mode, privilege)
    requires var level := Level(ns, words, i, num, mode, privilege);
             && k < |level| && Visible(level[k], mode, privilege)
             && !EndsInQuery(level[k].name)
             && line == words[..num - 1] + [level[k].name]
    ensures var level := Level(ns, words, i, num, mode, privilege);
            EndsAt(Walk(ns, line, i, num, mode, privilege), num - i, level[k], mode)
            <==> !Shadowed(level, k, level[k].name, mode, privilege)
    decreases num - i
  {
    hide Walk, Choose, Names, EndsAt;
    if i == num - 1 {
      LastWordResolves(ns, line, i, k, mode, privilege);
    } else {
      var j: nat :| Alone(ns, j, words[i], mode, privilege)
                    && Level(ns, words, i, num, mode, privilege)
                        == Level(ns[j].children, words, i + 1, num, mode, privilege);
      NamedIsChosen(ns, j, words[i], mode, privilege);
      OfferedResolves(ns[j].children, words, i + 1, num, k, line, mode, privilege);
      NoLevelBelowLeaf(words, num, mode, privilege);
      assert line[i] == words[i];
      OneWordMore(ns, line, i, num, j, Level(ns, words, i, num, mode, privilege)[k], mode, privilege);
    }
  }

  lemma LastWordResolves(ns: seq<Cmd>, line: seq<string>, i: nat, k: nat, mode: nat, privilege: int)
    requires WellNamed(ns) && |line| == i + 1 && k < |ns| && line[i] == ns[k].name && Visible(ns[k], mode, privilege)
    requires !EndsInQuery(ns[k].name)
    ensures EndsAt(Walk(ns, line, i, i + 1, mode, privilege), 1, ns[k], mode)
       <==> !Shadowed(ns, k, ns[k].name, mode, privilege)
  {
    hide Choose, Names, Shadowed;
    WholeNameAlwaysReaches(ns, k, mode, privilege);
    NamedIsChosen(ns, k, ns[k].name, mode, privilege);
    SameCommandSamePlace(ns, k, ns[k].name, mode, privilege);
  }

  // a word that is taken by a command of some mode and content is taken by it in one place
  lemma SameCommandSamePlace(ns: seq<Cmd>, k: nat, word: string, mode: nat, privilege: int)
    requires WellNamed(ns) && k < |ns|
    ensures var r := Choose(ns, word, mode, privilege);
            r.Chosen? && ns[r.i] == ns[k] && r.mode == mode ==> r.i == k
  {
  }

  lemma OneWordMore(ns: seq<Cmd>, line: seq<string>, i: nat, num: nat, j: nat, c: Cmd, mode: nat, privilege: int)
    requires i + 1 < num <= |line| && j < |ns| && !EndsInQuery(line[i]) && ns[j].children != []
    requires Choose(ns, line[i], mode, privilege) == Chosen(j, mode)
    ensures EndsAt(Walk(ns, line, i, num, mode, privilege), num - i, c, mode)
       <==> EndsAt(Walk(ns[j].children, line, i + 1, num, mode, privilege), num - i - 1, c, mode)
  {
    hide Choose;
    var rest := Walk(ns[j].children, line, i + 1, num, mode, privilege);
    assert |rest.path| == num - i - 1 ==> ([ns[j]] + rest.path)[num - i - 1] == rest.path[num - i - 2];
  }

  lemma NoLevelBelowLeaf(words: seq<string>, num: nat, mode: nat, privilege: int)
    requires num <= |words| + 1
    ensures forall i: nat :: i < num ==> Level([], words, i, num, mode, privilege) == []
  {
  }

  // how many names to offer come before position k
  function FittingBefore(ns: seq<Cmd>, k: nat, prefix: string, mode: nat, privilege: int): nat
    requires k <= |ns|
  {
    if k == 0 then 0
    else
      (if Fitting(ns[0], prefix, mode, privilege) then 1 else 0)
      + FittingBefore(ns[1..], k - 1, prefix, mode, privilege)
  }

  /**
   The offer is complete and ordered: the name of every visible sibling the last word begins is at the place given by
   how many come before it, and there are no other places.
   */
  lemma {:induction false} OfferedAll(ns: seq<Cmd>, k: nat, prefix: string, mode: nat, privilege: int)
    requires k <= |ns|
    ensures var names, n := Offered(ns, prefix, mode, privilege), FittingBefore(ns, k, prefix, mode, privilege);
            if k == |ns| then n == |names|
            else Fitting(ns[k], prefix, mode, privilege) ==> n < |names| && names[n] == ns[k].name
  {
    if k > 0 {
      OfferedAll(ns[1..], k - 1, prefix, mode, privilege);
    }
  }

  /** Nothing else is offered. */
  lemma {:induction false} OfferedOnly(ns: seq<Cmd>, prefix: string, mode: nat, privilege: int,
      name: string) returns (k: nat)
    requires name in Offered(ns, prefix, mode, privilege)
    ensures k < |ns| && ns[k].name == name && Visible(ns[k], mode, privilege) && FoldPrefix(prefix, name)
  {
    if Fitting(ns[0], prefix, mode, privilege) && ns[0].name == name {
      k := 0;
    } else {
      var k' := OfferedOnly(ns[1..], prefix, mode, privilege, name);
      k := k' + 1;
    }
  }

  /**
   Every name offered for a line resolves: typed in full after the earlier words, the walk ends at a command of that
   name. The words before it, and the name itself, must not be shadowed by a mode that comes first.
   */
  lemma CompletionResolves(tree: seq<Cmd>, line: string, words: seq<string>, num: nat, max: nat, mode: nat,
      privilege: int, name: string)
    returns (c: Cmd)
    requires WellNamed(tree) && words == Tokenizer.Parse(line[Tokenizer.Indent(line)..], MAX_LINE_WORDS)
    requires num == NumWords(line[Tokenizer.Indent(line)..], words) > 0
        && Straight(tree, words, 0, num, mode, privilege)
    requires name in Completions(tree, line, max, mode, privilege) && !EndsInQuery(name)
    requires var level := Level(tree, words, 0, num, mode, privilege);
             forall k :: 0 <= k < |level| && level[k].name == name ==> !Shadowed(level, k, name, mode, privilege)
    ensures c.name == name && Visible(c, mode, privilege) && FoldPrefix(LastWord(words, num), name)
    ensures EndsAt(Walk(tree, words[..num - 1] + [name], 0, num, mode, privilege), num, c, mode)
  {
    var level := Level(tree, words, 0, num, mode, privilege);
    if LastPipe(words, |words|) > 0 {
      NoFilterIsEverOffered(tree, line, words, max, mode, privilege);
      assert false;
    }
    var offered := Offered(level, LastWord(words, num), mode, privilege);
    assert name in offered;
    var k := OfferedOnly(level, LastWord(words, num), mode, privilege, name);
    c := level[k];
    OfferedResolves(tree, words, 0, num, k, words[..num - 1] + [name], mode, privilege);
  }

  /**
   Completion cannot go past a full name that begins a visible sibling's, as port does with ports, although dispatch
   accepts it.
   */
  lemma FullNameStopsCompletion(ns: seq<Cmd>, i: nat, j: nat, mode: nat, privilege: int)
    requires WellNamed(ns) && i < |ns| && j < |ns| && i != j && ns[i].mode == mode
    requires Visible(ns[i], mode, privilege) && Visible(ns[j], mode, privilege) && FoldPrefix(ns[i].name, ns[j].name)
    ensures Choose(ns, ns[i].name, mode, privilege) == Chosen(i, mode)
    ensures Level(ns, [ns[i].name], 0, 2, mode, privilege) == []
  {
    WholeNameAlwaysReaches(ns, i, mode, privilege);
    ChooseCurrent(ns, i, ns[i].name, mode, privilege);
    forall k: nat ensures !Alone(ns, k, ns[i].name, mode, privilege) {
      assert k == i ==> Ambiguous(ns, k, ns[i].name, mode, privilege);
      assert k != i && k < |ns| ==> Ambiguous(ns, k, ns[i].name, mode, privilege);
    }
  }

  /** If a word begins the name of one visible sibling alone, its name is all that is offered. */
  lemma {:induction false} OneOffered(ns: seq<Cmd>, k: nat, prefix: string, mode: nat, privilege: int)
    requires k < |ns| && forall i :: 0 <= i < |ns| ==> (Fitting(ns[i], prefix, mode, privilege) <==> i == k)
    ensures Offered(ns, prefix, mode, privilege) == [ns[k].name]
  {
    if k == 0 {
      NoneOffered(ns[1..], prefix, mode, privilege);
    } else {
      OneOffered(ns[1..], k - 1, prefix, mode, privilege);
    }
  }

  lemma {:induction false} NoneOffered(ns: seq<Cmd>, prefix: string, mode: nat, privilege: int)
    requires forall i :: 0 <= i < |ns| ==> !Fitting(ns[i], prefix, mode, privilege)
    ensures Offered(ns, prefix, mode, privilege) == []
  {
    if ns != [] {
      NoneOffered(ns[1..], prefix, mode, privilege);
    }
  }
}

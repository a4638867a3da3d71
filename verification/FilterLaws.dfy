/** The filters of a command line: which are in force when its callback prints, and what then reaches the client. */
module FilterLaws {
  import opened Text
  import opened CommandTree
  import opened Pipeline
  import opened Interpreter
  import opened Wrappers

  /** The marks are exactly the words that begin with a pipe, in order; if the first word is one there are none. */
  lemma {:induction false} MarksAreThePipes(words: seq<string>, i: nat)
    requires i < |words|
    ensures i in Marks(words) <==> HasPrefix("|", words[i]) && !HasPrefix("|", words[0])
    ensures !HasPrefix("|", words[0]) && i < CommandWords(words, Marks(words)) ==> !HasPrefix("|", words[i])
    ensures HasPrefix("|", words[0]) ==> CommandWords(words, Marks(words)) == |words|
  {
    PipesAreFound(words, 0, i);
    PipesAreFound(words, 0, 0);
  }

  // from the f-th pipe on: every pipe and the words behind it
  function Pieces(words: seq<string>, marks: seq<nat>, f: nat): seq<string>
    requires GoodMarks(words, marks) && f <= |marks|
    decreases |marks| - f
  {
    if f == |marks| then [] else [words[marks[f]]] + FilterArgs(words, marks)[f] + Pieces(words, marks, f + 1)
  }

  lemma {:induction false} PiecesAreAll(words: seq<string>, marks: seq<nat>, f: nat)
    requires GoodMarks(words, marks) && f < |marks|
    ensures Pieces(words, marks, f) == words[marks[f]..]
    decreases |marks| - f
  {
    if f + 1 < |marks| {
      PiecesAreAll(words, marks, f + 1);
    }
  }

  /** No word is lost or moved: the command's words, then each pipe with the words of its filter, are the line. */
  lemma WordsAreShared(words: seq<string>, marks: seq<nat>)
    requires GoodMarks(words, marks)
    ensures words == words[..CommandWords(words, marks)] + Pieces(words, marks, 0)
  {
    if marks != [] {
      PiecesAreAll(words, marks, 0);
    }
  }

  lemma {:induction false} PipesAreFound(words: seq<string>, from: nat, i: nat)
    requires from <= i < |words|
    ensures i in PipesFrom(words, from) <==> HasPrefix("|", words[i])
    decreases |words| - from
  {
    if from < i {
      PipesAreFound(words, from + 1, i);
    }
  }

  lemma OtherInitial(name: string, full: string)
    requires name != "" && full != "" && name[0] != full[0]
    ensures !HasPrefix(name, full)
  {
  }

  lemma PrefixLetters(name: string, full: string)
    requires HasPrefix(name, full)
    ensures forall k :: 0 <= k < |name| ==> name[k] == full[k]
  {
    assert forall k :: 0 <= k < |name| ==> full[..|name|][k] == full[k];
  }

  lemma Matching(host: Host, argv: seq<string>)
    requires |argv| >= 2 && (HasPrefix(argv[0], "include") || HasPrefix(argv[0], "exclude"))
    requires argv[0] != "" && (argv[0][0] == 'i' || (|argv[0]| >= 2 && argv[0][..2] == "ex"))
    ensures InitFilter(host, argv) == Installed(Match(Join(argv[1..]), argv[0][0] == 'e'))
  {
    assert argv[0][0] == 'i' ==> HasPrefix("i", argv[0]);
  }

  /** A filter may be cut short while it can be told apart: i(nclude) keeps the lines holding its words, */
  lemma IncludeFilter(host: Host, name: string, args: seq<string>)
    requires HasPrefix(name, "include") && |name| >= 1 && |args| >= 1
    ensures InitFilter(host, [name] + args) == Installed(Match(Join(args), false))
  {
    ArgvParts(name, args);
    PrefixLetters(name, "include");
    Matching(host, [name] + args);
  }

  /** ex(clude) drops them, */
  lemma ExcludeFilter(host: Host, name: string, args: seq<string>)
    requires HasPrefix(name, "exclude") && |name| >= 2 && |args| >= 1
    ensures InitFilter(host, [name] + args) == Installed(Match(Join(args), true))
  {
    ArgvParts(name, args);
    PrefixLetters(name, "exclude");
    Matching(host, [name] + args);
  }

  lemma NotMatchFilter(name: string)
    requires name != "" && (name[0] == 'b' || name[0] == 'c')
    ensures !HasPrefix(name, "include") && !HasPrefix(name, "exclude") && !HasPrefix(name, "grep")
        && !HasPrefix(name, "egrep")
  {
    OtherInitial(name, "include");
    OtherInitial(name, "exclude");
    OtherInitial(name, "grep");
    OtherInitial(name, "egrep");
  }

  /** beg(in) starts at them, */
  lemma BeginFilter(host: Host, name: string, args: seq<string>)
    requires HasPrefix(name, "begin") && |name| >= 3 && |args| >= 1
    ensures InitFilter(host, [name] + args) == Installed(Range(false, Join(args), None))
  {
    ArgvParts(name, args);
    PrefixLetters(name, "begin");
    NotMatchFilter(name);
    assert name[..3][2] == 'g' && "bet"[2] == 't';
  }

  /** bet(ween) runs from its first word to the rest of them, */
  lemma BetweenFilter(host: Host, name: string, args: seq<string>)
    requires HasPrefix(name, "between") && |name| >= 3 && |args| >= 2
    ensures InitFilter(host, [name] + args) == Installed(Range(false, args[0], Some(Join(args[1..]))))
  {
    ArgvParts(name, args);
    PrefixLetters(name, "between");
    NotMatchFilter(name);
    assert HasPrefix("bet", name);
  }

  /** and c(ount) takes no words. */
  lemma CountFilter(host: Host, name: string)
    requires HasPrefix(name, "count") && |name| >= 1
    ensures InitFilter(host, [name]) == Installed(Count(0))
  {
    PrefixLetters(name, "count");
    NotMatchFilter(name);
    OtherInitial(name, "begin");
    OtherInitial(name, "between");
  }

  /** grep and egrep, down to g and e, match an expression, and are refused if it does not compile. */
  lemma GrepFilter(host: Host, name: string, args: seq<string>)
    requires name != "" && (HasPrefix(name, "grep") || HasPrefix(name, "egrep")) && |args| >= 1
    ensures var compiled := host.compile([name] + args);
            InitFilter(host, [name] + args)
            == if compiled.Some? then Installed(Grep(compiled.value)) else Refused(FilterArguments)
  {
    ArgvParts(name, args);
    if HasPrefix(name, "grep") { PrefixLetters(name, "grep"); } else { PrefixLetters(name, "egrep"); }
    assert name[..1] == [name[0]] && (|name| >= 2 ==> name[..2] == [name[0], name[1]]);
  }

  /** A filter is refused that has too few words, or too many, or a name that abbreviates none. */
  lemma FilterRefusals(host: Host, name: string, args: seq<string>)
    requires name != ""
    ensures args == [] && (exists full :: full in {"include", "exclude", "grep", "egrep"} && HasPrefix(name, full)) ==>
              InitFilter(host, [name] + args) == Refused(FilterArguments)
    ensures args == [] && HasPrefix(name, "begin") && |name| >= 3 ==>
              InitFilter(host, [name] + args) == Refused(FilterArguments)
    ensures |args| < 2 && HasPrefix(name, "between") && |name| >= 3 ==>
              InitFilter(host, [name] + args) == Refused(FilterArguments)
    ensures args != [] && HasPrefix(name, "count") ==> InitFilter(host, [name] + args) == Refused(FilterArguments)
    ensures (forall full :: full in {"include", "exclude", "grep", "egrep", "begin", "between", "count"} ==>
               !HasPrefix(name, full)) ==>
              InitFilter(host, [name] + args) == Refused(InvalidFilter(name))
  {
    ArgvParts(name, args);
    if HasPrefix(name, "between") && |name| >= 3 {
      PrefixLetters(name, "between");
      NotMatchFilter(name);
      assert HasPrefix("bet", name);
    }
    if HasPrefix(name, "begin") && |name| >= 3 {
      PrefixLetters(name, "begin");
      NotMatchFilter(name);
      assert name[..3][2] == 'g' && "bet"[2] == 't';
    }
    if HasPrefix(name, "count") {
      PrefixLetters(name, "count");
      NotMatchFilter(name);
      OtherInitial(name, "begin");
      OtherInitial(name, "between");
    }
  }

  lemma ArgvParts(name: string, args: seq<string>)
    ensures var argv := [name] + args; argv[0] == name && argv[1..] == args && |argv| == |args| + 1
    ensures var argv := [name] + args; |args| >= 2 ==> argv[1] == args[0] && argv[2..] == args[1..]
  {
  }

  /** The chain `fs` is `kept` and then the filters of `argvs`, in order, freshly started. */
  ghost predicate AsTyped(host: Host, argvs: seq<seq<string>>, kept: seq<Filter>, fs: seq<Filter>) {
    && |fs| == |kept| + |argvs| && fs[..|kept|] == kept
    && forall f :: 0 <= f < |argvs| ==> argvs[f] != [] && InitFilter(host, argvs[f]) == Installed(fs[|kept| + f])
  }

  /** When a command reaches its callback, the chain is the filters typed. */
  lemma {:induction false} ChainIsAsTyped(host: Host, argvs: seq<seq<string>>, first: bool, chain: seq<Filter>)
    requires SetupChain(host, argvs, first, chain).Ready?
    ensures var kept := if first && argvs != [] then [] else chain;
            AsTyped(host, argvs, kept, SetupChain(host, argvs, first, chain).filters)
    decreases argvs
  {
    if argvs != [] {
      var kept := if first then [] else chain;
      var turn := FilterTurn(host, argvs[0], first, chain);
      ChainIsAsTyped(host, argvs[1..], false, turn.chain);
      OneMoreTyped(host, argvs, kept, InitFilter(host, argvs[0]).filter, SetupChain(host, argvs, first, chain).filters);
    }
  }

  lemma OneMoreTyped(host: Host, argvs: seq<seq<string>>, kept: seq<Filter>, filter: Filter, fs: seq<Filter>)
    requires argvs != [] && argvs[0] != [] && InitFilter(host, argvs[0]) == Installed(filter)
    requires AsTyped(host, argvs[1..], kept + [filter], fs)
    ensures AsTyped(host, argvs, kept, fs)
  {
    var rest, more := argvs[1..], kept + [filter];
    assert |more| == |kept| + 1 && fs[|kept|] == fs[..|more|][|kept|] == more[|kept|] == filter;
    TakeTake(fs, |more|, |kept|);
    assert more[..|kept|] == kept;
    forall f | 0 <= f < |argvs| ensures argvs[f] != [] && InitFilter(host, argvs[f]) == Installed(fs[|kept| + f]) {
      if f > 0 { assert argvs[f] == rest[f - 1] && |kept| + f == |more| + (f - 1); }
    }
  }

  /**
   A command leaves filters behind if and only if its filter list is given up with some in force: those of the list
   that took, or, before any has, those that were left behind already.
   */
  lemma FiltersLeftBehind(host: Host, w: World, c: Cmd, args: seq<string>, words: seq<string>, marks: seq<nat>)
    requires GoodMarks(words, marks)
    ensures Execute(host, w, c, args, words, marks).0.filters == []
       <==> !GivenUpWithFilters(host, FilterArgs(words, marks), w.filters)
  {
    GivenUp(host, FilterArgs(words, marks), true, w.filters);
  }

  // a pipe with nothing after it, a question mark or an ambiguous name, behind filters that all took
  ghost predicate GivenUpWithFilters(host: Host, argvs: seq<seq<string>>, chain: seq<Filter>) {
    exists f :: 0 <= f < |argvs| && GivenUpAt(host, argvs, f) && (chain == [] ==> f > 0)
  }

  ghost predicate GivenUpAt(host: Host, argvs: seq<seq<string>>, f: nat)
    requires f < |argvs|
  {
    Unfinished(argvs[f]) && forall g :: 0 <= g < f ==> Takes(host, argvs[g])
  }

  predicate Unfinished(argv: seq<string>) {
    argv == [] || EndsInQuery(argv[|argv| - 1]) || (HasPrefix("b", argv[0]) && |argv[0]| < 3)
  }

  predicate Takes(host: Host, argv: seq<string>) {
    !Unfinished(argv) && InitFilter(host, argv).Installed?
  }

  lemma {:induction false} GivenUp(host: Host, argvs: seq<seq<string>>, first: bool, chain: seq<Filter>)
    requires first || chain != []
    ensures var s := SetupChain(host, argvs, first, chain);
            s.Abandoned? && s.filters != [] <==> GivenUpWithFilters(host, argvs, chain)
    decreases argvs
  {
    if argvs != [] {
      var turn := FilterTurn(host, argvs[0], first, chain);
      if turn.More? {
        GivenUp(host, argvs[1..], false, turn.chain);
        assert Takes(host, argvs[0]);
        GivenUpLater(host, argvs, chain, turn.chain);
      } else {
        assert !Takes(host, argvs[0]);
        assert Unfinished(argvs[0]) ==> GivenUpAt(host, argvs, 0);
      }
    }
  }

  // behind a filter that took, the rest of the list decides
  lemma GivenUpLater(host: Host, argvs: seq<seq<string>>, before: seq<Filter>, after: seq<Filter>)
    requires argvs != [] && Takes(host, argvs[0]) && after != []
    ensures GivenUpWithFilters(host, argvs[1..], after) <==> GivenUpWithFilters(host, argvs, before)
  {
    hide Takes, Unfinished;
    var rest := argvs[1..];
    forall f | 0 <= f < |rest| ensures GivenUpAt(host, rest, f) <==> GivenUpAt(host, argvs, f + 1) {
      OneLater(host, argvs, f);
    }
    assert !GivenUpAt(host, argvs, 0) by { TookIsFinished(host, argvs[0]); }
    if GivenUpWithFilters(host, argvs, before) {
      var f :| 0 <= f < |argvs| && GivenUpAt(host, argvs, f) && (before == [] ==> f > 0);
      assert GivenUpAt(host, rest, f - 1);
    }
  }

  lemma TookIsFinished(host: Host, argv: seq<string>)
    requires Takes(host, argv)
    ensures !Unfinished(argv)
  {
  }

  lemma OneLater(host: Host, argvs: seq<seq<string>>, f: nat)
    requires f + 1 < |argvs| && Takes(host, argvs[0])
    ensures GivenUpAt(host, argvs[1..], f) <==> GivenUpAt(host, argvs, f + 1)
  {
    hide Takes, Unfinished;
    var rest := argvs[1..];
    assert forall g :: 0 <= g <= f ==> rest[g] == argvs[g + 1];
    assert GivenUpAt(host, rest, f) ==> forall g :: 0 < g < f + 1 ==> argvs[g] == rest[g - 1];
  }

  /** `show ports | count |` reports a missing filter and leaves its count to swallow the next command's listing. */
  lemma StaleCount(host: Host, w: World, c: Cmd)
    requires w.filters == []
    ensures Execute(host, w, c, [], ["show", "ports", "|", "count", "|"], [2, 4]).0.filters == [Count(0)]
  {
    var words := ["show", "ports", "|", "count", "|"];
    var argvs := FilterArgs(words, [2, 4]);
    assert argvs[0] == FilterWords(words, [2, 4], 0) == ["count"];
    assert argvs[1] == FilterWords(words, [2, 4], 1) == [];
    assert argvs == [["count"], []];
    CountThenNothing(host);
  }

  /** And `show ports |` after it leaves the count where it is. */
  lemma StillStale(host: Host, w: World, c: Cmd)
    requires w.filters == [Count(0)]
    ensures Execute(host, w, c, [], ["show", "ports", "|"], [2]).0.filters == [Count(0)]
  {
    var argvs := FilterArgs(["show", "ports", "|"], [2]);
    assert argvs[0] == FilterWords(["show", "ports", "|"], [2], 0) == [];
    assert SetupChain(host, argvs, true, w.filters) == Abandoned(w.filters, MissingFilter, Error);
  }

  lemma CountThenNothing(host: Host)
    ensures SetupChain(host, [["count"], []], true, []) == Abandoned([Count(0)], MissingFilter, Error)
  {
    assert HasPrefix("count", "count") && "count"[0] == 'c' && "include"[0] == 'i';
    assert !HasPrefix("count", "include") && !HasPrefix("count", "exclude") && !HasPrefix("count", "egrep");
    assert !HasPrefix("count", "begin") && !HasPrefix("count", "between") && !HasPrefix("count", "grep");
    assert InitFilter(host, ["count"]) == Installed(Count(0));
    assert FilterTurn(host, ["count"], true, []) == More([] + [Count(0)]) && [] + [Count(0)] == [Count(0)];
    assert [["count"], []][1..] == [[]];
    assert SetupChain(host, [[]], false, [Count(0)]) == Abandoned([Count(0)], MissingFilter, Error);
  }

  // every line of some printed texts
  function AllLines(texts: seq<string>): seq<string> {
    if texts == [] then [] else Split(texts[0]) + AllLines(texts[1..])
  }

  lemma {:induction false} PrintAllPushes(w: World, texts: seq<string>)
    ensures var (fs, lines) := PushAll(w.filters, AllLines(texts));
            PrintAll(w, texts) == w.(filters := fs, output := w.output + Lines(lines))
    decreases texts
  {
    if texts == [] {
      assert w.output + Lines([]) == w.output;
    } else {
      var (fs, lines) := PushAll(w.filters, Split(texts[0]));
      PrintAllPushes(w.Print(texts[0]), texts[1..]);
      PushAllConcat(w.filters, Split(texts[0]), AllLines(texts[1..]));
      LinesConcat(w.output, lines, PushAll(fs, AllLines(texts[1..])).1);
    }
  }

  lemma {:induction false} CallsPrintNothing(w: World, calls: seq<Api>)
    ensures CallAll(w, calls).filters == w.filters && CallAll(w, calls).output == w.output
    decreases calls
  {
    if calls != [] {
      CallsPrintNothing(Call(w, calls[0]), calls[1..]);
    }
  }

  lemma ReplyListing(w: World, r: Reply)
    ensures CallAll(PrintAll(w, r.texts), r.calls).Close().output == w.output + Listing(w.filters, AllLines(r.texts))
  {
    var w1 := PrintAll(w, r.texts);
    var (fs, lines) := Compose(w.filters, AllLines(r.texts));
    assert w1.filters == fs && w1.output == w.output + Lines(lines) by {
      PrintAllPushes(w, r.texts);
      Fusion(w.filters, AllLines(r.texts));
    }
    CallsPrintNothing(w1, r.calls);
    Assoc(w.output, Lines(lines), Figures(fs));
  }

  /** What a registered command prints reaches the client as the composed stages of the filters typed after it. */
  lemma FilteredListing(host: Host, w: World, c: Cmd, args: seq<string>, words: seq<string>, marks: seq<nat>)
    requires GoodMarks(words, marks) && c.callback.User?
    requires SetupChain(host, FilterArgs(words, marks), true, w.filters).Ready?
    ensures var fs := SetupChain(host, FilterArgs(words, marks), true, w.filters).filters;
            var texts := host.user(c.callback.id, args, w.log + [Ran(c.callback, c.privilege, args)]).texts;
            var w' := Execute(host, w, c, args, words, marks).0;
            w'.filters == [] && w'.output == w.output + Listing(fs, AllLines(texts))
  {
    var fs := SetupChain(host, FilterArgs(words, marks), true, w.filters).filters;
    var w1 := w.(filters := fs).Note(Ran(c.callback, c.privilege, args));
    ReplyListing(w1, host.user(c.callback.id, args, w1.log));
  }
}

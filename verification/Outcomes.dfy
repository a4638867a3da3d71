/** Dispatch in closed form: what a command line says, which callback it runs, and how each leaves the session. */
module Outcomes {
  import opened Text
  import opened CommandTree
  import opened Interpreter
  import opened DispatchLaws
  import opened Tokenizer

  // ----- what is said before anything runs -----

  // the complaints about words start + k + 1 to start + n - 1, the last first
  function Complaints(words: seq<string>, start: nat, k: int, n: nat): (es: seq<Event>)
    requires -1 <= k && start + n <= |words|
  {
    if n <= k + 1 then [] else [Said(Invalid(start + n > 1, words[start + n - 1]))] + Complaints(words, start, k, n - 1)
  }

  lemma {:induction false} ComplaintsBelow(words: seq<string>, start: nat, k: int, n: nat)
    requires -1 <= k && start + 1 + n <= |words|
    ensures Complaints(words, start + 1, k, n) == Complaints(words, start, k + 1, n + 1)
    ensures Complaints(words, start, -1, n + 1)
         == Complaints(words, start, 0, n + 1) + [Said(Invalid(start > 0, words[start]))]
  {
    if n > 0 {
      ComplaintsBelow(words, start, k, n - 1);
      ComplaintsBelow(words, start, -1, n - 1);
      var first := [Said(Invalid(start + n > 0, words[start + n]))];
      Assoc(first, Complaints(words, start, 0, n), [Said(Invalid(start > 0, words[start]))]);
    }
  }

  // the siblings among which the walk ended
  function Around(ns: seq<Cmd>, path: seq<Cmd>): seq<Cmd> {
    if path == [] then ns else path[|path| - 1].children
  }

  /** Everything a command line says about its words. */
  ghost function Remarks(ns: seq<Cmd>, walked: Walked, words: seq<string>, start: nat, privilege: int): seq<Event>
    requires start + |walked.path| <= |words|
    requires walked.ending != Stopped ==> start + |walked.path| < |words|
    requires walked.ending == Stopped ==> walked.path != []
    requires walked.ending == Helped ==> EndsInQuery(words[start + |walked.path|])
  {
    var n := |walked.path|;
    match walked.ending
    case Helped =>
      var word := words[start + n];
      [Said(HelpOn(HelpNames(Around(ns, walked.path), word[..|word| - 1], walked.mode, privilege)))]
    case Mismatch =>
      if n == 0 && start == 0 then [Said(Invalid(false, words[0]))]
      else Complaints(words, start, Deepest(walked.path), n)
    case Stopped =>
      var c := walked.path[n - 1];
      if c.callback != NoCallback then []
      else [Said(if c.children == [] then NoCallbackFor(c.name) else Incomplete)]
  }

  // the mode stays, or is dropped from a submode to config mode
  predicate Reached(mode: nat, later: nat) {
    later == mode || (mode > MODE_CONFIG && later == MODE_CONFIG)
  }

  ghost predicate Remarkable(walked: Walked, words: seq<string>, start: nat) {
    var n := start + |walked.path|;
    && n <= |words|
    && (walked.ending != Stopped ==> n < |words|)
    && (walked.ending == Stopped ==> walked.path != [])
    && (walked.ending == Helped ==> EndsInQuery(words[n]))
  }

  lemma {:induction false} WalkIsRemarkable(ns: seq<Cmd>, words: seq<string>, start: nat, last: nat, mode: nat,
      privilege: int)
    requires start < last <= |words|
    ensures Remarkable(Walk(ns, words, start, last, mode, privilege), words, start)
    ensures start + |Walk(ns, words, start, last, mode, privilege).path| <= last
    ensures Reached(mode, Walk(ns, words, start, last, mode, privilege).mode)
    decreases ns
  {
    hide Choose;
    ChosenIsVisible(ns, words[start], mode, privilege);
    if !EndsInQuery(words[start]) {
      var r := Choose(ns, words[start], mode, privilege);
      if r.Chosen? && ns[r.i].children != [] && start + 1 < last {
        WalkIsRemarkable(ns[r.i].children, words, start + 1, last, r.mode, privilege);
      }
    }
  }

  // the session when the words have been read: perhaps dropped to config mode, and what there is to say has been said
  function Settled(w: World, mode: nat, remarks: seq<Event>): World {
    w.(mode := mode, log := w.log + (if mode == w.mode then [] else [ModeSet(mode)]) + remarks)
  }

  function Unrun(ending: Ending): Rc {
    match ending
    case Stopped => Error
    case Mismatch => ErrorArg
    case Helped => Interpreter.Ok
  }

  // what comes of a dispatch, by its walk
  ghost predicate Closed(host: Host, w: World, ns: seq<Cmd>, r: (World, Rc), walked: Walked, words: seq<string>,
      start: nat, marks: seq<nat>)
    requires GoodMarks(words, marks) && start + |walked.path| <= CommandWords(words, marks)
    requires Remarkable(walked, words, start)
  {
    var k := Target(walked);
    var w1 := Settled(w, walked.mode, Remarks(ns, walked, words, start, w.privilege));
    if k < 0 then r == (w1, Unrun(walked.ending))
    else r == Execute(host, w1, walked.path[k], words[start + k + 1..CommandWords(words, marks)], words, marks)
  }

  lemma SettledTwice(w: World, mode: nat, last: nat, remarks: seq<Event>)
    requires Reached(w.mode, mode) && Reached(mode, last)
    ensures Settled(if mode == w.mode then w else w.WithMode(mode), last, remarks) == Settled(w, last, remarks)
  {
    Assoc(w.log, [ModeSet(mode)], []);
  }

  lemma OneMoreRemark(w: World, mode: nat, remarks: seq<Event>, m: Message)
    ensures Settled(w, mode, remarks).Say(m) == Settled(w, mode, remarks + [Said(m)])
  {
    Assoc(Settled(w, mode, []).log, remarks, [Said(m)]);
  }

  lemma StoppedIsClosed(host: Host, w: World, ns: seq<Cmd>, c: Cmd, mode: nat, words: seq<string>, start: nat,
      marks: seq<nat>)
    requires GoodMarks(words, marks) && start < CommandWords(words, marks)
    ensures var w1 := if mode == w.mode then w else w.WithMode(mode);
            var r := RunOrComplain(host, w1, c, words, start, marks);
            Closed(host, w, ns, r, Walked([c], Stopped, mode), words, start, marks)
  {
    hide Execute;
    DeepestCons(c, []);
    assert [c] + [] == [c] && w.log + [] + [] == w.log && w.log + [ModeSet(mode)] + [] == w.log + [ModeSet(mode)];
    assert w.log + [] == w.log;
  }

  lemma DeeperIsClosed(host: Host, w: World, ns: seq<Cmd>, r: (World, Rc), c: Cmd, rest: Walked, mode: nat,
      words: seq<string>, start: nat, marks: seq<nat>)
    requires GoodMarks(words, marks) && start + 1 + |rest.path| <= CommandWords(words, marks) && NeverArgError(host)
    requires Reached(w.mode, mode) && Reached(mode, rest.mode) && Remarkable(rest, words, start + 1)
    requires var w1 := if mode == w.mode then w else w.WithMode(mode);
             Closed(host, w1, c.children, r, rest, words, start + 1, marks)
    ensures Remarkable(Below(c, rest), words, start)
    ensures var r' := if r.1 == ErrorArg then Retry(host, r.0, c, words, start, marks) else r;
            Closed(host, w, ns, r', Below(c, rest), words, start, marks)
  {
    hide Execute, HelpNames, Deepest, Complaints;
    var k, path := Target(rest), Below(c, rest).path;
    var remarks := Remarks(c.children, rest, words, start + 1, w.privilege);
    SettledTwice(w, mode, rest.mode, remarks);
    TargetBelow(c, rest);
    RemarksBelow(ns, c, rest, words, start, w.privilege);
    if k >= 0 {
      assert path[k + 1] == rest.path[k];
      ExecuteNeverArgError(host, Settled(w, rest.mode, remarks), rest.path[k],
          words[start + k + 2..CommandWords(words, marks)], words, marks);
    } else if rest.ending == Mismatch {
      OneMoreRemark(w, rest.mode, remarks, Invalid(start > 0, words[start]));
      assert path[0] == c;
    }
  }

  // one level up the same is said, and the word itself is complained of if nothing can be run
  lemma RemarksBelow(ns: seq<Cmd>, c: Cmd, rest: Walked, words: seq<string>, start: nat, privilege: int)
    requires start + 1 + |rest.path| <= |words| && Remarkable(rest, words, start + 1)
    ensures Remarkable(Below(c, rest), words, start)
    ensures var remarks := Remarks(c.children, rest, words, start + 1, privilege);
            Remarks(ns, Below(c, rest), words, start, privilege)
            == if rest.ending == Mismatch && Deepest(rest.path) < 0 && c.callback == NoCallback
               then remarks + [Said(Invalid(start > 0, words[start]))] else remarks
  {
    hide HelpNames, Deepest;
    var n, path := |rest.path|, Below(c, rest).path;
    DeepestCons(c, rest.path);
    assert n > 0 ==> path[n] == rest.path[n - 1];
    if rest.ending == Mismatch {
      ComplaintsBelow(words, start, Deepest(rest.path), n);
    }
  }

  /**
   Dispatch in closed form. All that is said and done follows from the walk: the mode it ends in; help, or a complaint
   for each word given up, the last first; and the run of its target, if it has one.
   */
  lemma {:induction false} DispatchIsClosed(host: Host, w: World, ns: seq<Cmd>, words: seq<string>, start: nat,
      marks: seq<nat>)
    requires GoodMarks(words, marks) && start < CommandWords(words, marks) && NeverArgError(host)
    ensures var walked := Walk(ns, words, start, CommandWords(words, marks), w.mode, w.privilege);
            && start + |walked.path| <= CommandWords(words, marks) && Remarkable(walked, words, start)
            && Closed(host, w, ns, Dispatch(host, w, ns, words, start, marks), walked, words, start, marks)
    decreases ns
  {
    hide Execute, RunOrComplain, Retry, Choose, HelpNames, Deepest;
    var last := CommandWords(words, marks);
    WalkIsRemarkable(ns, words, start, last, w.mode, w.privilege);
    var choice := Choose(ns, words[start], w.mode, w.privilege);
    if EndsInQuery(words[start]) || choice == Nothing {
      assert w.log + [] == w.log;
    } else {
      var c := ns[choice.i];
      var w1 := if choice.mode == w.mode then w else w.WithMode(choice.mode);
      ChosenIsVisible(ns, words[start], w.mode, w.privilege);
      if c.children == [] || start + 1 == last {
        StoppedIsClosed(host, w, ns, c, choice.mode, words, start, marks);
      } else {
        DispatchIsClosed(host, w1, c.children, words, start + 1, marks);
        WalkIsRemarkable(c.children, words, start + 1, last, choice.mode, w.privilege);
        var rest := Walk(c.children, words, start + 1, last, choice.mode, w.privilege);
        var r := Dispatch(host, w1, c.children, words, start + 1, marks);
        DeeperIsClosed(host, w, ns, r, c, rest, choice.mode, words, start, marks);
      }
    }
  }

  // a command that a question mark behind `prefix` lists: one that begins so, is visible and leads somewhere
  ghost predicate Listed(c: Cmd, prefix: string, mode: nat, privilege: int) {
    && |prefix| <= |c.name| && FoldEq(prefix, c.name[..|prefix|])
    && (c.mode == MODE_ANY || c.mode == mode) && c.privilege <= privilege
    && (c.callback != NoCallback || c.children != [])
  }

  ghost function ListedBefore(ns: seq<Cmd>, k: nat, prefix: string, mode: nat, privilege: int): nat
    requires k <= |ns|
  {
    if k == 0 then 0
    else ListedBefore(ns, k - 1, prefix, mode, privilege) + if Listed(ns[k - 1], prefix, mode, privilege) then 1 else 0
  }

  lemma {:induction false} ListedBeforeFirst(ns: seq<Cmd>, k: nat, prefix: string, mode: nat, privilege: int)
    requires 0 < k <= |ns|
    ensures ListedBefore(ns, k, prefix, mode, privilege)
         == ListedBefore(ns[1..], k - 1, prefix, mode, privilege)
            + if Listed(ns[0], prefix, mode, privilege) then 1 else 0
  {
    hide Listed;
    if k > 1 {
      ListedBeforeFirst(ns, k - 1, prefix, mode, privilege);
      assert ns[1..][k - 2] == ns[k - 1];
    }
  }

  /** Help is complete and in order: every command to be listed is in its place, and there are no other places. */
  lemma {:induction false} HelpListsAll(ns: seq<Cmd>, k: nat, prefix: string, mode: nat, privilege: int)
    requires k <= |ns|
    ensures var names, n := HelpNames(ns, prefix, mode, privilege), ListedBefore(ns, k, prefix, mode, privilege);
            if k == |ns| then n == |names|
            else Listed(ns[k], prefix, mode, privilege) ==> n < |names| && names[n] == ns[k].name
  {
    hide Listed;
    if ns != [] {
      ListedMeaning(ns[0], prefix, mode, privilege);
      if k > 0 {
        ListedBeforeFirst(ns, k, prefix, mode, privilege);
        HelpListsAll(ns[1..], k - 1, prefix, mode, privilege);
      }
    }
  }

  lemma ListedMeaning(c: Cmd, prefix: string, mode: nat, privilege: int)
    ensures Listed(c, prefix, mode, privilege)
       <==> FoldPrefix(prefix, c.name) && (c.callback != NoCallback || c.children != []) && Visible(c, mode, privilege)
  {
  }

  // ----- what a command does that is run -----

  /** The line runs `c`, with `args`, in the given mode: the words lead to it and its filters, if any, can be set up. */
  ghost predicate Runs(host: Host, w: World, ns: seq<Cmd>, words: seq<string>, marks: seq<nat>, c: Cmd,
      args: seq<string>, mode: nat)
  {
    && GoodMarks(words, marks) && 0 < CommandWords(words, marks) && NeverArgError(host)
    && SetupChain(host, FilterArgs(words, marks), true, w.filters).Ready?
    && var walked := Walk(ns, words, 0, CommandWords(words, marks), w.mode, w.privilege);
       var k := Target(walked);
       && 0 <= k && walked.path[k] == c && mode == walked.mode && k + 1 <= CommandWords(words, marks)
       && args == words[k + 1..CommandWords(words, marks)]
  }

  // the session as the callback finds it: the event that it is run is the last of the log
  ghost predicate Found(w: World, w1: World, c: Cmd, args: seq<string>, mode: nat) {
    && w1 == w.(mode := mode, filters := w1.filters, log := w1.log)
    && w1.log != [] && w1.log[|w1.log| - 1] == Ran(c.callback, c.privilege, args)
    && w.log <= w1.log[..|w1.log| - 1] && forall i :: |w.log| <= i < |w1.log| - 1 ==> !w1.log[i].Ran?
  }

  lemma RunsInvoke(host: Host, w: World, ns: seq<Cmd>, words: seq<string>, marks: seq<nat>, c: Cmd,
      args: seq<string>, mode: nat) returns (w1: World)
    requires Runs(host, w, ns, words, marks, c, args, mode)
    ensures Found(w, w1, c, args, mode)
    ensures Dispatch(host, w, ns, words, 0, marks)
         == (Invoke(host, w1, c.callback, args).0.Close(), Invoke(host, w1, c.callback, args).1)
  {
    hide Invoke, Walk, HelpNames, Complaints, Dispatch, Remarks, Deepest, Target, FilterArgs, SetupChain;
    var walked := Walk(ns, words, 0, CommandWords(words, marks), w.mode, w.privilege);
    DispatchIsClosed(host, w, ns, words, 0, marks);
    var remarks := Remarks(ns, walked, words, 0, w.privilege);
    RemarksRunNothing(ns, walked, words, 0, w.privilege);
    var settled := Settled(w, mode, remarks);
    w1 := settled.(filters := SetupChain(host, FilterArgs(words, marks), true, w.filters).filters)
                 .Note(Ran(c.callback, c.privilege, args));
    assert w1.log[..|w1.log| - 1] == settled.log;
  }

  lemma RemarksRunNothing(ns: seq<Cmd>, walked: Walked, words: seq<string>, start: nat, privilege: int)
    requires start + |walked.path| <= |words| && Remarkable(walked, words, start)
    ensures forall i :: 0 <= i < |Remarks(ns, walked, words, start, privilege)| ==>
              !Remarks(ns, walked, words, start, privilege)[i].Ran?
  {
    if walked.ending == Mismatch {
      ComplaintsRunNothing(words, start, Deepest(walked.path), |walked.path|);
    }
  }

  lemma ComplaintsRunNothing(words: seq<string>, start: nat, k: int, n: nat)
    requires -1 <= k && start + n <= |words|
    ensures forall i :: 0 <= i < |Complaints(words, start, k, n)| ==> !Complaints(words, start, k, n)[i].Ran?
  {
  }

  /** quit, disable and exit: what they leave of the session's privilege and mode, and whether it is over. */
  lemma LeavingOutcome(host: Host, w: World, ns: seq<Cmd>, words: seq<string>, marks: seq<nat>, c: Cmd,
      args: seq<string>, mode: nat)
    requires Runs(host, w, ns, words, marks, c, args, mode)
    ensures var (w', rc) := Dispatch(host, w, ns, words, 0, marks);
            && (c.callback == Quit ==> w'.privilege == UNPRIVILEGED && w'.mode == MODE_EXEC && rc == Quitting)
            && (c.callback == Disable ==>
                  w'.privilege == UNPRIVILEGED && w'.mode == MODE_EXEC && rc == Interpreter.Ok)
            && (c.callback == Exit && mode == MODE_EXEC ==>
                  w'.privilege == UNPRIVILEGED && w'.mode == MODE_EXEC && rc == Quitting)
            && (c.callback == Exit && mode == MODE_CONFIG ==>
                  w'.privilege == w.privilege && w'.mode == MODE_EXEC && rc == Interpreter.Ok)
            && (c.callback == Exit && mode > MODE_CONFIG ==>
                  w'.privilege == w.privilege && w'.mode == MODE_CONFIG && rc == Interpreter.Ok)
            && (c.callback in {Quit, Disable, Exit} ==>
                  w'.state == w.state && w'.prior == w.prior && w'.username == w.username && w'.filters == [])
  {
    hide Dispatch, Runs;
    var w1 := RunsInvoke(host, w, ns, words, marks, c, args, mode);
  }

  /** enable asks for a password if there is one to ask for, and is no use to the privileged. */
  lemma EnableOutcome(host: Host, w: World, ns: seq<Cmd>, words: seq<string>, marks: seq<nat>, c: Cmd,
      args: seq<string>, mode: nat)
    requires Runs(host, w, ns, words, marks, c, args, mode) && c.callback == Enable
    ensures var (w', rc) := Dispatch(host, w, ns, words, 0, marks);
            && rc == Interpreter.Ok && w'.prior == w.prior && w'.username == w.username && w'.filters == []
            && (w.privilege == PRIVILEGED ==> w'.privilege == PRIVILEGED && w'.mode == mode && w'.state == w.state)
            && (w.privilege != PRIVILEGED && (host.enablePassword.Some? || host.enableCallback.Some?) ==>
                  w'.privilege == w.privilege && w'.mode == mode && w'.state == EnablePassword)
            && (w.privilege != PRIVILEGED && host.enablePassword.None? && host.enableCallback.None? ==>
                  w'.privilege == PRIVILEGED && w'.mode == MODE_EXEC && w'.state == w.state)
  {
    hide Dispatch, Runs;
    var w1 := RunsInvoke(host, w, ns, words, marks, c, args, mode);
  }

  /** configure terminal changes the mode alone; help and history change nothing. */
  lemma OtherOutcome(host: Host, w: World, ns: seq<Cmd>, words: seq<string>, marks: seq<nat>, c: Cmd,
      args: seq<string>, mode: nat)
    requires Runs(host, w, ns, words, marks, c, args, mode) && c.callback in {ConfigureTerminal, Help, History}
    ensures var (w', rc) := Dispatch(host, w, ns, words, 0, marks);
            && rc == Interpreter.Ok && w'.mode == (if c.callback == ConfigureTerminal then 1 else mode)
            && w' == w.(mode := w'.mode, filters := [], output := w'.output, log := w'.log)
  {
    hide Dispatch, Runs;
    var w1 := RunsInvoke(host, w, ns, words, marks, c, args, mode);
  }

  predicate LastPrivilege(calls: seq<Api>, j: nat) {
    j < |calls| && calls[j].SetPrivilege? && forall l :: j < l < |calls| ==> !calls[l].SetPrivilege?
  }

  predicate LastMode(calls: seq<Api>, j: nat) {
    j < |calls| && calls[j].SetConfigmode? && forall l :: j < l < |calls| ==> !calls[l].SetConfigmode?
  }

  /** What a callback's calls come to: of each kind the last counts, and one request for input is enough. */
  ghost predicate Came(w: World, w': World, calls: seq<Api>) {
    && (forall j: nat :: LastPrivilege(calls, j) ==> w'.privilege == calls[j].privilege)
    && ((forall j :: 0 <= j < |calls| ==> !calls[j].SetPrivilege?) ==> w'.privilege == w.privilege)
    && (forall j: nat :: LastMode(calls, j) ==> w'.mode == calls[j].mode)
    && ((forall j :: 0 <= j < |calls| ==> !calls[j].SetConfigmode?) ==> w'.mode == w.mode)
    && if AskUser in calls && w.state != Request then w'.state == Request && w'.prior == w.state
       else w'.state == w.state && w'.prior == w.prior
  }

  lemma {:induction false} CallsCome(w: World, calls: seq<Api>)
    ensures Came(w, CallAll(w, calls), calls)
    ensures var w' := CallAll(w, calls); w' == w.(privilege := w'.privilege, mode := w'.mode, state := w'.state,
                                                  prior := w'.prior, log := w'.log)
    decreases calls
  {
    if calls != [] {
      var w1, rest := Call(w, calls[0]), calls[1..];
      CallsCome(w1, rest);
      CameOneMore(w, w1, CallAll(w1, rest), calls);
    }
  }

  lemma CameOneMore(w: World, w1: World, w': World, calls: seq<Api>)
    requires calls != [] && w1 == Call(w, calls[0]) && Came(w1, w', calls[1..])
    ensures Came(w, w', calls)
  {
    var rest := calls[1..];
    assert forall j :: 0 < j < |calls| ==> calls[j] == rest[j - 1];
    assert AskUser in calls <==> calls[0] == AskUser || AskUser in rest;
    forall j: nat | LastPrivilege(calls, j) ensures w'.privilege == calls[j].privilege {
      if j > 0 { assert LastPrivilege(rest, j - 1); }
    }
    forall j: nat | LastMode(calls, j) ensures w'.mode == calls[j].mode {
      if j > 0 { assert LastMode(rest, j - 1); }
    }
  }

  /** A registered callback is given its arguments and the record, and what it asks for is done. */
  lemma UserOutcome(host: Host, w: World, ns: seq<Cmd>, words: seq<string>, marks: seq<nat>, c: Cmd,
      args: seq<string>, mode: nat) returns (w1: World)
    requires Runs(host, w, ns, words, marks, c, args, mode) && c.callback.User?
    ensures Found(w, w1, c, args, mode)
    ensures var (w', rc) := Dispatch(host, w, ns, words, 0, marks);
            var r := host.user(c.callback.id, args, w1.log);
            && rc == r.rc && Came(w1, w', r.calls) && w'.username == w.username && w'.filters == []
  {
    hide Dispatch, Runs, Came, CallAll, PrintAll;
    w1 := RunsInvoke(host, w, ns, words, marks, c, args, mode);
    var r := host.user(c.callback.id, args, w1.log);
    var w2 := PrintAll(w1, r.texts);
    PrintOnly(w1, r.texts);
    CallsCome(w2, r.calls);
    SameCame(w1, w2, CallAll(w2, r.calls), r.calls);
  }

  lemma SameCame(w: World, w2: World, w3: World, calls: seq<Api>)
    requires w2 == w.(filters := w2.filters, output := w2.output) && Came(w2, w3, calls)
    ensures Came(w, w3.Close(), calls)
  {
  }

  // ----- from the line typed -----

  // a word that stands for itself
  predicate Bare(word: string) {
    word != "" && forall k :: 0 <= k < |word| ==> !IsSpace(word[k]) && word[k] !in "'\"|"
  }

  function AsTokens(words: seq<string>): (tokens: seq<Token>)
    ensures |tokens| == |words| && Texts(tokens) == words == Values(tokens)
    ensures forall i :: 0 <= i < |words| ==> tokens[i] == Plain(words[i])
  {
    if words == [] then [] else [Plain(words[0])] + AsTokens(words[1..])
  }

  lemma JoinedBegins(words: seq<string>)
    requires words != [] && Bare(words[0])
    ensures Join(words) != "" && !IsSpace(Join(words)[0])
  {
  }

  lemma BareIsPlain(word: string)
    requires Bare(word)
    ensures Plain(word).Wellformed()
  {
    forall k | 0 <= k < |word| ensures !IsSpace(word[k]) && !IsQuote(word[k]) && word[k] != '|' {
      var marks := "'\"|";
      assert marks[0] in marks && marks[1] in marks && marks[2] in marks;
    }
  }

  lemma BareAreTokens(words: seq<string>)
    requires forall i :: 0 <= i < |words| ==> Bare(words[i])
    ensures forall i :: 0 <= i < |words| ==> AsTokens(words)[i].Wellformed() && !AsTokens(words)[i].Pipe?
    ensures QuotesHoldNone(AsTokens(words))
  {
    hide Bare, Token.Wellformed;
    forall i | 0 <= i < |words| ensures AsTokens(words)[i].Wellformed() {
      BareIsPlain(words[i]);
    }
  }

  lemma {:induction false} BareHaveNoPipes(words: seq<string>, i: nat)
    requires i <= |words| && forall k :: 0 <= k < |words| ==> Bare(words[k])
    ensures PipesFrom(words, i) == []
    decreases |words| - i
  {
    if i < |words| {
      BareHaveNoPipes(words, i + 1);
      assert words[i][0] !in "'\"|" && "'\"|"[2] == '|' && words[i][..1] == [words[i][0]];
    }
  }

  /** A line of up to 127 words, none with a quote mark or a pipe in it, is dispatched just as it was typed. */
  lemma WordsAreDispatched(host: Host, w: World, tree: seq<Cmd>, words: seq<string>)
    requires 0 < |words| < 128 && forall i :: 0 <= i < |words| ==> Bare(words[i])
    ensures GoodMarks(words, []) && CommandWords(words, []) == |words|
    ensures var (w', rc) := Dispatch(host, w, tree, words, 0, []);
            RunCommand(host, w, tree, Join(words)) == (w', rc == Quitting)
  {
    hide Dispatch, Bare, Token.Wellformed;
    var line := Join(words);
    JoinedBegins(words);
    BareAreTokens(words);
    BareHaveNoPipes(words, 0);
    JoinRoundTrip(AsTokens(words), MAX_LINE_WORDS);
    IndentIs(line, 0);
    assert line[0..] == line;
  }

  /** And so it is when entered while commands are typed; it is remembered, unless it asks for help or the history. */
  lemma EnteredWordsAreDispatched(host: Host, w: World, tree: seq<Cmd>, words: seq<string>)
    requires 0 < |words| < 128 && forall i :: 0 <= i < |words| ==> Bare(words[i])
    requires w.state == Normal || w.state == Enabled
    ensures GoodMarks(words, []) && CommandWords(words, []) == |words|
    ensures var line := Join(words);
            var w1 := if EndsInQuery(line) || FoldEq(line, "history") then w else w.Note(Remembered(line));
            var (w', rc) := Dispatch(host, w1, tree, words, 0, []);
            Submit(host, w, tree, line) == (w', rc == Quitting)
  {
    hide Dispatch, RunCommand, Bare, FoldEq;
    JoinedBegins(words);
    WordsAreDispatched(host, w, tree, words);
    WordsAreDispatched(host, w.Note(Remembered(Join(words))), tree, words);
  }
}

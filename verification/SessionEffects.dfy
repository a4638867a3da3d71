/**
 What commands do to a session: how each built-in command leaves it, and what follows a command in the record of events,
 whatever is typed. None of it mentions the handlers.
 */
module SessionEffects {
  import opened Text
  import opened CommandTree
  import opened Interpreter
  import opened DispatchLaws
  import opened SessionSafety

  // becoming privileged takes a password
  predicate AsksPassword(host: Host) {
    host.enablePassword.Some? || host.enableCallback.Some?
  }

  // ----- the record -----

  // the mode in force after a log
  function ModeAfter(log: seq<Event>): nat {
    if log == [] then MODE_EXEC
    else if log[|log| - 1].ModeSet? then log[|log| - 1].mode
    else ModeAfter(log[..|log| - 1])
  }

  /** Privilege and mode are what the record says. */
  ghost predicate Recorded(w: World) {
    PrivilegeAfter(w.log) == w.privilege && ModeAfter(w.log) == w.mode
  }

  function Requested(calls: seq<Api>): seq<Event> {
    if calls == [] then []
    else
      (match calls[0]
       case SetPrivilege(p) => [PrivilegeSet(p)]
       case SetConfigmode(m) => [ModeSet(m)]
       case AskUser => [])
      + Requested(calls[1..])
  }

  // leaving the session: quit, or exit with no mode to leave
  ghost predicate Leaves(log: seq<Event>, i: nat)
    requires i < |log|
  {
    log[i].Ran? && (log[i].callback == Quit || (log[i].callback == Exit && ModeAfter(log[..i]) == MODE_EXEC))
  }

  /** The events that come right after a command has been run. */
  ghost function After(host: Host, log: seq<Event>, i: nat): seq<Event>
    requires i < |log| && log[i].Ran?
  {
    match log[i].callback
    case Disable => [PrivilegeSet(UNPRIVILEGED), ModeSet(MODE_EXEC)]
    case Quit => [PrivilegeSet(UNPRIVILEGED), ModeSet(MODE_EXEC)]
    case Exit =>
      var mode := ModeAfter(log[..i]);
      if mode == MODE_EXEC then [PrivilegeSet(UNPRIVILEGED), ModeSet(MODE_EXEC)]
      else if mode == MODE_CONFIG then [ModeSet(MODE_EXEC)]
      else [ModeSet(MODE_CONFIG)]
    case ConfigureTerminal => [ModeSet(MODE_CONFIG)]
    case Enable =>
      if PrivilegeAfter(log[..i]) == PRIVILEGED || AsksPassword(host) then []
      else [PrivilegeSet(PRIVILEGED), ModeSet(MODE_EXEC)]
    case User(id) => Requested(host.user(id, log[i].args, log[..i + 1]).calls)
    case _ => []
  }

  // the command run at i has had its effects, and a session that it left went no further
  ghost predicate Followed(host: Host, log: seq<Event>, i: nat)
    requires i < |log|
  {
    log[i].Ran? ==> log[..i + 1] + After(host, log, i) <= log
  }

  /** later carries log on: each command in it is followed by its effects, and nothing comes after leaving. */
  ghost predicate Grown(host: Host, log: seq<Event>, later: seq<Event>, left: bool) {
    && log <= later
    && forall i :: |log| <= i < |later| ==>
         Followed(host, later, i) && (Leaves(later, i) ==> left && i + 3 == |later|)
  }

  lemma StaysFollowed(host: Host, log: seq<Event>, later: seq<Event>, i: nat)
    requires i < |log| && log <= later
    ensures later[..i] == log[..i] && (Leaves(later, i) <==> Leaves(log, i))
    ensures log[i].Ran? ==> After(host, later, i) == After(host, log, i)
    ensures Followed(host, log, i) ==> Followed(host, later, i)
  {
    assert later[..i + 1] == log[..i + 1];
  }

  lemma GrownTwice(host: Host, log: seq<Event>, later: seq<Event>, last: seq<Event>, left: bool)
    requires Grown(host, log, later, false) && Grown(host, later, last, left)
    ensures Grown(host, log, last, left)
  {
    hide Followed, Leaves;
    forall i | |log| <= i < |later| { StaysFollowed(host, later, last, i); }
  }

  // one more event that is no command
  lemma Noted(w: World, e: Event)
    requires Recorded(w)
    ensures PrivilegeAfter(w.Note(e).log) == if e.PrivilegeSet? then e.privilege else w.privilege
    ensures ModeAfter(w.Note(e).log) == if e.ModeSet? then e.mode else w.mode
  {
    assert w.Note(e).log[..|w.log|] == w.log;
  }

  lemma CallRecorded(w: World, api: Api)
    requires Recorded(w)
    ensures var w' := Call(w, api); Recorded(w') && w'.log == w.log + Requested([api])
  {
    hide PrivilegeAfter, ModeAfter;
    assert [api][1..] == [] && w.log + [] == w.log;
    match api {
      case SetPrivilege(p) => Noted(w, PrivilegeSet(p));
      case SetConfigmode(m) => Noted(w, ModeSet(m));
      case AskUser =>
    }
  }

  lemma RequestedFirst(calls: seq<Api>)
    requires calls != []
    ensures Requested(calls) == Requested([calls[0]]) + Requested(calls[1..])
  {
    assert [calls[0]][1..] == [] && Requested([]) == [];
  }

  lemma {:induction false} CallsRecorded(w: World, calls: seq<Api>)
    requires Recorded(w)
    ensures var w' := CallAll(w, calls); Recorded(w') && w'.log == w.log + Requested(calls)
    decreases calls
  {
    hide PrivilegeAfter, ModeAfter, Call;
    if calls == [] {
      assert w.log + [] == w.log;
    } else {
      var w1 := Call(w, calls[0]);
      CallRecorded(w, calls[0]);
      CallsRecorded(w1, calls[1..]);
      Assoc(w.log, Requested([calls[0]]), Requested(calls[1..]));
      RequestedFirst(calls);
    }
  }

  lemma RequestedRunsNothing(calls: seq<Api>)
    ensures forall i :: 0 <= i < |Requested(calls)| ==> !Requested(calls)[i].Ran?
  {
  }

  // one step of the record from w to w', in which only the privilege and the mode changed
  lemma LeftRecorded(w: World)
    requires Recorded(w)
    ensures var w' := w.WithPrivilege(UNPRIVILEGED).WithMode(MODE_EXEC);
            Recorded(w') && w'.log == w.log + [PrivilegeSet(UNPRIVILEGED), ModeSet(MODE_EXEC)]
    ensures var w' := w.WithPrivilege(PRIVILEGED).WithMode(MODE_EXEC);
            Recorded(w') && w'.log == w.log + [PrivilegeSet(PRIVILEGED), ModeSet(MODE_EXEC)]
    ensures forall m: nat :: Recorded(w.WithMode(m))
  {
    hide PrivilegeAfter, ModeAfter;
    forall p | p == UNPRIVILEGED || p == PRIVILEGED
      ensures var w' := w.WithPrivilege(p).WithMode(MODE_EXEC);
              Recorded(w') && w'.log == w.log + [PrivilegeSet(p), ModeSet(MODE_EXEC)]
    {
      Noted(w, PrivilegeSet(p));
      Noted(w.WithPrivilege(p), ModeSet(MODE_EXEC));
    }
    forall m: nat ensures Recorded(w.WithMode(m)) {
      Noted(w, ModeSet(m));
    }
  }

  /** The effects of a callback follow the event that it was run. */
  lemma InvokeRecorded(host: Host, w: World, callback: Callback, required: int, args: seq<string>)
    requires Recorded(w)
    ensures var w1 := w.Note(Ran(callback, required, args));
            var (w', rc) := Invoke(host, w1, callback, args);
            && Recorded(w') && w'.log == w1.log + After(host, w1.log, |w.log|)
            && (Leaves(w1.log, |w.log|) ==> rc == Quitting && |w'.log| == |w.log| + 3)
  {
    hide PrivilegeAfter, ModeAfter, PrintAll, CallAll, Requested;
    var e := Ran(callback, required, args);
    var w1 := w.Note(e);
    Noted(w, e);
    LeftRecorded(w1);
    assert w1.log[..|w.log|] == w.log && w1.log[..|w.log| + 1] == w1.log && w1.log + [] == w1.log;
    if callback.User? {
      var r := host.user(callback.id, args, w1.log);
      PrintOnly(w1, r.texts);
      CallsRecorded(PrintAll(w1, r.texts), r.calls);
    }
  }

  // ----- from one command to whole sessions -----

  // w' carries the record of w on
  ghost predicate Onward(host: Host, w: World, w': World, left: bool) {
    Recorded(w') && Grown(host, w.log, w'.log, left)
  }

  lemma OnwardTwice(host: Host, w: World, w1: World, w2: World, left: bool)
    requires Onward(host, w, w1, false) && Onward(host, w1, w2, left)
    ensures Onward(host, w, w2, left)
  {
    hide Grown, Recorded;
    GrownTwice(host, w.log, w1.log, w2.log, left);
  }

  lemma NotedOnward(host: Host, w: World, e: Event, left: bool)
    requires Recorded(w) && !e.Ran?
    ensures Grown(host, w.log, w.Note(e).log, left)
    ensures !e.PrivilegeSet? && !e.ModeSet? ==> Onward(host, w, w.Note(e), left)
    ensures e.ModeSet? ==> Onward(host, w, w.WithMode(e.mode), left)
  {
    hide PrivilegeAfter, ModeAfter;
    Noted(w, e);
    assert w.Note(e).log[|w.log|] == e;
  }

  lemma RanOnward(host: Host, w: World, callback: Callback, required: int, args: seq<string>)
    requires Recorded(w)
    ensures var (w', rc) := Invoke(host, w.Note(Ran(callback, required, args)), callback, args);
            Onward(host, w, w', rc == Quitting)
  {
    hide PrivilegeAfter, ModeAfter, Invoke, After, Recorded;
    var w1 := w.Note(Ran(callback, required, args));
    var (w', rc) := Invoke(host, w1, callback, args);
    InvokeRecorded(host, w, callback, required, args);
    NoneRanAfter(host, w1.log, |w.log|);
    assert w'.log[..|w.log| + 1] == w1.log && w1.log[..|w.log| + 1] == w1.log;
    StaysFollowed(host, w1.log, w'.log, |w.log|);
    forall i | |w.log| <= i < |w'.log|
      ensures Followed(host, w'.log, i) && (Leaves(w'.log, i) ==> rc == Quitting && i + 3 == |w'.log|)
    {
      if i > |w.log| {
        assert w'.log[i] == After(host, w1.log, |w.log|)[i - |w1.log|];
      }
    }
  }

  lemma NoneRanAfter(host: Host, log: seq<Event>, i: nat)
    requires i < |log| && log[i].Ran?
    ensures forall k :: 0 <= k < |After(host, log, i)| ==> !After(host, log, i)[k].Ran?
  {
    if log[i].callback.User? {
      RequestedRunsNothing(host.user(log[i].callback.id, log[i].args, log[..i + 1]).calls);
    }
  }

  lemma ExecuteOnward(host: Host, w: World, c: Cmd, args: seq<string>, words: seq<string>, marks: seq<nat>)
    requires GoodMarks(words, marks) && Recorded(w)
    ensures var (w', rc) := Execute(host, w, c, args, words, marks); Onward(host, w, w', rc == Quitting)
  {
    hide PrivilegeAfter, ModeAfter, Invoke, Followed, Leaves, FilterArgs;
    match SetupChain(host, FilterArgs(words, marks), true, w.filters)
    case Ready(fs) => RanOnward(host, w.(filters := fs), c.callback, c.privilege, args);
    case Failed(fs, message) => NotedOnward(host, w.(filters := fs), Said(message), false);
    case Abandoned(fs, message, rc) => NotedOnward(host, w.(filters := fs), Said(message), rc == Quitting);
  }

  lemma RunOnward(host: Host, w: World, c: Cmd, words: seq<string>, start: nat, marks: seq<nat>)
    requires GoodMarks(words, marks) && start < CommandWords(words, marks) && Recorded(w)
    ensures var (w', rc) := RunOrComplain(host, w, c, words, start, marks); Onward(host, w, w', rc == Quitting)
    ensures var (w', rc) := Retry(host, w, c, words, start, marks); Onward(host, w, w', rc == Quitting)
  {
    hide Execute, Onward;
    if c.callback == NoCallback {
      NotedOnward(host, w, Said(if c.children == [] then NoCallbackFor(c.name) else Incomplete), false);
      NotedOnward(host, w, Said(Invalid(start > 0, words[start])), false);
    } else {
      ExecuteOnward(host, w, c, words[start + 1..CommandWords(words, marks)], words, marks);
    }
  }

  lemma {:induction false} DispatchOnward(host: Host, w: World, ns: seq<Cmd>, words: seq<string>, start: nat,
      marks: seq<nat>)
    requires GoodMarks(words, marks) && start < CommandWords(words, marks) && Recorded(w)
    ensures var (w', rc) := Dispatch(host, w, ns, words, start, marks); Onward(host, w, w', rc == Quitting)
    decreases ns, 1
  {
    hide Choose, HelpNames, Onward, PrivilegeAfter, ModeAfter;
    var word := words[start];
    if EndsInQuery(word) {
      NotedOnward(host, w, Said(HelpOn(HelpNames(ns, word[..|word| - 1], w.mode, w.privilege))), false);
    } else {
      match Choose(ns, word, w.mode, w.privilege)
      case Nothing =>
        NotedOnward(host, w, Said(Invalid(false, word)), false);
        Unmoved(host, w, false);
      case Chosen(i, mode) =>
        var w1 := if mode == w.mode then w else w.WithMode(mode);
        NotedOnward(host, w, ModeSet(mode), false);
        Unmoved(host, w, false);
        IsRecorded(host, w, w1, false);
        EnterOnward(host, w1, ns[i], words, start, marks);
        OnwardTwice(host, w, w1, Enter(host, w1, ns[i], words, start, marks).0,
            Enter(host, w1, ns[i], words, start, marks).1 == Quitting);
    }
  }

  lemma Unmoved(host: Host, w: World, left: bool)
    requires Recorded(w)
    ensures Onward(host, w, w, left)
  {
  }

  lemma IsRecorded(host: Host, w: World, w': World, left: bool)
    requires Onward(host, w, w', left)
    ensures Recorded(w') && w.log <= w'.log
  {
  }

  lemma {:induction false} EnterOnward(host: Host, w: World, c: Cmd, words: seq<string>, start: nat, marks: seq<nat>)
    requires GoodMarks(words, marks) && start < CommandWords(words, marks) && Recorded(w)
    ensures var (w', rc) := Enter(host, w, c, words, start, marks); Onward(host, w, w', rc == Quitting)
    decreases c, 0
  {
    hide Onward, RunOrComplain, Retry, PrivilegeAfter, ModeAfter;
    if c.children == [] || start + 1 == CommandWords(words, marks) {
      RunOnward(host, w, c, words, start, marks);
    } else {
      DispatchOnward(host, w, c.children, words, start + 1, marks);
      var (w', rc) := Dispatch(host, w, c.children, words, start + 1, marks);
      if rc == ErrorArg {
        IsRecorded(host, w, w', false);
        RunOnward(host, w', c, words, start, marks);
        var (w'', rc') := Retry(host, w', c, words, start, marks);
        OnwardTwice(host, w, w', w'', rc' == Quitting);
      }
    }
  }

  lemma RunCommandOnward(host: Host, w: World, tree: seq<Cmd>, line: string)
    requires Recorded(w)
    ensures var (w', over) := RunCommand(host, w, tree, line); Onward(host, w, w', over)
  {
    hide Onward, Dispatch, Marks, CommandWords, PrivilegeAfter, ModeAfter;
    var n := Tokenizer.Indent(line);
    var words := Tokenizer.Parse(line[n..], MAX_LINE_WORDS);
    Unmoved(host, w, false);
    if n < |line| && words != [] {
      FirstIsCommand(words);
      DispatchOnward(host, w, tree, words, 0, Marks(words));
    }
  }

  lemma FirstIsCommand(words: seq<string>)
    requires words != []
    ensures 0 < CommandWords(words, Marks(words))
  {
  }

  lemma AnswerOnward(host: Host, w: World, r: Reply, left: bool)
    requires Recorded(w)
    ensures Onward(host, w, CallAll(PrintAll(w, r.texts), r.calls), left)
  {
    hide PrivilegeAfter, ModeAfter, CallAll, PrintAll, Requested;
    PrintOnly(w, r.texts);
    CallsRecorded(PrintAll(w, r.texts), r.calls);
    RequestedRunsNothing(r.calls);
  }

  lemma PasswordOnward(host: Host, w: World, tree: seq<Cmd>, line: string, left: bool)
    requires Recorded(w) && (w.state == Password || w.state == EnablePassword)
    ensures Onward(host, w, Submit(host, w, tree, line).0, left)
  {
    hide PrivilegeAfter, ModeAfter, LoginAllowed, EnableAllowed, Followed, Leaves;
    NotedOnward(host, w, Said(AccessDenied), left);
    NotedOnward(host, w, LoggedIn(w.username, line), left);
    NotedOnward(host, w, Elevated(line), false);
    var w1 := w.Note(Elevated(line));
    NotedOnward(host, w1, PrivilegeSet(PRIVILEGED), left);
    Noted(w1, PrivilegeSet(PRIVILEGED));
    GrownTwice(host, w.log, w1.log, w1.WithPrivilege(PRIVILEGED).log, left);
  }

  lemma CommandOnward(host: Host, w: World, tree: seq<Cmd>, line: string)
    requires Recorded(w) && (w.state == Normal || w.state == Enabled)
    ensures var (w', over) := Submit(host, w, tree, line); Onward(host, w, w', over)
  {
    hide RunCommand, Onward, PrivilegeAfter, ModeAfter, FoldEq;
    Unmoved(host, w, false);
    RunCommandOnward(host, w, tree, line);
    var w1 := w.Note(Remembered(line));
    NotedOnward(host, w, Remembered(line), false);
    IsRecorded(host, w, w1, false);
    RunCommandOnward(host, w1, tree, line);
    var (w', over) := RunCommand(host, w1, tree, line);
    OnwardTwice(host, w, w1, w', over);
  }

  lemma ReactOnward(host: Host, w: World, tree: seq<Cmd>, input: Input)
    requires Recorded(w)
    ensures var (w', over) := React(host, w, tree, input); Onward(host, w, w', over)
  {
    hide Onward, PrivilegeAfter, ModeAfter, RunCommand;
    Unmoved(host, w, false);
    match input
    case Typed(line) =>
      if w.state == Password || w.state == EnablePassword {
        PasswordOnward(host, w, tree, line, false);
      } else if w.state == Request {
        var w1 := w.(state := w.prior, prior := Login);
        var r := host.answer(line, w1.log);
        AnswerOnward(host, w1, r, r.rc == Quitting);
        SameRecord(host, w, w1, Submit(host, w, tree, line).0, r.rc == Quitting);
      } else if w.state == Login {
        SameRecord(host, w, w, Submit(host, w, tree, line).0, false);
      } else {
        CommandOnward(host, w, tree, line);
      }
    case CtrlC => SameRecord(host, w, w, Interrupt(w), false);
    case CtrlZ => NotedOnward(host, w, ModeSet(MODE_EXEC), false);
  }

  lemma SameRecord(host: Host, w: World, w1: World, w': World, left: bool)
    requires w1 == w.(state := w1.state, prior := w1.prior) && Recorded(w)
    requires Onward(host, w1, w', left) || w' == w.(state := w'.state, prior := w'.prior, username := w'.username)
    ensures Onward(host, w, w', left)
  {
  }

  lemma {:induction false} SessionOnward(host: Host, w: World, tree: seq<Cmd>, inputs: seq<Input>)
    requires Recorded(w)
    ensures Onward(host, w, Session(host, w, tree, inputs), true)
    decreases inputs
  {
    hide Onward, React, PrivilegeAfter, ModeAfter;
    if inputs == [] {
      Unmoved(host, w, true);
    } else {
      var (w', over) := React(host, w, tree, inputs[0]);
      ReactOnward(host, w, tree, inputs[0]);
      IsRecorded(host, w, w', over);
      if !over {
        SessionOnward(host, w', tree, inputs[1..]);
        OnwardTwice(host, w, w', Session(host, w', tree, inputs[1..]), true);
      }
    }
  }

  /**
   Whatever is typed, to whatever host: every command that ran is followed at once by its effects, and nothing at all
   happens after quit, or after exit from exec mode, but that privilege and mode are given up.
   */
  lemma CommandsAreFollowed(host: Host, tree: seq<Cmd>, inputs: seq<Input>, i: nat)
    requires i < |Session(host, Start(host), tree, inputs).log|
    ensures var log := Session(host, Start(host), tree, inputs).log;
            && Followed(host, log, i)
            && (Leaves(log, i) ==> log == log[..i + 1] + [PrivilegeSet(UNPRIVILEGED), ModeSet(MODE_EXEC)])
  {
    hide Session;
    SessionOnward(host, Start(host), tree, inputs);
  }

  /**
   After disable, no command that asks for privilege, or is kept for the privileged, runs before the enable password has
   been given again.
   */
  lemma DisabledUntilElevated(
    host: Host, need: Callback -> int, tree: seq<Cmd>, inputs: seq<Input>, i: nat, k: nat) returns (e: nat)
    requires Guarded(host) && Tame(host, need) && WellGuarded(tree, need)
    requires i < k < |Session(host, Start(host), tree, inputs).log|
    requires var log := Session(host, Start(host), tree, inputs).log;
             && log[i].Ran? && log[i].callback == Disable
             && log[k].Ran? && (log[k].required > UNPRIVILEGED || need(log[k].callback) > UNPRIVILEGED)
    ensures var log := Session(host, Start(host), tree, inputs).log;
            i < e < k && log[e].Elevated? && EnableAllowed(host, log[e].password)
  {
    hide Session, Guarded, Tame, WellGuarded, EnableAllowed, LoginAllowed;
    var log := Session(host, Start(host), tree, inputs).log;
    CommandsAreFollowed(host, tree, inputs, i);
    assert log[i + 1] == PrivilegeSet(UNPRIVILEGED);
    NothingRunsUnauthorized(host, need, tree, inputs, k);
    e :| 0 <= e < k && log[e].Elevated? && EnableAllowed(host, log[e].password)
         && forall k' :: e < k' < k && log[k'].PrivilegeSet? ==> log[k'].privilege == PRIVILEGED;
  }

  /** exit leaves a submode for config mode, config mode for exec, and the session from there. */
  lemma ExitsLeaveOneMode(host: Host, tree: seq<Cmd>, inputs: seq<Input>, i: nat)
    requires i < |Session(host, Start(host), tree, inputs).log|
    requires Session(host, Start(host), tree, inputs).log[i].Ran?
    requires Session(host, Start(host), tree, inputs).log[i].callback == Exit
    ensures var log := Session(host, Start(host), tree, inputs).log;
            var mode := ModeAfter(log[..i]);
            && i + 1 < |log|
            && (mode > MODE_CONFIG ==> log[i + 1] == ModeSet(MODE_CONFIG))
            && (mode == MODE_CONFIG ==> log[i + 1] == ModeSet(MODE_EXEC))
            && (mode == MODE_EXEC ==> forall k :: i < k < |log| ==> !log[k].Ran?)
  {
    hide Session, ModeAfter;
    var log := Session(host, Start(host), tree, inputs).log;
    CommandsAreFollowed(host, tree, inputs, i);
    assert log[i + 1] == After(host, log, i)[0];
  }
}

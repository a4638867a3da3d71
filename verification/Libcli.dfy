/** The interpreter as libcli runs it: over linked command nodes whose abbreviation index is kept up to date. */
module Libcli {
  import opened Text
  import opened CommandTree
  import opened AbbrevIndex
  import opened Pipeline
  import opened Tokenizer
  import opened Interpreter
  import opened Completion

  // every command below these belongs to mode m or to any
  ghost predicate Under(ns: seq<Cmd>, m: int) {
    forall i :: 0 <= i < |ns| ==> (ns[i].mode == MODE_ANY || ns[i].mode == m) && Under(ns[i].children, m)
  }

  /** Subcommands are registered for the mode of their parent, or for any. */
  ghost predicate Scoped(ns: seq<Cmd>) {
    forall i :: 0 <= i < |ns| ==>
      Scoped(ns[i].children) && (ns[i].mode != MODE_ANY ==> Under(ns[i].children, ns[i].mode))
  }

  // `commands` are the subcommands found by following these positions from `ns`
  ghost predicate Reaches(ns: seq<Command>, path: seq<nat>, commands: seq<Command>)
    decreases path
  {
    if path == [] then ns == commands
    else path[0] < |ns| && Reaches(ns[path[0]].children, path[1..], commands)
  }

  ghost predicate VisibleAlong(ns: seq<Cmd>, path: seq<nat>, mode: nat, privilege: int)
    decreases path
  {
    path != [] ==>
      path[0] < |ns| && Visible(ns[path[0]], mode, privilege)
      && VisibleAlong(ns[path[0]].children, path[1..], mode, privilege)
  }

  lemma {:induction false} ReachedForest(ns: seq<Command>, path: seq<nat>, commands: seq<Command>)
    requires ValidForest(ns) && Reaches(ns, path, commands)
    ensures ValidForest(commands) && Reprs(commands) <= Reprs(ns)
    ensures WellNamed(Shapes(ns)) ==> WellNamed(Shapes(commands))
    ensures Scoped(Shapes(ns)) ==> Scoped(Shapes(commands))
    decreases path
  {
    if path != [] {
      var c := ns[path[0]];
      ChildrenAreForest(c);
      assert Shapes(ns)[path[0]] == c.shape && c.repr <= Reprs(ns);
      ReachedForest(c.children, path[1..], commands);
    }
  }

  /** The index is fresh wherever lookup can get to: children of hidden commands may be stale, but are not reached. */
  lemma {:induction false} FreshBelow(ns: seq<Command>, path: seq<nat>, commands: seq<Command>, mode: nat,
      privilege: int)
    requires ValidForest(ns) && Reaches(ns, path, commands) && VisibleAlong(Shapes(ns), path, mode, privilege)
    requires Fresh(ns, mode, privilege)
    ensures ValidForest(commands) && Fresh(commands, mode, privilege)
    decreases path
  {
    ReachedForest(ns, path, commands);
    if path != [] {
      var c := ns[path[0]];
      ChildrenAreForest(c);
      assert FreshAt(ns, path[0], mode, privilege);
      assert Shapes(ns)[path[0]] == c.shape;
      FreshBelow(c.children, path[1..], commands, mode, privilege);
    }
  }

  lemma {:induction false} ReachesOneMore(ns: seq<Command>, path: seq<nat>, commands: seq<Command>, i: nat,
      mode: nat, privilege: int)
    requires ValidForest(ns) && Reaches(ns, path, commands) && i < |commands|
    requires VisibleAlong(Shapes(ns), path, mode, privilege) && Visible(commands[i].shape, mode, privilege)
    ensures Reaches(ns, path + [i], commands[i].children)
    ensures VisibleAlong(Shapes(ns), path + [i], mode, privilege)
    decreases path
  {
    if path == [] {
      assert [i][1..] == [] && Shapes(ns)[i] == ns[i].shape;
      assert Reaches(ns[i].children, [], commands[i].children);
    } else {
      var c := ns[path[0]];
      ChildrenAreForest(c);
      assert Shapes(ns)[path[0]] == c.shape;
      ReachesOneMore(c.children, path[1..], commands, i, mode, privilege);
      assert (path + [i])[1..] == path[1..] + [i];
    }
  }

  lemma {:induction false} UnderReached(ns: seq<Command>, path: seq<nat>, commands: seq<Command>, m: int)
    requires ValidForest(ns) && Reaches(ns, path, commands) && Under(Shapes(ns), m)
    ensures Under(Shapes(commands), m)
    decreases path
  {
    if path != [] {
      var c := ns[path[0]];
      ChildrenAreForest(c);
      assert Shapes(ns)[path[0]] == c.shape;
      UnderReached(c.children, path[1..], commands, m);
    }
  }

  /** Dropping from a submode to config mode keeps visible every command on the way to one of config mode. */
  lemma {:induction false} DropKeepsPath(ns: seq<Command>, path: seq<nat>, commands: seq<Command>, i: nat, mode: nat,
      privilege: int)
    requires ValidForest(ns) && Reaches(ns, path, commands) && Scoped(Shapes(ns)) && i < |commands|
    requires mode > MODE_CONFIG && commands[i].mode == MODE_CONFIG && ValidForest(commands)
    requires VisibleAlong(Shapes(ns), path, mode, privilege)
    ensures VisibleAlong(Shapes(ns), path, MODE_CONFIG, privilege)
    decreases path
  {
    assert Shapes(commands)[i] == commands[i].shape;
    if path != [] {
      var c := ns[path[0]];
      ChildrenAreForest(c);
      assert Shapes(ns)[path[0]] == c.shape;
      if c.mode != MODE_ANY {
        UnderReached(c.children, path[1..], commands, c.mode);
        assert false;
      }
      DropKeepsPath(c.children, path[1..], commands, i, mode, privilege);
    }
  }

  /** What the two comparisons against a fresh entry mean, for each kind of sibling. */
  lemma MatchMeaning(commands: seq<Command>, n: nat, word: string, mode: nat, privilege: int)
    requires ValidForest(commands) && WellNamed(Shapes(commands)) && Fresh(commands, mode, privilege) && n < |commands|
    ensures var ns, c := Shapes(commands), commands[n];
            var matched := c.privilege <= privilege && CacheMatch(c.name, word, c.uniqueLen);
            && (NamesCurrent(ns, n, word, mode, privilege) <==> matched && c.mode == mode)
            && (NamesAny(ns, n, word, mode, privilege) <==> matched && c.mode == MODE_ANY)
            && (NamesConfig(ns, n, word, mode, privilege) <==> matched && mode > MODE_CONFIG && c.mode == MODE_CONFIG)
  {
    var ns, c := Shapes(commands), commands[n];
    assert FreshAt(commands, n, mode, privilege) && ns[n] == c.shape;
    if Visible(ns[n], mode, privilege) {
      MatchIsNames(ns, n, word, mode, privilege);
    } else {
      HiddenMatchIsWholeName(ns, n, word, mode, privilege);
    }
  }

  class Cli {
    const host: Host
    const roots: seq<Command>
    const printer: Printer
    var privilege: int
    var mode: nat
    var state: State
    var prior: State
    var username: string
    var log: seq<Event>

    ghost function View(): World
      reads this, printer
    {
      World(privilege, mode, state, prior, username, printer.filters, printer.output, log)
    }

    ghost predicate Registered() {
      ValidForest(roots) && WellNamed(Shapes(roots)) && Scoped(Shapes(roots))
    }

    /** Between any two calls the index is the one for the current mode and privilege. */
    ghost predicate Valid()
      reads this, Reprs(roots)
    {
      Registered() && Fresh(roots, mode, privilege)
    }

    /** The opening of cli_loop. */
    constructor (host: Host, roots: seq<Command>)
      requires ValidForest(roots) && WellNamed(Shapes(roots)) && Scoped(Shapes(roots))
      modifies Reprs(roots)`uniqueLen
      ensures Valid() && fresh(printer) && this.host == host && this.roots == roots
      ensures View() == Start(host) && privilege == UNPRIVILEGED && mode == MODE_EXEC && log == []
      ensures state == if host.users != [] || host.auth.Some? then Login else Normal
    {
      this.host, this.roots := host, roots;
      printer := new Printer();
      privilege, mode := UNPRIVILEGED, MODE_EXEC;
      state := if host.users == [] && host.auth.None? then Normal else Login;
      prior, username, log := Login, "", [];
      new;
      BuildShortest(roots, mode, privilege);
    }

    method Note(e: Event)
      modifies this`log
      ensures View() == old(View()).Note(e)
    {
      log := log + [e];
    }

    method SetPrivilege(p: int)
      requires Valid()
      modifies this`privilege, this`log, Reprs(roots)`uniqueLen
      ensures Valid() && View() == old(View()).WithPrivilege(p)
    {
      var old_ := privilege;
      privilege := p;
      if p != old_ {
        BuildShortest(roots, mode, privilege);
      }
      Note(PrivilegeSet(p));
    }

    method SetConfigmode(m: nat)
      requires Valid()
      modifies this`mode, this`log, Reprs(roots)`uniqueLen
      ensures Valid() && View() == old(View()).WithMode(m)
    {
      var old_ := mode;
      mode := m;
      if m != old_ {
        BuildShortest(roots, mode, privilege);
      }
      Note(ModeSet(m));
    }

    // cli_request, with a callback given
    method AskForInput()
      modifies this`state, this`prior
      ensures View() == old(View()).Asking()
    {
      if state != Request {
        prior := state;
        state := Request;
      }
    }

    method PrintTexts(texts: seq<string>)
      modifies printer
      ensures View() == PrintAll(old(View()), texts)
    {
      ghost var w := View();
      for n := 0 to |texts|
        invariant PrintAll(View(), texts[n..]) == PrintAll(w, texts)
      {
        printer.Print(texts[n]);
        assert texts[n..][1..] == texts[n + 1..];
      }
    }

    method MakeCalls(calls: seq<Api>)
      requires Valid()
      modifies this, Reprs(roots)`uniqueLen
      ensures Valid() && View() == CallAll(old(View()), calls)
    {
      ghost var w := View();
      for n := 0 to |calls|
        invariant Valid() && CallAll(View(), calls[n..]) == CallAll(w, calls)
      {
        assert calls[n..][1..] == calls[n + 1..];
        match calls[n]
        case SetPrivilege(p) => SetPrivilege(p);
        case SetConfigmode(m) => SetConfigmode(m);
        case AskUser => AskForInput();
      }
    }

    // what a registered callback prints and asks of libcli
    method Respond(r: Reply)
      requires Valid()
      modifies this, printer, Reprs(roots)`uniqueLen
      ensures Valid() && View() == CallAll(PrintAll(old(View()), r.texts), r.calls)
    {
      PrintTexts(r.texts);
      MakeCalls(r.calls);
    }

    // cli_int_quit
    method QuitSession() returns (rc: Rc)
      requires Valid()
      modifies this, printer, Reprs(roots)`uniqueLen
      ensures Valid() && View() == old(View()).WithPrivilege(UNPRIVILEGED).WithMode(MODE_EXEC) && rc == Quitting
    {
      SetPrivilege(UNPRIVILEGED);
      SetConfigmode(MODE_EXEC);
      rc := Quitting;
    }

    method Invoke(callback: Callback, args: seq<string>) returns (rc: Rc)
      requires Valid()
      modifies this, printer, Reprs(roots)`uniqueLen
      ensures Valid() && (View(), rc) == Interpreter.Invoke(host, old(View()), callback, args)
      ensures callback == Disable || callback == Quit || (callback == Exit && old(mode) == MODE_EXEC) ==>
                privilege == UNPRIVILEGED && mode == MODE_EXEC && state == old(state)
                && rc == if callback == Disable then Ok else Quitting
      ensures callback == Exit && old(mode) != MODE_EXEC ==>
                privilege == old(privilege) && mode == (if old(mode) > MODE_CONFIG then MODE_CONFIG else MODE_EXEC)
                && state == old(state) && rc == Ok
      ensures callback == Enable && old(privilege) != PRIVILEGED ==>
                rc == Ok && if host.enablePassword.Some? || host.enableCallback.Some?
                            then state == EnablePassword && privilege == old(privilege) && mode == old(mode)
                            else state == old(state) && privilege == PRIVILEGED && mode == MODE_EXEC
      ensures callback == ConfigureTerminal ==>
                mode == MODE_CONFIG && privilege == old(privilege) && state == old(state) && rc == Ok
      ensures callback in {Help, History} || (callback == Enable && old(privilege) == PRIVILEGED) ==>
                View() == old(View()) && rc == Ok
    {
      rc := Ok;
      match callback
      case NoCallback => rc := Error;
      case Help =>
      case History =>
      case Enable =>
        if privilege != PRIVILEGED {
          if host.enablePassword.None? && host.enableCallback.None? {
            SetPrivilege(PRIVILEGED);
            SetConfigmode(MODE_EXEC);
          } else {
            state := EnablePassword;
          }
        }
      case Disable =>
        SetPrivilege(UNPRIVILEGED);
        SetConfigmode(MODE_EXEC);
      case Quit => rc := QuitSession();
      case Exit =>
        if mode == MODE_EXEC {
          rc := QuitSession();
        } else if mode > MODE_CONFIG {
          SetConfigmode(MODE_CONFIG);
        } else {
          SetConfigmode(MODE_EXEC);
        }
      case ConfigureTerminal => SetConfigmode(MODE_CONFIG);
      case User(id) =>
        var r := host.user(id, args, log);
        Respond(r);
        rc := r.rc;
    }

    /** The loop of cli_find_command over one list of siblings, reading their cached lengths. */
    method Lookup(commands: seq<Command>, word: string) returns (choice: Choice)
      requires ValidForest(commands) && WellNamed(Shapes(commands)) && Fresh(commands, mode, privilege)
      ensures choice == Choose(Shapes(commands), word, mode, privilege)
    {
      ghost var ns := Shapes(commands);
      var againConfig, againAny := -1, -1;
      for n := 0 to |commands|
        invariant forall i: nat :: i < n ==> !NamesCurrent(ns, i, word, mode, privilege)
        invariant againConfig == -1 || (0 <= againConfig < n && NamesConfig(ns, againConfig, word, mode, privilege))
        invariant againConfig == -1 ==> forall i: nat :: i < n ==> !NamesConfig(ns, i, word, mode, privilege)
        invariant againAny == -1 || (0 <= againAny < n && NamesAny(ns, againAny, word, mode, privilege))
        invariant againAny == -1 ==> forall i: nat :: i < n ==> !NamesAny(ns, i, word, mode, privilege)
      {
        var c := commands[n];
        MatchMeaning(commands, n, word, mode, privilege);
        if c.privilege <= privilege && CacheMatch(c.name, word, c.uniqueLen) {
          if c.mode == MODE_ANY && againAny >= 0 {
            AtMostOneNamed(ns, againAny, n, word, mode, privilege);
          }
          if c.mode == mode || (c.mode == MODE_ANY && againAny >= 0) {
            ChooseCurrent(ns, n, word, mode, privilege);
            return Chosen(n, mode);
          } else if mode > MODE_CONFIG && c.mode == MODE_CONFIG {
            againConfig := n;
          } else if c.mode == MODE_ANY {
            againAny := n;
          }
        }
      }
      if againConfig >= 0 {
        choice := Chosen(againConfig, MODE_CONFIG);
        ChooseConfig(ns, againConfig, word, mode, privilege);
      } else if againAny >= 0 {
        choice := Chosen(againAny, mode);
        ChooseAny(ns, againAny, word, mode, privilege);
      } else {
        choice := Nothing;
      }
    }

    method Say(m: Message)
      modifies this`log
      ensures View() == old(View()).Say(m)
    {
      Note(Said(m));
    }

    /** The filter loop before a callback: builds the chain in place of what cli->filters held. */
    method SetupFilters(words: seq<string>, marks: seq<nat>) returns (setup: Setup)
      requires GoodMarks(words, marks)
      modifies printer`filters
      ensures setup == SetupChain(host, FilterArgs(words, marks), true, old(printer.filters))
      ensures printer.filters == setup.filters
    {
      hide InitFilter;
      var f := 0;
      ghost var argvs := FilterArgs(words, marks);
      assert argvs[0..] == argvs;
      while f < |marks|
        invariant f <= |marks|
        invariant SetupChain(host, argvs, true, old(printer.filters))
               == SetupChain(host, argvs[f..], f == 0, printer.filters)
      {
        assert argvs[f..][1..] == argvs[f + 1..] && argvs[f] == FilterWords(words, marks, f);
        var n := if f + 1 < |marks| then marks[f + 1] else |words|;
        if marks[f] == n - 1 {
          return Abandoned(printer.filters, MissingFilter, Error);
        }
        var argv := words[marks[f] + 1..n];
        if EndsInQuery(argv[|argv| - 1]) {
          return Abandoned(printer.filters, FilterHelp, Ok);
        }
        if HasPrefix("b", argv[0]) && |argv[0]| < 3 {
          return Abandoned(printer.filters, AmbiguousFilter(argv[0]), Error);
        }
        if f == 0 {
          printer.filters := [];
        }
        match InitFilter(host, argv) {
          case Installed(filter) =>
            printer.filters := printer.filters + [filter];
          case Refused(message) =>
            return Failed(printer.filters, message);
        }
        f := f + 1;
      }
      setup := Ready(printer.filters);
    }

    // CORRECT_CHECKS: the filters, the callback, the clean-up
    method Execute(c: Command, args: seq<string>, words: seq<string>, marks: seq<nat>) returns (rc: Rc)
      requires Valid() && c.Valid() && GoodMarks(words, marks)
      modifies this, printer, Reprs(roots)`uniqueLen
      ensures Valid() && (View(), rc) == Interpreter.Execute(host, old(View()), c.shape, args, words, marks)
    {
      var setup := SetupFilters(words, marks);
      match setup
      case Ready(_) =>
        Note(Ran(c.callback, c.privilege, args));
        rc := Invoke(c.callback, args);
        printer.Close();
      case Failed(_, message) =>
        Say(message);
        printer.Close();
        rc := Error;
      case Abandoned(_, message, early) =>
        Say(message);
        rc := early;
    }

    method HelpList(commands: seq<Command>, prefix: string) returns (names: seq<string>)
      requires ValidForest(commands)
      ensures names == HelpNames(Shapes(commands), prefix, mode, privilege)
    {
      names := [];
      ghost var ns := Shapes(commands);
      assert ns[0..] == ns && [] + HelpNames(ns, prefix, mode, privilege) == HelpNames(ns, prefix, mode, privilege);
      for n := 0 to |commands|
        invariant names + HelpNames(ns[n..], prefix, mode, privilege) == HelpNames(ns, prefix, mode, privilege)
      {
        var c := commands[n];
        assert ns[n] == c.shape && ns[n..][1..] == ns[n + 1..];
        ghost var rest := HelpNames(ns[n + 1..], prefix, mode, privilege);
        if && FoldPrefix(prefix, c.name) && (c.callback != NoCallback || c.children != []) && c.privilege <= privilege
           && (c.mode == mode || c.mode == MODE_ANY)
        {
          Assoc(names, [c.name], rest);
          names := names + [c.name];
        } else {
          assert [] + rest == rest;
        }
      }
      assert ns[|ns|..] == [] && names + [] == names;
    }

    // where lookup stands: at `commands`, which `path` reaches through visible commands
    ghost predicate At(path: seq<nat>, commands: seq<Command>)
      reads this, Reprs(roots)
    {
      && Valid() && Reaches(roots, path, commands)
      && VisibleAlong(Shapes(roots), path, mode, privilege)
    }

    /**
     cli_find_command. With the cached index it does what Dispatch does by searching for ambiguity, and leaves the
     index fresh for whatever mode and privilege the callback chose.
     */
    method FindCommand(commands: seq<Command>, words: seq<string>, start: nat, marks: seq<nat>, ghost path: seq<nat>)
      returns (rc: Rc)
      requires At(path, commands) && ValidForest(commands)
      requires GoodMarks(words, marks) && start < CommandWords(words, marks)
      modifies this, printer, Reprs(roots)`uniqueLen
      ensures Valid() && (View(), rc) == Dispatch(host, old(View()), Shapes(commands), words, start, marks)
      decreases Shapes(commands), 1
    {
      hide Interpreter.Enter, Choose, HelpNames;
      FreshBelow(roots, path, commands, mode, privilege);
      ReachedForest(roots, path, commands);
      var word := words[start];
      if EndsInQuery(word) {
        var names := HelpList(commands, word[..|word| - 1]);
        Say(HelpOn(names));
        return Ok;
      }
      var choice := Lookup(commands, word);
      match choice
      case Nothing =>
        if start == 0 {
          Say(Invalid(false, word));
        }
        rc := ErrorArg;
      case Chosen(i, m) =>
        ChosenIsVisible(Shapes(commands), word, mode, privilege);
        if m != mode {
          DropKeepsPath(roots, path, commands, i, mode, privilege);
          SetConfigmode(m);
        }
        ReachesOneMore(roots, path, commands, i, mode, privilege);
        rc := Enter(commands[i], words, start, marks, path + [i]);
    }

    // AGAIN: words[start] has been taken by c
    method Enter(c: Command, words: seq<string>, start: nat, marks: seq<nat>, ghost path: seq<nat>) returns (rc: Rc)
      requires At(path, c.children) && c.Valid() && ValidForest(c.children)
      requires GoodMarks(words, marks) && start < CommandWords(words, marks)
      modifies this, printer, Reprs(roots)`uniqueLen
      ensures Valid() && (View(), rc) == Interpreter.Enter(host, old(View()), c.shape, words, start, marks)
      decreases c.shape, 0
    {
      hide Interpreter.Execute, Dispatch;
      ChildrenAreForest(c);
      var last := CommandWords(words, marks);
      if c.children == [] || start + 1 == last {
        if c.callback == NoCallback {
          Say(if c.children == [] then NoCallbackFor(c.name) else Incomplete);
          return Error;
        }
      } else {
        rc := FindCommand(c.children, words, start + 1, marks, path);
        if rc != ErrorArg {
          return;
        }
        if c.callback == NoCallback {
          Say(Invalid(start > 0, words[start]));
          return;
        }
      }
      rc := Execute(c, words[start + 1..last], words, marks);
    }

    // the pipes among the words; one in first place ends the list before it starts
    method FindPipes(words: seq<string>) returns (marks: seq<nat>)
      ensures marks == Marks(words)
    {
      marks := [];
      assert [] + PipesFrom(words, 0) == PipesFrom(words, 0);
      for n := 0 to |words|
        invariant marks + PipesFrom(words, n) == PipesFrom(words, 0)
      {
        assert HasPrefix("|", words[n]) <==> words[n] != "" && words[n][0] == '|';
        ghost var rest := PipesFrom(words, n + 1);
        if words[n] != "" && words[n][0] == '|' {
          assert marks + ([n] + rest) == (marks + [n]) + rest;
          marks := marks + [n];
        } else {
          assert [] + rest == rest;
        }
      }
      assert marks + [] == marks;
      if marks != [] && marks[0] == 0 {
        marks := [];
      }
    }

    method RunCommand(line: string) returns (quit: bool)
      requires Valid()
      modifies this, printer, Reprs(roots)`uniqueLen
      ensures Valid() && (View(), quit) == Interpreter.RunCommand(host, old(View()), Shapes(roots), line)
    {
      var n := 0;
      while n < |line| && IsSpace(line[n])
        invariant n <= |line| && forall k :: 0 <= k < n ==> IsSpace(line[k])
      {
        n := n + 1;
      }
      IndentIs(line, n);
      if n == |line| {
        return false;
      }
      var words := ParseLine(line[n..], MAX_LINE_WORDS);
      if words == [] {
        return false;
      }
      var marks := FindPipes(words);
      var rc := FindCommand(roots, words, 0, marks, []);
      quit := rc == Quitting;
    }

    method CheckUsers(name: string, attempt: string) returns (known: bool)
      ensures known == KnownUser(host, host.users, name, attempt)
    {
      known := false;
      assert host.users[0..] == host.users;
      for n := 0 to |host.users|
        invariant KnownUser(host, host.users, name, attempt) == KnownUser(host, host.users[n..], name, attempt)
      {
        if host.users[n].0 == name && PassMatches(host, host.users[n].1, attempt) {
          return true;
        }
        assert host.users[n..][1..] == host.users[n + 1..];
      }
    }

    /** The part of cli_loop after a line has been entered. */
    method Submit(line: string) returns (quit: bool)
      requires Valid()
      modifies this, printer, Reprs(roots)`uniqueLen
      ensures Valid() && (View(), quit) == Interpreter.Submit(host, old(View()), Shapes(roots), line)
    {
      hide Interpreter.RunCommand, Interpreter.PassMatches, PrintAll, CallAll;
      quit := false;
      if state == Login {
        if line == "" {
          return;
        }
        username := line;
        state := Password;
      } else if state == Password {
        var allowed := host.auth.Some? && host.auth.value(username, line);
        if !allowed {
          allowed := CheckUsers(username, line);
        }
        if allowed {
          state := Normal;
          Note(LoggedIn(username, line));
        } else {
          Say(AccessDenied);
          username := "";
          state := Login;
        }
      } else if state == EnablePassword {
        if EnableAllowed(host, line) {
          state := Enabled;
          Note(Elevated(line));
          SetPrivilege(PRIVILEGED);
        } else {
          Say(AccessDenied);
          state := Normal;
        }
      } else if state == Request {
        state := prior;
        prior := Login;
        var r := host.answer(line, log);
        Respond(r);
        quit := r.rc == Quitting;
      } else {
        if line == "" {
          return;
        }
        if line[|line| - 1] != '?' && !FoldEq(line, "history") {
          Note(Remembered(line));
        }
        quit := RunCommand(line);
      }
    }

    method CtrlC()
      modifies this`state, this`prior
      ensures View() == Interrupt(old(View()))
      ensures state == (if old(state) == Request then old(prior) else old(state))
    {
      if state == Request {
        state := prior;
        prior := Login;
      }
    }

    method CtrlZ()
      requires Valid()
      modifies this`mode, this`log, Reprs(roots)`uniqueLen
      ensures Valid() && View() == EndConfig(old(View()))
      ensures mode == (if old(state) == Request then old(mode) else MODE_EXEC)
    {
      if state != Request && mode != MODE_EXEC {
        SetConfigmode(MODE_EXEC);
      }
    }

    /** cli_get_completions, without the callbacks for parameters. */
    method GetCompletions(line: string, max: nat) returns (names: seq<string>)
      requires Valid()
      ensures names == Completions(Shapes(roots), line, max, mode, privilege)
    {
      var n := 0;
      while n < |line| && IsSpace(line[n])
        invariant n <= |line| && forall k :: 0 <= k < n ==> IsSpace(line[k])
      {
        n := n + 1;
      }
      IndentIs(line, n);
      var command := line[n..];
      var words := ParseLine(command, MAX_LINE_WORDS);
      var num := NumWords(command, words);
      if num == 0 {
        return [];
      }
      var filter := 0;
      for i := 0 to |words|
        invariant filter == LastPipe(words, i)
      {
        if words[i] != "" && words[i][0] == '|' {
          filter := i;
        }
      }
      if filter > 0 {
        names := CompleteFilter(words, filter, num, max);
      } else {
        names := CompleteCommand(words, num, max);
      }
    }

    // completing filter names: the last word that begins with a pipe is the one compared
    method CompleteFilter(words: seq<string>, filter: nat, num: nat, max: nat) returns (names: seq<string>)
      requires 0 < filter < |words| <= num
      ensures names == OfferFilters(words, filter, num, max)
    {
      names := [];
      if filter < num - 1 {
        return;
      }
      var word := words[num - 1];
      for i := 0 to |FILTER_NAMES|
        invariant names == FilterOffers(word, i, max)
      {
        if |names| < max && (word == "" || (|word| < |FILTER_NAMES[i]| && HasPrefix(word, FILTER_NAMES[i]))) {
          names := names + [FILTER_NAMES[i]];
        }
      }
    }

    method CompleteCommand(words: seq<string>, num: nat, max: nat) returns (names: seq<string>)
      requires Valid() && 0 < num <= |words| + 1
      ensures names == AtMost(Offered(Level(Shapes(roots), words, 0, num, mode, privilege), LastWord(words, num),
          mode, privilege), max)
    {
      var commands := roots;
      ghost var path: seq<nat> := [];
      var i := 0;
      var found := true;
      while found && i < num - 1 && max > 0
        invariant i < num && ValidForest(commands) && At(path, commands)
        invariant found ==> (Level(Shapes(roots), words, 0, num, mode, privilege)
                             == Level(Shapes(commands), words, i, num, mode, privilege))
        invariant !found ==> Level(Shapes(roots), words, 0, num, mode, privilege) == []
        decreases found, num - i
      {
        var k := Descend(commands, words[i], path);
        if k < |commands| {
          LevelBelow(Shapes(commands), k, words, i, num, mode, privilege);
          ReachedForest(roots, path, commands);
          ReachesOneMore(roots, path, commands, k, mode, privilege);
          ChildrenAreForest(commands[k]);
          path := path + [k];
          commands := commands[k].children;
          i := i + 1;
        } else {
          found := false;
        }
      }
      if max == 0 || !found {
        return [];
      }
      names := OfferNames(commands, LastWord(words, num), max);
    }

    // the loop while words before the last are matched
    method Descend(commands: seq<Command>, word: string, ghost path: seq<nat>) returns (k: nat)
      requires ValidForest(commands) && At(path, commands)
      ensures k <= |commands|
      ensures k < |commands| ==> Alone(Shapes(commands), k, word, mode, privilege)
      ensures k == |commands| ==> forall j: nat :: !Alone(Shapes(commands), j, word, mode, privilege)
    {
      FreshBelow(roots, path, commands, mode, privilege);
      ReachedForest(roots, path, commands);
      ghost var ns := Shapes(commands);
      k := 0;
      while k < |commands|
        invariant k <= |commands| && forall j: nat :: j < k ==> !Alone(ns, j, word, mode, privilege)
      {
        var c := commands[k];
        assert ns[k] == c.shape && FreshAt(commands, k, mode, privilege);
        if c.privilege <= privilege && (c.mode == mode || c.mode == MODE_ANY) {
          LongEnoughIsAlone(ns, k, word, mode, privilege);
          if StrnCaseEq(c.name, word, |word|) && |word| >= c.uniqueLen {
            return;
          }
        }
        k := k + 1;
      }
    }

    // the loop at the last word
    method OfferNames(commands: seq<Command>, prefix: string, max: nat) returns (names: seq<string>)
      requires ValidForest(commands)
      ensures names == AtMost(Offered(Shapes(commands), prefix, mode, privilege), max)
    {
      names := [];
      ghost var ns := Shapes(commands);
      ghost var all := Offered(ns, prefix, mode, privilege);
      assert ns[0..] == ns && [] + all == all;
      var k := 0;
      while k < |commands| && |names| < max
        invariant k <= |commands| && |names| <= max
        invariant names + Offered(ns[k..], prefix, mode, privilege) == all
      {
        var c := commands[k];
        assert ns[k] == c.shape && ns[k..][1..] == ns[k + 1..];
        ghost var rest := Offered(ns[k + 1..], prefix, mode, privilege);
        if c.privilege <= privilege && (c.mode == mode || c.mode == MODE_ANY) && StrnCaseEq(c.name, prefix, |prefix|) {
          Assoc(names, [c.name], rest);
          names := names + [c.name];
        } else {
          assert [] + rest == rest;
        }
        k := k + 1;
      }
      assert k == |commands| ==> ns[k..] == [] && names + [] == names;
    }

    /** cli_loop at the level of entered lines, until the input ends or a command quits. */
    method Loop(inputs: seq<Input>)
      requires Valid()
      modifies this, printer, Reprs(roots)`uniqueLen
      ensures Valid() && View() == Session(host, old(View()), Shapes(roots), inputs)
    {
      hide Interpreter.Submit;
      ghost var w := View();
      var over := false;
      var n := 0;
      assert inputs[0..] == inputs;
      while !over && n < |inputs|
        invariant n <= |inputs| && Valid()
        invariant Session(host, w, Shapes(roots), inputs)
               == if over then View() else Session(host, View(), Shapes(roots), inputs[n..])
        decreases |inputs| - n
      {
        assert inputs[n..][1..] == inputs[n + 1..];
        match inputs[n] {
          case Typed(line) => over := Submit(line);
          case CtrlC => CtrlC();
          case CtrlZ => CtrlZ();
        }
        n := n + 1;
      }
    }
  }
}

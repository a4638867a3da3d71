/** Safety of whole sessions: nothing runs before a login, and nothing privileged without the enable password. */
module SessionSafety {
  import opened Text
  import opened CommandTree
  import opened Interpreter

  // a login is configured, and a way to become privileged that asks for a password
  ghost predicate Guarded(host: Host) {
    (host.users != [] || host.auth.Some?) && (host.enablePassword.Some? || host.enableCallback.Some?)
  }

  /**
   `need` is the privilege each callback is to be kept for. Callbacks do not set privilege themselves, and those that
   change to another mode than exec are kept for the privileged.
   */
  ghost predicate Tame(host: Host, need: Callback -> int) {
    && need(ConfigureTerminal) >= PRIVILEGED
    && (forall id, args, log, i ::
          0 <= i < |host.user(id, args, log).calls| ==>
            var api := host.user(id, args, log).calls[i];
            !api.SetPrivilege? && (api.SetConfigmode? && api.mode != MODE_EXEC ==> need(User(id)) >= PRIVILEGED))
    && (forall text, log, i ::
          0 <= i < |host.answer(text, log).calls| ==>
            var api := host.answer(text, log).calls[i];
            !api.SetPrivilege? && (api.SetConfigmode? ==> api.mode == MODE_EXEC))
  }

  /** Every command asks for the privilege its callback is kept for. */
  ghost predicate WellGuarded(ns: seq<Cmd>, need: Callback -> int) {
    forall i :: 0 <= i < |ns| ==> WellGuardedCmd(ns[i], need)
  }

  ghost predicate WellGuardedCmd(c: Cmd, need: Callback -> int) {
    c.privilege >= need(c.callback) && WellGuarded(c.children, need)
  }

  /** A name and attempt are let in exactly when the callback takes them or some user of that name has that password. */
  lemma {:induction false} KnownUserMeaning(host: Host, users: seq<(string, string)>, name: string, attempt: string)
    ensures KnownUser(host, users, name, attempt) <==>
            exists i :: 0 <= i < |users| && users[i].0 == name && PassMatches(host, users[i].1, attempt)
  {
    if users != [] {
      KnownUserMeaning(host, users[1..], name, attempt);
      assert forall i :: 0 <= i < |users| - 1 ==> users[1..][i] == users[i + 1];
    }
  }

  // the privilege in force after a log, and whether anyone has logged in
  function PrivilegeAfter(log: seq<Event>): int {
    if log == [] then UNPRIVILEGED
    else if log[|log| - 1].PrivilegeSet? then log[|log| - 1].privilege
    else PrivilegeAfter(log[..|log| - 1])
  }

  function Entered(log: seq<Event>): bool {
    log != [] && (log[|log| - 1].LoggedIn? || Entered(log[..|log| - 1]))
  }

  /** What each event may follow. */
  ghost predicate Allowed(host: Host, need: Callback -> int, before: seq<Event>, e: Event) {
    match e
    case Ran(callback, required, _) => Entered(before) && need(callback) <= required <= PrivilegeAfter(before)
    case LoggedIn(user, password) => LoginAllowed(host, user, password)
    case Elevated(password) => Entered(before) && EnableAllowed(host, password)
    case PrivilegeSet(p) => p == UNPRIVILEGED || (p == PRIVILEGED && before != [] && before[|before| - 1].Elevated?)
    case ModeSet(m) => m == MODE_EXEC || PrivilegeAfter(before) == PRIVILEGED
    case _ => true
  }

  ghost predicate AllAllowed(host: Host, need: Callback -> int, log: seq<Event>) {
    log != [] ==> AllAllowed(host, need, log[..|log| - 1]) && Allowed(host, need, log[..|log| - 1], log[|log| - 1])
  }

  /** The session invariant. */
  ghost predicate Safe(host: Host, need: Callback -> int, w: World) {
    && AllAllowed(host, need, w.log) && PrivilegeAfter(w.log) == w.privilege
    && (w.privilege == UNPRIVILEGED || w.privilege == PRIVILEGED)
    && (w.privilege == PRIVILEGED ==> w.state == Enabled || (w.state == Request && w.prior == Enabled))
    && (w.mode != MODE_EXEC ==> w.privilege == PRIVILEGED)
    && (w.state == Request ==> w.prior == Normal || w.prior == Enabled)
    && (w.state != Login && w.state != Password ==> Entered(w.log))
  }

  // a session that commands may be run in
  ghost predicate Active(w: World) {
    w.state == Normal || w.state == Enabled || w.state == Request
  }

  lemma NoteOne(host: Host, need: Callback -> int, log: seq<Event>, e: Event)
    requires AllAllowed(host, need, log) && Allowed(host, need, log, e)
    ensures AllAllowed(host, need, log + [e])
    ensures PrivilegeAfter(log + [e]) == if e.PrivilegeSet? then e.privilege else PrivilegeAfter(log)
    ensures Entered(log + [e]) <==> e.LoggedIn? || Entered(log)
  {
    assert (log + [e])[..|log|] == log;
  }

  lemma SaySafe(host: Host, need: Callback -> int, w: World, m: Message)
    requires Safe(host, need, w)
    ensures Safe(host, need, w.Say(m))
  {
    NoteOne(host, need, w.log, Said(m));
  }

  lemma LeaveSafe(host: Host, need: Callback -> int, w: World)
    requires Safe(host, need, w)
    ensures Safe(host, need, w.WithMode(MODE_EXEC))
        && Safe(host, need, w.WithPrivilege(UNPRIVILEGED).WithMode(MODE_EXEC))
  {
    NoteOne(host, need, w.log, ModeSet(MODE_EXEC));
    NoteOne(host, need, w.log, PrivilegeSet(UNPRIVILEGED));
    NoteOne(host, need, w.log + [PrivilegeSet(UNPRIVILEGED)], ModeSet(MODE_EXEC));
  }

  lemma ModeSafe(host: Host, need: Callback -> int, w: World, m: nat)
    requires Safe(host, need, w) && (m == MODE_EXEC || w.privilege == PRIVILEGED)
    ensures Safe(host, need, w.WithMode(m))
  {
    NoteOne(host, need, w.log, ModeSet(m));
  }

  lemma {:induction false} PrintSafe(host: Host, need: Callback -> int, w: World, texts: seq<string>)
    requires Safe(host, need, w)
    ensures var w' := PrintAll(w, texts);
            Safe(host, need, w') && w' == w.(filters := w'.filters, output := w'.output)
    decreases texts
  {
    if texts != [] {
      PrintSafe(host, need, w.Print(texts[0]), texts[1..]);
    }
  }

  lemma {:induction false} CallsSafe(host: Host, need: Callback -> int, w: World, calls: seq<Api>)
    requires Safe(host, need, w) && Active(w)
    requires forall i :: 0 <= i < |calls| ==>
               !calls[i].SetPrivilege?
               && (calls[i].SetConfigmode? ==> calls[i].mode == MODE_EXEC || w.privilege == PRIVILEGED)
    ensures var w' := CallAll(w, calls); Safe(host, need, w') && Active(w') && w'.privilege == w.privilege
    decreases calls
  {
    if calls != [] {
      match calls[0] {
        case SetConfigmode(m) => ModeSafe(host, need, w, m);
        case AskUser =>
      }
      CallsSafe(host, need, Call(w, calls[0]), calls[1..]);
    }
  }

  lemma UserSafe(host: Host, need: Callback -> int, w: World, r: Reply)
    requires Safe(host, need, w) && Active(w)
    requires forall i :: 0 <= i < |r.calls| ==>
               !r.calls[i].SetPrivilege?
               && (r.calls[i].SetConfigmode? ==> r.calls[i].mode == MODE_EXEC || w.privilege == PRIVILEGED)
    ensures var w' := CallAll(PrintAll(w, r.texts), r.calls);
            Safe(host, need, w') && Active(w') && w'.privilege == w.privilege
  {
    PrintSafe(host, need, w, r.texts);
    CallsSafe(host, need, PrintAll(w, r.texts), r.calls);
  }

  lemma InvokeSafe(host: Host, need: Callback -> int, w: World, c: Cmd, args: seq<string>)
    requires Guarded(host) && Tame(host, need) && WellGuardedCmd(c, need)
    requires Safe(host, need, w) && Active(w) && c.privilege <= w.privilege
    ensures var (w', rc) := Invoke(host, w, c.callback, args);
            Safe(host, need, w') && (rc == ErrorArg ==> Active(w') && w'.privilege == w.privilege)
  {
    LeaveSafe(host, need, w);
    match c.callback
    case User(id) => UserSafe(host, need, w, host.user(id, args, w.log));
    case ConfigureTerminal => ModeSafe(host, need, w, MODE_CONFIG);
    case Exit => if w.mode > MODE_CONFIG { ModeSafe(host, need, w, MODE_CONFIG); }
    case _ =>
  }

  lemma ExecuteSafe(host: Host, need: Callback -> int, w: World, c: Cmd, args: seq<string>, words: seq<string>,
      marks: seq<nat>)
    requires GoodMarks(words, marks)
    requires Guarded(host) && Tame(host, need) && WellGuardedCmd(c, need)
    requires Safe(host, need, w) && Active(w) && c.privilege <= w.privilege
    ensures var (w', rc) := Execute(host, w, c, args, words, marks);
            Safe(host, need, w') && (rc == ErrorArg ==> Active(w') && w'.privilege == w.privilege)
  {
    match SetupChain(host, FilterArgs(words, marks), true, w.filters)
    case Ready(fs) =>
      NoteOne(host, need, w.log, Ran(c.callback, c.privilege, args));
      InvokeSafe(host, need, w.(filters := fs).Note(Ran(c.callback, c.privilege, args)), c, args);
    case Failed(fs, message) => SaySafe(host, need, w.(filters := fs), message);
    case Abandoned(fs, message, rc) => SaySafe(host, need, w.(filters := fs), message);
  }

  // running c on the words after it, or saying why not
  lemma RunSafe(host: Host, need: Callback -> int, w: World, c: Cmd, words: seq<string>, start: nat, marks: seq<nat>)
    requires GoodMarks(words, marks) && start < CommandWords(words, marks)
    requires Guarded(host) && Tame(host, need) && WellGuardedCmd(c, need)
    requires Safe(host, need, w) && Active(w) && c.privilege <= w.privilege
    ensures var (w', rc) := RunOrComplain(host, w, c, words, start, marks);
            Safe(host, need, w') && (rc == ErrorArg ==> Active(w') && w'.privilege == w.privilege)
    ensures var (w', rc) := Retry(host, w, c, words, start, marks);
            Safe(host, need, w') && (rc == ErrorArg ==> Active(w') && w'.privilege == w.privilege)
  {
    if c.callback == NoCallback {
      SaySafe(host, need, w, if c.children == [] then NoCallbackFor(c.name) else Incomplete);
      SaySafe(host, need, w, Invalid(start > 0, words[start]));
    } else {
      ExecuteSafe(host, need, w, c, words[start + 1..CommandWords(words, marks)], words, marks);
    }
  }

  lemma {:induction false} DispatchSafe(host: Host, need: Callback -> int, w: World, ns: seq<Cmd>,
      words: seq<string>, start: nat, marks: seq<nat>)
    requires GoodMarks(words, marks) && start < CommandWords(words, marks)
    requires Guarded(host) && Tame(host, need) && WellGuarded(ns, need)
    requires Safe(host, need, w) && Active(w)
    ensures var (w', rc) := Dispatch(host, w, ns, words, start, marks);
            Safe(host, need, w') && (rc == ErrorArg ==> Active(w') && w'.privilege == w.privilege)
    decreases ns, 1
  {
    var word := words[start];
    if EndsInQuery(word) {
      SaySafe(host, need, w, HelpOn(HelpNames(ns, word[..|word| - 1], w.mode, w.privilege)));
    } else {
      ChosenIsVisible(ns, word, w.mode, w.privilege);
      match Choose(ns, word, w.mode, w.privilege)
      case Nothing => SaySafe(host, need, w, Invalid(false, word));
      case Chosen(i, mode) =>
        var w1 := if mode == w.mode then w else w.WithMode(mode);
        if mode != w.mode { ModeSafe(host, need, w, mode); }
        EnterSafe(host, need, w1, ns[i], words, start, marks);
    }
  }

  lemma {:induction false} EnterSafe(host: Host, need: Callback -> int, w: World, c: Cmd, words: seq<string>,
      start: nat, marks: seq<nat>)
    requires GoodMarks(words, marks) && start < CommandWords(words, marks)
    requires Guarded(host) && Tame(host, need) && WellGuardedCmd(c, need)
    requires Safe(host, need, w) && Active(w) && c.privilege <= w.privilege
    ensures var (w', rc) := Enter(host, w, c, words, start, marks);
            Safe(host, need, w') && (rc == ErrorArg ==> Active(w') && w'.privilege == w.privilege)
    decreases c, 0
  {
    if c.children == [] || start + 1 == CommandWords(words, marks) {
      RunSafe(host, need, w, c, words, start, marks);
    } else {
      DispatchSafe(host, need, w, c.children, words, start + 1, marks);
      var (w', rc) := Dispatch(host, w, c.children, words, start + 1, marks);
      if rc == ErrorArg {
        RunSafe(host, need, w', c, words, start, marks);
      }
    }
  }

  // ----- whole sessions -----

  lemma RunCommandSafe(host: Host, need: Callback -> int, w: World, tree: seq<Cmd>, line: string)
    requires Guarded(host) && Tame(host, need) && WellGuarded(tree, need)
    requires Safe(host, need, w) && Active(w)
    ensures Safe(host, need, RunCommand(host, w, tree, line).0)
  {
    var n := Tokenizer.Indent(line);
    var words := Tokenizer.Parse(line[n..], MAX_LINE_WORDS);
    if n < |line| && words != [] {
      DispatchSafe(host, need, w, tree, words, 0, Marks(words));
    }
  }

  lemma PasswordSafe(host: Host, need: Callback -> int, w: World, tree: seq<Cmd>, line: string)
    requires Guarded(host) && Safe(host, need, w) && (w.state == Password || w.state == EnablePassword)
    ensures Safe(host, need, Submit(host, w, tree, line).0)
  {
    NoteOne(host, need, w.log, Said(AccessDenied));
    if w.state == Password {
      if LoginAllowed(host, w.username, line) {
        NoteOne(host, need, w.log, LoggedIn(w.username, line));
      }
    } else if EnableAllowed(host, line) {
      NoteOne(host, need, w.log, Elevated(line));
      NoteOne(host, need, w.log + [Elevated(line)], PrivilegeSet(PRIVILEGED));
    }
  }

  lemma AnswerSafe(host: Host, need: Callback -> int, w: World, tree: seq<Cmd>, line: string)
    requires Tame(host, need) && Safe(host, need, w) && w.state == Request
    ensures Safe(host, need, Submit(host, w, tree, line).0)
  {
    var w1 := w.(state := w.prior, prior := Login);
    UserSafe(host, need, w1, host.answer(line, w1.log));
  }

  lemma CommandSafe(host: Host, need: Callback -> int, w: World, tree: seq<Cmd>, line: string)
    requires Guarded(host) && Tame(host, need) && WellGuarded(tree, need) && Safe(host, need, w)
    requires w.state == Normal || w.state == Enabled
    ensures Safe(host, need, Submit(host, w, tree, line).0)
  {
    hide RunCommand;
    if line != "" {
      if line[|line| - 1] != '?' && !FoldEq(line, "history") {
        NoteOne(host, need, w.log, Remembered(line));
        RunCommandSafe(host, need, w.Note(Remembered(line)), tree, line);
      } else {
        RunCommandSafe(host, need, w, tree, line);
      }
    }
  }

  lemma SubmitSafe(host: Host, need: Callback -> int, w: World, tree: seq<Cmd>, line: string)
    requires Guarded(host) && Tame(host, need) && WellGuarded(tree, need) && Safe(host, need, w)
    ensures Safe(host, need, Submit(host, w, tree, line).0)
  {
    match w.state
    case Login =>
    case Password => PasswordSafe(host, need, w, tree, line);
    case EnablePassword => PasswordSafe(host, need, w, tree, line);
    case Request => AnswerSafe(host, need, w, tree, line);
    case _ => CommandSafe(host, need, w, tree, line);
  }

  /** Every reachable state of a guarded session satisfies the invariant. */
  lemma {:induction false} SessionIsSafe(host: Host, need: Callback -> int, w: World, tree: seq<Cmd>,
      inputs: seq<Input>)
    requires Guarded(host) && Tame(host, need) && WellGuarded(tree, need) && Safe(host, need, w)
    ensures Safe(host, need, Session(host, w, tree, inputs))
    decreases inputs
  {
    if inputs != [] {
      match inputs[0] {
        case Typed(line) => SubmitSafe(host, need, w, tree, line);
        case CtrlC =>
        case CtrlZ => LeaveSafe(host, need, w);
      }
      var (w', over) := React(host, w, tree, inputs[0]);
      if !over {
        SessionIsSafe(host, need, w', tree, inputs[1..]);
      }
    }
  }

  lemma {:induction false} PrefixAllowed(host: Host, need: Callback -> int, log: seq<Event>, i: nat)
    requires AllAllowed(host, need, log) && i <= |log|
    ensures AllAllowed(host, need, log[..i]) && (i < |log| ==> Allowed(host, need, log[..i], log[i]))
    decreases |log|
  {
    if i == |log| {
      assert log[..i] == log;
    } else if i < |log| - 1 {
      PrefixAllowed(host, need, log[..|log| - 1], i);
      assert log[..|log| - 1][..i] == log[..i];
    }
  }

  lemma {:induction false} WhoEntered(host: Host, need: Callback -> int, log: seq<Event>) returns (l: nat)
    requires AllAllowed(host, need, log) && Entered(log)
    ensures l < |log| && log[l].LoggedIn? && LoginAllowed(host, log[l].user, log[l].password)
  {
    l := |log| - 1;
    if !log[l].LoggedIn? {
      l := WhoEntered(host, need, log[..|log| - 1]);
    }
  }

  lemma {:induction false} WhoElevated(host: Host, need: Callback -> int, log: seq<Event>) returns (e: nat)
    requires AllAllowed(host, need, log) && PrivilegeAfter(log) == PRIVILEGED
    ensures e < |log| && log[e].Elevated? && EnableAllowed(host, log[e].password) && Entered(log[..e])
    ensures forall k :: e < k < |log| && log[k].PrivilegeSet? ==> log[k].privilege == PRIVILEGED
    ensures AllAllowed(host, need, log[..e])
  {
    var last := |log| - 1;
    if log[last].PrivilegeSet? {
      e := last - 1;
      PrefixAllowed(host, need, log, e);
    } else {
      e := WhoElevated(host, need, log[..last]);
      assert log[..last][..e] == log[..e];
      assert forall k :: 0 <= k < last ==> log[..last][k] == log[k];
    }
  }

  /**
   Whatever is typed: every command that ran was run after someone logged in with a matching password, and a
   command that asks for privilege, or whose callback is kept for the privileged, ran after a matching enable password
   was then given, with no drop of privilege in between.
   */
  lemma NothingRunsUnauthorized(host: Host, need: Callback -> int, tree: seq<Cmd>, inputs: seq<Input>, i: nat)
    requires Guarded(host) && Tame(host, need) && WellGuarded(tree, need)
    requires i < |Session(host, Start(host), tree, inputs).log|
    ensures var log := Session(host, Start(host), tree, inputs).log;
            log[i].Ran? ==>
              && (exists l :: 0 <= l < i && log[l].LoggedIn? && LoginAllowed(host, log[l].user, log[l].password))
              && (log[i].required > UNPRIVILEGED || need(log[i].callback) > UNPRIVILEGED ==>
                    exists e :: 0 <= e < i && log[e].Elevated? && EnableAllowed(host, log[e].password)
                      && (exists l :: 0 <= l < e && log[l].LoggedIn?)
                      && forall k :: e < k < i && log[k].PrivilegeSet? ==> log[k].privilege == PRIVILEGED)
  {
    SessionIsSafe(host, need, Start(host), tree, inputs);
    var log := Session(host, Start(host), tree, inputs).log;
    if log[i].Ran? {
      PrefixAllowed(host, need, log, i);
      var l := WhoEntered(host, need, log[..i]);
      assert log[l] == log[..i][l];
      if log[i].required > UNPRIVILEGED {
        PrivilegeIsOneOfTwo(host, need, log[..i]);
        var e := WhoElevated(host, need, log[..i]);
        var l' := WhoEntered(host, need, log[..i][..e]);
        assert log[e] == log[..i][e] && log[l'] == log[..i][..e][l'];
        assert forall k :: e < k < i ==> log[k] == log[..i][k];
      }
    }
  }

  lemma {:induction false} PrivilegeIsOneOfTwo(host: Host, need: Callback -> int, log: seq<Event>)
    requires AllAllowed(host, need, log)
    ensures PrivilegeAfter(log) == UNPRIVILEGED || PrivilegeAfter(log) == PRIVILEGED
  {
    if log != [] {
      PrivilegeIsOneOfTwo(host, need, log[..|log| - 1]);
    }
  }
}

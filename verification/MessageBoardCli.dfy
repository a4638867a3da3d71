/** The commands the message board daemon registers, and what the general laws say of its sessions. */
module MessageBoardCli {
  import opened Text
  import opened CommandTree
  import opened AbbrevIndex
  import opened Tokenizer
  import opened Interpreter
  import opened Libcli
  import opened SessionSafety
  import opened Outcomes
  import opened Logins
  import opened Completion
  import opened CompletionLaws
  import opened Editing

  // a command of exec mode
  function Exec(name: string, privilege: int, callback: Callback, children: seq<Cmd>): Cmd {
    Cmd(name, privilege, MODE_EXEC, callback, children)
  }

  function Leaf(name: string, privilege: int, id: nat): Cmd {
    Exec(name, privilege, User(id), [])
  }

  // cli_init
  const STANDARD: seq<Cmd> := [
    Cmd("help", UNPRIVILEGED, MODE_ANY, Help, []),
    Cmd("quit", UNPRIVILEGED, MODE_ANY, Quit, []),
    Cmd("logout", UNPRIVILEGED, MODE_ANY, Quit, []),
    Cmd("exit", UNPRIVILEGED, MODE_ANY, Exit, []),
    Cmd("history", UNPRIVILEGED, MODE_ANY, History, []),
    Exec("enable", UNPRIVILEGED, Enable, []),
    Exec("disable", PRIVILEGED, Disable, []),
    Exec("configure", PRIVILEGED, NoCallback, CONFIGURE)]

  const CONFIGURE: seq<Cmd> := [Exec("terminal", PRIVILEGED, ConfigureTerminal, [])]

  // Startcliloop
  const SET: seq<Cmd> := [
    Leaf("port", PRIVILEGED, 1),
    Leaf("startupmsg", PRIVILEGED, 2),
    Leaf("logfilepath", PRIVILEGED, 3),
    Leaf("monitorpath", PRIVILEGED, 4)]

  const SHOW: seq<Cmd> := [
    Leaf("ports", UNPRIVILEGED, 5),
    Leaf("port", UNPRIVILEGED, 6),
    Leaf("messages", UNPRIVILEGED, 7),
    Leaf("startupmsg", UNPRIVILEGED, 8),
    Leaf("logfiledir", UNPRIVILEGED, 9),
    Leaf("monitorpath", UNPRIVILEGED, 10)]

  const BOARD: seq<Cmd> := [
    Exec("set", PRIVILEGED, User(0), SET),
    Leaf("save", PRIVILEGED, 11),
    Exec("show", UNPRIVILEGED, NoCallback, SHOW),
    Leaf("message", UNPRIVILEGED, 12),
    Leaf("clear", UNPRIVILEGED, 13)]

  const TREE: seq<Cmd> := STANDARD + BOARD

  /** What is kept for the privileged: disable, configure terminal, set and everything below it, and save. */
  const KEPT: set<Callback> := {Disable, ConfigureTerminal, User(0), User(1), User(2), User(3), User(4), User(11)}

  function Need(callback: Callback): int {
    if callback in KEPT then PRIVILEGED else UNPRIVILEGED
  }

  // no subcommands below any of these
  ghost predicate Leaves(ns: seq<Cmd>) {
    forall i :: 0 <= i < |ns| ==> ns[i].children == [] && ns[i].mode == MODE_EXEC
  }

  ghost predicate GoodNames(ns: seq<Cmd>) {
    && (forall i :: 0 <= i < |ns| ==> ns[i].name != "" && IsLower(ns[i].name))
    && (forall i, j :: 0 <= i < j < |ns| ==> ns[i].name != ns[j].name)
  }

  // told apart by length, first letter or last
  predicate Apart(a: string, b: string) {
    a != "" && b != "" && (|a| != |b| || a[0] != b[0] || a[|a| - 1] != b[|b| - 1])
  }

  lemma ApartIsGood(ns: seq<Cmd>)
    requires forall i :: 0 <= i < |ns| ==> ns[i].name != "" && IsLower(ns[i].name)
    requires forall i, j :: 0 <= i < j < |ns| ==> Apart(ns[i].name, ns[j].name)
    ensures GoodNames(ns)
  {
  }

  lemma ConfigureIsGood()
    ensures GoodNames(CONFIGURE) && Leaves(CONFIGURE) && WellGuarded(CONFIGURE, Need)
  {
  }

  lemma SetIsGood()
    ensures GoodNames(SET) && Leaves(SET) && WellGuarded(SET, Need)
  {
    hide GoodNames;
    ApartIsGood(SET);
  }

  lemma ShowIsGood()
    ensures GoodNames(SHOW) && Leaves(SHOW) && WellGuarded(SHOW, Need)
  {
    hide GoodNames, Leaves, WellGuarded;
    ShowNamesAreGood();
    ShowAreLeaves();
  }

  lemma ShowNamesAreGood()
    ensures GoodNames(SHOW)
  {
    hide GoodNames;
    ApartIsGood(SHOW);
  }

  lemma ShowAreLeaves()
    ensures Leaves(SHOW) && WellGuarded(SHOW, Need)
  {
  }

  lemma StandardNamesAreGood()
    ensures GoodNames(STANDARD)
  {
    hide GoodNames;
    ApartIsGood(STANDARD);
  }

  lemma StandardIsGood()
    ensures GoodNames(STANDARD)
    ensures forall i :: 0 <= i < |STANDARD| ==> STANDARD[i].callback != ConfigureTerminal
    ensures forall i :: 0 <= i < |STANDARD| ==>
              var c := STANDARD[i]; c.children == [] || (c.mode == MODE_EXEC && c.children == CONFIGURE)
  {
    StandardNamesAreGood();
  }

  lemma BoardIsGood()
    ensures GoodNames(BOARD)
    ensures forall i :: 0 <= i < |BOARD| ==> BOARD[i].callback != ConfigureTerminal && BOARD[i].mode == MODE_EXEC
    ensures forall i :: 0 <= i < |BOARD| ==>
              var c := BOARD[i]; c.children == [] || c.children == SET || c.children == SHOW
  {
  }

  lemma TopIsGood()
    ensures GoodNames(TREE)
    ensures forall i :: 0 <= i < |TREE| ==>
              var c := TREE[i];
              c.callback != ConfigureTerminal
              && (c.children == [] || (c.mode == MODE_EXEC
                  && (c.children == CONFIGURE || c.children == SET || c.children == SHOW)))
  {
    StandardIsGood();
    BoardIsGood();
    NamesApart();
  }

  lemma NamesApart()
    ensures forall i, j :: 0 <= i < |STANDARD| && 0 <= j < |BOARD| ==> STANDARD[i].name != BOARD[j].name
  {
    forall i, j | 0 <= i < |STANDARD| && 0 <= j < |BOARD| ensures Apart(STANDARD[i].name, BOARD[j].name) {
    }
  }

  lemma LeavesAreWell(ns: seq<Cmd>)
    requires Leaves(ns) && GoodNames(ns)
    ensures WellNamed(ns) && Scoped(ns) && Under(ns, MODE_EXEC)
  {
  }

  lemma TreeIsWellNamed()
    ensures WellNamed(TREE)
  {
    hide GoodNames, Leaves, WellGuarded;
    PartsAreWell();
    TopIsGood();
    GoodTop();
  }

  lemma TreeIsScoped()
    ensures Scoped(TREE)
  {
    hide GoodNames, Leaves, WellGuarded;
    PartsAreWell();
    TopIsGood();
  }

  lemma PartsAreWell()
    ensures forall ns :: ns in {[], CONFIGURE, SET, SHOW} ==> WellNamed(ns) && Scoped(ns) && Under(ns, MODE_EXEC)
  {
    ConfigureIsGood();
    SetIsGood();
    ShowIsGood();
    LeavesAreWell([]);
    LeavesAreWell(CONFIGURE);
    LeavesAreWell(SET);
    LeavesAreWell(SHOW);
  }

  lemma GoodTop()
    ensures forall i :: 0 <= i < |TREE| ==> TREE[i].name != "" && IsLower(TREE[i].name)
    ensures forall i, j :: 0 <= i < j < |TREE| ==> TREE[i].name != TREE[j].name
  {
    TopIsGood();
  }

  lemma TreeIsGuarded()
    ensures WellGuarded(TREE, Need)
  {
    ConfigureIsGood();
    SetIsGood();
    ShowIsGood();
    TopIsGood();
  }

  /** The daemon's tree meets everything the index and dispatch ask of registration. */
  lemma TreeIsWellRegistered()
    ensures WellNamed(TREE) && Scoped(TREE) && WellGuarded(TREE, Need)
  {
    TreeIsWellNamed();
    TreeIsScoped();
    TreeIsGuarded();
  }

  /** `show port` reaches port although ports begins with it, and `show po` reaches neither. */
  lemma PortAmongPorts(privilege: int)
    requires privilege >= UNPRIVILEGED
    ensures Choose(SHOW, "port", MODE_EXEC, privilege) == Chosen(1, MODE_EXEC)
    ensures Choose(SHOW, "po", MODE_EXEC, privilege) == Nothing
  {
    ShowIsGood();
    LeavesAreWell(SHOW);
    WholeNameAlwaysReaches(SHOW, 1, MODE_EXEC, privilege);
    ChooseCurrent(SHOW, 1, "port", MODE_EXEC, privilege);
    assert FoldPrefix("po", SHOW[0].name) && FoldPrefix("po", SHOW[1].name);
    forall i: nat ensures !Names(SHOW, i, "po", MODE_EXEC, privilege) {
      if 2 <= i < |SHOW| { assert SHOW[i].name[0] != 'p'; }
    }
  }

  lemma ShowWithin(k: nat)
    requires 2 <= k <= |SHOW|
    ensures FittingBefore(SHOW[k..], |SHOW| - k, "po", MODE_EXEC, UNPRIVILEGED) == 0
    decreases |SHOW| - k
  {
    if k < |SHOW| {
      assert SHOW[k..][1..] == SHOW[k + 1..] && SHOW[k..][0] == SHOW[k] && SHOW[k].name[0] != 'p';
      ShowWithin(k + 1);
    }
  }

  /** After show, TAB behind po offers ports and port. */
  lemma ShowPoOffers()
    ensures Completions(TREE, "show po", MAX_LINE_WORDS, MODE_EXEC, UNPRIVILEGED) == ["ports", "port"]
  {
    hide Completions;
    var path := [|STANDARD| + 2];
    var names := Completions(TREE, "show po", MAX_LINE_WORDS, MODE_EXEC, UNPRIVILEGED);
    ShowAlone();
    assert ["show"] + ["po"] == ["show", "po"] && ["show", "po"][1..] == ["po"] && Join(["show", "po"]) == "show po";
    TypedLineOffersAll(TREE, ["show"], "po", path, MAX_LINE_WORDS, MODE_EXEC, UNPRIVILEGED);
    PoAmongShow();
    assert names[0] == SHOW[0].name && names[1] == SHOW[1].name;
  }

  lemma ShowAlone()
    ensures Leads(TREE, [|STANDARD| + 2], ["show"], MODE_EXEC, UNPRIVILEGED)
    ensures Along(TREE, [|STANDARD| + 2]) == SHOW
  {
    var path := [|STANDARD| + 2];
    assert TREE[path[0]] == BOARD[2] && path[..0] == [] && path[1..] == [];
    forall j | 0 <= j < |TREE| && j != path[0] ensures !FoldPrefix("show", TREE[j].name) { OnlyShow(j); }
    assert LeadsOn(TREE, path, ["show"], 0, MODE_EXEC, UNPRIVILEGED);
  }

  lemma PoAmongShow()
    ensures Fitting(SHOW[0], "po", MODE_EXEC, UNPRIVILEGED) && Fitting(SHOW[1], "po", MODE_EXEC, UNPRIVILEGED)
    ensures FittingBefore(SHOW, 0, "po", MODE_EXEC, UNPRIVILEGED) == 0
    ensures FittingBefore(SHOW, 1, "po", MODE_EXEC, UNPRIVILEGED) == 1
    ensures FittingBefore(SHOW, |SHOW|, "po", MODE_EXEC, UNPRIVILEGED) == 2
  {
    ShowWithin(2);
    assert SHOW[1..][1..] == SHOW[2..] && SHOW[1..][0] == SHOW[1];
    assert FittingBefore(SHOW[1..], |SHOW| - 1, "po", MODE_EXEC, UNPRIVILEGED) == 1;
  }

  lemma OnlyShow(i: nat)
    requires i < |TREE|
    ensures FoldPrefix("show", TREE[i].name) <==> i == |STANDARD| + 2
  {
    if i < |STANDARD| {
      assert TREE[i] == STANDARD[i] && STANDARD[i].name[0] != 's';
    } else {
      var k := i - |STANDARD|;
      assert TREE[i] == BOARD[k];
      assert k == 0 ==> BOARD[k].name[1] == 'e';
      assert k == 1 ==> BOARD[k].name[1] == 'a';
      assert k > 2 ==> BOARD[k].name[0] != 's';
    }
  }

  const QUOTED_SHOW: string := "\"show\""

  lemma QuotedShowParses()
    ensures Indent(QUOTED_SHOW) == 0 && Parse(QUOTED_SHOW, MAX_LINE_WORDS) == ["show"]
  {
    IndentIs(QUOTED_SHOW, 0);
    assert QUOTED_SHOW[1..5] == "show";
    ScanQuoted(QUOTED_SHOW, 0, 5, 0, [], MAX_LINE_WORDS);
    assert [] + ["show"] == ["show"];
  }

  lemma ShowIsOffered()
    ensures Offered(TREE, "show", MODE_EXEC, UNPRIVILEGED) == ["show"]
  {
    forall i | 0 <= i < |TREE| ensures Fitting(TREE[i], "show", MODE_EXEC, UNPRIVILEGED) <==> i == |STANDARD| + 2 {
      OnlyShow(i);
    }
    OneOffered(TREE, |STANDARD| + 2, "show", MODE_EXEC, UNPRIVILEGED);
  }

  lemma QuotedShowHasNoStem()
    ensures Stem(QUOTED_SHOW) == ""
  {
    StemMeaning(QUOTED_SHOW);
    assert forall k :: 0 <= k < |QUOTED_SHOW| ==> QUOTED_SHOW[k] != ' ' && QUOTED_SHOW[k] != '|';
  }

  /** Typed "show" with its quotes, a TAB finds show, which does not cover it: the closing quote stays in the line. */
  lemma QuotedShowIsNotCovered()
    ensures Completions(TREE, QUOTED_SHOW, MAX_LINE_WORDS, MODE_EXEC, UNPRIVILEGED) == ["show"]
    ensures var z := Line(QUOTED_SHOW, "");
            Fits(z, Complete("show")) && !Covers(z, Complete("show")) && Residue(z, Complete("show")) == "\""
  {
    var words := ["show"];
    QuotedShowParses();
    ShowIsOffered();
    QuotedShowHasNoStem();
    assert QUOTED_SHOW[0..] == QUOTED_SHOW && LastPipe(words, |words|) == 0;
    assert NumWords(QUOTED_SHOW, words) == 1 && LastWord(words, 1) == "show";
  }

  /**
   A session of the daemon, whatever is typed into it: nothing runs before a login, and set, save, disable and
   configure terminal run only after a login and then the enable password, with no drop of privilege since.
   */
  lemma DaemonSessionsAreSafe(host: Host, inputs: seq<Input>, i: nat)
    requires Guarded(host) && Tame(host, Need)
    requires i < |Session(host, Start(host), TREE, inputs).log|
    ensures var log := Session(host, Start(host), TREE, inputs).log;
            log[i].Ran? ==>
              && (exists l :: 0 <= l < i && log[l].LoggedIn? && LoginAllowed(host, log[l].user, log[l].password))
              && (log[i].callback in KEPT ==>
                    exists e :: 0 <= e < i && log[e].Elevated? && EnableAllowed(host, log[e].password)
                      && (exists l :: 0 <= l < e && log[l].LoggedIn?)
                      && forall k :: e < k < i && log[k].PrivilegeSet? ==> log[k].privilege == PRIVILEGED)
  {
    TreeIsWellRegistered();
    NothingRunsUnauthorized(host, Need, TREE, inputs, i);
  }

  lemma OnlySave(i: nat)
    requires i < |TREE|
    ensures FoldPrefix("save", TREE[i].name) <==> i == |STANDARD| + 1
  {
    if i < |STANDARD| {
      assert TREE[i] == STANDARD[i] && STANDARD[i].name[0] != 's';
    } else {
      var k := i - |STANDARD|;
      assert TREE[i] == BOARD[k];
      assert k == 0 ==> BOARD[k].name[1] == 'e';
      assert k == 2 ==> BOARD[k].name[1] == 'h';
      assert k > 2 ==> BOARD[k].name[0] != 's';
    }
  }

  /** save is a command to the privileged alone. */
  lemma SaveIsKept()
    ensures Choose(TREE, "save", MODE_EXEC, PRIVILEGED) == Chosen(|STANDARD| + 1, MODE_EXEC)
    ensures Choose(TREE, "save", MODE_EXEC, UNPRIVILEGED) == Nothing
  {
    TreeIsWellNamed();
    var i := |STANDARD| + 1;
    assert TREE[i] == BOARD[1];
    WholeNameAlwaysReaches(TREE, i, MODE_EXEC, PRIVILEGED);
    ChooseCurrent(TREE, i, "save", MODE_EXEC, PRIVILEGED);
    forall j: nat ensures !Names(TREE, j, "save", MODE_EXEC, UNPRIVILEGED) {
      if j < |TREE| { OnlySave(j); }
    }
  }

  /** enable and disable are commands in exec mode, to whom they are for. */
  lemma PrivilegeCommands()
    ensures Choose(TREE, "enable", MODE_EXEC, UNPRIVILEGED) == Chosen(5, MODE_EXEC) && TREE[5].callback == Enable
    ensures Choose(TREE, "disable", MODE_EXEC, PRIVILEGED) == Chosen(6, MODE_EXEC) && TREE[6].callback == Disable
  {
    TreeIsWellNamed();
    assert TREE[5] == STANDARD[5] && TREE[6] == STANDARD[6];
    WholeNameAlwaysReaches(TREE, 5, MODE_EXEC, UNPRIVILEGED);
    WholeNameAlwaysReaches(TREE, 6, MODE_EXEC, PRIVILEGED);
    ChooseCurrent(TREE, 5, "enable", MODE_EXEC, UNPRIVILEGED);
    ChooseCurrent(TREE, 6, "disable", MODE_EXEC, PRIVILEGED);
  }

  // a single word of the tree's top level that names a command without subcommands
  lemma OneWord(host: Host, w: World, word: string, i: nat)
    requires i < |TREE| && Bare(word) && TREE[i].children == [] && TREE[i].callback != NoCallback
    requires Choose(TREE, word, w.mode, w.privilege) == Chosen(i, w.mode)
    requires (w.state == Normal || w.state == Enabled) && !EndsInQuery(word) && !FoldEq(word, "history")
    ensures var w1 := w.Note(Remembered(word)).Note(Ran(TREE[i].callback, TREE[i].privilege, []));
            var (w', rc) := Invoke(host, w1, TREE[i].callback, []);
            Submit(host, w, TREE, word) == (w'.Close(), rc == Quitting)
  {
    hide Invoke, Choose, FoldEq, Bare, RunCommand, Submit;
    EnteredWordsAreDispatched(host, w, TREE, [word]);
    var w0 := w.Note(Remembered(word));
    assert Join([word]) == word;
    assert FilterArgs([word], []) == [];
    assert [word][1..1] == [];
    assert w0.(filters := w0.filters) == w0;
    assert Dispatch(host, w0, TREE, [word], 0, []) == Enter(host, w0, TREE[i], [word], 0, []);
  }

  /**
   A privileged session of the daemon that is typed disable and then save: save is refused as an unknown command, and
   nothing is saved.
   */
  lemma DisableThenSave(host: Host, w: World)
    requires (w.state == Normal || w.state == Enabled) && w.mode == MODE_EXEC && w.privilege == PRIVILEGED
    ensures var w' := Session(host, w, TREE, [Typed("disable"), Typed("save")]);
            && w'.privilege == UNPRIVILEGED && w'.mode == MODE_EXEC && w'.state == w.state
            && w'.log == w.log + [
                 Remembered("disable"), Ran(Disable, PRIVILEGED, []), PrivilegeSet(UNPRIVILEGED), ModeSet(MODE_EXEC),
                 Remembered("save"), Said(Invalid(false, "save"))]
  {
    hide Submit, Choose;
    PrivilegeCommands();
    OneWord(host, w, "disable", 6);
    TwoInputs(host, w, TREE, "disable", "save");
    SaveIsRefused(host, Submit(host, w, TREE, "disable").0);
  }

  lemma SaveIsRefused(host: Host, w: World)
    requires (w.state == Normal || w.state == Enabled) && w.mode == MODE_EXEC && w.privilege == UNPRIVILEGED
    ensures Submit(host, w, TREE, "save") == (w.Note(Remembered("save")).Say(Invalid(false, "save")), false)
  {
    hide Submit, Choose, Enter;
    SaveIsKept();
    assert Join(["save"]) == "save";
    EnteredWordsAreDispatched(host, w, TREE, ["save"]);
  }

  lemma TwoInputs(host: Host, w: World, tree: seq<Cmd>, a: string, b: string)
    ensures Session(host, w, tree, [Typed(a), Typed(b)]) ==
            var (w', over) := Submit(host, w, tree, a); if over then w' else Submit(host, w', tree, b).0
  {
    hide Submit;
    assert [Typed(a), Typed(b)][1..] == [Typed(b)] && [Typed(b)][1..] == [];
    var w1 := Submit(host, w, tree, a).0;
    var w2 := Submit(host, w1, tree, b).0;
    assert Session(host, w2, tree, []) == w2 && Session(host, w1, tree, [Typed(b)]) == w2;
  }

  /** enable and a password: the session is privileged after it if and only if the password is the right one. */
  lemma EnableThenPassword(host: Host, w: World, attempt: string)
    requires (w.state == Normal || w.state == Enabled) && w.mode == MODE_EXEC && w.privilege == UNPRIVILEGED
    requires host.enablePassword.Some? || host.enableCallback.Some?
    ensures var w' := Session(host, w, TREE, [Typed("enable"), Typed(attempt)]);
            w'.mode == MODE_EXEC && (w'.privilege == PRIVILEGED <==> EnableAllowed(host, attempt))
            && w'.state == (if EnableAllowed(host, attempt) then Enabled else Normal)
  {
    hide Submit, Choose, PassMatches;
    PrivilegeCommands();
    OneWord(host, w, "enable", 5);
    TwoInputs(host, w, TREE, "enable", attempt);
    ElevationOutcome(host, Submit(host, w, TREE, "enable").0, TREE, attempt);
  }

  lemma OnlyExit(i: nat)
    requires i < |TREE|
    ensures FoldPrefix("exit", TREE[i].name) <==> i == 3
  {
    if i < |STANDARD| {
      assert TREE[i] == STANDARD[i];
      assert i == 5 ==> STANDARD[i].name[1] == 'n';
      assert i != 3 && i != 5 ==> STANDARD[i].name[0] != 'e';
    } else {
      assert TREE[i] == BOARD[i - |STANDARD|] && BOARD[i - |STANDARD|].name[0] != 'e';
    }
  }

  /** exit is a command in every mode, and leads nowhere else. */
  lemma ExitIsEverywhere(mode: nat, privilege: int)
    requires privilege >= UNPRIVILEGED
    ensures Choose(TREE, "exit", mode, privilege) == Chosen(3, mode) && TREE[3].callback == Exit
  {
    TreeIsWellNamed();
    assert TREE[3] == STANDARD[3];
    WholeNameAlwaysReaches(TREE, 3, mode, privilege);
    forall j: nat ensures !NamesCurrent(TREE, j, "exit", mode, privilege)
                       && !NamesConfig(TREE, j, "exit", mode, privilege)
    {
      if j < |TREE| { OnlyExit(j); }
    }
    ChooseAny(TREE, 3, "exit", mode, privilege);
  }
}

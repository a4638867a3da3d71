/**
 What a libcli session does, stated without the abbreviation index: words are resolved by searching the visible
 siblings for ambiguity, and every handler is a function of the session's state. Module `Libcli` implements it.
 */
module Interpreter {
  import opened Text
  import opened CommandTree
  import opened AbbrevIndex
  import opened Pipeline
  import opened Tokenizer
  import opened Wrappers

  const MAX_LINE_WORDS: nat := 128

  datatype Rc = Ok | Error | Quitting | ErrorArg

  // enum cli_states
  datatype State = Login | Password | Normal | EnablePassword | Enabled | Request

  // the calls back into libcli that a registered callback can make
  datatype Api = SetPrivilege(privilege: int) | SetConfigmode(mode: nat) | AskUser

  datatype Reply = Reply(texts: seq<string>, calls: seq<Api>, rc: Rc)

  datatype Message =
    | Invalid(argument: bool, word: string)
    | Incomplete
    | NoCallbackFor(name: string)
    | HelpOn(names: seq<string>)
    | FilterHelp
    | MissingFilter
    | AmbiguousFilter(word: string)
    | InvalidFilter(word: string)
    | FilterArguments
    | AccessDenied

  datatype Event =
    | Said(message: Message)
    | PrivilegeSet(privilege: int)
    | ModeSet(mode: nat)
    | LoggedIn(user: string, password: string)
    | Elevated(password: string)
    | Remembered(line: string)
    | Ran(callback: Callback, required: int, args: seq<string>)

  /** The program around libcli: its users and passwords, and the callbacks it registered, as functions. */
  datatype Host = Host(
    users: seq<(string, string)>,
    auth: Option<(string, string) -> bool>,
    enablePassword: Option<string>,
    enableCallback: Option<string -> bool>,
    crypt: (string, string) -> string,
    compile: seq<string> -> Option<string -> bool>,
    user: (nat, seq<string>, seq<Event>) -> Reply,
    answer: (string, seq<Event>) -> Reply)

  datatype World = World(
    privilege: int, mode: nat, state: State, prior: State, username: string,
    filters: seq<Filter>, output: seq<Output>, log: seq<Event>)
  {
    function Note(e: Event): World { this.(log := log + [e]) }
    function Say(m: Message): World { Note(Said(m)) }
    function WithPrivilege(p: int): World { this.(privilege := p).Note(PrivilegeSet(p)) }
    function WithMode(m: nat): World { this.(mode := m).Note(ModeSet(m)) }
    function Asking(): World { if state == Request then this else this.(prior := state, state := Request) }

    function Print(text: string): World {
      var (fs, lines) := PushAll(filters, Split(text));
      this.(filters := fs, output := output + Lines(lines))
    }

    function Close(): World { this.(filters := [], output := output + Figures(filters)) }
  }

  function PrintAll(w: World, texts: seq<string>): World
    decreases texts
  {
    if texts == [] then w else PrintAll(w.Print(texts[0]), texts[1..])
  }

  function Call(w: World, api: Api): World {
    match api
    case SetPrivilege(p) => w.WithPrivilege(p)
    case SetConfigmode(m) => w.WithMode(m)
    case AskUser => w.Asking()
  }

  function CallAll(w: World, calls: seq<Api>): World
    decreases calls
  {
    if calls == [] then w else CallAll(Call(w, calls[0]), calls[1..])
  }

  // ----- built-in and registered callbacks -----

  function Invoke(host: Host, w: World, callback: Callback, args: seq<string>): (World, Rc) {
    match callback
    case NoCallback => (w, Error)
    case Help => (w, Ok)
    case History => (w, Ok)
    case Enable =>
      if w.privilege == PRIVILEGED then (w, Ok)
      else if host.enablePassword.None? && host.enableCallback.None? then
        (w.WithPrivilege(PRIVILEGED).WithMode(MODE_EXEC), Ok)
      else (w.(state := EnablePassword), Ok)
    case Disable => (w.WithPrivilege(UNPRIVILEGED).WithMode(MODE_EXEC), Ok)
    case Quit => (w.WithPrivilege(UNPRIVILEGED).WithMode(MODE_EXEC), Quitting)
    case Exit =>
      if w.mode == MODE_EXEC then (w.WithPrivilege(UNPRIVILEGED).WithMode(MODE_EXEC), Quitting)
      else if w.mode > MODE_CONFIG then (w.WithMode(MODE_CONFIG), Ok)
      else (w.WithMode(MODE_EXEC), Ok)
    case ConfigureTerminal => (w.WithMode(MODE_CONFIG), Ok)
    case User(id) =>
      var r := host.user(id, args, w.log);
      (CallAll(PrintAll(w, r.texts), r.calls), r.rc)
  }

  // ----- filters named on the command line -----

  datatype Parsed = Installed(filter: Filter) | Refused(message: Message)

  /** Which filter a word abbreviates, case-sensitively, and whether its arguments will do. */
  function InitFilter(host: Host, argv: seq<string>): Parsed
    requires argv != []
  {
    var name := argv[0];
    if || HasPrefix(name, "include") || HasPrefix(name, "exclude")
       || HasPrefix(name, "grep") || HasPrefix(name, "egrep")
    then
      if |argv| < 2 then Refused(FilterArguments)
      else if HasPrefix("i", name) || HasPrefix("ex", name) then
        Installed(Match(Join(argv[1..]), name[0] == 'e'))
      else
        var compiled := host.compile(argv);
        if compiled.None? then Refused(FilterArguments) else Installed(Grep(compiled.value))
    else if HasPrefix(name, "begin") || HasPrefix(name, "between") then
      if HasPrefix("bet", name) then
        if |argv| < 3 then Refused(FilterArguments) else Installed(Range(false, argv[1], Some(Join(argv[2..]))))
      else
        if |argv| < 2 then Refused(FilterArguments) else Installed(Range(false, Join(argv[1..]), None))
    else if HasPrefix(name, "count") then
      if |argv| > 1 then Refused(FilterArguments) else Installed(Count(0))
    else Refused(InvalidFilter(name))
  }

  predicate EndsInQuery(word: string) {
    word != "" && word[|word| - 1] == '?'
  }

  // positions of the words that begin with a pipe; a pipe in first place hides them all
  function PipesFrom(words: seq<string>, i: nat): (marks: seq<nat>)
    requires i <= |words|
    ensures forall k :: 0 <= k < |marks| ==> i <= marks[k] < |words| && HasPrefix("|", words[marks[k]])
    ensures forall k, l :: 0 <= k < l < |marks| ==> marks[k] < marks[l]
    decreases |words| - i
  {
    if i == |words| then []
    else (if HasPrefix("|", words[i]) then [i] else []) + PipesFrom(words, i + 1)
  }

  function Marks(words: seq<string>): (marks: seq<nat>)
    ensures GoodMarks(words, marks)
  {
    var all := PipesFrom(words, 0);
    if all != [] && all[0] == 0 then [] else all
  }

  predicate GoodMarks(words: seq<string>, marks: seq<nat>) {
    && (forall k :: 0 <= k < |marks| ==> 0 < marks[k] < |words|)
    && (forall k, l :: 0 <= k < l < |marks| ==> marks[k] < marks[l])
  }

  function CommandWords(words: seq<string>, marks: seq<nat>): nat {
    if marks == [] then |words| else marks[0]
  }

  // the chain is ready; or a filter was refused and the chain is closed; or libcli returns leaving it in place
  datatype Setup =
    | Ready(filters: seq<Filter>)
    | Failed(filters: seq<Filter>, message: Message)
    | Abandoned(filters: seq<Filter>, message: Message, rc: Rc)

  datatype Turn = Done(setup: Setup) | More(chain: seq<Filter>)

  // one filter and its arguments; the first takes the place of whatever chain was left behind
  function FilterTurn(host: Host, argv: seq<string>, first: bool, chain: seq<Filter>): Turn {
    if argv == [] then Done(Abandoned(chain, MissingFilter, Error))
    else if EndsInQuery(argv[|argv| - 1]) then Done(Abandoned(chain, FilterHelp, Ok))
    else if HasPrefix("b", argv[0]) && |argv[0]| < 3 then Done(Abandoned(chain, AmbiguousFilter(argv[0]), Error))
    else
      var kept := if first then [] else chain;
      match InitFilter(host, argv)
      case Installed(filter) => More(kept + [filter])
      case Refused(message) => Done(Failed(kept, message))
  }

  // the words after the f-th pipe, up to the next
  function FilterWords(words: seq<string>, marks: seq<nat>, f: nat): seq<string>
    requires GoodMarks(words, marks) && f < |marks|
  {
    words[marks[f] + 1..if f + 1 < |marks| then marks[f + 1] else |words|]
  }

  function FilterArgs(words: seq<string>, marks: seq<nat>): (argvs: seq<seq<string>>)
    requires GoodMarks(words, marks)
    ensures |argvs| == |marks|
  {
    seq(|marks|, f requires 0 <= f < |marks| => FilterWords(words, marks, f))
  }

  function SetupChain(host: Host, argvs: seq<seq<string>>, first: bool, chain: seq<Filter>): Setup
    decreases argvs
  {
    if argvs == [] then Ready(chain)
    else
      match FilterTurn(host, argvs[0], first, chain)
      case Done(setup) => setup
      case More(chain') => SetupChain(host, argvs[1..], false, chain')
  }

  /** Builds the chain, then runs the callback of `c` with `args` and closes the chain. */
  function Execute(host: Host, w: World, c: Cmd, args: seq<string>, words: seq<string>, marks: seq<nat>): (World, Rc)
    requires GoodMarks(words, marks)
  {
    match SetupChain(host, FilterArgs(words, marks), true, w.filters)
    case Ready(fs) =>
      var (w', rc) := Invoke(host, w.(filters := fs).Note(Ran(c.callback, c.privilege, args)), c.callback, args);
      (w'.Close(), rc)
    case Failed(fs, message) => (w.(filters := fs).Say(message).Close(), Error)
    case Abandoned(fs, message, rc) => (w.(filters := fs).Say(message), rc)
  }

  // ----- resolving words -----

  /** A word as the name of a sibling of the current mode. */
  ghost predicate NamesCurrent(ns: seq<Cmd>, i: nat, word: string, mode: nat, privilege: int) {
    Names(ns, i, word, mode, privilege) && ns[i].mode == mode
  }

  /** In a config submode, the full name of a command of config mode leads back there. */
  ghost predicate NamesConfig(ns: seq<Cmd>, i: nat, word: string, mode: nat, privilege: int) {
    && mode > MODE_CONFIG && i < |ns| && ns[i].mode == MODE_CONFIG && ns[i].privilege <= privilege
    && FoldEq(word, ns[i].name)
  }

  ghost predicate NamesAny(ns: seq<Cmd>, i: nat, word: string, mode: nat, privilege: int) {
    Names(ns, i, word, mode, privilege) && ns[i].mode == MODE_ANY
  }

  datatype Choice = Nothing | Chosen(i: nat, mode: nat)

  /** Current mode first, then config mode from a submode, then commands of any mode. */
  ghost function Choose(ns: seq<Cmd>, word: string, mode: nat, privilege: int): (r: Choice)
    ensures r.Chosen? ==> r.i < |ns|
  {
    if exists i: nat :: NamesCurrent(ns, i, word, mode, privilege) then
      var i: nat :| NamesCurrent(ns, i, word, mode, privilege); Chosen(i, mode)
    else if exists i: nat :: NamesConfig(ns, i, word, mode, privilege) then
      var i: nat :| NamesConfig(ns, i, word, mode, privilege); Chosen(i, MODE_CONFIG)
    else if exists i: nat :: NamesAny(ns, i, word, mode, privilege) then
      var i: nat :| NamesAny(ns, i, word, mode, privilege); Chosen(i, mode)
    else Nothing
  }

  lemma SameFolded(a: string, b: string, w: string)
    requires IsLower(a) && IsLower(b) && FoldEq(w, a) && FoldEq(w, b)
    ensures a == b
  {
    assert forall k :: 0 <= k < |w| ==> a[k] == Lower(a[k]) == Lower(b[k]) == b[k];
  }

  /** Each of the three readings of a word singles out one sibling at most, so the choice is theirs. */
  lemma ChooseCurrent(ns: seq<Cmd>, i: nat, word: string, mode: nat, privilege: int)
    requires WellNamed(ns) && NamesCurrent(ns, i, word, mode, privilege)
    ensures Choose(ns, word, mode, privilege) == Chosen(i, mode)
  {
    forall j: nat | NamesCurrent(ns, j, word, mode, privilege) ensures j == i {
      AtMostOneNamed(ns, i, j, word, mode, privilege);
    }
  }

  lemma ChooseConfig(ns: seq<Cmd>, i: nat, word: string, mode: nat, privilege: int)
    requires WellNamed(ns) && NamesConfig(ns, i, word, mode, privilege)
    requires forall j: nat :: !NamesCurrent(ns, j, word, mode, privilege)
    ensures Choose(ns, word, mode, privilege) == Chosen(i, MODE_CONFIG)
  {
    forall j: nat | NamesConfig(ns, j, word, mode, privilege) ensures j == i {
      SameFolded(ns[i].name, ns[j].name, word);
    }
  }

  lemma ChooseAny(ns: seq<Cmd>, i: nat, word: string, mode: nat, privilege: int)
    requires WellNamed(ns) && NamesAny(ns, i, word, mode, privilege)
    requires forall j: nat :: !NamesCurrent(ns, j, word, mode, privilege) && !NamesConfig(ns, j, word, mode, privilege)
    ensures Choose(ns, word, mode, privilege) == Chosen(i, mode)
  {
    forall j: nat | NamesAny(ns, j, word, mode, privilege) ensures j == i {
      AtMostOneNamed(ns, i, j, word, mode, privilege);
    }
  }

  // a command of any mode whose name a command of the current mode, or of config mode from a submode, also has
  ghost predicate Shadowed(ns: seq<Cmd>, i: nat, word: string, mode: nat, privilege: int)
    requires i < |ns|
  {
    ns[i].mode == MODE_ANY && exists j: nat ::
      NamesCurrent(ns, j, word, mode, privilege) || NamesConfig(ns, j, word, mode, privilege)
  }

  /** A word that names a command is taken by it exactly when the command is not shadowed. */
  lemma NamedIsChosen(ns: seq<Cmd>, i: nat, word: string, mode: nat, privilege: int)
    requires WellNamed(ns) && Names(ns, i, word, mode, privilege)
    ensures Choose(ns, word, mode, privilege) == Chosen(i, mode) <==> !Shadowed(ns, i, word, mode, privilege)
  {
    if ns[i].mode == mode {
      ChooseCurrent(ns, i, word, mode, privilege);
    } else if !Shadowed(ns, i, word, mode, privilege) {
      ChooseAny(ns, i, word, mode, privilege);
    } else if exists j: nat :: NamesCurrent(ns, j, word, mode, privilege) {
      var j: nat :| NamesCurrent(ns, j, word, mode, privilege);
      ChooseCurrent(ns, j, word, mode, privilege);
    } else {
      var j: nat :| NamesConfig(ns, j, word, mode, privilege);
      ChooseConfig(ns, j, word, mode, privilege);
    }
  }

  /** What a word means: the command it names, unless shadowed, or in a submode the config command it spells out. */
  ghost predicate Means(ns: seq<Cmd>, i: nat, m: nat, word: string, mode: nat, privilege: int) {
    || (m == mode && Names(ns, i, word, mode, privilege) && !Shadowed(ns, i, word, mode, privilege))
    || (m == MODE_CONFIG && NamesConfig(ns, i, word, mode, privilege)
        && forall j: nat :: !NamesCurrent(ns, j, word, mode, privilege))
  }

  lemma ChosenIsMeant(ns: seq<Cmd>, i: nat, m: nat, word: string, mode: nat, privilege: int)
    requires WellNamed(ns)
    ensures Choose(ns, word, mode, privilege) == Chosen(i, m) <==> Means(ns, i, m, word, mode, privilege)
  {
    if Means(ns, i, m, word, mode, privilege) {
      if NamesConfig(ns, i, word, mode, privilege) {
        ChooseConfig(ns, i, word, mode, privilege);
      } else {
        NamedIsChosen(ns, i, word, mode, privilege);
      }
    }
  }

  lemma ChosenIsVisible(ns: seq<Cmd>, word: string, mode: nat, privilege: int)
    ensures var r := Choose(ns, word, mode, privilege);
            r.Chosen? ==>
              && Visible(ns[r.i], r.mode, privilege)
              && (r.mode == mode || (mode > MODE_CONFIG && r.mode == MODE_CONFIG && ns[r.i].mode == MODE_CONFIG))
  {
  }

  function HelpNames(ns: seq<Cmd>, prefix: string, mode: nat, privilege: int): seq<string> {
    if ns == [] then []
    else
      var c := ns[0];
      (if FoldPrefix(prefix, c.name) && (c.callback != NoCallback || c.children != []) && Visible(c, mode, privilege)
       then [c.name] else [])
      + HelpNames(ns[1..], prefix, mode, privilege)
  }

  /** Resolves words from `start` on among `ns` and runs what they name. */
  ghost function Dispatch(host: Host, w: World, ns: seq<Cmd>, words: seq<string>, start: nat,
      marks: seq<nat>): (World, Rc)
    requires GoodMarks(words, marks) && start < CommandWords(words, marks)
    decreases ns
  {
    var word := words[start];
    if EndsInQuery(word) then
      (w.Say(HelpOn(HelpNames(ns, word[..|word| - 1], w.mode, w.privilege))), Ok)
    else
      match Choose(ns, word, w.mode, w.privilege)
      case Nothing => (if start == 0 then w.Say(Invalid(false, word)) else w, ErrorArg)
      case Chosen(i, mode) =>
        Enter(host, if mode == w.mode then w else w.WithMode(mode), ns[i], words, start, marks)
  }

  // with words[start] taken by c
  ghost function Enter(host: Host, w: World, c: Cmd, words: seq<string>, start: nat, marks: seq<nat>): (World, Rc)
    requires GoodMarks(words, marks) && start < CommandWords(words, marks)
    decreases c
  {
    if c.children == [] || start + 1 == CommandWords(words, marks) then
      RunOrComplain(host, w, c, words, start, marks)
    else
      var (w', rc) := Dispatch(host, w, c.children, words, start + 1, marks);
      if rc == ErrorArg then Retry(host, w', c, words, start, marks) else (w', rc)
  }

  // the words ran out at c, or c has no subcommands
  function RunOrComplain(host: Host, w: World, c: Cmd, words: seq<string>, start: nat, marks: seq<nat>): (World, Rc)
    requires GoodMarks(words, marks) && start < CommandWords(words, marks)
  {
    if c.callback == NoCallback then
      (w.Say(if c.children == [] then NoCallbackFor(c.name) else Incomplete), Error)
    else Execute(host, w, c, words[start + 1..CommandWords(words, marks)], words, marks)
  }

  // nothing below c took the next word
  function Retry(host: Host, w: World, c: Cmd, words: seq<string>, start: nat, marks: seq<nat>): (World, Rc)
    requires GoodMarks(words, marks) && start < CommandWords(words, marks)
  {
    if c.callback == NoCallback then (w.Say(Invalid(start > 0, words[start])), ErrorArg)
    else Execute(host, w, c, words[start + 1..CommandWords(words, marks)], words, marks)
  }

  ghost function RunCommand(host: Host, w: World, tree: seq<Cmd>, line: string): (World, bool) {
    var words := Parse(line[Indent(line)..], MAX_LINE_WORDS);
    if Indent(line) == |line| || words == [] then (w, false)
    else
      var (w', rc) := Dispatch(host, w, tree, words, 0, Marks(words));
      (w', rc == Quitting)
  }

  // ----- the session -----

  function PassMatches(host: Host, pass: string, attempt: string): bool {
    var des := FoldPrefix("{crypt}", pass);
    var stored := if des then pass[7..] else pass;
    stored == if des || HasPrefix("$1$", stored) then host.crypt(attempt, stored) else attempt
  }

  predicate KnownUser(host: Host, users: seq<(string, string)>, name: string, attempt: string) {
    users != [] && ((users[0].0 == name && PassMatches(host, users[0].1, attempt))
                    || KnownUser(host, users[1..], name, attempt))
  }

  predicate LoginAllowed(host: Host, name: string, attempt: string) {
    (host.auth.Some? && host.auth.value(name, attempt)) || KnownUser(host, host.users, name, attempt)
  }

  predicate EnableAllowed(host: Host, attempt: string) {
    || (host.enablePassword.Some? && PassMatches(host, host.enablePassword.value, attempt))
    || (host.enableCallback.Some? && host.enableCallback.value(attempt))
  }

  function Start(host: Host): World {
    World(UNPRIVILEGED, MODE_EXEC, if host.users == [] && host.auth.None? then Normal else Login, Login, "", [], [], [])
  }

  /** Return was pressed on `line`; the second component says whether the session is over. */
  ghost function Submit(host: Host, w: World, tree: seq<Cmd>, line: string): (World, bool) {
    match w.state
    case Login =>
      if line == "" then (w, false) else (w.(username := line, state := Password), false)
    case Password =>
      if LoginAllowed(host, w.username, line) then (w.(state := Normal).Note(LoggedIn(w.username, line)), false)
      else (w.(state := Login, username := "").Say(AccessDenied), false)
    case EnablePassword =>
      if EnableAllowed(host, line) then (w.(state := Enabled).Note(Elevated(line)).WithPrivilege(PRIVILEGED), false)
      else (w.(state := Normal).Say(AccessDenied), false)
    case Request =>
      var w1 := w.(state := w.prior, prior := Login);
      var r := host.answer(line, w1.log);
      (CallAll(PrintAll(w1, r.texts), r.calls), r.rc == Quitting)
    case _ =>
      if line == "" then (w, false)
      else
        var keep := line[|line| - 1] != '?' && !FoldEq(line, "history");
        RunCommand(host, if keep then w.Note(Remembered(line)) else w, tree, line)
  }

  // Ctrl-C gives up a request; Ctrl-Z leaves config mode
  function Interrupt(w: World): World {
    if w.state == Request then w.(state := w.prior, prior := Login) else w
  }

  function EndConfig(w: World): World {
    if w.state != Request && w.mode != MODE_EXEC then w.WithMode(MODE_EXEC) else w
  }

  // what reaches an open session: a line and Return, Ctrl-C, Ctrl-Z
  datatype Input = Typed(line: string) | CtrlC | CtrlZ

  ghost function React(host: Host, w: World, tree: seq<Cmd>, input: Input): (World, bool) {
    match input
    case Typed(line) => Submit(host, w, tree, line)
    case CtrlC => (Interrupt(w), false)
    case CtrlZ => (EndConfig(w), false)
  }

  ghost function Session(host: Host, w: World, tree: seq<Cmd>, inputs: seq<Input>): World
    decreases inputs
  {
    if inputs == [] then w
    else
      var (w', over) := React(host, w, tree, inputs[0]);
      if over then w' else Session(host, w', tree, inputs[1..])
  }
}

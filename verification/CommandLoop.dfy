/**
 cli_loop in the command states, from the bytes received to the commands run: the byte front end, the line editor, the
 history and the interpreter together.
 */
module CommandLoop {
  import opened Text
  import opened Wrappers
  import opened CommandTree
  import opened Interpreter
  import opened Completion
  import opened Libcli
  import opened Editing
  import opened LineEditing
  import opened History
  import Telnet

  const MAX_COMPLETIONS: nat := MAX_LINE_WORDS

  /**
   What the loop goes on: the session, the line being edited, the history and the place in it, whether the last key was
   a TAB with several completions, and whether the session is over.
   */
  datatype Desk = Desk(w: World, z: Line, entries: seq<string>, place: nat, tabbed: bool, over: bool) {
    predicate Valid() {
      entries != [] ==> place < |entries|
    }

    // commands are typed, and the line is echoed
    predicate Serving() {
      !over && (w.state == Normal || w.state == Enabled)
    }
  }

  /** What a byte asks for: an edit, the line to be run, help on it, config mode left, or the end. */
  datatype Act = Pass | Edit(key: Key) | Enter | Ask | LeaveConfig | HangUp

  function Control(b: Byte): Option<Key> {
    match b
    case 1 => Some(Home)
    case 2 => Some(Left)
    case 5 => Some(End)
    case 6 => Some(Right)
    case 8 => Some(Backspace)
    case 11 => Some(KillEnd)
    case 12 => Some(Redraw)
    case 21 => Some(KillLine)
    case 23 => Some(KillWord)
    case 127 => Some(Backspace)
    case _ => None
  }

  ghost function Meaning(tree: seq<Cmd>, d: Desk, b: Byte): Act
    requires d.Valid()
  {
    if Control(b).Some? then Edit(Control(b).value)
    else if b == 13 then Enter
    else if b == 3 then Pass
    else if b == 4 then if d.z.Text() == "" then HangUp else Pass
    else if b == 26 then if d.w.mode == MODE_EXEC then Pass else LeaveConfig
    else if b == 9 then Completing(Completions(tree, d.z.left, MAX_COMPLETIONS, d.w.mode, d.w.privilege), d)
    else if b == 14 || b == 16 then
      if d.entries == [] then Pass else Edit(Recall(d.entries[PlaceAfter(d, b)]))
    else if b == 63 && d.z.right == "" then Ask
    else Edit(Char(b as char))
  }

  // TAB in the middle of a line does nothing; a second one lists what there is
  function Completing(names: seq<string>, d: Desk): Act {
    if d.z.right != "" then Pass
    else if |names| == 1 then Edit(Complete(names[0]))
    else if names != [] && d.tabbed then Pass
    else Edit(CompleteSome(names))
  }

  function PlaceAfter(d: Desk, b: Byte): nat
    requires d.Valid()
    ensures d.entries != [] ==> PlaceAfter(d, b) < |d.entries|
  {
    if d.entries == [] then d.place
    else if b == 16 then Previous(d.place, |d.entries|)
    else if b == 14 then Next(d.place, |d.entries|)
    else d.place
  }

  function KeptLine(entries: seq<string>, line: string): seq<string> {
    if line != "" && line[|line| - 1] != '?' && !FoldEq(line, "history") then Remember(entries, line) else entries
  }

  // the line has been given to the interpreter; z is what is edited next
  ghost function Given(host: Host, tree: seq<Cmd>, d: Desk, line: string, z: Line): Desk {
    var (w, over) := Submit(host, d.w, tree, line);
    Desk(w, z, KeptLine(d.entries, line), 0, false, over)
  }

  /** One byte the decoders let through. */
  ghost function AfterByte(host: Host, tree: seq<Cmd>, d: Desk, b: Byte): (d': Desk)
    requires d.Valid()
    ensures d'.Valid()
  {
    match Meaning(tree, d, b)
    case Pass => d
    case Edit(key) => d.(z := Apply(d.z, key), place := PlaceAfter(d, b), tabbed := TabbedAfter(d, key))
    case Enter => Given(host, tree, d, d.z.Text(), Line("", ""))
    case Ask => Given(host, tree, d, d.z.left + "?", d.z)
    case LeaveConfig => d.(w := EndConfig(d.w))
    case HangUp => d.(over := true)
  }

  function TabbedAfter(d: Desk, key: Key): bool {
    match key
    case Char(_) => false
    case CompleteSome(names) => d.tabbed || names != []
    case _ => d.tabbed
  }

  /** The bytes in turn, as long as commands are served. */
  ghost function Run(host: Host, tree: seq<Cmd>, d: Desk, keys: seq<Byte>): (d': Desk)
    requires d.Valid()
    ensures d'.Valid()
    decreases keys
  {
    if keys == [] || !d.Serving() then d else Run(host, tree, AfterByte(host, tree, d, keys[0]), keys[1..])
  }

  /** What is given to the interpreter: the text of the line at every return, and with a question mark when asked. */
  ghost function Entered(host: Host, tree: seq<Cmd>, d: Desk, keys: seq<Byte>): seq<Input>
    requires d.Valid()
    decreases keys
  {
    if keys == [] || !d.Serving() then []
    else
      (match Meaning(tree, d, keys[0])
       case Enter => [Typed(d.z.Text())]
       case Ask => [Typed(d.z.left + "?")]
       case LeaveConfig => [CtrlZ]
       case _ => [])
      + Entered(host, tree, AfterByte(host, tree, d, keys[0]), keys[1..])
  }

  /** The loop over bytes is the session over the lines that were on the screen at each return. */
  lemma {:induction false} RunIsSession(host: Host, tree: seq<Cmd>, d: Desk, keys: seq<Byte>)
    requires d.Valid()
    ensures Run(host, tree, d, keys).w == Session(host, d.w, tree, Entered(host, tree, d, keys))
    decreases keys
  {
    hide Meaning, Submit, EndConfig, Apply;
    if keys != [] && d.Serving() {
      var d', rest := AfterByte(host, tree, d, keys[0]), keys[1..];
      RunIsSession(host, tree, d', rest);
      match Meaning(tree, d, keys[0])
      case Enter => OneMoreInput(host, d.w, tree, Typed(d.z.Text()), Entered(host, tree, d', rest));
      case Ask => OneMoreInput(host, d.w, tree, Typed(d.z.left + "?"), Entered(host, tree, d', rest));
      case LeaveConfig => OneMoreInput(host, d.w, tree, CtrlZ, Entered(host, tree, d', rest));
      case _ => assert [] + Entered(host, tree, d', rest) == Entered(host, tree, d', rest);
    }
  }

  lemma OneMoreInput(host: Host, w: World, tree: seq<Cmd>, input: Input, rest: seq<Input>)
    ensures Session(host, w, tree, [input] + rest) ==
            var (w', over) := React(host, w, tree, input); if over then w' else Session(host, w', tree, rest)
  {
    hide React;
    assert ([input] + rest)[0] == input && ([input] + rest)[1..] == rest;
  }

  // a byte the buffer has room for; a completion covers, and Ctrl-Z in config mode is pressed on an empty line
  ghost predicate ByteFits(tree: seq<Cmd>, d: Desk, b: Byte)
    requires d.Valid()
  {
    match Meaning(tree, d, b)
    case Edit(key) => NulFree(key) && Fits(d.z, key) && Covers(d.z, key)
    case Ask => Fits(d.z, Question(""))
    case LeaveConfig => d.z.Text() == ""
    case _ => true
  }

  ghost predicate RunFits(host: Host, tree: seq<Cmd>, d: Desk, keys: seq<Byte>)
    requires d.Valid()
    decreases keys
  {
    keys != [] && d.Serving() ==>
      ByteFits(tree, d, keys[0]) && RunFits(host, tree, AfterByte(host, tree, d, keys[0]), keys[1..])
  }

  class Loop {
    const cli: Cli
    const editor: LineEditor
    const history: HistoryRing
    const frontEnd: Telnet.FrontEnd
    var tabbed: bool
    var over: bool

    ghost predicate Valid()
      reads this, cli, Reprs(cli.roots), editor, editor.cmd, history, history.slots
    {
      && cli.Valid() && editor.Valid() && history.Valid() && history.inHistory >= -1
      && (history.entries != [] ==> 0 <= history.inHistory < |history.entries|)
    }

    ghost function View(): (d: Desk)
      requires Valid()
      reads this, cli, cli.printer, Reprs(cli.roots), editor, editor.cmd, history, history.slots
      ensures d.Valid()
    {
      var place := if history.entries == [] then 0 else history.inHistory;
      Desk(cli.View(), editor.line, history.entries, place, tabbed, over)
    }

    ghost function Host(): Interpreter.Host { cli.host }

    ghost function Tree(): seq<Cmd> { Shapes(cli.roots) }

    constructor (cli: Cli, prompt: string)
      requires cli.Valid()
      ensures this.cli == cli && Valid() && View() == Desk(cli.View(), Line("", ""), [], 0, false, false)
      ensures fresh(editor) && fresh(editor.cmd) && fresh(history) && fresh(history.slots) && fresh(frontEnd)
      ensures frontEnd.isTelnetOption == 0 && frontEnd.esc == 0
    {
      this.cli := cli;
      editor := new LineEditor(prompt);
      history := new HistoryRing();
      frontEnd := new Telnet.FrontEnd();
      tabbed, over := false, false;
    }

    method Type(key: Key)
      requires Valid() && NulFree(key) && Fits(editor.line, key) && Covers(editor.line, key)
      modifies editor, editor.cmd
      ensures Valid() && View() == old(View()).(z := Apply(old(View()).z, key))
    {
      editor.Press(key);
    }

    // a line is given to the interpreter and remembered; the next one starts over
    method Give(line: string)
      requires Valid()
      modifies this, cli, cli.printer, Reprs(cli.roots)`uniqueLen, history, history.slots
      ensures Valid() && View() == Given(Host(), Tree(), old(View()), line, old(View()).z)
    {
      hide Submit, FoldEq, Remember;
      over := cli.Submit(line);
      if line != "" && line[|line| - 1] != '?' && !FoldEq(line, "history") {
        history.Add(line);
      }
      history.inHistory := 0;
      tabbed := false;
    }

    // CTRL('I')
    method Tab()
      requires Valid()
      requires var act := Completing(Completed(View()), View());
               act.Edit? ==> NulFree(act.key) && Fits(editor.line, act.key) && Covers(editor.line, act.key)
      modifies this`tabbed, editor, editor.cmd
      ensures Valid()
      ensures var d := old(View());
              var act := Completing(Completed(d), d);
              View() == if act.Edit? then d.(z := Apply(d.z, act.key), tabbed := TabbedAfter(d, act.key)) else d
    {
      hide Apply, Fits, Covers, Completions;
      if editor.cursor != editor.l {
        assert editor.line.right != "";
        return;
      }
      var text := editor.Contents();
      assert editor.line.right == "" && text == editor.line.left;
      var names := cli.GetCompletions(text, MAX_COMPLETIONS);
      if |names| == 1 {
        Type(Complete(names[0]));
      } else if names == [] || !tabbed {
        Type(CompleteSome(names));
        tabbed := tabbed || names != [];
      }
    }

    ghost function Completed(d: Desk): seq<string> {
      Completions(Tree(), d.z.left, MAX_COMPLETIONS, d.w.mode, d.w.privilege)
    }

    // CTRL('P') and CTRL('N')
    method Recollect(b: Byte)
      requires Valid() && (b == 14 || b == 16)
      requires ByteFits(Tree(), View(), b)
      modifies history`inHistory, editor, editor.cmd
      ensures Valid() && View() == AfterByte(Host(), Tree(), old(View()), b)
    {
      hide Apply, Fits, Covers, Completions, Submit;
      var found;
      if b == 16 {
        found := history.Up();
      } else {
        found := history.Down();
      }
      if found.Some? {
        Type(Recall(found.value));
      }
    }

    method Return()
      requires Valid()
      modifies this, cli, cli.printer, Reprs(cli.roots)`uniqueLen, history, history.slots, editor, editor.cmd
      ensures Valid()
      ensures View() == Given(Host(), Tree(), old(View()), old(View()).z.Text(), Line("", ""))
    {
      hide Submit;
      var text := editor.Contents();
      Give(text);
      editor.NewLine();
    }

    method Question()
      requires Valid() && Fits(editor.line, Key.Question(""))
      modifies this, cli, cli.printer, Reprs(cli.roots)`uniqueLen, history, history.slots, editor, editor.cmd
      ensures Valid()
      ensures View() == Given(Host(), Tree(), old(View()), old(View()).z.left + "?", old(View()).z)
    {
      hide Submit;
      var asked := editor.PressQuestion("");
      Give(asked);
    }

    // config mode is left, and the line, which is empty, cleared
    method EndMode()
      requires Valid() && editor.line.Text() == ""
      modifies cli`mode, cli`log, Reprs(cli.roots)`uniqueLen, editor, editor.cmd
      ensures Valid() && View() == old(View()).(w := EndConfig(old(View()).w))
    {
      editor.PressCtrlZ();
      cli.CtrlZ();
    }

    // a character typed
    method Character(b: Byte)
      requires Valid() && NulFree(Char(b as char)) && Fits(editor.line, Char(b as char))
      modifies this`tabbed, editor, editor.cmd
      ensures Valid() && View() == old(View()).(z := Apply(old(View()).z, Char(b as char)), tabbed := false)
    {
      hide Apply;
      Type(Char(b as char));
      tabbed := false;
    }

    /** One byte that the decoders let through. */
    method Press(b: Byte)
      requires Valid() && ByteFits(Tree(), View(), b)
      modifies this, cli, cli.printer, Reprs(cli.roots)`uniqueLen, history, history.slots, editor, editor.cmd
      ensures Valid() && View() == AfterByte(Host(), Tree(), old(View()), b)
    {
      hide Apply, Fits, Covers, Completions, Submit, EndConfig;
      var control := Control(b);
      if control.Some? {
        Type(control.value);
      } else if b == 13 {
        Return();
      } else if b == 3 {
        // a bell
      } else if b == 4 {
        assert editor.l == 0 <==> editor.line.Text() == "";
        if editor.l == 0 {
          over := true;
        }
      } else if b == 26 {
        if cli.mode != MODE_EXEC {
          EndMode();
        }
      } else if b == 9 {
        Tab();
      } else if b == 14 || b == 16 {
        Recollect(b);
      } else if b == 63 && editor.cursor == editor.l {
        Question();
      } else {
        Character(b);
      }
    }

    // one byte from the socket; `rest` are those that will be let through after it
    method Receive(byte: Byte, ghost rest: seq<Byte>)
      requires Valid() && View().Serving()
      requires var (_, _, key) := DecodedOne(frontEnd.isTelnetOption, frontEnd.esc, byte);
               RunFits(Host(), Tree(), View(), Telnet.Opt(key) + rest)
      modifies this, cli, cli.printer, Reprs(cli.roots)`uniqueLen, history, history.slots, editor, editor.cmd, frontEnd
      ensures Valid() && RunFits(Host(), Tree(), View(), rest)
      ensures var (option, esc, key) := old(DecodedOne(frontEnd.isTelnetOption, frontEnd.esc, byte));
              && frontEnd.isTelnetOption == option && frontEnd.esc == esc
              && Run(Host(), Tree(), View(), rest) == Run(Host(), Tree(), old(View()), Telnet.Opt(key) + rest)
    {
      hide RunFits, Run, AfterByte, ByteFits, Telnet.StripOne, Telnet.ArrowOne;
      ghost var keys := Telnet.Opt(DecodedOne(frontEnd.isTelnetOption, frontEnd.esc, byte).2) + rest;
      var key := frontEnd.Receive(byte);
      if key.Some? {
        assert keys[0] == key.value && keys[1..] == rest;
        RunNext(Host(), Tree(), View(), keys);
        Press(key.value);
      } else {
        assert keys == rest;
      }
    }

    /**
     Bytes from the socket, as long as commands are served: they do what the bytes that the decoders let through ask
     for, one after another.
     */
    method Serve(bytes: seq<Byte>)
      requires Valid()
      requires RunFits(Host(), Tree(), View(), Decoded(frontEnd.isTelnetOption, frontEnd.esc, bytes))
      modifies this, cli, cli.printer, Reprs(cli.roots)`uniqueLen, history, history.slots, editor, editor.cmd, frontEnd
      ensures Valid()
      ensures View() == Run(Host(), Tree(), old(View()), old(Decoded(frontEnd.isTelnetOption, frontEnd.esc, bytes)))
    {
      ghost var all := Run(Host(), Tree(), View(), Decoded(frontEnd.isTelnetOption, frontEnd.esc, bytes));
      var n := 0;
      assert bytes[0..] == bytes;
      while n < |bytes| && !over && (cli.state == Normal || cli.state == Enabled)
        invariant n <= |bytes| && Valid()
        invariant RunFits(Host(), Tree(), View(), Decoded(frontEnd.isTelnetOption, frontEnd.esc, bytes[n..]))
        invariant Run(Host(), Tree(), View(), Decoded(frontEnd.isTelnetOption, frontEnd.esc, bytes[n..])) == all
      {
        hide RunFits, Run, Decoded, DecodedOne;
        ghost var (option, esc, _) := DecodedOne(frontEnd.isTelnetOption, frontEnd.esc, bytes[n]);
        DecodedNext(frontEnd.isTelnetOption, frontEnd.esc, bytes, n);
        Receive(bytes[n], Decoded(option, esc, bytes[n + 1..]));
        n := n + 1;
      }
      RunEnds(Host(), Tree(), View(), Decoded(frontEnd.isTelnetOption, frontEnd.esc, bytes[n..]));
    }
  }

  // the bytes that the telnet and arrow-key decoders let through
  function Decoded(option: int, esc: int, bytes: seq<Byte>): (keys: seq<Byte>)
    ensures bytes == [] ==> keys == []
  {
    Telnet.Arrows(esc, Telnet.Strip(option, bytes).1).1
  }

  // one byte: both decoders after it, and what they let through
  function DecodedOne(option: int, esc: int, byte: Byte): (int, int, Option<Byte>) {
    var (option', d) := Telnet.StripOne(option, byte);
    if d.None? then (option', esc, None)
    else
      var (esc', key) := Telnet.ArrowOne(esc, d.value);
      (option', esc', key)
  }

  lemma DecodedNext(option: int, esc: int, bytes: seq<Byte>, n: nat)
    requires n < |bytes|
    ensures var (option', esc', key) := DecodedOne(option, esc, bytes[n]);
            Decoded(option, esc, bytes[n..]) == Telnet.Opt(key) + Decoded(option', esc', bytes[n + 1..])
  {
    hide Telnet.StripOne, Telnet.ArrowOne;
    var (option', d) := Telnet.StripOne(option, bytes[n]);
    var rest := Telnet.Strip(option', bytes[n + 1..]).1;
    assert bytes[n..][0] == bytes[n] && bytes[n..][1..] == bytes[n + 1..];
    if d.None? {
      assert [] + rest == rest;
      assert [] + Telnet.Arrows(esc, rest).1 == Telnet.Arrows(esc, rest).1;
    } else {
      assert ([d.value] + rest)[0] == d.value && ([d.value] + rest)[1..] == rest;
    }
  }

  lemma RunNext(host: Interpreter.Host, tree: seq<Cmd>, d: Desk, keys: seq<Byte>)
    requires d.Valid() && keys != [] && d.Serving() && RunFits(host, tree, d, keys)
    ensures ByteFits(tree, d, keys[0]) && RunFits(host, tree, AfterByte(host, tree, d, keys[0]), keys[1..])
    ensures Run(host, tree, d, keys) == Run(host, tree, AfterByte(host, tree, d, keys[0]), keys[1..])
  {
    hide AfterByte, ByteFits;
  }

  lemma RunEnds(host: Interpreter.Host, tree: seq<Cmd>, d: Desk, keys: seq<Byte>)
    requires d.Valid() && (keys == [] || !d.Serving())
    ensures Run(host, tree, d, keys) == d
  {
  }

  // ----- lines simply typed -----

  function Chars(bytes: seq<Byte>): (s: string)
    ensures |s| == |bytes|
  {
    seq(|bytes|, i requires 0 <= i < |bytes| => bytes[i] as char)
  }

  // printable, and no question mark
  predicate PlainText(bytes: seq<Byte>) {
    forall i :: 0 <= i < |bytes| ==> 32 <= bytes[i] < 127 && bytes[i] != 63
  }

  lemma PlainByte(host: Interpreter.Host, tree: seq<Cmd>, d: Desk, b: Byte)
    requires d.Valid() && d.z.right == "" && 32 <= b < 127 && b != 63 && |d.z.left| + 2 < MAX_LINE
    ensures ByteFits(tree, d, b)
    ensures AfterByte(host, tree, d, b) == d.(z := Line(d.z.left + [b as char], ""), tabbed := false)
  {
    assert Meaning(tree, d, b) == Edit(Char(b as char));
  }

  lemma {:induction false} TextTyped(host: Interpreter.Host, tree: seq<Cmd>, d: Desk, text: seq<Byte>, rest: seq<Byte>)
    requires d.Valid() && d.Serving() && d.z.right == "" && PlainText(text) && |d.z.left| + |text| + 1 < MAX_LINE
    ensures var d' := d.(z := Line(d.z.left + Chars(text), ""), tabbed := d.tabbed && text == []);
            && Run(host, tree, d, text + rest) == Run(host, tree, d', rest)
            && (RunFits(host, tree, d', rest) ==> RunFits(host, tree, d, text + rest))
    decreases text
  {
    hide AfterByte, ByteFits, Apply;
    if text == [] {
      assert text + rest == rest && d.z.left + Chars(text) == d.z.left;
    } else {
      var d1 := d.(z := Line(d.z.left + [text[0] as char], ""), tabbed := false);
      PlainByte(host, tree, d, text[0]);
      assert (text + rest)[0] == text[0] && (text + rest)[1..] == text[1..] + rest;
      TextTyped(host, tree, d1, text[1..], rest);
      assert d1.z.left + Chars(text[1..]) == d.z.left + Chars(text);
    }
  }

  lemma LineTyped(host: Interpreter.Host, tree: seq<Cmd>, d: Desk, line: seq<Byte>, rest: seq<Byte>)
    requires d.Valid() && d.Serving() && d.z == Line("", "") && PlainText(line) && |line| + 1 < MAX_LINE
    ensures var d' := Given(host, tree, d, Chars(line), Line("", ""));
            && Run(host, tree, d, line + [13] + rest) == Run(host, tree, d', rest)
            && (RunFits(host, tree, d', rest) ==> RunFits(host, tree, d, line + [13] + rest))
  {
    hide Submit;
    var after := [13] + rest;
    var d1 := d.(z := Line("" + Chars(line), ""), tabbed := d.tabbed && line == []);
    assert line + [13] + rest == line + after;
    assert after[0] == 13 && after[1..] == rest;
    TextTyped(host, tree, d, line, after);
    assert d1.z.Text() == Chars(line);
    assert Meaning(tree, d1, 13) == Enter;
    assert AfterByte(host, tree, d1, 13) == Given(host, tree, d, Chars(line), Line("", ""));
  }

  function Inputs(lines: seq<seq<Byte>>): (inputs: seq<Input>)
    ensures |inputs| == |lines|
  {
    seq(|lines|, i requires 0 <= i < |lines| => Typed(Chars(lines[i])))
  }

  ghost predicate PlainLines(lines: seq<seq<Byte>>) {
    forall i :: 0 <= i < |lines| ==> PlainText(lines[i]) && |lines[i]| + 1 < MAX_LINE
  }

  // the desk after some of the lines: all of them, unless commands are no longer served
  ghost predicate RanSome(host: Interpreter.Host, tree: seq<Cmd>, w: World, d': Desk, lines: seq<seq<Byte>>, n: nat) {
    && n <= |lines| && d'.w == Session(host, w, tree, Inputs(lines[..n])) && (n < |lines| ==> !d'.Serving())
  }

  lemma {:induction false} LinesTyped(
    host: Interpreter.Host, tree: seq<Cmd>, d: Desk, lines: seq<seq<Byte>>, afters: seq<Option<Byte>>) returns (n: nat)
    requires d.Valid() && d.z == Line("", "") && |lines| == |afters| && PlainLines(lines)
    ensures var keys := Telnet.Keys(Telnet.AllStrokes(lines, afters));
            RunFits(host, tree, d, keys) && RanSome(host, tree, d.w, Run(host, tree, d, keys), lines, n)
    decreases |lines|
  {
    hide Submit, AfterByte, ByteFits;
    n := 0;
    if lines != [] && d.Serving() {
      var d1 := Given(host, tree, d, Chars(lines[0]), Line("", ""));
      var rest := Telnet.Keys(Telnet.AllStrokes(lines[1..], afters[1..]));
      assert forall i :: 0 <= i < |lines| - 1 ==> lines[1..][i] == lines[i + 1];
      FirstLineKeys(lines, afters);
      LineTyped(host, tree, d, lines[0], rest);
      var m := LinesTyped(host, tree, d1, lines[1..], afters[1..]);
      if d1.over {
        n := 1;
      } else {
        n := m + 1;
      }
      FirstInput(host, d.w, tree, lines, n);
    }
  }

  lemma FirstLineKeys(lines: seq<seq<Byte>>, afters: seq<Option<Byte>>)
    requires |lines| == |afters| && lines != []
    ensures Telnet.Keys(Telnet.AllStrokes(lines, afters))
         == lines[0] + [13] + Telnet.Keys(Telnet.AllStrokes(lines[1..], afters[1..]))
  {
    Telnet.KeysConcat(Telnet.LineStrokes(lines[0], afters[0]), Telnet.AllStrokes(lines[1..], afters[1..]));
    Telnet.LineKeys(lines[0], afters[0]);
  }

  lemma FirstInput(host: Interpreter.Host, w: World, tree: seq<Cmd>, lines: seq<seq<Byte>>, n: nat)
    requires 0 < n <= |lines|
    ensures Session(host, w, tree, Inputs(lines[..n])) ==
            var (w', over) := Submit(host, w, tree, Chars(lines[0]));
            if over then w' else Session(host, w', tree, Inputs(lines[1..][..n - 1]))
  {
    hide Submit;
    assert lines[..n][1..] == lines[1..][..n - 1];
    assert Inputs(lines[..n]) == [Typed(Chars(lines[0]))] + Inputs(lines[1..][..n - 1]);
    OneMoreInput(host, w, tree, Typed(Chars(lines[0])), Inputs(lines[1..][..n - 1]));
  }

  /**
   From the socket to the commands: plain lines typed at a telnet client, with whatever commands and negotiations it
   mixes in and however it ends its lines, are run one after another, each exactly as typed, for as long as commands
   are served.
   */
  lemma TypedLinesAreRun(
    host: Interpreter.Host, tree: seq<Cmd>, d: Desk, lines: seq<seq<Byte>>, afters: seq<Option<Byte>>,
    items: seq<Telnet.Item>)
    returns (n: nat)
    requires d.Valid() && d.z == Line("", "") && PlainLines(lines) && Telnet.Typeable(lines, afters)
    requires forall i :: 0 <= i < |items| ==> items[i].Valid()
    requires Telnet.CarriedAll(items) == Telnet.SentAll(Telnet.AllStrokes(lines, afters))
    ensures var keys := Decoded(0, 0, Telnet.WireAll(items));
            RunFits(host, tree, d, keys) && RanSome(host, tree, d.w, Run(host, tree, d, keys), lines, n)
  {
    Telnet.AllStrokesValid(lines, afters);
    Telnet.TypedIsSeen(Telnet.AllStrokes(lines, afters), items);
    n := LinesTyped(host, tree, d, lines, afters);
  }
}

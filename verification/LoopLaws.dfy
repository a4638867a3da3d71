/**
 What the bytes a client sends do to the line being edited and to the session: one law for each key, from the bytes on
 the wire to the desk, in a state in which commands are typed.
 */
module LoopLaws {
  import opened Text
  import opened Wrappers
  import opened CommandTree
  import opened Interpreter
  import opened Completion
  import opened Editing
  import opened LineEditing
  import opened History
  import opened CommandLoop
  import Telnet

  const UP: seq<Byte> := [27, 91, 65]
  const DOWN: seq<Byte> := [27, 91, 66]
  const RIGHT: seq<Byte> := [27, 91, 67]
  const LEFT: seq<Byte> := [27, 91, 68]

  /** What comes of bytes from the socket, no telnet command or escape sequence being under way. */
  ghost function Sent(host: Host, tree: seq<Cmd>, d: Desk, bytes: seq<Byte>): Desk
    requires d.Valid()
  {
    Run(host, tree, d, Decoded(0, 0, bytes))
  }

  predicate Ordinary(b: Byte) {
    b != 0 && b != 10 && b != 27 && b != 255
  }

  lemma PlainIsDecoded(b: Byte)
    requires Ordinary(b)
    ensures Decoded(0, 0, [b]) == [b]
  {
    assert [b][1..] == [] && [b] + [] == [b];
    assert Telnet.Strip(0, [b]) == (0, [b]);
    assert Telnet.Arrows(0, [b]) == (0, [b]);
  }

  // an escape sequence of three bytes
  lemma SequenceDecoded(letter: Byte)
    requires letter != 255
    ensures Decoded(0, 0, [27, 91, letter]) == match letter
      case 65 => [16] case 66 => [14] case 67 => [6] case 68 => [2] case _ => []
  {
    var s := [27, 91, letter];
    assert s[1..] == [91, letter] && [91, letter][1..] == [letter] && [letter][1..] == [];
    var none: seq<Byte> := [];
    assert Telnet.Strip(0, none) == (0, none);
    assert Telnet.Strip(0, [letter]) == (0, [letter] + none) && [letter] + none == [letter];
    assert Telnet.Strip(0, [91, letter]) == (0, [91] + [letter]) && [91] + [letter] == [91, letter];
    assert Telnet.Strip(0, s) == (0, [27] + [91, letter]) && [27] + [91, letter] == s;
    var k := Telnet.ArrowOne(91, letter).1;
    assert Telnet.Arrows(91, [letter]) == (0, Telnet.Opt(k) + none) && Telnet.Opt(k) + none == Telnet.Opt(k);
    assert none + Telnet.Opt(k) == Telnet.Opt(k);
    assert Telnet.Arrows(1, [91, letter]) == (0, Telnet.Opt(k));
    assert Telnet.Arrows(0, s) == (0, Telnet.Opt(k));
  }

  // one byte let through does what it asks for
  lemma OneKey(host: Host, tree: seq<Cmd>, d: Desk, b: Byte)
    requires d.Valid() && d.Serving()
    ensures Run(host, tree, d, [b]) == AfterByte(host, tree, d, b)
  {
    hide AfterByte;
    assert [b][1..] == [];
    assert Run(host, tree, AfterByte(host, tree, d, b), []) == AfterByte(host, tree, d, b);
  }

  lemma EditingKey(host: Host, tree: seq<Cmd>, d: Desk, b: Byte)
    requires d.Valid() && d.Serving() && Control(b).Some?
    ensures Run(host, tree, d, [b]) == d.(z := Apply(d.z, Control(b).value))
    ensures Ordinary(b) && Sent(host, tree, d, [b]) == d.(z := Apply(d.z, Control(b).value))
  {
    hide Submit, Completions, Apply, Run, Decoded;
    OneKey(host, tree, d, b);
    PlainIsDecoded(b);
  }

  lemma ArrowControls()
    ensures Control(2) == Some(Left) && Control(6) == Some(Right)
  {
  }

  /** The left arrow, and ^B, move the cursor one byte back, and at the start of the line do nothing. */
  lemma LeftKey(host: Host, tree: seq<Cmd>, d: Desk, left: string, c: char, right: string)
    requires d.Valid() && d.Serving()
    ensures d.z == Line(left + [c], right) ==>
              Sent(host, tree, d, LEFT) == d.(z := Line(left, [c] + right)) == Sent(host, tree, d, [2])
    ensures d.z == Line("", right) ==> Sent(host, tree, d, LEFT) == d == Sent(host, tree, d, [2])
  {
    hide Run, Decoded, Control, Stem, CommonPrefix, WordBack;
    SequenceDecoded(68);
    ArrowControls();
    EditingKey(host, tree, d, 2);
  }

  /** The right arrow, and ^F, move it one byte on, and at the end of the line do nothing. */
  lemma RightKey(host: Host, tree: seq<Cmd>, d: Desk, left: string, c: char, right: string)
    requires d.Valid() && d.Serving()
    ensures d.z == Line(left, [c] + right) ==>
              Sent(host, tree, d, RIGHT) == d.(z := Line(left + [c], right)) == Sent(host, tree, d, [6])
    ensures d.z == Line(left, "") ==> Sent(host, tree, d, RIGHT) == d == Sent(host, tree, d, [6])
  {
    hide Run, Decoded, Control, Stem, CommonPrefix, WordBack;
    SequenceDecoded(67);
    ArrowControls();
    EditingKey(host, tree, d, 6);
  }

  /** ^A goes to the start of the line, and ^E to its end. */
  lemma EndKeys(host: Host, tree: seq<Cmd>, d: Desk)
    requires d.Valid() && d.Serving()
    ensures Sent(host, tree, d, [1]) == d.(z := Line("", d.z.left + d.z.right))
    ensures Sent(host, tree, d, [5]) == d.(z := Line(d.z.left + d.z.right, ""))
  {
    hide Run, Stem, CommonPrefix, WordBack;
    EditingKey(host, tree, d, 1);
    EditingKey(host, tree, d, 5);
  }

  /** Backspace and delete take the byte before the cursor, if there is one. */
  lemma BackspaceKeys(host: Host, tree: seq<Cmd>, d: Desk, left: string, c: char, right: string, b: Byte)
    requires d.Valid() && d.Serving() && (b == 8 || b == 127)
    ensures d.z == Line(left + [c], right) ==> Sent(host, tree, d, [b]) == d.(z := Line(left, right))
    ensures d.z == Line("", right) ==> Sent(host, tree, d, [b]) == d
  {
    hide Run, Stem, CommonPrefix, WordBack;
    EditingKey(host, tree, d, b);
  }

  /** ^K takes what follows the cursor, ^U the whole line. */
  lemma KillKeys(host: Host, tree: seq<Cmd>, d: Desk)
    requires d.Valid() && d.Serving()
    ensures Sent(host, tree, d, [11]) == d.(z := Line(d.z.left, ""))
    ensures Sent(host, tree, d, [21]) == d.(z := Line("", ""))
  {
    hide Run, Stem, CommonPrefix, WordBack;
    EditingKey(host, tree, d, 11);
    EditingKey(host, tree, d, 21);
  }

  /** ^W takes the spaces before the cursor and the word before them. */
  lemma KillWordKey(host: Host, tree: seq<Cmd>, d: Desk, left: string, word: string, spaces: string, right: string)
    requires d.Valid() && d.Serving() && d.z == Line(left + word + spaces, right)
    requires ' ' !in word && (forall k :: 0 <= k < |spaces| ==> spaces[k] == ' ')
    requires left == "" || (left[|left| - 1] == ' ' && word != "")
    ensures Sent(host, tree, d, [23]) == d.(z := Line(left, right))
  {
    hide Run, Stem, CommonPrefix, WordBack;
    EditingKey(host, tree, d, 23);
    BackOverWord(left, word, spaces);
  }

  lemma BackOverWord(left: string, word: string, spaces: string)
    requires ' ' !in word && (forall k :: 0 <= k < |spaces| ==> spaces[k] == ' ')
    requires left == "" || (left[|left| - 1] == ' ' && word != "")
    ensures var s := left + word + spaces; s[..|s| - WordBack(s)] == left
  {
    hide Spaces, NonSpaces;
    var s := left + word + spaces;
    var n := Spaces(s);
    assert forall k :: |left + word| <= k < |s| ==> s[k] == spaces[k - |left + word|] == ' ';
    assert word != "" ==> s[|left + word| - 1] == word[|word| - 1] != ' ';
    assert n == |spaces|;
    var t := s[..|s| - n];
    assert t == left + word;
    assert forall k :: |left| <= k < |t| ==> t[k] == word[k - |left|] != ' ';
    assert left != "" ==> t[|left| - 1] == ' ';
  }

  /** ^L writes the line anew, and ^C rings: neither changes it. */
  lemma IdleKeys(host: Host, tree: seq<Cmd>, d: Desk)
    requires d.Valid() && d.Serving()
    ensures Sent(host, tree, d, [12]) == d && Sent(host, tree, d, [3]) == d
  {
    hide Run, Stem, CommonPrefix, WordBack, Submit, Completions;
    EditingKey(host, tree, d, 12);
    PlainIsDecoded(3);
    OneKey(host, tree, d, 3);
  }

  /** ^D hangs up, on an empty line. */
  lemma HangUpKey(host: Host, tree: seq<Cmd>, d: Desk)
    requires d.Valid() && d.Serving()
    ensures Sent(host, tree, d, [4]) == if d.z == Line("", "") then d.(over := true) else d
  {
    hide Run, Submit, Completions;
    PlainIsDecoded(4);
    OneKey(host, tree, d, 4);
  }

  /** ^Z leaves whatever mode the session is in for exec mode. */
  lemma LeaveKey(host: Host, tree: seq<Cmd>, d: Desk)
    requires d.Valid() && d.Serving()
    ensures Sent(host, tree, d, [26]) ==
            if d.w.mode == MODE_EXEC then d else d.(w := d.w.(mode := MODE_EXEC, log := d.w.log + [ModeSet(MODE_EXEC)]))
  {
    hide Run, Submit, Completions;
    PlainIsDecoded(26);
    OneKey(host, tree, d, 26);
  }

  /** Any printable character goes in at the cursor, but a question mark at the end of the line. */
  lemma CharacterKey(host: Host, tree: seq<Cmd>, d: Desk, b: Byte)
    requires d.Valid() && d.Serving() && 32 <= b < 127 && (b != 63 || d.z.right != "")
    ensures Sent(host, tree, d, [b]) == d.(z := Line(d.z.left + [b as char], d.z.right), tabbed := false)
  {
    hide Run, Submit, Completions;
    PlainIsDecoded(b);
    OneKey(host, tree, d, b);
  }

  // the line has been taken by the session
  ghost predicate Taken(host: Host, tree: seq<Cmd>, d: Desk, d': Desk, line: string) {
    && (d'.w, d'.over) == Submit(host, d.w, tree, line) && d'.place == 0 && !d'.tabbed
    && d'.entries == if line == "" || line[|line| - 1] == '?' || FoldEq(line, "history") then d.entries
                     else Remember(d.entries, line)
  }

  /** Return gives the session the whole line, wherever the cursor is in it; a new one is begun. */
  lemma ReturnKey(host: Host, tree: seq<Cmd>, d: Desk)
    requires d.Valid() && d.Serving()
    ensures var d' := Sent(host, tree, d, [13]);
            d'.z == Line("", "") && Taken(host, tree, d, d', d.z.left + d.z.right)
  {
    hide Run, Submit, Completions, FoldEq, Remember;
    PlainIsDecoded(13);
    OneKey(host, tree, d, 13);
  }

  /** A question mark at the end of the line gives the session the line with it, and leaves it to be typed on. */
  lemma QuestionKey(host: Host, tree: seq<Cmd>, d: Desk)
    requires d.Valid() && d.Serving() && d.z.right == ""
    ensures var d' := Sent(host, tree, d, [63]);
            d'.z == d.z && Taken(host, tree, d, d', d.z.left + "?")
  {
    hide Run, Submit, Completions, FoldEq, Remember;
    PlainIsDecoded(63);
    OneKey(host, tree, d, 63);
  }

  lemma RecallByte(host: Host, tree: seq<Cmd>, d: Desk, b: Byte)
    requires d.Valid() && (b == 14 || b == 16)
    ensures AfterByte(host, tree, d, b) ==
            if d.entries == [] then d
            else d.(z := Line(d.entries[PlaceAfter(d, b)], ""), place := PlaceAfter(d, b))
  {
    hide Submit, Completions, PlaceAfter, Stem, CommonPrefix, WordBack;
    if d.entries == [] {
      assert Meaning(tree, d, b) == Pass;
    } else {
      assert Meaning(tree, d, b) == Edit(Recall(d.entries[PlaceAfter(d, b)]));
    }
  }

  lemma Neighbours(d: Desk)
    requires d.Valid()
    ensures d.entries != [] ==> PlaceAfter(d, 16) == if d.place == 0 then |d.entries| - 1 else d.place - 1
    ensures d.entries != [] ==> PlaceAfter(d, 14) == if d.place + 1 == |d.entries| then 0 else d.place + 1
  {
  }

  /** The up arrow, and ^P, put the entry before in place of the line, from the first round to the last. */
  lemma UpKey(host: Host, tree: seq<Cmd>, d: Desk)
    requires d.Valid() && d.Serving()
    ensures Sent(host, tree, d, UP) == Sent(host, tree, d, [16])
         == if d.entries == [] then d
            else
              var n := if d.place == 0 then |d.entries| - 1 else d.place - 1;
              d.(z := Line(d.entries[n], ""), place := n)
  {
    hide AfterByte, Run, Decoded, PlaceAfter;
    SequenceDecoded(65);
    PlainIsDecoded(16);
    OneKey(host, tree, d, 16);
    RecallByte(host, tree, d, 16);
    Neighbours(d);
  }

  /** The down arrow, and ^N, put the one after in its place, from the last round to the first. */
  lemma DownKey(host: Host, tree: seq<Cmd>, d: Desk)
    requires d.Valid() && d.Serving()
    ensures Sent(host, tree, d, DOWN) == Sent(host, tree, d, [14])
         == if d.entries == [] then d
            else
              var n := if d.place + 1 == |d.entries| then 0 else d.place + 1;
              d.(z := Line(d.entries[n], ""), place := n)
  {
    hide AfterByte, Run, Decoded, PlaceAfter;
    SequenceDecoded(66);
    PlainIsDecoded(14);
    OneKey(host, tree, d, 14);
    RecallByte(host, tree, d, 14);
    Neighbours(d);
  }

  // the end of s from the last space or pipe on
  predicate Tail(s: string, stem: string, word: string) {
    && s == stem + word && ' ' !in word && '|' !in word
    && (stem != "" ==> stem[|stem| - 1] == ' ' || stem[|stem| - 1] == '|')
  }

  lemma TailIsStem(s: string, stem: string, word: string)
    requires Tail(s, stem, word)
    ensures Stem(s) == stem
    decreases |word|
  {
    if word == "" {
      assert s == stem;
    } else {
      assert s[..|s| - 1] == stem + word[..|word| - 1] && s[|s| - 1] == word[|word| - 1];
      TailIsStem(s[..|s| - 1], stem, word[..|word| - 1]);
    }
  }

  // the longest beginning that names share
  ghost predicate SharedByAll(names: seq<string>, shared: string) {
    && names != [] && (forall i :: 0 <= i < |names| ==> shared <= names[i])
    && exists i :: 0 <= i < |names|
         && (|names[i]| == |shared| || (|names[0]| > |shared| && names[i][|shared|] != names[0][|shared|]))
  }

  lemma SharedIsCommonPrefix(names: seq<string>, shared: string)
    requires SharedByAll(names, shared)
    ensures CommonPrefix(names) == shared
  {
    hide CommonPrefix;
    CommonPrefixMeaning(names);
    var p := CommonPrefix(names);
    assert HasPrefix(p, names[0]) && shared <= names[0];
    assert |p| == |shared|;
  }

  lemma TabByte(host: Host, tree: seq<Cmd>, d: Desk)
    requires d.Valid()
    ensures var names := Completions(tree, d.z.left, 128, d.w.mode, d.w.privilege);
            AfterByte(host, tree, d, 9) ==
              if d.z.right != "" || names == [] then d
              else if |names| == 1 then d.(z := Line(Stem(d.z.left) + names[0] + " ", ""))
              else if d.tabbed then d
              else d.(z := Line(Stem(d.z.left) + CommonPrefix(names), ""), tabbed := true)
  {
    hide Submit, Completions, Stem, CommonPrefix, WordBack;
    var names := Completions(tree, d.z.left, 128, d.w.mode, d.w.privilege);
    assert Meaning(tree, d, 9) == Completing(names, d);
  }

  /**
   TAB at the end of a line whose last word is `word`: a single completion takes its place, and a space follows; of
   several, the longest beginning they share does, the first time; in all other cases the line is left alone.
   */
  lemma TabKey(host: Host, tree: seq<Cmd>, d: Desk, stem: string, word: string, shared: string)
    requires d.Valid() && d.Serving()
    requires d.z.right == "" ==> Tail(d.z.left, stem, word)
    requires var names := Completions(tree, d.z.left, 128, d.w.mode, d.w.privilege);
             |names| > 1 ==> SharedByAll(names, shared)
    ensures var names := Completions(tree, d.z.left, 128, d.w.mode, d.w.privilege);
            Sent(host, tree, d, [9]) ==
              if d.z.right != "" || names == [] then d
              else if |names| == 1 then d.(z := Line(stem + names[0] + " ", ""))
              else if d.tabbed then d
              else d.(z := Line(stem + shared, ""), tabbed := true)
  {
    hide AfterByte, Run, Completions, Stem, CommonPrefix, SharedByAll, Tail;
    PlainIsDecoded(9);
    OneKey(host, tree, d, 9);
    TabByte(host, tree, d);
    var names := Completions(tree, d.z.left, 128, d.w.mode, d.w.privilege);
    if d.z.right == "" {
      TailIsStem(d.z.left, stem, word);
    }
    if |names| > 1 {
      SharedIsCommonPrefix(names, shared);
    }
  }

  // ----- keys one after another -----

  lemma {:induction false} RunConcat(host: Host, tree: seq<Cmd>, d: Desk, a: seq<Byte>, b: seq<Byte>)
    requires d.Valid()
    ensures Run(host, tree, d, a + b) == Run(host, tree, Run(host, tree, d, a), b)
    decreases a
  {
    hide AfterByte;
    if a == [] {
      assert a + b == b;
    } else if d.Serving() {
      assert (a + b)[0] == a[0] && (a + b)[1..] == a[1..] + b;
      RunConcat(host, tree, AfterByte(host, tree, d, a[0]), a[1..], b);
    }
  }

  lemma {:induction false} DecodedConcat(option: int, esc: int, a: seq<Byte>, b: seq<Byte>)
    ensures var (option', data) := Telnet.Strip(option, a);
            Decoded(option, esc, a + b) == Decoded(option, esc, a) + Decoded(option', Telnet.Arrows(esc, data).0, b)
    decreases a
  {
    hide Telnet.StripOne, Telnet.ArrowOne;
    if a == [] {
      assert a + b == b && [] + Decoded(option, esc, b) == Decoded(option, esc, b);
    } else {
      var (option', esc', key) := DecodedOne(option, esc, a[0]);
      var rest := a[1..];
      assert (a + b)[0] == a[0] && (a + b)[1..] == rest + b && a[0..] == a && (a + b)[0..] == a + b;
      DecodedNext(option, esc, a, 0);
      DecodedNext(option, esc, a + b, 0);
      DecodedConcat(option', esc', rest, b);
      var (last, data) := Telnet.Strip(option', rest);
      Assoc(Telnet.Opt(key), Decoded(option', esc', rest), Decoded(last, Telnet.Arrows(esc', data).0, b));
      StepOfBoth(option, esc, a);
    }
  }

  lemma StepOfBoth(option: int, esc: int, a: seq<Byte>)
    requires a != []
    ensures var (option', esc', _) := DecodedOne(option, esc, a[0]);
            var (last, data) := Telnet.Strip(option, a);
            var (last', data') := Telnet.Strip(option', a[1..]);
            last == last' && Telnet.Arrows(esc, data).0 == Telnet.Arrows(esc', data').0
  {
    hide Telnet.StripOne, Telnet.ArrowOne;
    var (option', d) := Telnet.StripOne(option, a[0]);
    var data' := Telnet.Strip(option', a[1..]).1;
    if d.None? {
      assert [] + data' == data';
    } else {
      assert ([d.value] + data')[0] == d.value && ([d.value] + data')[1..] == data';
    }
  }

  // no telnet command or escape sequence is left under way
  predicate Ended(bytes: seq<Byte>) {
    var (option, data) := Telnet.Strip(0, bytes);
    option == 0 && Telnet.Arrows(0, data).0 == 0
  }

  /** Keys sent together do what they do sent one after another. */
  lemma SentTogether(host: Host, tree: seq<Cmd>, d: Desk, a: seq<Byte>, b: seq<Byte>)
    requires d.Valid() && Ended(a)
    ensures Sent(host, tree, d, a + b) == Sent(host, tree, Sent(host, tree, d, a), b)
  {
    hide Run, Decoded;
    DecodedConcat(0, 0, a, b);
    RunConcat(host, tree, d, Decoded(0, 0, a), Decoded(0, 0, b));
  }

  lemma KeysEnd()
    ensures forall b: Byte :: Ordinary(b) ==> Ended([b])
    ensures Ended(LEFT) && Ended(RIGHT) && Ended(UP) && Ended(DOWN)
  {
    forall b: Byte | Ordinary(b) ensures Ended([b]) {
      PlainIsDecoded(b);
      assert Telnet.Strip(0, [b]).1 == [b] by { assert [b][1..] == [] && [b] + [] == [b]; }
    }
    forall letter: Byte | 65 <= letter <= 68 ensures Ended([27, 91, letter]) {
      SequenceEnds(letter);
    }
  }

  lemma SequenceEnds(letter: Byte)
    requires 65 <= letter <= 68
    ensures Ended([27, 91, letter])
  {
    var s := [27, 91, letter];
    assert s[1..] == [91, letter] && [91, letter][1..] == [letter] && [letter][1..] == [];
    var none: seq<Byte> := [];
    assert Telnet.Strip(0, none) == (0, none) && Telnet.Arrows(0, none).0 == 0;
    assert Telnet.Strip(0, [letter]) == (0, [letter] + none) && [letter] + none == [letter];
    assert Telnet.Strip(0, [91, letter]) == (0, [91] + [letter]) && [91] + [letter] == [91, letter];
    assert Telnet.Strip(0, s) == (0, [27] + [91, letter]) && [27] + [91, letter] == s;
    assert Telnet.Arrows(91, [letter]).0 == 0;
    assert Telnet.Arrows(1, [91, letter]).0 == 0;
  }

  /** The arrows undo each other, except at the ends of the line. */
  lemma ArrowsUndo(host: Host, tree: seq<Cmd>, d: Desk)
    requires d.Valid() && d.Serving()
    ensures d.z.left != "" ==> Sent(host, tree, d, LEFT + RIGHT) == d
    ensures d.z.right != "" ==> Sent(host, tree, d, RIGHT + LEFT) == d
  {
    hide Sent, Ended;
    var Line(left, right) := d.z;
    KeysEnd();
    SentTogether(host, tree, d, LEFT, RIGHT);
    SentTogether(host, tree, d, RIGHT, LEFT);
    if left != "" {
      var m := |left| - 1;
      assert left == left[..m] + [left[m]];
      LeftKey(host, tree, d, left[..m], left[m], right);
      RightKey(host, tree, d.(z := Line(left[..m], [left[m]] + right)), left[..m], left[m], right);
    }
    if right != "" {
      assert right == [right[0]] + right[1..];
      RightKey(host, tree, d, left, right[0], right[1..]);
      LeftKey(host, tree, d.(z := Line(left + [right[0]], right[1..])), left, right[0], right[1..]);
    }
  }

  /** An end cut off with the left arrow and ^K is not run: the session is given what was before it. */
  lemma CutThenReturn(host: Host, tree: seq<Cmd>, d: Desk, left: string, c: char)
    requires d.Valid() && d.Serving() && d.z == Line(left + [c], "")
    ensures Taken(host, tree, d, Sent(host, tree, d, LEFT + ([11] + [13])), left)
  {
    hide Sent, Ended, Submit;
    var d1 := d.(z := Line(left, [c] + ""));
    var d2 := d.(z := Line(left, ""));
    KeysEnd();
    SentTogether(host, tree, d, LEFT, [11] + [13]);
    SentTogether(host, tree, d1, [11], [13]);
    LeftKey(host, tree, d, left, c, "");
    KillKeys(host, tree, d1);
    ReturnKey(host, tree, d2);
    assert left + "" == left;
  }

  // ----- the history of a run -----

  // the lines that are kept: not empty, not asking for help or for the history
  function Kept(inputs: seq<Input>): seq<string> {
    if inputs == [] then []
    else
      (match inputs[0]
       case Typed(line) =>
         if line == "" || line[|line| - 1] == '?' || FoldEq(line, "history") then [] else [line]
       case _ => [])
      + Kept(inputs[1..])
  }

  lemma {:induction false} KeptConcat(a: seq<Input>, b: seq<Input>)
    ensures Kept(a + b) == Kept(a) + Kept(b)
  {
    if a == [] {
      assert a + b == b;
    } else {
      assert (a + b)[0] == a[0] && (a + b)[1..] == a[1..] + b;
      KeptConcat(a[1..], b);
    }
  }

  /** After any bytes the history is that of the lines the session was given, less those it does not keep. */
  lemma {:induction false} HistoryOfRun(host: Host, tree: seq<Cmd>, d: Desk, keys: seq<Byte>)
    requires d.Valid()
    ensures Run(host, tree, d, keys).entries == RememberAll(d.entries, Kept(Entered(host, tree, d, keys)))
    decreases keys
  {
    hide Meaning, Submit, EndConfig, Apply, FoldEq, Remember;
    if keys != [] && d.Serving() {
      var d', rest := AfterByte(host, tree, d, keys[0]), keys[1..];
      HistoryOfRun(host, tree, d', rest);
      var later := Entered(host, tree, d', rest);
      match Meaning(tree, d, keys[0])
      case Enter => OneMoreKept(d.entries, Typed(d.z.Text()), later);
      case Ask => OneMoreKept(d.entries, Typed(d.z.left + "?"), later);
      case LeaveConfig => OneMoreKept(d.entries, CtrlZ, later);
      case _ => assert [] + later == later;
    }
  }

  lemma OneMoreKept(entries: seq<string>, input: Input, later: seq<Input>)
    ensures var es := if input.Typed? then KeptLine(entries, input.line) else entries;
            RememberAll(entries, Kept([input] + later)) == RememberAll(es, Kept(later))
  {
    hide Remember, FoldEq;
    assert ([input] + later)[0] == input && ([input] + later)[1..] == later;
    var here := Kept([input]);
    assert [input][1..] == [] && here + [] == here;
    KeptConcat([input], later);
    if here == [] {
      assert [] + Kept(later) == Kept(later);
    } else {
      assert (here + Kept(later))[0] == here[0] && (here + Kept(later))[1..] == Kept(later);
    }
  }
}

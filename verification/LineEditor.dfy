/** The editing half of cli_loop: the buffer cmd, its length and cursor, and the bytes written to the client. */
module LineEditing {
  import opened Text
  import opened Terminal
  import opened Editing

  const NUL: char := 0 as char

  // byte i of a buffer holding z and nothing else
  function ByteAt(z: Line, i: nat): char {
    if i < |z.left| then z.left[i]
    else if i < |z.left| + |z.right| then z.right[i - |z.left|]
    else NUL
  }

  predicate NoNul(s: string) {
    forall i :: 0 <= i < |s| ==> s[i] != NUL
  }

  // C strings hold no NUL
  predicate NulFree(key: Key) {
    match key
    case Char(c) => c != NUL
    case Recall(entry) => NoNul(entry)
    case Complete(name) => NoNul(name)
    case CompleteSome(names) => forall i :: 0 <= i < |names| ==> NoNul(names[i])
    case _ => true
  }

  class LineEditor {
    const cmd: array<char>
    const prompt: string
    var l: nat
    var cursor: nat
    var out: string
    ghost var line: Line

    // the bytes of the buffer are those of z and then zeros
    ghost predicate Holds(z: Line)
      reads cmd
    {
      cmd.Length == MAX_LINE && forall i :: 0 <= i < MAX_LINE ==> cmd[i] == ByteAt(z, i)
    }

    /** The buffer holds the line, split at the cursor, and every byte from its end on is zero. */
    ghost predicate Valid()
      reads this, cmd
    {
      && Holds(line) && l < MAX_LINE
      && cursor == |line.left| && l == |line.left| + |line.right|
      && NoNul(line.left) && NoNul(line.right)
    }

    // a fresh line, as at the top of cli_loop's outer loop
    constructor (prompt: string)
      ensures Valid() && fresh(cmd) && line == Line("", "") && this.prompt == prompt
      ensures out == RedrawEcho(prompt, Line("", ""))
    {
      cmd := new char[MAX_LINE](_ => NUL);
      this.prompt := prompt;
      l, cursor := 0, 0;
      out := "\r\n" + prompt;
      line := Line("", "");
      new;
      assert out == RedrawEcho(prompt, Line("", ""));
    }

    /** The next line: the buffer is cleared and the prompt written again. */
    method NewLine()
      requires cmd.Length == MAX_LINE
      modifies this, cmd
      ensures Valid() && line == Line("", "")
      ensures out == old(out) + RedrawEcho(prompt, Line("", ""))
    {
      Zero(0, MAX_LINE);
      l, cursor := 0, 0;
      line := Line("", "");
      ShowLine();
    }

    // the buffer as a C string
    method Contents() returns (s: string)
      requires Valid()
      ensures s == line.Text()
    {
      s := cmd[..l];
      assert s == line.Text();
    }

    method Write(s: string)
      modifies this`out
      ensures out == old(out) + s
    {
      out := out + s;
    }

    // n writes of one byte
    method WriteMany(c: char, n: nat)
      modifies this`out
      ensures out == old(out) + Repeat(c, n)
    {
      for i := 0 to n
        invariant out == old(out) + Repeat(c, i)
      {
        Write([c]);
        assert Repeat(c, i) + [c] == Repeat(c, i + 1);
      }
    }

    // a write of cmd[from..to]
    method WriteRange(from: nat, to: nat, ghost s: string)
      requires from <= to <= cmd.Length && |s| == to - from && forall i :: from <= i < to ==> cmd[i] == s[i - from]
      modifies this`out
      ensures out == old(out) + s
    {
      assert cmd[from..to] == s;
      Write(cmd[from..to]);
    }

    // strlen(cmd + from)
    method Strlen(from: nat, ghost end: nat) returns (n: nat)
      requires cmd.Length == MAX_LINE && from <= end < MAX_LINE && cmd[end] == NUL
      requires forall i :: from <= i < end ==> cmd[i] != NUL
      ensures from + n == end
    {
      n := 0;
      while cmd[from + n] != NUL
        invariant from + n <= end
        decreases end - from - n
      {
        n := n + 1;
      }
    }

    /** A printable character: appended, or pushed into the middle of the line. */
    method TypeChar(c: char)
      requires Valid() && c != NUL && Fits(line, Char(c))
      modifies this, cmd
      ensures Valid() && line == Apply(old(line), Char(c))
      ensures out == old(out) + Echo(prompt, old(line), Char(c))
    {
      if cursor == l {
        cmd[cursor] := c;
        l := l + 1;
        cursor := cursor + 1;
        line := Line(line.left + [c], line.right);
      } else {
        InsertChar(c);
      }
      Write([c]);
    }

    // the middle of the text
    method InsertChar(c: char)
      requires Valid() && c != NUL && l + 2 < MAX_LINE
      modifies this, cmd
      ensures Valid() && line == Apply(old(line), Char(c))
      ensures out == old(out) + ([c] + old(line).right + Backs(|old(line).right| + 1))
    {
      ghost var s := [c] + line.right;
      PlaceAtCursor(c);
      assert forall i :: cursor <= i < l + 1 ==> cmd[i] == s[i - cursor];
      WriteRange(cursor, l + 1, s);
      WriteMany(BACKSPACE, l - cursor + 1);
      Assoc(old(out), s, Backs(|line.right| + 1));
      l := l + 1;
      cursor := cursor + 1;
      line := Line(line.left + [c], line.right);
    }

    method PlaceAtCursor(c: char)
      requires Valid() && l + 2 < MAX_LINE
      modifies cmd
      ensures forall i :: 0 <= i < MAX_LINE ==> cmd[i] == ByteAt(Line(line.left + [c], line.right), i)
    {
      hide ByteAt;
      InsertedBytes(line, c);
      ShiftRight();
      cmd[cursor] := c;
    }

    // makes room for one byte at the cursor
    method ShiftRight()
      requires Valid() && l + 2 < MAX_LINE
      modifies cmd
      ensures forall i :: 0 <= i < MAX_LINE ==> cmd[i] == old(cmd[if cursor < i <= l + 1 then i - 1 else i])
    {
      var i := l;
      while i >= cursor
        invariant cursor - 1 <= i <= l
        invariant forall k :: 0 <= k < MAX_LINE ==> cmd[k] == old(cmd[if i < k - 1 <= l then k - 1 else k])
        decreases i
      {
        cmd[i + 1] := cmd[i];
        i := i - 1;
      }
    }

    // closes the gap at the cursor
    method ShiftLeft(from: nat)
      requires cmd.Length == MAX_LINE && from <= l && l + 2 < MAX_LINE
      modifies cmd
      ensures forall i :: 0 <= i < MAX_LINE ==> cmd[i] == old(cmd[if from <= i <= l then i + 1 else i])
    {
      for i := from to l + 1
        invariant forall k :: 0 <= k < MAX_LINE ==> cmd[k] == old(cmd[if from <= k < i then k + 1 else k])
      {
        cmd[i] := cmd[i + 1];
      }
    }

    // one turn of the deletion loop shared by backspace and ^W
    method DeleteOne()
      requires Valid() && cursor > 0 && l + 2 < MAX_LINE
      modifies this, cmd
      ensures Valid() && line == Apply(old(line), Backspace)
      ensures out == old(out) + DeleteEcho(old(line).right)
    {
      ghost var z := Apply(line, Backspace);
      if l == cursor {
        cursor := cursor - 1;
        cmd[cursor] := NUL;
        Write([BACKSPACE, ' ', BACKSPACE]);
        assert [BACKSPACE, ' ', BACKSPACE] == Backs(1) + Blanks(1) + Backs(1);
      } else {
        cursor := cursor - 1;
        ShiftLeft(cursor);
        assert forall i :: 0 <= i < MAX_LINE ==> cmd[i] == ByteAt(z, i);
        assert forall i :: cursor <= i < cursor + |z.right| ==> cmd[i] == z.right[i - cursor];
        RedrawTail(z.right);
      }
      l := l - 1;
      line := z;
    }

    // rewrites what follows the cursor, one place to the left of where it was
    method RedrawTail(ghost right: string)
      requires cmd.Length == MAX_LINE && cursor + |right| < MAX_LINE && NoNul(right)
      requires forall i :: cursor <= i < cursor + |right| ==> cmd[i] == right[i - cursor]
      requires cmd[cursor + |right|] == NUL
      modifies this`out
      ensures out == old(out) + (Backs(1) + right + Blanks(1) + Backs(|right| + 1))
    {
      WriteMany(BACKSPACE, 1);
      var n := Strlen(cursor, cursor + |right|);
      WriteRange(cursor, cursor + n, right);
      WriteMany(' ', 1);
      WriteMany(BACKSPACE, n + 1);
      Assoc5(old(out), Backs(1), right, Blanks(1), Backs(n + 1));
    }

    method Delete(n: nat)
      requires Valid() && n <= cursor && l + 2 < MAX_LINE
      modifies this, cmd
      ensures Valid() && line == Line(old(line).left[..old(cursor) - n], old(line).right)
      ensures out == old(out) + DeleteEchoes(old(line).right, n)
    {
      hide DeleteEcho, Backs, ByteAt;
      ghost var z, all := line, DeleteEchoes(line.right, n);
      var back := n;
      assert z.left[..|z.left|] == z.left && "" + all == all;
      while back > 0
        invariant 0 <= back <= n && Valid() && l + 2 < MAX_LINE
        invariant line == Line(z.left[..|z.left| - (n - back)], z.right)
        invariant out + DeleteEchoes(z.right, back) == old(out) + all
      {
        ghost var before := out;
        DeleteOne();
        back := back - 1;
        Assoc(before, DeleteEcho(z.right), DeleteEchoes(z.right, back));
      }
      assert out + "" == out;
    }

    method PressBackspace()
      requires Valid() && Fits(line, Backspace)
      modifies this, cmd
      ensures Valid() && line == Apply(old(line), Backspace)
      ensures out == old(out) + Echo(prompt, old(line), Backspace)
    {
      if l == 0 || cursor == 0 {
        Write([BELL]);
      } else {
        DeleteOne();
      }
    }

    // counts what ^W takes: nc runs back over spaces, then over the word
    method CountWord() returns (back: nat)
      requires Valid()
      ensures back == WordBack(line.left)
    {
      hide Spaces, NonSpaces;
      ghost var s := line.left;
      var nc: nat := cursor;
      back := 0;
      assert s[..|s|] == s;
      while nc > 0 && cmd[nc - 1] == ' '
        invariant nc + back == |s| && Spaces(s) == back + Spaces(s[..nc])
      {
        SpacesBack(s, nc);
        nc := nc - 1;
        back := back + 1;
      }
      SpacesBack(s, nc);
      var more := CountNonSpaces(nc);
      back := back + more;
    }

    method CountNonSpaces(from: nat) returns (back: nat)
      requires Valid() && from <= cursor
      ensures back == NonSpaces(line.left[..from])
    {
      hide NonSpaces;
      ghost var s := line.left[..from];
      var nc: nat := from;
      back := 0;
      assert s[..|s|] == s;
      while nc > 0 && cmd[nc - 1] != ' '
        invariant nc + back == |s| && NonSpaces(s) == back + NonSpaces(s[..nc])
      {
        SpacesBack(s, nc);
        nc := nc - 1;
        back := back + 1;
      }
      SpacesBack(s, nc);
    }

    method PressKillWord()
      requires Valid() && Fits(line, KillWord)
      modifies this, cmd
      ensures Valid() && line == Apply(old(line), KillWord)
      ensures out == old(out) + Echo(prompt, old(line), KillWord)
    {
      var back := CountWord();
      if l == 0 || cursor == 0 {
        assert old(out) + "" == old(out);
        return;
      }
      Delete(back);
    }

    // memset(cmd + from, 0, to - from)
    method Zero(from: nat, to: nat)
      requires from <= to <= cmd.Length
      modifies cmd
      ensures forall i :: 0 <= i < cmd.Length ==> cmd[i] == if from <= i < to then NUL else old(cmd[i])
    {
      for i := from to to
        invariant forall k :: 0 <= k < cmd.Length ==> cmd[k] == if from <= k < i then NUL else old(cmd[k])
      {
        cmd[i] := NUL;
      }
    }

    // cmd[from..to] = c
    method Fill(from: nat, to: nat, c: char)
      requires from <= to <= cmd.Length
      modifies cmd
      ensures forall i :: 0 <= i < cmd.Length ==> cmd[i] == if from <= i < to then c else old(cmd[i])
    {
      for i := from to to
        invariant forall k :: 0 <= k < cmd.Length ==> cmd[k] == if from <= k < i then c else old(cmd[k])
      {
        cmd[i] := c;
      }
    }

    /** cli_clear_line: the buffer is the scratch space for three times its length, so it must have room. */
    method ClearLine()
      requires Valid() && 3 * l <= MAX_LINE
      modifies cmd, this`out
      ensures out == old(out) + ClearEcho(line)
      ensures forall i :: 0 <= i < MAX_LINE ==> cmd[i] == NUL
    {
      hide ByteAt;
      if cursor < l {
        WriteMany(' ', l - cursor);
      } else {
        assert out == out + Blanks(0);
      }
      PastEnd(line);
      Fill(0, l, BACKSPACE);
      Fill(l, 2 * l, ' ');
      Fill(2 * l, 3 * l, BACKSPACE);
      WriteRange(0, 3 * l, Backs(l) + Blanks(l) + Backs(l));
      Zero(0, 3 * l);
      Assoc(old(out), Blanks(|line.right|), Backs(l) + Blanks(l) + Backs(l));
    }

    method PressKillLine()
      requires Valid() && Fits(line, KillLine)
      modifies this, cmd
      ensures Valid() && line == Apply(old(line), KillLine)
      ensures out == old(out) + Echo(prompt, old(line), KillLine)
    {
      ClearLine();
      l, cursor := 0, 0;
      line := Line("", "");
    }

    method PressKillEnd()
      requires Valid()
      modifies this, cmd
      ensures Valid() && line == Apply(old(line), KillEnd)
      ensures out == old(out) + Echo(prompt, old(line), KillEnd)
    {
      var n := l - cursor;
      assert n == |line.right|;
      Assoc(out, Blanks(n), Backs(n));
      if cursor < l {
        WriteMany(' ', n);
        WriteMany(BACKSPACE, n);
        Zero(cursor, l);
        l := cursor;
      }
      line := Line(line.left, "");
    }

    /** Left, right, start and end of line. */
    method Move(key: Key)
      requires Valid() && (key.Home? || key.End? || key.Left? || key.Right?)
      modifies this
      ensures Valid() && line == Apply(old(line), key)
      ensures out == old(out) + Echo(prompt, old(line), key)
    {
      if key.Home? || key.End? {
        MoveFar(key);
      } else {
        MoveOne(key);
      }
    }

    method MoveFar(key: Key)
      requires Valid() && (key.Home? || key.End?)
      modifies this
      ensures Valid() && line == Apply(old(line), key)
      ensures out == old(out) + Echo(prompt, old(line), key)
    {
      hide Stem, CommonPrefix, WordBack, ClearEcho, RedrawEcho, DeleteEchoes, DeleteEcho;
      ghost var z := line;
      if key.Home? {
        WriteMany(BACKSPACE, cursor);
        cursor := 0;
        line := Line("", z.left + z.right);
      } else {
        if cursor < l {
          WriteRange(cursor, l, z.right);
          cursor := l;
        } else {
          assert out + "" == out;
        }
        line := Line(z.left + z.right, "");
      }
    }

    method MoveOne(key: Key)
      requires Valid() && (key.Left? || key.Right?)
      modifies this
      ensures Valid() && line == Apply(old(line), key)
      ensures out == old(out) + Echo(prompt, old(line), key)
    {
      hide Stem, CommonPrefix, WordBack, ClearEcho, RedrawEcho, DeleteEchoes, DeleteEcho;
      ghost var z := line;
      assert out + "" == out;
      if key.Left? {
        if cursor > 0 {
          WriteMany(BACKSPACE, 1);
          cursor := cursor - 1;
          line := Line(z.left[..|z.left| - 1], [z.left[|z.left| - 1]] + z.right);
        }
      } else if cursor < l {
        WriteRange(cursor, cursor + 1, [z.right[0]]);
        cursor := cursor + 1;
        line := Line(z.left + [z.right[0]], z.right[1..]);
      }
    }

    // the prompt and the line on a new row, as ^L and a pending showprompt write them
    method ShowLine()
      requires Valid()
      modifies this`out
      ensures out == old(out) + RedrawEcho(prompt, line)
    {
      ghost var text := line.left + line.right;
      Write("\r\n");
      Write(prompt);
      WriteRange(0, l, text);
      WriteMany(BACKSPACE, l - cursor);
      assert old(out) + "\r\n" + prompt + text + Backs(|line.right|)
          == old(out) + ("\r\n" + (prompt + text) + Backs(|line.right|));
    }

    /** An entry of the history replaces the line. */
    method PressRecall(entry: string)
      requires Valid() && NoNul(entry) && Fits(line, Recall(entry))
      modifies this, cmd
      ensures Valid() && line == Apply(old(line), Recall(entry))
      ensures out == old(out) + Echo(prompt, old(line), Recall(entry))
    {
      ghost var echo := ClearEcho(line);
      ClearLine();
      CopyAt(0, entry);
      l, cursor := |entry|, |entry|;
      line := Line(entry, "");
      WriteRange(0, l, entry);
      Assoc(old(out), echo, entry);
    }

    // strcpy(cmd + at, s) without the terminator
    method CopyAt(at: nat, s: string)
      requires at + |s| <= cmd.Length
      modifies cmd
      ensures forall i :: 0 <= i < cmd.Length ==> cmd[i] == if at <= i < at + |s| then s[i - at] else old(cmd[i])
    {
      for i := 0 to |s|
        invariant forall k :: 0 <= k < cmd.Length ==> cmd[k] == if at <= k < at + i then s[k - at] else old(cmd[k])
      {
        cmd[at + i] := s[i];
      }
    }

    // l and cursor go back to a space, a pipe or the start of the line; the bytes stay
    method BackToStem()
      requires Valid() && line.right == ""
      modifies this`l, this`cursor, this`out
      ensures l == cursor == |Stem(line.left)|
      ensures out == old(out) + Backs(|line.left| - |Stem(line.left)|)
    {
      hide Stem;
      ghost var s := line.left;
      assert s[..|s|] == s && out + Backs(0) == out;
      while l > 0 && !(cmd[l - 1] == ' ' || cmd[l - 1] == '|')
        invariant l == cursor <= |s| && Stem(s) == Stem(s[..l])
        invariant out == old(out) + Backs(|s| - l)
      {
        StemBack(s, l);
        OneMoreBack(old(out), |s| - l);
        Write([BACKSPACE]);
        l := l - 1;
        cursor := cursor - 1;
      }
      StemBack(s, l);
    }

    /**
     TAB with one completion: it replaces the last word and a space follows. Of a longer word the end is left in the
     buffer, behind the line, and since nothing ends the line there any more it is run with it.
     */
    method PressComplete(name: string)
      requires Valid() && NoNul(name) && Fits(line, Complete(name))
      modifies this, cmd
      ensures line == Apply(old(line), Complete(name)) && Holds(Line(line.left, Residue(old(line), Complete(name))))
      ensures Valid() <==> Covers(old(line), Complete(name))
      ensures out == old(out) + Echo(prompt, old(line), Complete(name))
    {
      ghost var z, stem, n := line, Stem(line.left), |line.left| - |Stem(line.left)|;
      ReplaceWord(name + " ");
      ResidueMeaning(z, Complete(name));
      Assoc(stem, name, " ");
      Assoc4(old(out), Backs(n), name, " ");
      Assoc(Backs(n), name, " ");
    }

    /** TAB with several completions: the last word grows, or shrinks, to the prefix they share. */
    method PressCompleteSome(names: seq<string>)
      requires Valid() && Fits(line, CompleteSome(names)) && (forall i :: 0 <= i < |names| ==> NoNul(names[i]))
      modifies this, cmd
      ensures line == Apply(old(line), CompleteSome(names))
      ensures names != [] ==> Holds(Line(line.left, Residue(old(line), CompleteSome(names))))
      ensures Valid() <==> Covers(old(line), CompleteSome(names))
      ensures out == old(out) + Echo(prompt, old(line), CompleteSome(names))
    {
      hide Stem, CommonPrefix;
      if names == [] {
        Write([BELL]);
        return;
      }
      var fill := FillLength(names);
      var text := names[0][..fill];
      assert text == CommonPrefix(names);
      ResidueMeaning(line, CompleteSome(names));
      ReplaceWord(text);
      Write([BELL]);
    }

    // the last word gives way to a text, which may not cover it
    method ReplaceWord(text: string)
      requires Valid() && NoNul(text) && line.right == "" && |Stem(line.left)| + |text| < MAX_LINE
      modifies this, cmd
      ensures line == Line(Stem(old(line).left) + text, "") && Holds(Line(line.left, Uncovered(old(line).left, |text|)))
      ensures Valid() <==> Uncovered(old(line).left, |text|) == ""
      ensures out == old(out) + (Backs(|old(line).left| - |Stem(old(line).left)|) + text)
    {
      hide ByteAt, Stem, Tail;
      ghost var z := line;
      ghost var n := |z.left| - |Stem(z.left)|;
      BackToStem();
      CopyAt(l, text);
      l := l + |text|;
      cursor := l;
      Write(text);
      line := Line(Stem(z.left) + text, "");
      PutOver(z.left, text);
      ResidueInBuffer(line.left, Uncovered(z.left, |text|));
      Assoc(old(out), Backs(n), text);
    }

    // the fill loop: how many characters all the names agree on
    static method FillLength(names: seq<string>) returns (fill: nat)
      requires names != []
      ensures fill <= |names[0]| && names[0][..fill] == CommonPrefix(names)
    {
      fill := 0;
      CommonPrefixMeaning(names);
      while fill < |names[0]|
        invariant fill <= |CommonPrefix(names)|
      {
        var i := 1;
        while i < |names| && fill < |names[i]| && names[i][fill] == names[0][fill]
          invariant 1 <= i <= |names|
          invariant forall k :: 0 <= k < i ==> fill < |names[k]| && names[k][fill] == names[0][fill]
        {
          i := i + 1;
        }
        if i < |names| {
          break;
        }
        fill := fill + 1;
      }
    }

    /**
     `?` at the end of the line: the line with the question mark is run, and once the help is out the line is put
     back as it was, without it.
     */
    method PressQuestion(help: string) returns (asked: string)
      requires Valid() && Fits(line, Question(help))
      modifies this, cmd
      ensures asked == old(line).left + "?"
      ensures Valid() && line == old(line)
      ensures out == old(out) + Echo(prompt, old(line), Question(help))
    {
      cmd[cursor] := '?';
      l := l + 1;
      cursor := cursor + 1;
      Write("\r\n");
      var oldl := l - 1;
      asked := cmd[..l];
      assert asked == line.left + "?";
      Write(help);
      l := oldl;
      cursor := oldl;
      cmd[l] := NUL;
      ShowLine();
      assert old(out) + "\r\n" + help + RedrawEcho(prompt, line)
          == old(out) + ("\r\n" + help + RedrawEcho(prompt, line));
    }

    // one turn of cli_loop's inner loop
    method Press(key: Key)
      requires Valid() && NulFree(key) && Fits(line, key)
      modifies this, cmd
      ensures line == Apply(old(line), key) && (Valid() <==> Covers(old(line), key))
      ensures out == old(out) + Echo(prompt, old(line), key)
    {
      match key
      case Char(c) => TypeChar(c);
      case Backspace => PressBackspace();
      case KillWord => PressKillWord();
      case KillLine => PressKillLine();
      case KillEnd => PressKillEnd();
      case Redraw => ShowLine();
      case Recall(entry) => PressRecall(entry);
      case Complete(name) => PressComplete(name);
      case CompleteSome(names) => PressCompleteSome(names);
      case Question(help) => var _ := PressQuestion(help);
      case _ => Move(key);
    }

    /**
     Any keys, one after another, up to the first completion that does not cover: the buffer follows the zipper and
     the bytes sent are those of Echo. The buffer ends up sound if and only if every completion covers.
     */
    method PressAll(keys: seq<Key>)
      requires Valid() && AllFit(line, keys) && forall i :: 0 <= i < |keys| ==> NulFree(keys[i])
      requires keys != [] ==> AllCover(line, keys[..|keys| - 1])
      modifies this, cmd
      ensures line == ApplyAll(old(line), keys) && (Valid() <==> AllCover(old(line), keys))
      ensures out == old(out) + EchoAll(prompt, old(line), keys)
    {
      ghost var z, all := line, EchoAll(prompt, line, keys);
      assert keys[0..] == keys && "" + all == all && out + "" == out;
      for n := 0 to |keys|
        invariant n < |keys| ==> Valid() && AllFit(line, keys[n..]) && AllCover(line, keys[n..|keys| - 1])
        invariant ApplyAll(line, keys[n..]) == ApplyAll(z, keys)
        invariant Valid() && AllCover(line, keys[n..]) <==> AllCover(z, keys)
        invariant out + EchoAll(prompt, line, keys[n..]) == old(out) + all
      {
        NextKey(line, keys, n);
        NextEcho(prompt, line, keys, n);
        Assoc(out, Echo(prompt, line, keys[n]), EchoAll(prompt, Apply(line, keys[n]), keys[n + 1..]));
        Press(keys[n]);
      }
      assert keys[|keys|..] == [] && out + "" == out;
    }

    /** Ctrl-Z in config mode clears the bytes but not the length: the buffer stays sound only on an empty line. */
    method PressCtrlZ()
      requires Valid() && 3 * l <= MAX_LINE
      modifies cmd, this`out
      ensures l == old(l) && (forall i :: 0 <= i < MAX_LINE ==> cmd[i] == NUL)
      ensures Valid() <==> old(l) == 0
    {
      ClearLine();
      assert ByteAt(line, 0) == NUL <==> l == 0;
    }
  }

  lemma CutLast(s: string, n: nat)
    requires 0 < n <= |s|
    ensures s[..n][..n - 1] == s[..n - 1] && s[..n][n - 1] == s[n - 1]
  {
  }

  lemma PastEnd(z: Line)
    ensures forall i :: |z.left| + |z.right| <= i < MAX_LINE ==> ByteAt(z, i) == NUL
  {
  }

  lemma InsertedBytes(z: Line, c: char)
    ensures var l := |z.left| + |z.right|;
            forall i :: 0 <= i < MAX_LINE ==>
              ByteAt(Line(z.left + [c], z.right), i)
              == if i == |z.left| then c else ByteAt(z, if |z.left| < i <= l + 1 then i - 1 else i)
  {
  }

  // where the stem ends, one character back at a time
  lemma StemBack(s: string, n: nat)
    requires n <= |s|
    ensures n > 0 && s[n - 1] != ' ' && s[n - 1] != '|' ==> Stem(s[..n]) == Stem(s[..n - 1])
    ensures n == 0 || s[n - 1] == ' ' || s[n - 1] == '|' ==> Stem(s[..n]) == s[..n]
  {
    if n > 0 { CutLast(s, n); }
  }

  lemma SpacesBack(s: string, n: nat)
    requires n <= |s|
    ensures n > 0 && s[n - 1] == ' ' ==> Spaces(s[..n]) == 1 + Spaces(s[..n - 1])
    ensures n == 0 || s[n - 1] != ' ' ==> Spaces(s[..n]) == 0
    ensures n > 0 && s[n - 1] != ' ' ==> NonSpaces(s[..n]) == 1 + NonSpaces(s[..n - 1])
    ensures n == 0 || s[n - 1] == ' ' ==> NonSpaces(s[..n]) == 0
  {
    if n > 0 { CutLast(s, n); }
  }

  // the next key, and the rest of them
  lemma NextKey(z: Line, keys: seq<Key>, n: nat)
    requires n < |keys| && AllFit(z, keys[n..])
    ensures var key, rest := keys[n], keys[n + 1..];
            && Fits(z, key) && AllFit(Apply(z, key), rest)
            && (AllCover(z, keys[n..]) <==> Covers(z, key) && AllCover(Apply(z, key), rest))
            && ApplyAll(z, keys[n..]) == ApplyAll(Apply(z, key), rest)
    ensures n + 1 < |keys| && AllCover(z, keys[n..|keys| - 1]) ==>
              Covers(z, keys[n]) && AllCover(Apply(z, keys[n]), keys[n + 1..|keys| - 1])
  {
    assert keys[n..][0] == keys[n] && keys[n..][1..] == keys[n + 1..];
    if n + 1 < |keys| {
      assert keys[n..|keys| - 1][0] == keys[n] && keys[n..|keys| - 1][1..] == keys[n + 1..|keys| - 1];
    }
  }

  lemma NextEcho(prompt: string, z: Line, keys: seq<Key>, n: nat)
    requires n < |keys|
    ensures EchoAll(prompt, z, keys[n..])
        == Echo(prompt, z, keys[n]) + EchoAll(prompt, Apply(z, keys[n]), keys[n + 1..])
  {
    assert keys[n..][0] == keys[n] && keys[n..][1..] == keys[n + 1..];
  }

  // a text written over the last word of a line, and what it leaves of it
  lemma PutOver(left: string, text: string)
    requires NoNul(left)
    ensures var stem, rest := Stem(left), Uncovered(left, |text|);
            && NoNul(stem) && NoNul(rest)
            && forall i :: 0 <= i < MAX_LINE ==>
                 ByteAt(Line(stem + text, rest), i)
                 == if |stem| <= i < |stem| + |text| then text[i - |stem|] else ByteAt(Line(left, ""), i)
  {
  }

  lemma ResidueInBuffer(left: string, rest: string)
    requires NoNul(rest) && |left| < MAX_LINE
    ensures rest == "" <==> forall i :: 0 <= i < MAX_LINE ==> ByteAt(Line(left, rest), i) == ByteAt(Line(left, ""), i)
  {
    assert rest != "" ==> ByteAt(Line(left, rest), |left|) == rest[0];
    assert ByteAt(Line(left, ""), |left|) == NUL;
  }

  lemma OneMoreBack(out: string, n: nat)
    ensures out + Backs(n) + [BACKSPACE] == out + Backs(n + 1)
  {
  }

  // the shared prefix begins every name, and where the first name goes on some name ends or differs
  lemma {:induction false} CommonPrefixMeaning(names: seq<string>)
    requires names != []
    ensures var p := CommonPrefix(names);
            && (forall i :: 0 <= i < |names| ==> HasPrefix(p, names[i]))
            && (|p| < |names[0]| ==>
                  exists i :: 0 <= i < |names| && (|names[i]| == |p| || names[i][|p|] != names[0][|p|]))
  {
    if |names| > 1 {
      var rest := names[1..];
      CommonPrefixMeaning(rest);
      var q := CommonPrefix(rest);
      var n := Shared(names[0], q);
      forall i | 0 <= i < |names| ensures HasPrefix(names[0][..n], names[i]) {
        if i > 0 {
          assert names[i] == rest[i - 1] && names[i][..n] == names[i][..|q|][..n];
        }
      }
      if n < |names[0]| {
        assert rest[0] == names[1];
        if n < |q| {
          assert names[1][n] == names[1][..|q|][n] == q[n];
        } else if |q| < |rest[0]| {
          var k :| 0 <= k < |rest| && (|rest[k]| == |q| || rest[k][|q|] != rest[0][|q|]);
          assert names[k + 1] == rest[k];
        }
      }
    }
  }
}

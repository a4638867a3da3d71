/** Line editing as keys acting on a zipper, the bytes each key sends back, and the screen they keep. */
module Editing {
  import opened Text
  import opened Terminal

  const MAX_LINE: nat := 4096

  /** The line being edited, split at the cursor. */
  datatype Line = Line(left: string, right: string) {
    function Text(): string { left + right }
  }

  datatype Key =
    | Char(c: char)
    | Backspace | KillWord | KillLine | KillEnd
    | Home | End | Left | Right
    | Redraw
    | Recall(entry: string)
    | Complete(name: string)
    | CompleteSome(names: seq<string>)
    | Question(help: string)

  // spaces, then non-spaces, at the end of s: what ^W takes
  function Spaces(s: string): (n: nat)
    ensures n <= |s| && (forall k :: |s| - n <= k < |s| ==> s[k] == ' ') && (n < |s| ==> s[|s| - n - 1] != ' ')
  {
    if s == "" || s[|s| - 1] != ' ' then 0 else 1 + Spaces(s[..|s| - 1])
  }

  function NonSpaces(s: string): (n: nat)
    ensures n <= |s| && (forall k :: |s| - n <= k < |s| ==> s[k] != ' ') && (n < |s| ==> s[|s| - n - 1] == ' ')
  {
    if s == "" || s[|s| - 1] == ' ' then 0 else 1 + NonSpaces(s[..|s| - 1])
  }

  function WordBack(s: string): (n: nat)
    ensures n <= |s|
  {
    Spaces(s) + NonSpaces(s[..|s| - Spaces(s)])
  }

  // the end of the line back to a space or a pipe: what a completion replaces
  function Stem(s: string): (stem: string)
    ensures |stem| <= |s| && s[..|stem|] == stem
  {
    if s == "" || s[|s| - 1] == ' ' || s[|s| - 1] == '|' then s else Stem(s[..|s| - 1])
  }

  /** It keeps everything up to the last space or pipe. */
  lemma {:induction false} StemMeaning(s: string)
    ensures var stem := Stem(s);
            && (forall k :: |stem| <= k < |s| ==> s[k] != ' ' && s[k] != '|')
            && (stem != "" ==> stem[|stem| - 1] == ' ' || stem[|stem| - 1] == '|')
  {
    if s != "" && s[|s| - 1] != ' ' && s[|s| - 1] != '|' {
      StemMeaning(s[..|s| - 1]);
      assert forall k :: 0 <= k < |s| - 1 ==> s[..|s| - 1][k] == s[k];
    }
  }

  /** The prefix that all the names share. */
  function CommonPrefix(names: seq<string>): (p: string)
    requires names != []
  {
    if |names| == 1 then names[0] else names[0][..Shared(names[0], CommonPrefix(names[1..]))]
  }

  /** What a key does to the line. */
  function Apply(z: Line, key: Key): Line {
    var Line(left, right) := z;
    match key
    case Char(c) => Line(left + [c], right)
    case Backspace => if left == "" then z else Line(left[..|left| - 1], right)
    case KillWord => Line(left[..|left| - WordBack(left)], right)
    case KillLine => Line("", "")
    case KillEnd => Line(left, "")
    case Home => Line("", left + right)
    case End => Line(left + right, "")
    case Left => if left == "" then z else Line(left[..|left| - 1], [left[|left| - 1]] + right)
    case Right => if right == "" then z else Line(left + [right[0]], right[1..])
    case Redraw => z
    case Recall(entry) => Line(entry, "")
    case Complete(name) => Line(Stem(left) + name + " ", "")
    case CompleteSome(names) => if names == [] then z else Line(Stem(left) + CommonPrefix(names), "")
    case Question(_) => z
  }

  // ----- the bytes sent -----

  function Backs(n: nat): string { Repeat(BACKSPACE, n) }

  function Blanks(n: nat): string { Repeat(' ', n) }

  function ClearEcho(z: Line): string {
    var l := |z.left| + |z.right|;
    Blanks(|z.right|) + (Backs(l) + Blanks(l) + Backs(l))
  }

  function DeleteEcho(right: string): string {
    if right == "" then Backs(1) + Blanks(1) + Backs(1)
    else Backs(1) + right + Blanks(1) + Backs(|right| + 1)
  }

  function DeleteEchoes(right: string, n: nat): string {
    if n == 0 then "" else DeleteEcho(right) + DeleteEchoes(right, n - 1)
  }

  function RedrawEcho(prompt: string, z: Line): string {
    "\r\n" + (prompt + z.Text()) + Backs(|z.right|)
  }

  function Echo(prompt: string, z: Line, key: Key): string {
    var Line(left, right) := z;
    match key
    case Char(c) => if right == "" then [c] else [c] + right + Backs(|right| + 1) + [c]
    case Backspace => if left == "" then [BELL] else DeleteEcho(right)
    case KillWord => DeleteEchoes(right, WordBack(left))
    case KillLine => ClearEcho(z)
    case KillEnd => Blanks(|right|) + Backs(|right|)
    case Home => Backs(|left|)
    case End => right
    case Left => if left == "" then "" else Backs(1)
    case Right => if right == "" then "" else [right[0]]
    case Redraw => RedrawEcho(prompt, z)
    case Recall(entry) => ClearEcho(z) + entry
    case Complete(name) => Backs(|left| - |Stem(left)|) + name + " "
    case CompleteSome(names) =>
      if names == [] then [BELL]
      else Backs(|left| - |Stem(left)|) + CommonPrefix(names) + [BELL]
    case Question(help) => "\r\n" + help + RedrawEcho(prompt, z)
  }

  /** A key that can do nothing rings the bell, and so does a completion that is not the only one. */
  lemma BellRings(prompt: string, z: Line, names: seq<string>)
    ensures z.left == "" ==> Echo(prompt, z, Backspace) == [7 as char]
    ensures Echo(prompt, z, CompleteSome([])) == [7 as char]
    ensures names != [] ==>
              var sent := Echo(prompt, z, CompleteSome(names)); sent != "" && sent[|sent| - 1] == 7 as char
  {
  }

  /**
   When a key stays within the buffer. A question mark at the end of the line is no plain character: it is `Question`;
   completions are asked for at the end of the line only.
   */
  predicate Fits(z: Line, key: Key) {
    var l := |z.left| + |z.right|;
    match key
    case Char(c) => l + 2 < MAX_LINE && (c == '?' ==> z.right != "")
    case KillLine => 3 * l <= MAX_LINE
    case Recall(entry) => 3 * l <= MAX_LINE && |entry| < MAX_LINE
    case Complete(name) =>
      z.right == "" && |Stem(z.left)| + |name| + 2 < MAX_LINE
    case CompleteSome(names) =>
      z.right == "" && |names| != 1 && (names != [] ==> |Stem(z.left)| + |CommonPrefix(names)| + 2 < MAX_LINE)
    case Question(_) => z.right == "" && l + 2 < MAX_LINE
    case _ => l + 2 < MAX_LINE
  }

  /** A completion is as long as the word it replaces. */
  predicate Covers(z: Line, key: Key) {
    var n := |z.left| - |Stem(z.left)|;
    match key
    case Complete(name) => n <= |name| + 1
    case CompleteSome(names) => names != [] ==> n <= |CommonPrefix(names)|
    case _ => true
  }

  /** What one that is shorter leaves behind it: the end of that word. */
  function Residue(z: Line, key: Key): string {
    match key
    case Complete(name) => Uncovered(z.left, |name| + 1)
    case CompleteSome(names) => if names == [] then "" else Uncovered(z.left, |CommonPrefix(names)|)
    case _ => ""
  }

  function Uncovered(left: string, n: nat): string {
    Tail(left[|Stem(left)|..], n)
  }

  function Tail(word: string, n: nat): string {
    if |word| <= n then "" else word[n..]
  }

  lemma ResidueMeaning(z: Line, key: Key)
    ensures Residue(z, key) == "" <==> Covers(z, key)
    ensures Residue(z, key) != "" ==> Residue(z, key)[0] != ' '
  {
    StemMeaning(z.left);
  }

  /** Nothing is put into the line but what a terminal prints. */
  predicate Clean(key: Key) {
    match key
    case Char(c) => Printable(c)
    case Recall(entry) => AllPrintable(entry)
    case Complete(name) => AllPrintable(name)
    case CompleteSome(names) => names != [] ==> AllPrintable(CommonPrefix(names))
    case _ => true
  }

  /** The terminal agrees with the line: prompt, text, blanks, and the cursor where editing is. */
  ghost predicate InStep(t: Screen, prompt: string, z: Line) {
    && AllPrintable(prompt) && AllPrintable(z.left) && AllPrintable(z.right)
    && Shows(t, prompt + z.Text(), |prompt| + |z.left|)
  }

  // ----- each key keeps the screen in step -----

  lemma CharInStep(t: Screen, prompt: string, z: Line, c: char)
    requires InStep(t, prompt, z) && Printable(c)
    ensures InStep(Feed(t, Echo(prompt, z, Char(c))), prompt, Apply(z, Char(c)))
  {
    var text, col := prompt + z.Text(), |prompt| + |z.left|;
    var text' := prompt + Apply(z, Char(c)).Text();
    if z.right == "" {
      FeedText(t, text, col, [c]);
      SameLook(Feed(t, [c]), Over(text, col, [c]), text', col + 1);
    } else {
      var s := [c] + z.right;
      var back := Backs(|z.right| + 1);
      FeedThenBack(t, text, col, s, |z.right| + 1);
      var t1 := Feed(t, s + back);
      SameLook(t1, Over(text, col, s), text', col);
      FeedText(t1, text', col, [c]);
      FeedConcat(t, s + back, [c]);
      SameLook(Feed(t1, [c]), Over(text', col, [c]), text', col + 1);
    }
  }

  lemma {:induction false} DeleteInStep(t: Screen, prompt: string, z: Line)
    requires InStep(t, prompt, z) && z.left != ""
    ensures InStep(Feed(t, DeleteEcho(z.right)), prompt, Line(z.left[..|z.left| - 1], z.right))
  {
    var text, col := prompt + z.Text(), |prompt| + |z.left|;
    var s, n := z.right + Blanks(1), |z.right| + 1;
    var text' := prompt + (z.left[..|z.left| - 1] + z.right);
    FeedBacks(t, text, col, 1);
    var t1 := Feed(t, Backs(1));
    FeedThenBack(t1, text, col - 1, s, n);
    FeedConcat(t, Backs(1), s + Backs(n));
    assert DeleteEcho(z.right) == Backs(1) + (s + Backs(n));
    SameLook(Feed(t1, s + Backs(n)), Over(text, col - 1, s), text', col - 1);
  }

  lemma {:induction false} DeletesInStep(t: Screen, prompt: string, z: Line, n: nat)
    requires InStep(t, prompt, z) && n <= |z.left|
    ensures InStep(Feed(t, DeleteEchoes(z.right, n)), prompt, Line(z.left[..|z.left| - n], z.right))
    decreases n
  {
    if n == 0 {
      assert z.left[..|z.left|] == z.left;
    } else {
      DeleteInStep(t, prompt, z);
      var t1, z1 := Feed(t, DeleteEcho(z.right)), Line(z.left[..|z.left| - 1], z.right);
      DeletesInStep(t1, prompt, z1, n - 1);
      assert z1.left[..|z1.left| - (n - 1)] == z.left[..|z.left| - n];
      FeedConcat(t, DeleteEcho(z.right), DeleteEchoes(z.right, n - 1));
    }
  }

  // a row whose line has been blanked from the cursor on, and then from the prompt on
  lemma WipedLook(prompt: string, z: Line)
    ensures var l := |z.left| + |z.right|;
            var once := Over(prompt + z.Text(), |prompt| + |z.left|, Blanks(|z.right|));
            forall i: nat :: Cell(Over(once, |prompt|, Blanks(l)), i) == Cell(prompt + ("" + ""), i)
  {
  }

  lemma {:induction false} ClearInStep(t: Screen, prompt: string, z: Line)
    requires InStep(t, prompt, z)
    ensures InStep(Feed(t, ClearEcho(z)), prompt, Line("", ""))
  {
    var text, col := prompt + z.Text(), |prompt| + |z.left|;
    var l, r := |z.left| + |z.right|, |z.right|;
    FeedText(t, text, col, Blanks(r));
    var t1, text1 := Feed(t, Blanks(r)), Over(text, col, Blanks(r));
    WipeInStep(t1, text1, |prompt|, l);
    FeedConcat(t, Blanks(r), Backs(l) + Blanks(l) + Backs(l));
    WipedLook(prompt, z);
    SameLook(Feed(t, ClearEcho(z)), Over(text1, |prompt|, Blanks(l)), prompt + ("" + ""), |prompt|);
  }

  lemma WipeInStep(t: Screen, text: string, col: nat, l: nat)
    requires Shows(t, text, col + l) && col + l <= |text|
    ensures Shows(Feed(t, Backs(l) + Blanks(l) + Backs(l)), Over(text, col, Blanks(l)), col)
  {
    FeedBacks(t, text, col + l, l);
    FeedThenBack(Feed(t, Backs(l)), text, col, Blanks(l), l);
    FeedConcat(t, Backs(l), Blanks(l) + Backs(l));
    Assoc(Backs(l), Blanks(l), Backs(l));
  }

  lemma KillEndInStep(t: Screen, prompt: string, z: Line)
    requires InStep(t, prompt, z)
    ensures InStep(Feed(t, Echo(prompt, z, KillEnd)), prompt, Apply(z, KillEnd))
  {
    var text, col, n := prompt + z.Text(), |prompt| + |z.left|, |z.right|;
    FeedThenBack(t, text, col, Blanks(n), n);
    SameLook(Feed(t, Blanks(n) + Backs(n)), Over(text, col, Blanks(n)), prompt + (z.left + ""), col);
  }

  lemma {:induction false} MoveInStep(t: Screen, prompt: string, z: Line, key: Key)
    requires InStep(t, prompt, z) && (key.Home? || key.End? || key.Left? || key.Right?)
    ensures InStep(Feed(t, Echo(prompt, z, key)), prompt, Apply(z, key))
  {
    hide Over;
    var text, col := prompt + z.Text(), |prompt| + |z.left|;
    assert prompt + Apply(z, key).Text() == text;
    match key
    case Home => FeedBacks(t, text, col, |z.left|);
    case End =>
      FeedText(t, text, col, z.right);
      SameLook(Feed(t, z.right), Over(text, col, z.right), text, col + |z.right|);
    case Left => if z.left != "" { FeedBacks(t, text, col, 1); }
    case Right =>
      if z.right != "" {
        FeedText(t, text, col, [z.right[0]]);
        SameLook(Feed(t, [z.right[0]]), Over(text, col, [z.right[0]]), text, col + 1);
      }
  }

  lemma RedrawInStep(t: Screen, prompt: string, z: Line)
    requires AllPrintable(prompt) && AllPrintable(z.left) && AllPrintable(z.right)
    ensures InStep(Feed(t, RedrawEcho(prompt, z)), prompt, z)
  {
    FeedFreshRow(t, prompt + z.Text(), |z.right|);
  }

  lemma RecallInStep(t: Screen, prompt: string, z: Line, entry: string)
    requires InStep(t, prompt, z) && AllPrintable(entry)
    ensures InStep(Feed(t, ClearEcho(z) + entry), prompt, Line(entry, ""))
  {
    ClearInStep(t, prompt, z);
    var t1, text := Feed(t, ClearEcho(z)), prompt + ("" + "");
    FeedConcat(t, ClearEcho(z), entry);
    FeedText(t1, text, |prompt|, entry);
    SameLook(Feed(t1, entry), Over(text, |prompt|, entry), prompt + (entry + ""), |prompt| + |entry|);
  }

  // writing `s` over the last word of the line, of which what it does not cover stays
  lemma ReplaceShows(t: Screen, prompt: string, left: string, s: string)
    requires InStep(t, prompt, Line(left, "")) && AllPrintable(s)
    ensures var stem := Stem(left);
            && AllPrintable(stem)
            && Shows(Feed(t, Backs(|left| - |stem|) + s),
                     prompt + (stem + s) + Uncovered(left, |s|), |prompt| + |stem| + |s|)
  {
    hide Feed, Over, Tail;
    var stem, word := Stem(left), left[|Stem(left)|..];
    PrintablePart(left, |stem|);
    StemInRow(prompt, left);
    WriteBack(t, prompt + stem, word, s);
    Assoc(prompt, stem, s);
  }

  lemma PrintablePart(s: string, n: nat)
    requires n <= |s| && AllPrintable(s)
    ensures AllPrintable(s[..n])
  {
  }

  lemma StemInRow(prompt: string, left: string)
    ensures prompt + (left + "") == prompt + Stem(left) + left[|Stem(left)|..]
  {
    StemSplits(left);
    assert left + "" == left;
    Assoc(prompt, Stem(left), left[|Stem(left)|..]);
  }

  lemma WriteBack(t: Screen, before: string, word: string, s: string)
    requires AllPrintable(s) && Shows(t, before + word, |before| + |word|)
    ensures Shows(Feed(t, Backs(|word|) + s), before + s + Tail(word, |s|), |before| + |s|)
  {
    FeedBacks(t, before + word, |before| + |word|, |word|);
    FeedText(Feed(t, Backs(|word|)), before + word, |before|, s);
    FeedConcat(t, Backs(|word|), s);
    WrittenOver(before, word, s);
  }

  lemma WrittenOver(before: string, word: string, s: string)
    ensures Over(before + word, |before|, s) == before + s + Tail(word, |s|)
  {
    assert (before + word)[..|before|] == before;
    if |s| < |word| {
      assert (before + word)[|before| + |s|..] == word[|s|..];
    }
  }

  lemma StemSplits(left: string)
    ensures left == Stem(left) + left[|Stem(left)|..]
  {
  }

  lemma BellShows(t: Screen, text: string, col: nat, s: string)
    requires Shows(Feed(t, s), text, col)
    ensures Shows(Feed(t, s + [BELL]), text, col)
  {
    FeedConcat(t, s, [BELL]);
    assert Feed(Feed(t, s), [BELL]) == Feed(Feed(t, s), "") by { assert [BELL][1..] == ""; }
  }

  lemma CompleteShows(t: Screen, prompt: string, z: Line, name: string)
    requires InStep(t, prompt, z) && AllPrintable(name) && z.right == ""
    ensures var z' := Apply(z, Complete(name));
            && AllPrintable(z'.left)
            && Shows(Feed(t, Echo(prompt, z, Complete(name))),
                     prompt + z'.Text() + Residue(z, Complete(name)), |prompt| + |z'.left|)
  {
    ReplaceShows(t, prompt, z.left, name + " ");
    Assoc(Backs(|z.left| - |Stem(z.left)|), name, " ");
    Assoc(Stem(z.left), name, " ");
  }

  lemma CompleteSomeShows(t: Screen, prompt: string, z: Line, names: seq<string>)
    requires InStep(t, prompt, z) && names != [] && AllPrintable(CommonPrefix(names)) && z.right == ""
    ensures var z' := Apply(z, CompleteSome(names));
            && AllPrintable(z'.left)
            && Shows(Feed(t, Echo(prompt, z, CompleteSome(names))),
                     prompt + z'.Text() + Residue(z, CompleteSome(names)), |prompt| + |z'.left|)
  {
    var n, common, z' := |z.left| - |Stem(z.left)|, CommonPrefix(names), Apply(z, CompleteSome(names));
    ReplaceShows(t, prompt, z.left, common);
    BellShows(t, prompt + (Stem(z.left) + common) + Residue(z, CompleteSome(names)), |prompt| + |z'.left|,
        Backs(n) + common);
  }

  // keys other than completions
  lemma PlainKeyKeepsStep(t: Screen, prompt: string, z: Line, key: Key)
    requires InStep(t, prompt, z) && Clean(key) && Fits(z, key) && !key.Complete?
        && (key.CompleteSome? ==> key.names == [])
    ensures InStep(Feed(t, Echo(prompt, z, key)), prompt, Apply(z, key))
  {
    match key
    case Char(c) => CharInStep(t, prompt, z, c);
    case Backspace =>
      if z.left == "" {
        BellAlone(t, prompt, z);
      } else {
        DeleteInStep(t, prompt, z);
      }
    case KillWord => DeletesInStep(t, prompt, z, WordBack(z.left));
    case KillLine => ClearInStep(t, prompt, z);
    case KillEnd => KillEndInStep(t, prompt, z);
    case Redraw => RedrawInStep(t, prompt, z);
    case Recall(entry) => RecallInStep(t, prompt, z, entry);
    case CompleteSome(_) => BellAlone(t, prompt, z);
    case Question(help) =>
      FeedConcat(t, "\r\n" + help, RedrawEcho(prompt, z));
      RedrawInStep(Feed(t, "\r\n" + help), prompt, z);
    case _ => MoveInStep(t, prompt, z, key);
  }

  lemma BellAlone(t: Screen, prompt: string, z: Line)
    requires InStep(t, prompt, z)
    ensures InStep(Feed(t, [BELL]), prompt, z)
  {
    BellShows(t, prompt + z.Text(), |prompt| + |z.left|, "");
    assert "" + [BELL] == [BELL];
  }

  /**
   Whatever key is pressed, replaying the bytes sent for it leaves the terminal in step with the edited line if and only
   if a completion covers the word it replaces and what is typed or put in is printable. Printable, but not covering, it
   leaves the terminal showing the edited line and the residue after it.
   */
  lemma KeyKeepsStep(t: Screen, prompt: string, z: Line, key: Key)
    requires InStep(t, prompt, z) && Fits(z, key)
    ensures var t', z' := Feed(t, Echo(prompt, z, key)), Apply(z, key);
            && (InStep(t', prompt, z') <==> Covers(z, key) && Clean(key))
            && (Clean(key) ==> Shows(t', prompt + z'.Text() + Residue(z, key), |prompt| + |z'.left|))
  {
    if Clean(key) {
      CleanKeyShows(t, prompt, z, key);
    } else {
      UncleanIsSeen(z, key);
    }
  }

  lemma UncleanIsSeen(z: Line, key: Key)
    requires !Clean(key)
    ensures !AllPrintable(Apply(z, key).left)
  {
    var left := Apply(z, key).left;
    match key
    case Char(c) => assert left[|z.left|] == c;
    case Recall(_) =>
    case Complete(name) =>
      var k :| 0 <= k < |name| && !Printable(name[k]);
      assert left[|Stem(z.left)| + k] == name[k];
    case CompleteSome(names) =>
      var k :| 0 <= k < |CommonPrefix(names)| && !Printable(CommonPrefix(names)[k]);
      assert left[|Stem(z.left)| + k] == CommonPrefix(names)[k];
  }

  lemma CleanKeyShows(t: Screen, prompt: string, z: Line, key: Key)
    requires InStep(t, prompt, z) && Clean(key) && Fits(z, key)
    ensures var t', z' := Feed(t, Echo(prompt, z, key)), Apply(z, key);
            && Shows(t', prompt + z'.Text() + Residue(z, key), |prompt| + |z'.left|)
            && (InStep(t', prompt, z') <==> Covers(z, key))
  {
    var t', z' := Feed(t, Echo(prompt, z, key)), Apply(z, key);
    var text := prompt + z'.Text();
    if key.Complete? {
      CompleteShows(t, prompt, z, key.name);
    } else if key.CompleteSome? && key.names != [] {
      CompleteSomeShows(t, prompt, z, key.names);
    } else {
      PlainKeyKeepsStep(t, prompt, z, key);
      assert text + "" == text;
    }
    ResidueMeaning(z, key);
    ResidueSpoils(t', text, Residue(z, key), |prompt| + |z'.left|);
  }

  lemma ResidueSpoils(t: Screen, text: string, rest: string, col: nat)
    requires Shows(t, text + rest, col) && (rest != "" ==> rest[0] != ' ')
    ensures Shows(t, text, col) <==> rest == ""
  {
    if rest == "" {
      assert text + rest == text;
    } else {
      assert Cell(text + rest, |text|) == rest[0] && Cell(text, |text|) == ' ';
    }
  }

  // ----- whole editing sessions -----

  function ApplyAll(z: Line, keys: seq<Key>): Line
    decreases keys
  {
    if keys == [] then z else ApplyAll(Apply(z, keys[0]), keys[1..])
  }

  function EchoAll(prompt: string, z: Line, keys: seq<Key>): string
    decreases keys
  {
    if keys == [] then "" else Echo(prompt, z, keys[0]) + EchoAll(prompt, Apply(z, keys[0]), keys[1..])
  }

  predicate AllFit(z: Line, keys: seq<Key>)
    decreases keys
  {
    keys != [] ==> Fits(z, keys[0]) && AllFit(Apply(z, keys[0]), keys[1..])
  }

  predicate AllCover(z: Line, keys: seq<Key>)
    decreases keys
  {
    keys != [] ==> Covers(z, keys[0]) && AllCover(Apply(z, keys[0]), keys[1..])
  }

  predicate AllClean(keys: seq<Key>) {
    forall i :: 0 <= i < |keys| ==> Clean(keys[i])
  }

  ghost predicate InStepAfter(t: Screen, prompt: string, z: Line, keys: seq<Key>) {
    InStep(Feed(t, EchoAll(prompt, z, keys)), prompt, ApplyAll(z, keys))
  }

  lemma AfterOneMore(t: Screen, prompt: string, z: Line, keys: seq<Key>)
    requires keys != []
    ensures InStepAfter(t, prompt, z, keys)
       <==> InStepAfter(Feed(t, Echo(prompt, z, keys[0])), prompt, Apply(z, keys[0]), keys[1..])
  {
    FeedConcat(t, Echo(prompt, z, keys[0]), EchoAll(prompt, Apply(z, keys[0]), keys[1..]));
  }

  lemma {:induction false} SoundKeysKeepStep(t: Screen, prompt: string, z: Line, keys: seq<Key>)
    requires InStep(t, prompt, z) && AllFit(z, keys) && AllCover(z, keys) && AllClean(keys)
    ensures InStepAfter(t, prompt, z, keys)
    decreases keys
  {
    if keys != [] {
      KeyKeepsStep(t, prompt, z, keys[0]);
      SoundKeysKeepStep(Feed(t, Echo(prompt, z, keys[0])), prompt, Apply(z, keys[0]), keys[1..]);
      AfterOneMore(t, prompt, z, keys);
    }
  }

  // the keys up to and with the first that spoils the screen
  lemma {:induction false} StepIsLost(t: Screen, prompt: string, z: Line, keys: seq<Key>) returns (n: nat)
    requires InStep(t, prompt, z) && AllFit(z, keys) && !(AllCover(z, keys) && AllClean(keys))
    ensures n <= |keys| && !InStepAfter(t, prompt, z, keys[..n])
    decreases keys
  {
    KeyKeepsStep(t, prompt, z, keys[0]);
    var t1, z1 := Feed(t, Echo(prompt, z, keys[0])), Apply(z, keys[0]);
    if Covers(z, keys[0]) && Clean(keys[0]) {
      var m := StepIsLost(t1, prompt, z1, keys[1..]);
      n := m + 1;
      assert keys[..n][1..] == keys[1..][..m];
    } else {
      n := 1;
      assert keys[..1][1..] == [];
    }
    AfterOneMore(t, prompt, z, keys[..n]);
  }

  lemma {:induction false} SomeKeysFit(z: Line, keys: seq<Key>, n: nat)
    requires n <= |keys| && AllFit(z, keys) && AllCover(z, keys)
    ensures AllFit(z, keys[..n]) && AllCover(z, keys[..n])
    decreases keys
  {
    if n > 0 {
      assert keys[..n][1..] == keys[1..][..n - 1];
      SomeKeysFit(Apply(z, keys[0]), keys[1..], n - 1);
    }
  }

  /**
   Screen equals buffer: whatever the keys, the terminal shows the prompt and exactly the line, cursor in place, after
   every one of them, if and only if every completion covers the word it replaces and what is put in is printable.
   */
  lemma ScreenEqualsBuffer(t: Screen, prompt: string, z: Line, keys: seq<Key>)
    requires InStep(t, prompt, z) && AllFit(z, keys)
    ensures (forall n :: 0 <= n <= |keys| ==> InStepAfter(t, prompt, z, keys[..n]))
        <==> AllCover(z, keys) && AllClean(keys)
  {
    if AllCover(z, keys) && AllClean(keys) {
      forall n | 0 <= n <= |keys| ensures InStepAfter(t, prompt, z, keys[..n]) {
        SomeKeysFit(z, keys, n);
        SoundKeysKeepStep(t, prompt, z, keys[..n]);
      }
    } else {
      var n := StepIsLost(t, prompt, z, keys);
    }
  }

  // keys that leave completion and help out, question marks among them
  predicate Simple(key: Key, m: nat) {
    !key.Complete? && !key.CompleteSome? && !key.Question? && (key.Recall? ==> |key.entry| <= m)
    && (key.Char? ==> key.c != '?')
  }

  /** A third of the buffer is always enough: keys fit while the line, and any entry recalled, is short. */
  lemma {:induction false} ShortLinesFit(z: Line, keys: seq<Key>, m: nat)
    requires |z.left| + |z.right| <= m && 3 * (m + |keys|) <= 4096
    requires forall i :: 0 <= i < |keys| ==> Simple(keys[i], m)
    ensures AllFit(z, keys) && AllCover(z, keys)
    decreases keys
  {
    if keys != [] {
      var z' := Apply(z, keys[0]);
      assert |z'.left| + |z'.right| <= m + 1;
      ShortLinesFit(z', keys[1..], m + 1);
    }
  }

  /** A new line starts in step: prompt on a fresh row, nothing typed. */
  lemma StartsInStep(t: Screen, prompt: string)
    requires AllPrintable(prompt)
    ensures InStep(Feed(t, RedrawEcho(prompt, Line("", ""))), prompt, Line("", ""))
  {
    RedrawInStep(t, prompt, Line("", ""));
  }

  /** ^W takes exactly the spaces before the cursor and the word before them. */
  lemma KillWordTakesOneWord(z: Line) returns (word: string, n: nat)
    ensures var z' := Apply(z, KillWord);
            && z'.right == z.right && z.left == z'.left + word + Blanks(n)
            && ' ' !in word && (z'.left == "" || z'.left[|z'.left| - 1] == ' ') && (word == "" ==> z'.left == "")
  {
    var left := z.left;
    n := Spaces(left);
    var m := NonSpaces(left[..|left| - n]);
    word := left[|left| - n - m..|left| - n];
    assert forall k :: 0 <= k < |left| - n ==> left[..|left| - n][k] == left[k];
    CutWord(left, n, m);
  }

  // a string that ends in m non-spaces and then n spaces, and no more of either
  lemma CutWord(s: string, n: nat, m: nat)
    requires n + m <= |s| && (forall k :: |s| - n <= k < |s| ==> s[k] == ' ') && (n < |s| ==> s[|s| - n - 1] != ' ')
    requires forall k :: |s| - n - m <= k < |s| - n ==> s[k] != ' '
    requires n + m < |s| ==> s[|s| - n - m - 1] == ' '
    ensures s == s[..|s| - n - m] + s[|s| - n - m..|s| - n] + Blanks(n)
    ensures ' ' !in s[|s| - n - m..|s| - n]
    ensures n + m < |s| ==> m > 0
  {
    var a, b := |s| - n - m, |s| - n;
    ThreeParts(s, a, b);
    forall k | 0 <= k < n ensures s[b..][k] == Blanks(n)[k] {
      assert s[b..][k] == s[b + k];
    }
    assert s[b..] == Blanks(n);
    forall k | 0 <= k < m ensures s[a..b][k] != ' ' {
      assert s[a..b][k] == s[a + k];
    }
  }
}

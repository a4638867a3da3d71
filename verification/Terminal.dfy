/** The remote terminal: the row the cursor is on, as the bytes libcli sends leave it. */
module Terminal {
  import opened Text

  datatype Screen = Screen(row: string, col: nat)

  function Repeat(c: char, n: nat): (s: string)
    ensures |s| == n && forall i :: 0 <= i < n ==> s[i] == c
  {
    seq(n, _ => c)
  }

  predicate Printable(c: char) {
    c >= ' ' && c as int != 127
  }

  predicate AllPrintable(s: string) {
    forall i :: 0 <= i < |s| ==> Printable(s[i])
  }

  // cells beyond the end of the row are blank
  function Cell(row: string, i: nat): char {
    if i < |row| then row[i] else ' '
  }

  function PutCell(row: string, col: nat, c: char): (r: string)
    ensures |r| == if col < |row| then |row| else col + 1
    ensures forall i: nat :: i < |r| ==> r[i] == if i == col then c else Cell(row, i)
  {
    if col < |row| then row[col := c] else row + Repeat(' ', col - |row|) + [c]
  }

  /** One byte: backspace, return, line feed and bell act as usual; anything else overwrites and moves right. */
  function Put(t: Screen, c: char): Screen {
    if c == BACKSPACE then t.(col := if t.col == 0 then 0 else t.col - 1)
    else if c == '\r' then t.(col := 0)
    else if c == '\n' then t.(row := "")
    else if c == BELL then t
    else Screen(PutCell(t.row, t.col, c), t.col + 1)
  }

  function Feed(t: Screen, s: string): Screen
    decreases s
  {
    if s == "" then t else Feed(Put(t, s[0]), s[1..])
  }

  lemma {:induction false} FeedConcat(t: Screen, a: string, b: string)
    ensures Feed(t, a + b) == Feed(Feed(t, a), b)
    decreases a
  {
    if a == "" {
      assert a + b == b;
    } else {
      assert (a + b)[0] == a[0] && (a + b)[1..] == a[1..] + b;
      FeedConcat(Put(t, a[0]), a[1..], b);
    }
  }

  /** The row reads `text` and nothing more, and the cursor is at column `col`. */
  ghost predicate Shows(t: Screen, text: string, col: nat) {
    t.col == col && forall i: nat :: Cell(t.row, i) == Cell(text, i)
  }

  // text with s written over it from col on
  function Over(text: string, col: nat, s: string): (r: string)
    requires col <= |text|
    ensures forall i: nat :: Cell(r, i) == if col <= i < col + |s| then s[i - col] else Cell(text, i)
  {
    text[..col] + s + if col + |s| < |text| then text[col + |s|..] else ""
  }

  lemma {:induction false} FeedText(t: Screen, text: string, col: nat, s: string)
    requires AllPrintable(s) && col <= |text| && Shows(t, text, col)
    ensures Shows(Feed(t, s), Over(text, col, s), col + |s|)
    decreases s
  {
    if s != "" {
      var t1, text1 := Put(t, s[0]), Over(text, col, [s[0]]);
      assert Printable(s[0]) && forall i :: 0 <= i < |s| - 1 ==> s[1..][i] == s[i + 1];
      FeedText(t1, text1, col + 1, s[1..]);
    }
  }

  lemma {:induction false} FeedBacks(t: Screen, text: string, col: nat, n: nat)
    requires n <= col && Shows(t, text, col)
    ensures Shows(Feed(t, Repeat(BACKSPACE, n)), text, col - n)
    decreases n
  {
    if n > 0 {
      assert Repeat(BACKSPACE, n)[1..] == Repeat(BACKSPACE, n - 1);
      FeedBacks(Put(t, BACKSPACE), text, col - 1, n - 1);
    }
  }

  /** Writing over the text and going back: the common shape of libcli's partial redraws. */
  lemma FeedThenBack(t: Screen, text: string, col: nat, s: string, n: nat)
    requires AllPrintable(s) && col <= |text| && n <= col + |s| && Shows(t, text, col)
    ensures Shows(Feed(t, s + Repeat(BACKSPACE, n)), Over(text, col, s), col + |s| - n)
  {
    FeedConcat(t, s, Repeat(BACKSPACE, n));
    FeedText(t, text, col, s);
    FeedBacks(Feed(t, s), Over(text, col, s), col + |s|, n);
  }

  /** After a new line and a redraw, whatever was on the screen before does not matter. */
  lemma FeedFreshRow(t: Screen, text: string, n: nat)
    requires AllPrintable(text) && n <= |text|
    ensures Shows(Feed(t, "\r\n" + text + Repeat(BACKSPACE, n)), text, |text| - n)
  {
    FeedConcat(t, "\r\n", text + Repeat(BACKSPACE, n));
    assert "\r\n" + text + Repeat(BACKSPACE, n) == "\r\n" + (text + Repeat(BACKSPACE, n));
    assert "\r\n"[1..] == "\n" && "\n"[1..] == "";
    var t1 := Feed(t, "\r\n");
    assert t1 == Screen("", 0);
    FeedThenBack(t1, "", 0, text, n);
  }

  // a text and the same text with blanks after it look alike
  lemma SameLook(t: Screen, a: string, b: string, col: nat)
    requires Shows(t, a, col) && forall i: nat :: Cell(a, i) == Cell(b, i)
    ensures Shows(t, b, col)
  {
  }
}

/** C string helpers used throughout libcli: case folding, prefixes and shared prefixes. */
module Text {

  type Byte = b: int | 0 <= b < 256

  const BACKSPACE: char := 8 as char
  const BELL: char := 7 as char

  // tolower in the C locale
  function Lower(c: char): char {
    if 'A' <= c <= 'Z' then (c as int + 32) as char else c
  }

  // isspace in the C locale
  predicate IsSpace(c: char) {
    c == ' ' || 9 <= c as int <= 13
  }

  predicate IsQuote(c: char) {
    c == '"' || c == '\''
  }

  predicate FoldPrefix(w: string, s: string) {
    |w| <= |s| && forall k :: 0 <= k < |w| ==> Lower(w[k]) == Lower(s[k])
  }

  predicate FoldEq(a: string, b: string) {
    |a| == |b| && FoldPrefix(a, b)
  }

  predicate IsLower(s: string) {
    forall k :: 0 <= k < |s| ==> Lower(s[k]) == s[k]
  }

  // strncasecmp(a, b, n) == 0: comparison stops at the shared terminator
  predicate StrnCaseEq(a: string, b: string, n: nat) {
    && ((n <= |a| && n <= |b|) || |a| == |b|)
    && forall k :: 0 <= k < n && k < |a| && k < |b| ==> Lower(a[k]) == Lower(b[k])
  }

  // length of the longest prefix that a and b share
  function Shared(a: string, b: string): (n: nat)
    ensures n <= |a| && n <= |b|
    ensures a[..n] == b[..n]
    ensures n == |a| || n == |b| || a[n] != b[n]
  {
    if a == [] || b == [] || a[0] != b[0] then 0
    else
      var n := 1 + Shared(a[1..], b[1..]);
      assert a[..n] == [a[0]] + a[1..][..n - 1];
      assert b[..n] == [b[0]] + b[1..][..n - 1];
      n
  }

  lemma SharedAtLeast(a: string, b: string, k: nat)
    ensures k <= Shared(a, b) <==> k <= |a| && k <= |b| && a[..k] == b[..k]
  {
    var n := Shared(a, b);
    if k <= n {
      assert a[..k] == a[..n][..k] == b[..n][..k] == b[..k];
    } else if k <= |a| && k <= |b| {
      assert a[..k][n] == a[n] && b[..k][n] == b[n];
    }
  }

  // the same, ignoring case
  function FoldShared(a: string, b: string): (n: nat)
    ensures n <= |a| && n <= |b|
    ensures FoldEq(a[..n], b[..n])
    ensures n == |a| || n == |b| || Lower(a[n]) != Lower(b[n])
  {
    if a == [] || b == [] || Lower(a[0]) != Lower(b[0]) then 0
    else
      var n := 1 + FoldShared(a[1..], b[1..]);
      assert a[..n] == [a[0]] + a[1..][..n - 1];
      assert b[..n] == [b[0]] + b[1..][..n - 1];
      n
  }

  predicate HasPrefix(w: string, s: string) {
    |w| <= |s| && s[..|w|] == w
  }

  // strstr(s, needle) != NULL
  predicate Contains(s: string, needle: string) {
    HasPrefix(needle, s) || (s != "" && Contains(s[1..], needle))
  }

  predicate StandsAt(needle: string, s: string, i: int) {
    0 <= i <= |s| - |needle| && s[i..i + |needle|] == needle
  }

  /** The needle stands somewhere in s. */
  ghost predicate Occurs(needle: string, s: string) {
    exists i :: StandsAt(needle, s, i)
  }

  lemma {:induction false} ContainsMeaning(s: string, needle: string)
    ensures Contains(s, needle) <==> Occurs(needle, s)
  {
    if HasPrefix(needle, s) {
      assert StandsAt(needle, s, 0);
    } else if s != "" {
      ContainsMeaning(s[1..], needle);
      if Occurs(needle, s) {
        var i :| StandsAt(needle, s, i);
        assert s[1..][i - 1..i - 1 + |needle|] == needle && StandsAt(needle, s[1..], i - 1);
      }
      if Occurs(needle, s[1..]) {
        var i :| StandsAt(needle, s[1..], i);
        assert s[i + 1..i + 1 + |needle|] == needle && StandsAt(needle, s, i + 1);
      }
    }
  }

  function Concat(ws: seq<string>): string {
    if ws == [] then "" else ws[0] + Concat(ws[1..])
  }

  lemma ConcatSnoc(ws: seq<string>, w: string)
    ensures Concat(ws + [w]) == Concat(ws) + w
  {
    if ws == [] {
      assert Concat([] + [w]) == w + Concat([w][1..]);
    } else {
      assert (ws + [w])[0] == ws[0] && (ws + [w])[1..] == ws[1..] + [w];
      ConcatSnoc(ws[1..], w);
    }
  }

  // join_words: the words separated by single spaces
  function Join(ws: seq<string>): string {
    if ws == [] then "" else if |ws| == 1 then ws[0] else ws[0] + " " + Join(ws[1..])
  }

  lemma Assoc<T>(a: seq<T>, b: seq<T>, c: seq<T>)
    ensures a + (b + c) == (a + b) + c
  {
  }

  lemma TakeTake<T>(s: seq<T>, m: nat, n: nat)
    requires n <= m <= |s|
    ensures s[..m][..n] == s[..n]
  {
  }

  lemma ThreeParts<T>(s: seq<T>, a: nat, b: nat)
    requires a <= b <= |s|
    ensures s == s[..a] + s[a..b] + s[b..]
  {
  }

  lemma Assoc4<T>(a: seq<T>, b: seq<T>, c: seq<T>, d: seq<T>)
    ensures a + (b + c + d) == a + b + c + d
  {
  }

  lemma Assoc5<T>(a: seq<T>, b: seq<T>, c: seq<T>, d: seq<T>, e: seq<T>)
    ensures a + (b + c + d + e) == a + b + c + d + e
  {
    Assoc4(a, b, c, d);
    Assoc(a, b + c + d, e);
  }
}
